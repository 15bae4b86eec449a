/** The operations of queue.c on the node arena. Each method follows the C
    function statement by statement (a pointer assignment `x->next = y`
    becomes `next := next[x := y]`), keeps `Valid`, and states the new
    contents in terms of the old ones, usually through the pure function of
    module QueueSpec that it refines. A NULL `struct list_head *` is `None`;
    a failing `malloc` is the flag `allocFails`. */
module Queue {
  import opened Bytes
  import opened Wrappers
  import opened QueueSpec
  import opened Arena

  /** An `element_t` handed to the caller by a remove: its node and string. */
  datatype Element = Element(node: nat, value: Str)

  /** A handle is either NULL or a valid ring described by `order`. */
  ghost predicate Inv(q: Option<Arena>, order: seq<nat>) {
    q.Some? ==> Valid(q.value, order)
  }

  /** `q_new`: a fresh sentinel linked to itself, or NULL when `malloc`
      fails. */
  method New(allocFails: bool) returns (q: Option<Arena>, ghost order: seq<nat>)
    ensures q.None? <==> allocFails
    ensures q.Some? ==> Valid(q.value, order) && Contents(q.value, order) == []
  {
    if allocFails {
      return None, [];
    }
    q := Some(Empty());
    order := [];
  }

  /** `q_insert_head`: a new node with a copy of `s` linked right after the
      sentinel. */
  method InsertHead(q: Option<Arena>, ghost order: seq<nat>, s: Str, allocFails: bool)
    returns (ok: bool, q': Option<Arena>, ghost order': seq<nat>)
    requires Inv(q, order)
    ensures ok <==> q.Some? && !allocFails
    ensures !ok ==> q' == q && order' == order
    ensures ok ==> q'.Some? && Valid(q'.value, order') && |order'| == |order| + 1
    ensures ok ==> Contents(q'.value, order') == [s] + Contents(q.value, order)
  {
    if q.None? {
      return false, q, order;
    }
    if allocFails {
      // el_new returned NULL: nothing was linked
      return false, q, order;
    }
    var a := q.value;
    ElNewValid(a, order, s);
    var b := ElNew(a, s);
    var x: nat := |a.val|;
    // queue.c:105 links the new node between the sentinel and the old head
    Link(b, order, 0, x);
    var n: nat := b.next[Head];
    var prev: seq<nat> := b.prev[n := x];
    var next: seq<nat> := b.next[x := n];
    prev := prev[x := Head];
    next := next[Head := x];
    q' := Some(Arena(next, prev, b.val));
    order' := [x] + order;
    assert order[..0] + [x] + order[0..] == order';
    ValuesInsert(b.val, order, 0, x);
    ok := true;
  }

  /** `q_insert_tail`: a new node with a copy of `s` linked right before the
      sentinel. */
  method InsertTail(q: Option<Arena>, ghost order: seq<nat>, s: Str, allocFails: bool)
    returns (ok: bool, q': Option<Arena>, ghost order': seq<nat>)
    requires Inv(q, order)
    ensures ok <==> q.Some? && !allocFails
    ensures !ok ==> q' == q && order' == order
    ensures ok ==> q'.Some? && Valid(q'.value, order') && |order'| == |order| + 1
    ensures ok ==> Contents(q'.value, order') == Contents(q.value, order) + [s]
  {
    if q.None? {
      return false, q, order;
    }
    if allocFails {
      return false, q, order;
    }
    var a := q.value;
    ElNewValid(a, order, s);
    var b := ElNew(a, s);
    var x: nat := |a.val|;
    Ends(b, order);
    // queue.c:128 links the new node between the old tail and the sentinel
    Link(b, order, |order|, x);
    var p: nat := b.prev[Head];
    var prev: seq<nat> := b.prev[Head := x];
    var next: seq<nat> := b.next[x := Head];
    prev := prev[x := p];
    next := next[p := x];
    q' := Some(Arena(next, prev, b.val));
    order' := order + [x];
    assert order[..|order|] + [x] + order[|order|..] == order';
    ValuesInsert(b.val, order, |order|, x);
    ok := true;
  }

  /** `q_remove_head`: unlinks the first node and hands it to the caller,
      copying its string into the caller's buffer when one is given. */
  method RemoveHead(q: Option<Arena>, ghost order: seq<nat>, sp: bool, bufsize: SizeT)
    returns (e: Option<Element>, buf: Option<seq<byte>>, q': Option<Arena>, ghost order': seq<nat>)
    requires Inv(q, order)
    ensures q'.Some? == q.Some? && Inv(q', order')
    ensures e.None? <==> q.None? || order == []
    ensures e.None? ==> q' == q && order' == order && buf.None?
    ensures e.Some? ==> order' == order[1..] && e.value.node == order[0]
    ensures e.Some? ==> e.value.value == Contents(q.value, order)[0]
    ensures e.Some? ==> Contents(q'.value, order') == Contents(q.value, order)[1..]
    ensures e.Some? ==> q'.value.val == q.value.val
    ensures e.Some? ==> buf == if sp then Some(CopyOut(e.value.value, bufsize)) else None
  {
    if q.None? {
      return None, None, q, order;
    }
    var a := q.value;
    Ends(a, order);
    if a.next[Head] == Head {
      return None, None, q, order;
    }
    Walk(a, order, 0);
    Walk(a, order, 1);
    var li: nat := a.next[Head];
    var value := a.val[li];
    if sp {
      buf := Some(CopyOut(value, bufsize));
    } else {
      buf := None;
    }
    Unlink(a, order, 0, 1);
    var n: nat := a.next[li];
    var prev: seq<nat> := a.prev[n := Head];
    var next: seq<nat> := a.next[Head := n];
    q' := Some(Arena(next, prev, a.val));
    order' := order[1..];
    assert order[..0] + order[1..] == order';
    ValuesDrop(a.val, order, 0, 1);
    e := Some(Element(li, value));
  }

  /** `q_remove_tail`: unlinks the last node and hands it to the caller,
      copying its string into the caller's buffer when one is given. */
  method RemoveTail(q: Option<Arena>, ghost order: seq<nat>, sp: bool, bufsize: SizeT)
    returns (e: Option<Element>, buf: Option<seq<byte>>, q': Option<Arena>, ghost order': seq<nat>)
    requires Inv(q, order)
    ensures q'.Some? == q.Some? && Inv(q', order')
    ensures e.None? <==> q.None? || order == []
    ensures e.None? ==> q' == q && order' == order && buf.None?
    ensures e.Some? ==> order' == order[..|order| - 1] && e.value.node == order[|order| - 1]
    ensures e.Some? ==> e.value.value == Contents(q.value, order)[|order| - 1]
    ensures e.Some? ==> Contents(q'.value, order') == Contents(q.value, order)[..|order| - 1]
    ensures e.Some? ==> q'.value.val == q.value.val
    ensures e.Some? ==> buf == if sp then Some(CopyOut(e.value.value, bufsize)) else None
  {
    if q.None? {
      return None, None, q, order;
    }
    var a := q.value;
    Ends(a, order);
    if a.next[Head] == Head {
      return None, None, q, order;
    }
    Walk(a, order, |order| - 1);
    Walk(a, order, |order|);
    var li: nat := a.prev[Head];
    var value := a.val[li];
    if sp {
      buf := Some(CopyOut(value, bufsize));
    } else {
      buf := None;
    }
    Unlink(a, order, |order| - 1, |order|);
    var p: nat := a.prev[li];
    var prev: seq<nat> := a.prev[Head := p];
    var next: seq<nat> := a.next[p := Head];
    q' := Some(Arena(next, prev, a.val));
    order' := order[..|order| - 1];
    assert order[..|order| - 1] + order[|order|..] == order';
    ValuesDrop(a.val, order, |order| - 1, |order|);
    e := Some(Element(li, value));
  }

  /** `q_size`: 0 for NULL, otherwise the number of nodes met walking `next`
      from the sentinel back to it. */
  method Size(q: Option<Arena>, ghost order: seq<nat>) returns (n: nat)
    requires Inv(q, order)
    ensures q.None? ==> n == 0
    ensures q.Some? ==> n == |order| == |Contents(q.value, order)|
  {
    if q.None? {
      return 0;
    }
    var a := q.value;
    RingNodes(a, order);
    n := 0;
    var li: nat := a.next[Head];
    // the walk of queue.c:229-230 from the head to the sentinel
    while li != Head
      invariant n <= |order|
      invariant li == Ring(order)[n + 1]
      decreases |order| - n
    {
      n := n + 1;
      li := a.next[li];
    }
  }

  /** `q_free`: removes and releases the head until only the sentinel is
      left. The strings released, in order, are the queue's contents. */
  method Free(q: Option<Arena>, ghost order: seq<nat>) returns (released: seq<Str>, drained: Option<Arena>)
    requires Inv(q, order)
    ensures q.None? ==> released == [] && drained.None?
    ensures q.Some? ==> released == Contents(q.value, order)
    ensures q.Some? ==> drained.Some? && Valid(drained.value, []) && drained.value.next[Head] == Head
  {
    if q.None? {
      return [], None;
    }
    var a := q.value;
    ghost var c0 := Contents(q.value, order);
    ghost var ord := order;
    ghost var n := 0;
    released := [];
    while a.next[Head] != Head
      invariant n <= |order| && ord == order[n..]
      invariant Valid(a, ord) && a.val == q.value.val
      invariant released == c0[..n]
      decreases |ord|
    {
      Ends(a, ord);
      var e, _, q', ord' := RemoveHead(Some(a), ord, false, 0);
      assert e.value.value == c0[n] by {
        assert Contents(a, ord)[0] == a.val[ord[0]] && ord[0] == order[n];
      }
      released := released + [e.value.value];
      assert c0[..n + 1] == c0[..n] + [c0[n]];
      a := q'.value;
      ord := ord';
      n := n + 1;
    }
    Ends(a, ord);
    drained := Some(a);
  }

  /** The loop of `q_delete_mid`: `size` steps along `next` from the
      sentinel, `prev` trailing one node behind `cur` (it starts on
      `head->prev` and is overwritten before use). */
  method Advance(a: Arena, ghost order: seq<nat>, size: nat) returns (prev: nat, cur: nat)
    requires Valid(a, order) && 0 < size <= |order|
    ensures prev == Ring(order)[size - 1] && cur == Ring(order)[size]
  {
    Walk(a, order, |order|);
    prev, cur := a.prev[Head], Head;
    var i := 0;
    while i < size
      invariant i <= size
      invariant cur == Ring(order)[i]
      invariant i > 0 ==> prev == Ring(order)[i - 1]
    {
      Walk(a, order, i);
      prev := cur;
      cur := a.next[cur];
      i := i + 1;
    }
  }

  /** The body of `q_delete_mid` past its guards: finds the node after
      `n / 2 + 1` steps and unlinks it. */
  method UnlinkMid(a: Arena, ghost order: seq<nat>, n: nat) returns (b: Arena, ghost order': seq<nat>)
    requires Valid(a, order) && n == |order| > 0
    ensures Valid(b, order') && b.val == a.val
    ensures order' == order[..n / 2] + order[n / 2 + 1..]
  {
    var size := n / 2 + 1;
    var prev, cur := Advance(a, order, size);
    ghost var m := n / 2;
    Walk(a, order, m + 1);
    Unlink(a, order, m, m + 1);
    var nx: nat := a.next[cur];
    var next: seq<nat> := a.next[prev := nx];
    var prevs: seq<nat> := a.prev[nx := prev];
    b := Arena(next, prevs, a.val);
    order' := order[..m] + order[m + 1..];
  }

  /** `q_delete_mid`: walks `n / 2 + 1` steps from the sentinel and unlinks
      and releases the node reached, the one at zero-based index
      floor(n / 2). */
  method DeleteMid(q: Option<Arena>, ghost order: seq<nat>)
    returns (ok: bool, q': Option<Arena>, ghost order': seq<nat>)
    requires Inv(q, order)
    ensures ok <==> q.Some? && order != []
    ensures !ok ==> q' == q && order' == order
    ensures ok ==> q'.Some? && Valid(q'.value, order') && q'.value.val == q.value.val
    ensures ok ==> order' == order[..Mid(|order|)] + order[Mid(|order|) + 1..]
    ensures ok ==> Contents(q'.value, order') == DeleteMiddle(Contents(q.value, order))
  {
    if q.None? {
      return false, q, order;
    }
    var a := q.value;
    Ends(a, order);
    if a.next[Head] == Head {
      return false, q, order;
    }
    var n := Size(q, order);
    var b;
    b, order' := UnlinkMid(a, order, n);
    q' := Some(b);
    ValuesDrop(a.val, order, n / 2, n / 2 + 1);
    ok := true;
  }

  /** The inner loop of `q_delete_dup`: moves `curr_li` and `next_li` on
      while `next_li` holds the same string as `curr_li`. `curr_li` ends on
      the last node of the run that starts after ring position `p`. */
  method ExtendRun(a: Arena, ghost order: seq<nat>, ghost p: nat, curr0: nat, next0: nat)
    returns (curr: nat, next: nat, ghost e: nat)
    requires Valid(a, order) && p + 1 < |order|
    requires curr0 == Ring(order)[p + 1] && next0 == Ring(order)[p + 2]
    ensures e == RunEnd(Values(a.val, order), p)
    ensures curr == Ring(order)[e + 1] && next == Ring(order)[e + 2]
    ensures curr < |a.val| && next < |a.val| && a.val[curr] == a.val[curr0]
    ensures next == Head || a.val[curr] != a.val[next]
  {
    ghost var v := Values(a.val, order);
    Walk(a, order, p + 1);
    curr, next, e := curr0, next0, p;
    // the inner-loop test of queue.c:299
    while next != Head
      invariant p <= e < |order|
      invariant curr == Ring(order)[e + 1] && next == Ring(order)[e + 2]
      invariant next == Head <==> e + 1 == |order|
      invariant forall t :: p <= t < e ==> EqualNext(v, t)
      decreases |order| - e
    {
      var same;
      same, curr, next := RunStep(a, order, p, e, curr, next);
      if !same {
        break;
      }
      e := e + 1;
    }
    RunEndOfRun(v, p, e);
    RunBoundary(a, order, p, e, curr0, curr, next);
  }

  /** Where the inner loop of `q_delete_dup` stops: on the last node of the
      run, which holds the run's string, before the sentinel or a node with
      a different string. */
  lemma RunBoundary(a: Arena, order: seq<nat>, p: nat, e: nat, curr0: nat, curr: nat, next: nat)
    requires Valid(a, order) && p < |order| && e == RunEnd(Values(a.val, order), p)
    requires curr0 == Ring(order)[p + 1] && curr == Ring(order)[e + 1] && next == Ring(order)[e + 2]
    ensures curr < |a.val| && next < |a.val| && a.val[curr] == a.val[curr0]
    ensures next == Head || a.val[curr] != a.val[next]
  {
    NodeAt(a, order, p);
    NodeAt(a, order, e);
    Walk(a, order, e + 1);
    if e + 1 < |order| {
      NodeAt(a, order, e + 1);
    }
  }

  /** One test of the inner loop of `q_delete_dup` on the nodes at
      positions `e` and `e + 1` of `order`: when their strings are equal,
      the run from `p` reaches one node further, and `curr_li` and
      `next_li` both move one node on. */
  method RunStep(a: Arena, ghost order: seq<nat>, ghost p: nat, ghost e: nat, curr: nat, next: nat)
    returns (same: bool, curr': nat, next': nat)
    requires Valid(a, order) && p <= e && e + 1 < |order|
    requires curr == Ring(order)[e + 1] && next == Ring(order)[e + 2]
    requires forall t :: p <= t < e ==> EqualNext(Values(a.val, order), t)
    ensures same <==> EqualNext(Values(a.val, order), e)
    ensures same ==> forall t :: p <= t < e + 1 ==> EqualNext(Values(a.val, order), t)
    ensures !same ==> curr' == curr && next' == next
    ensures same ==> curr' == Ring(order)[e + 2] && next' == Ring(order)[e + 3]
    ensures same ==> (next' == Head <==> e + 2 == |order|)
  {
    NodeAt(a, order, e);
    NodeAt(a, order, e + 1);
    var c := Compare(a.val[curr], a.val[next]);
    same := c == 0;
    curr', next' := curr, next;
    if same {
      Walk(a, order, e + 2);
      curr' := a.next[curr];
      next' := a.next[next];
    }
  }

  /** One round of the outer loop of `q_delete_dup`: extends the run after
      `prev_li`, unlinks it when it has more than one node, and moves the
      three pointers on. */
  method DupRound(a: Arena, ghost order: seq<nat>, ghost p: nat, prev: nat, curr0: nat, next0: nat)
    returns (b: Arena, ghost order': seq<nat>, ghost p': nat, prev': nat, curr': nat, next': nat)
    requires Valid(a, order) && p + 1 < |order|
    requires prev == Ring(order)[p] && curr0 == Ring(order)[p + 1] && next0 == Ring(order)[p + 2]
    ensures Valid(b, order') && b.val == a.val && forall x :: x in order' ==> x in order
    ensures |order'| < |order| || (order' == order && p' == p + 1)
    ensures p' <= |order'| && prev' == Ring(order')[p'] && curr' == Ring(order')[p' + 1]
    ensures curr' < |b.next| && next' == b.next[curr']
    ensures DupPass(Values(b.val, order'), p') == DupPass(Values(a.val, order), p)
  {
    ghost var v := Values(a.val, order);
    var curr, next;
    ghost var e: nat;
    curr, next, e := ExtendRun(a, order, p, curr0, next0);
    DupPassStep(v, p, e);
    Walk(a, order, p);
    b, order', p' := a, order, p + 1;
    if a.next[prev] != curr {
      // the unlink of queue.c:310-311
      b := Arena(a.next[prev := next], a.prev[next := prev], a.val);
      DropRun(a, order, p, e, b);
      order' := order[..p] + order[e + 1..];
      p' := if e + 1 == |order| then 0 else p + 1;
    }
    prev' := b.next[prev];
    Walk(b, order', p');
    curr' := b.next[prev'];
    next' := b.next[curr'];
  }

  /** The outer loop of `q_delete_dup` on a queue of at least two nodes. */
  method DupScan(a0: Arena, ghost order: seq<nat>) returns (a: Arena, ghost ord: seq<nat>)
    requires Valid(a0, order) && |order| >= 2
    ensures a.val == a0.val
    ensures Valid(a, ord) && forall x :: x in ord ==> x in order
    ensures Values(a.val, ord) == DupPass(Values(a0.val, order), 0)
  {
    a := a0;
    ghost var v0 := Values(a.val, order);
    ord := order;
    ghost var p: nat := 0;
    Walk(a, ord, 0);
    Walk(a, ord, 1);
    var prev: nat := Head;
    var curr: nat := a.next[Head];
    var next: nat := a.next[a.next[Head]];
    while curr != Head && next != Head
      invariant Valid(a, ord) && a.val == a0.val
      invariant p <= |ord| && forall x :: x in ord ==> x in order
      invariant prev == Ring(ord)[p] && curr == Ring(ord)[p + 1] && curr < |a.next| && next == a.next[curr]
      invariant DupPass(Values(a.val, ord), p) == DupPass(v0, 0)
      decreases |ord|, |ord| - p
    {
      Walk(a, ord, p);
      Walk(a, ord, p + 1);
      a, ord, p, prev, curr, next := DupRound(a, ord, p, prev, curr, next);
    }
    Walk(a, ord, p);
    if p < |ord| {
      Walk(a, ord, p + 1);
    }
    DupPassStop(Values(a.val, ord), p);
  }

  /** `q_delete_dup`: scans the ring with `prev_li`, `curr_li`, `next_li`,
      extends `curr_li` over the run of strings equal to it and unlinks the
      run when it has more than one node. The outer test also stops when
      `curr_li` is the sentinel, which queue.c omits (see `DupPass`). The
      ghost `p` is the ring position of `prev_li`. */
  method DeleteDup(q: Option<Arena>, ghost order: seq<nat>)
    returns (ok: bool, q': Option<Arena>, ghost order': seq<nat>)
    requires Inv(q, order)
    ensures ok <==> q.Some? && order != []
    ensures q'.Some? == q.Some? && Inv(q', order')
    ensures q.None? || |order| < 2 ==> q' == q && order' == order
    ensures q.Some? ==> q'.value.val == q.value.val && forall x :: x in order' ==> x in order
    ensures q.Some? && |order| >= 2 ==> Contents(q'.value, order') == QueueSpec.DeleteDup(Contents(q.value, order))
  {
    if q.None? {
      return false, q, order;
    }
    var a := q.value;
    Ends(a, order);
    if a.next[Head] == Head {
      return false, q, order;
    }
    var n := Size(q, order);
    if n < 2 {
      return true, q, order;
    }
    var b;
    b, order' := DupScan(a, order);
    q' := Some(b);
    ok := true;
  }

  /** One exchange of `q_swap`: `fir` and `sec` (ring positions `i + 1`
      and `i + 2`, after `pre`) change places. */
  method SwapPair(a: Arena, ghost order: seq<nat>, ghost i: nat, pre: nat, fir: nat, sec: nat)
    returns (b: Arena, ghost order': seq<nat>)
    requires Valid(a, order) && i + 2 <= |order|
    requires pre == Ring(order)[i] && fir == Ring(order)[i + 1] && sec == Ring(order)[i + 2]
    ensures order' == order[..i] + [order[i + 1], order[i]] + order[i + 2..]
    ensures Valid(b, order') && b.val == a.val
    ensures fir == Ring(order')[i + 2] && b.next[fir] < |b.next| && b.next[fir] == Ring(order')[i + 3]
  {
    SwapAdjacent(a, order, i);
    var nxt: nat := a.next[sec];
    var next: seq<nat> := a.next;
    var prev: seq<nat> := a.prev;
    // the six pointer writes of queue.c:345-352, in their order
    prev := prev[nxt := fir];
    next := next[pre := sec];
    prev := prev[fir := sec];
    next := next[fir := nxt];
    prev := prev[sec := pre];
    next := next[sec := fir];
    b := Arena(next, prev, a.val);
    order' := order[..i] + [order[i + 1], order[i]] + order[i + 2..];
    assert Ring(order')[i + 2] == order[i] == fir;
    Walk(b, order', i + 2);
  }

  /** The loop of `q_swap`, from the sentinel to the first position with
      fewer than two nodes after it. */
  method SwapLoop(a0: Arena, ghost order: seq<nat>) returns (b: Arena, ghost order': seq<nat>)
    requires Valid(a0, order)
    ensures Valid(b, order') && b.val == a0.val && order' == SwapPairs<nat>(order)
  {
    Walk(a0, order, 0);
    var pre: nat := Head;
    var fir: nat := a0.next[Head];
    var sec: nat := a0.next[a0.next[Head]];
    var a := a0;
    ghost var ord: seq<nat> := order;
    ghost var n: nat, k: nat := 0, 0;
    while fir != Head && sec != Head
      invariant Valid(a, ord) && a.val == a0.val
      invariant n == 2 * k && n <= |order| == |ord|
      invariant ord == SwapPairs<nat>(order[..n]) + order[n..]
      invariant pre == Ring(ord)[n] && fir == a.next[pre] && fir < |a.next| && sec == a.next[fir]
      decreases |order| - n
    {
      Walk(a, ord, n);
      Walk(a, ord, n + 1);
      SwapStep<nat>(order, ord, n, k);
      a, ord := SwapPair(a, ord, n, pre, fir, sec);
      pre := fir;
      fir := a.next[pre];
      sec := a.next[a.next[pre]];
      n, k := n + 2, k + 1;
    }
    Walk(a, ord, n);
    if fir != Head {
      Walk(a, ord, n + 1);
    }
    SwapDone<nat>(order, ord, n, k);
    b, order' := a, ord;
  }

  /** `q_swap`: relinks each complete pair of nodes the other way round,
      leaving an odd last node in place. */
  method Swap(q: Option<Arena>, ghost order: seq<nat>) returns (q': Option<Arena>, ghost order': seq<nat>)
    requires Inv(q, order)
    ensures q'.Some? == q.Some? && Inv(q', order')
    ensures q.None? ==> q' == q
    ensures q.Some? ==> q'.value.val == q.value.val && order' == SwapPairs<nat>(order)
    ensures q.Some? ==> Contents(q'.value, order') == SwapPairs(Contents(q.value, order))
  {
    if q.None? {
      return q, order;
    }
    var a := q.value;
    Ends(a, order);
    if a.next[Head] == Head {
      ValuesSwapPairs(a.val, order);
      return q, order;
    }
    var b;
    b, order' := SwapLoop(a, order);
    q' := Some(b);
    ValuesSwapPairs(a.val, order);
  }

  /** `q_reverse`: exchanges `next` and `prev` on every node of the ring,
      the sentinel included (a do-while loop that starts at the sentinel). */
  method Reverse(q: Option<Arena>, ghost order: seq<nat>) returns (q': Option<Arena>, ghost order': seq<nat>)
    requires Inv(q, order)
    ensures q'.Some? == q.Some? && Inv(q', order')
    ensures q.None? ==> q' == q
    ensures q.Some? ==> q'.value.val == q.value.val && order' == Rev(order)
    ensures q.Some? ==> Contents(q'.value, order') == Rev(Contents(q.value, order))
  {
    if q.None? {
      return q, order;
    }
    var a := q.value;
    RingNodes(a, order);
    ghost var r := Ring(order);
    ghost var m := |order| + 1;
    var next: seq<nat> := a.next;
    var prev: seq<nat> := a.prev;
    var cur: nat := Head;
    var pv: nat := a.prev[Head];
    ghost var t := 0;
    var first := true;
    while first || cur != Head
      invariant t <= m
      invariant first <==> t == 0
      invariant cur == r[t]
      invariant t == 0 ==> pv == a.prev[Head]
      invariant t > 0 ==> pv == r[t - 1]
      invariant |next| == |a.next| && |prev| == |a.prev|
      invariant forall j :: 0 <= j < t ==> next[r[j]] == a.prev[r[j]] && prev[r[j]] == a.next[r[j]]
      invariant forall j :: t <= j < m ==> next[r[j]] == a.next[r[j]] && prev[r[j]] == a.prev[r[j]]
      decreases m - t
    {
      first := false;
      var tmp: nat := next[cur];
      next := next[cur := pv];
      prev := prev[cur := tmp];
      pv := cur;
      cur := tmp;
      t := t + 1;
    }
    var b := Arena(next, prev, a.val);
    Reversed(a, order, b);
    q' := Some(b);
    order' := Rev(order);
    ValuesRev(a.val, order);
  }

  /** One round of the inner loop of `q_sort`: compares `cur_li`'s string
      (index `j` of `rem`) with the minimum so far and steps `cur_li` on. */
  method ScanStep(a: Arena, ghost order: seq<nat>, ghost rem: seq<Str>, ghost k: nat, ghost j: nat, ghost m: nat,
                  cur: nat, min: nat, minValue: Str)
    returns (cur': nat, min': nat, minValue': Str, ghost m': nat)
    requires Valid(a, order) && k + j < |order| && rem == Values(a.val, order)[k..]
    requires m <= j && (j == 0 ==> m == 0) && (j > 0 ==> FirstMin(rem, j, m))
    requires cur == Ring(order)[k + 1 + j] && min == Ring(order)[k + 1 + m] && minValue == rem[m]
    ensures m' <= j && FirstMin(rem, j + 1, m')
    ensures cur' == Ring(order)[k + 2 + j] && min' == Ring(order)[k + 1 + m'] && minValue' == rem[m']
  {
    NodeAt(a, order, k + j);
    FirstMinStep(rem, j, m);
    min', minValue', m' := min, minValue, m;
    var c := Compare(a.val[cur], minValue);
    if c < 0 {
      min' := cur;
      minValue' := a.val[min'];
      m' := j;
    }
    cur' := a.next[cur];
  }

  /** The inner loop of `q_sort`: walks the `i` nodes from `cur_li` to the
      sentinel and leaves `min_li` on the first node whose string no later
      string is strictly below, the leftmost minimum. */
  method FindMin(a: Arena, ghost order: seq<nat>, ghost k: nat, i: nat, cur0: nat)
    returns (min: nat, cur: nat, ghost m: nat)
    requires Valid(a, order) && 0 < i && k + i == |order|
    requires cur0 == Ring(order)[k + 1]
    ensures FirstMin(Values(a.val, order)[k..], i, m)
    ensures min == Ring(order)[k + 1 + m] && cur == Head
  {
    ghost var rem := Values(a.val, order)[k..];
    Walk(a, order, k);
    min, cur, m := cur0, cur0, 0;
    var minValue := a.val[cur0];
    var j := 0;
    while j < i
      invariant j <= i && m < i && m <= j
      invariant cur == Ring(order)[k + 1 + j] && min == Ring(order)[k + 1 + m] && minValue == rem[m]
      invariant j > 0 ==> FirstMin(rem, j, m)
      invariant j == 0 ==> m == 0
    {
      cur, min, minValue, m := ScanStep(a, order, rem, k, j, m, cur, min, minValue);
      j := j + 1;
    }
  }

  /** The splice of `q_sort`: unlinks `min_li` (ring position `k + m + 1`)
      and links it in again right after `pre_li` (ring position `k`). */
  method Splice(a: Arena, ghost order: seq<nat>, ghost k: nat, ghost m: nat, pre: nat, min: nat)
    returns (b: Arena)
    requires Valid(a, order) && 0 < m && k + m < |order|
    requires pre == Ring(order)[k] && min == Ring(order)[k + m + 1]
    ensures Valid(b, MovedToFront(order, k, m)) && b.val == a.val
    ensures pre == Ring(MovedToFront(order, k, m))[k] && min == Ring(MovedToFront(order, k, m))[k + 1]
  {
    MoveToFrontLinks(a, order, k, m);
    ghost var r := Ring(order);
    var next: seq<nat> := a.next;
    var prev: seq<nat> := a.prev;
    // the unlink of queue.c:421-422
    next := next[prev[min] := next[min]];
    prev := prev[next[min] := prev[min]];
    assert next == a.next[r[k + m] := r[k + m + 2]] && prev == a.prev[r[k + m + 2] := r[k + m]];
    // the link of queue.c:425-428, after `pre_li`
    prev := prev[next[pre] := min];
    next := next[min := next[pre]];
    next := next[pre := min];
    prev := prev[min := pre];
    b := Arena(next, prev, a.val);
    MoveToFront(a, order, k, m, b);
  }

  /** The branch of a `q_sort` round after the scan: splices `min_li`, the
      first minimum at ring position `k + m + 1`, behind the `k` placed
      nodes unless it already follows them. */
  method PlaceMinimum(a: Arena, ghost order: seq<nat>, ghost k: nat, ghost m: nat, pre: nat, min: nat)
    returns (b: Arena, ghost order': seq<nat>)
    requires Valid(a, order) && k + m < |order|
    requires pre == Ring(order)[k] && min == Ring(order)[k + 1 + m]
    requires Placed(Values(a.val, order), k)
    requires FirstMin(Values(a.val, order)[k..], |order| - k, m)
    ensures Valid(b, order') && b.val == a.val
    ensures |order'| == |order| && multiset(order') == multiset(order)
    ensures pre == Ring(order')[k] && min == Ring(order')[k + 1]
    ensures multiset(Values(b.val, order')) == multiset(Values(a.val, order))
    ensures Placed(Values(b.val, order'), k + 1)
  {
    ghost var v := Values(a.val, order);
    Walk(a, order, k);
    b, order' := a, order;
    if min != a.next[pre] {
      MovedToFrontPlaced(a.val, order, k, m);
      b := Splice(a, order, k, m, pre, min);
      order' := MovedToFront(order, k, m);
    } else {
      PlaceMinInPlace(v, k);
    }
  }

  /** One round of the outer loop of `q_sort`: with `k` nodes placed, puts
      the first minimum of the rest right after them. */
  method SortRound(a: Arena, ghost order: seq<nat>, ghost k: nat, i: nat, pre: nat, cur: nat)
    returns (b: Arena, ghost order': seq<nat>, pre': nat, cur': nat)
    requires Valid(a, order) && 0 < i && k + i == |order|
    requires pre == Ring(order)[k] && cur == Ring(order)[k + 1]
    requires Placed(Values(a.val, order), k)
    ensures Valid(b, order') && b.val == a.val
    ensures |order'| == |order| && multiset(order') == multiset(order)
    ensures pre' == Ring(order')[k + 1] && cur' == Ring(order')[k + 2]
    ensures multiset(Values(b.val, order')) == multiset(Values(a.val, order))
    ensures Placed(Values(b.val, order'), k + 1)
  {
    var min, end;
    ghost var m;
    min, end, m := FindMin(a, order, k, i, cur);
    b, order' := PlaceMinimum(a, order, k, m, pre, min);
    Walk(b, order', k);
    Walk(b, order', k + 1);
    cur' := b.next[min];
    pre' := b.next[pre];
  }

  /** The outer loop of `q_sort` on a queue of `size` nodes: round `k`
      places the first minimum of the nodes after the first `k`. */
  method SortLoop(a0: Arena, ghost order: seq<nat>, size: nat) returns (a: Arena, ghost ord: seq<nat>)
    requires Valid(a0, order) && 0 < size == |order|
    ensures Valid(a, ord) && a.val == a0.val && multiset(ord) == multiset(order)
    ensures Values(a.val, ord) == SelSort(Values(a0.val, order))
  {
    a := a0;
    Walk(a, order, 0);
    var pre: nat := Head;
    var cur: nat := a.next[Head];
    var min: nat := a.next[Head];
    ghost var v0 := Values(a.val, order);
    ord := order;
    ghost var v := v0;
    var i := size;
    ghost var k := 0;
    while i > 0
      invariant i <= size == |ord| && k == size - i
      invariant Valid(a, ord) && a.val == a0.val && v == Values(a.val, ord)
      invariant multiset(ord) == multiset(order)
      invariant pre == Ring(ord)[k] && cur == Ring(ord)[k + 1] && min == cur
      invariant multiset(v) == multiset(v0) && Placed(v, k)
    {
      a, ord, pre, cur := SortRound(a, ord, k, i, pre, cur);
      min := cur;
      v := Values(a.val, ord);
      i := i - 1;
      k := k + 1;
    }
    assert v[..size] == v;
    SortedIsSelSort(v, v0);
  }

  /** `q_sort`: for each position from the head on, finds the leftmost
      minimum of the nodes not yet placed and, unless it is already there,
      splices it right after the last placed node. */
  method Sort(q: Option<Arena>, ghost order: seq<nat>) returns (q': Option<Arena>, ghost order': seq<nat>)
    requires Inv(q, order)
    ensures q'.Some? == q.Some? && Inv(q', order')
    ensures q.None? ==> q' == q
    ensures q.Some? ==> q'.value.val == q.value.val && multiset(order') == multiset(order)
    ensures q.Some? ==> Contents(q'.value, order') == SelSort(Contents(q.value, order))
  {
    if q.None? {
      return q, order;
    }
    var a := q.value;
    Ends(a, order);
    if a.next[Head] == Head {
      return q, order;
    }
    var size := Size(q, order);
    a, order' := SortLoop(a, order, size);
    q' := Some(a);
  }
}
