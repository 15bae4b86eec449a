/** The memory behind a queue: every node ever allocated has an id, the
    arrays `next`, `prev` and `val` give its links and its string, and the
    queue handle itself is the sentinel node, id 0, whose `val` is unused.
    A ghost `order` lists the linked nodes from head to tail; `Valid` says
    the links form exactly the circular doubly linked list that `order`
    describes. Nodes outside `order` are unlinked (removed or released). */
module Arena {
  import opened Bytes
  import opened QueueSpec

  /** Id of the sentinel node, the `struct list_head` the handle points to. */
  const Head: nat := 0

  datatype Arena = Arena(next: seq<nat>, prev: seq<nat>, val: seq<Str>)

  /** The nodes met following `next` from the sentinel round to it again. */
  function Ring(order: seq<nat>): seq<nat> {
    [Head] + order + [Head]
  }

  /** Every id in `order` names an allocated node. */
  ghost predicate InArena(a: Arena, order: seq<nat>) {
    forall k :: 0 <= k < |order| ==> order[k] < |a.val|
  }

  /** The sentinel and the nodes of `order` are pairwise distinct. */
  ghost predicate RingDistinct(order: seq<nat>) {
    forall x, y :: 0 <= x < y < |order| + 1 ==> Ring(order)[x] != Ring(order)[y]
  }

  /** `next` walks the ring forwards and `prev` is its exact inverse. */
  ghost predicate Valid(a: Arena, order: seq<nat>) {
    && |a.next| == |a.prev| == |a.val| > 0
    && InArena(a, order)
    && RingDistinct(order)
    && (forall k :: 0 <= k < |order| + 1 ==> a.next[Ring(order)[k]] == Ring(order)[k + 1])
    && (forall k :: 0 <= k < |order| + 1 ==> a.prev[Ring(order)[k + 1]] == Ring(order)[k])
  }

  /** The strings held by the nodes of `order`, in that order. */
  function Values(val: seq<Str>, order: seq<nat>): (r: seq<Str>)
    requires forall k :: 0 <= k < |order| ==> order[k] < |val|
    ensures |r| == |order|
    ensures forall k :: 0 <= k < |order| ==> r[k] == val[order[k]]
  {
    seq(|order|, k requires 0 <= k < |order| => val[order[k]])
  }

  /** The queue contents an arena and its order stand for. */
  ghost function Contents(a: Arena, order: seq<nat>): seq<Str>
    requires InArena(a, order)
  {
    Values(a.val, order)
  }

  /** A queue with only its sentinel, as `q_new` builds it with
      `INIT_LIST_HEAD`: the sentinel linked to itself both ways. */
  function Empty(): (a: Arena)
    ensures Valid(a, [])
    ensures Contents(a, []) == []
  {
    Arena([Head], [Head], [[]])
  }

  /** Appends a node holding `s`, as `el_new` allocates an `element_t` and a
      buffer with a copy of the string. The new node is not linked yet. */
  function ElNew(a: Arena, s: Str): (b: Arena)
    requires |a.next| == |a.prev| == |a.val|
    ensures |b.next| == |b.prev| == |b.val| == |a.val| + 1
    ensures b.val[|a.val|] == s
    ensures b.next[..|a.next|] == a.next && b.prev[..|a.prev|] == a.prev && b.val[..|a.val|] == a.val
  {
    Arena(a.next + [Head], a.prev + [Head], a.val + [s])
  }

  /** Allocating a node disturbs neither the links nor the contents. */
  lemma ElNewValid(a: Arena, order: seq<nat>, s: Str)
    requires Valid(a, order)
    ensures Valid(ElNew(a, s), order)
    ensures Contents(ElNew(a, s), order) == Contents(a, order)
    ensures |a.val| !in order
  {
    var b := ElNew(a, s);
    assert forall k :: 0 <= k < |order| + 2 ==> Ring(order)[k] < |a.next|;
    assert forall k :: 0 <= k < |order| ==> b.val[order[k]] == a.val[order[k]];
  }

  /** A ring position holds the sentinel exactly at both ends. */
  lemma RingFacts(order: seq<nat>)
    requires RingDistinct(order)
    ensures |Ring(order)| == |order| + 2
    ensures Ring(order)[0] == Head && Ring(order)[|order| + 1] == Head
    ensures forall k :: 1 <= k <= |order| ==> Ring(order)[k] == order[k - 1] != Head
    ensures Head !in order
  {
    forall k | 1 <= k <= |order| ensures Ring(order)[k] == order[k - 1] != Head {
      assert Ring(order)[0] != Ring(order)[k];
    }
    forall k | 0 <= k < |order| ensures order[k] != Head {
      assert Ring(order)[k + 1] == order[k];
    }
  }

  /** Every node on the ring is allocated, and only the ends are the
      sentinel. */
  lemma RingNodes(a: Arena, order: seq<nat>)
    requires Valid(a, order)
    ensures |Ring(order)| == |order| + 2
    ensures Ring(order)[0] == Head && Ring(order)[|order| + 1] == Head
    ensures forall k :: 1 <= k <= |order| ==> Ring(order)[k] == order[k - 1] != Head
    ensures forall k :: 0 <= k < |order| + 2 ==> Ring(order)[k] < |a.val|
    ensures Head !in order
  {
    RingFacts(order);
  }

  /** One step along the ring from position `k`. */
  lemma Walk(a: Arena, order: seq<nat>, k: nat)
    requires Valid(a, order) && k <= |order|
    ensures Ring(order)[k] < |a.val| && Ring(order)[k + 1] < |a.val|
    ensures a.next[Ring(order)[k]] == Ring(order)[k + 1]
    ensures Ring(order)[k + 1] == Head <==> k == |order|
    ensures k < |order| ==> Ring(order)[k + 1] == order[k]
  {
    RingNodes(a, order);
  }

  /** The node at position `t` of `order`: its string and its successor. */
  lemma NodeAt(a: Arena, order: seq<nat>, t: nat)
    requires Valid(a, order) && t < |order|
    ensures Ring(order)[t + 1] < |a.val| == |a.next|
    ensures a.val[Ring(order)[t + 1]] == Values(a.val, order)[t]
    ensures a.next[Ring(order)[t + 1]] == Ring(order)[t + 2]
  {
    Walk(a, order, t + 1);
  }

  /** The nodes of a block are not among the nodes left around it. */
  lemma BlockNotElsewhere(order: seq<nat>, i: nat, j: nat, t: nat)
    requires RingDistinct(order) && i <= t < j <= |order|
    ensures order[t] !in order[..i] + order[j..]
  {
    RingFacts(order);
    var rest := order[..i] + order[j..];
    forall u | 0 <= u < |rest| ensures rest[u] != order[t] {
      var u' := if u < i then u else u + (j - i);
      assert rest[u] == order[u'] == Ring(order)[u' + 1];
      assert order[t] == Ring(order)[t + 1];
    }
  }

  /** On a valid ring, `next` of the sentinel is the head and `prev` of the
      sentinel is the tail; the list is empty exactly when the sentinel
      points to itself (`list_empty`). */
  lemma Ends(a: Arena, order: seq<nat>)
    requires Valid(a, order)
    ensures a.next[Head] == (if order == [] then Head else order[0])
    ensures a.prev[Head] == (if order == [] then Head else order[|order| - 1])
    ensures a.next[Head] == Head <==> order == []
  {
    RingFacts(order);
    assert a.next[Ring(order)[0]] == Ring(order)[1];
    assert a.prev[Ring(order)[|order| + 1]] == Ring(order)[|order|];
  }

  /** Ring positions after unlinking the block `order[i..j]`: those up to
      `i` stay, the later ones move down by `j - i`. */
  lemma UnlinkRing(order: seq<nat>, i: nat, j: nat)
    requires i < j <= |order|
    ensures var r := Ring(order); var r' := Ring(order[..i] + order[j..]);
      && |r'| == |r| - (j - i)
      && (forall k :: 0 <= k <= i ==> r'[k] == r[k])
      && (forall k :: i < k < |r'| ==> r'[k] == r[k + (j - i)])
  {
  }

  lemma UnlinkDistinct(order: seq<nat>, i: nat, j: nat)
    requires RingDistinct(order) && i < j <= |order|
    ensures RingDistinct(order[..i] + order[j..])
  {
    var r := Ring(order);
    var r' := Ring(order[..i] + order[j..]);
    var d := j - i;
    UnlinkRing(order, i, j);
    forall x, y | 0 <= x < y < |r'| - 1 ensures r'[x] != r'[y] {
      var x' := if x <= i then x else x + d;
      var y' := if y <= i then y else y + d;
      assert r'[x] == r[x'] && r'[y] == r[y'];
    }
  }

  lemma UnlinkNext(a: Arena, order: seq<nat>, i: nat, j: nat)
    requires Valid(a, order) && i < j <= |order|
    ensures var r := Ring(order); var r' := Ring(order[..i] + order[j..]);
      var next' := a.next[r[i] := r[j + 1]];
      forall k :: 0 <= k < |r'| - 1 ==> next'[r'[k]] == r'[k + 1]
  {
    RingFacts(order);
    var r := Ring(order);
    var r' := Ring(order[..i] + order[j..]);
    var d := j - i;
    var p := r[i];
    var next' := a.next[p := r[j + 1]];
    UnlinkRing(order, i, j);
    forall k | 0 <= k < |r'| - 1 ensures next'[r'[k]] == r'[k + 1] {
      if k < i {
        assert r'[k] == r[k] != p;
      } else if k > i {
        assert r'[k] == r[k + d] != p;
        assert r'[k + 1] == r[k + d + 1];
      }
    }
  }

  lemma UnlinkPrev(a: Arena, order: seq<nat>, i: nat, j: nat)
    requires Valid(a, order) && i < j <= |order|
    ensures var r := Ring(order); var r' := Ring(order[..i] + order[j..]);
      var prev' := a.prev[r[j + 1] := r[i]];
      forall k :: 0 <= k < |r'| - 1 ==> prev'[r'[k + 1]] == r'[k]
  {
    RingFacts(order);
    var r := Ring(order);
    var r' := Ring(order[..i] + order[j..]);
    var d := j - i;
    var n := r[j + 1];
    var prev' := a.prev[n := r[i]];
    UnlinkRing(order, i, j);
    forall k | 0 <= k < |r'| - 1 ensures prev'[r'[k + 1]] == r'[k] {
      if k < i {
        assert r'[k + 1] == r[k + 1] != n;
      } else if k > i {
        assert r'[k + 1] == r[k + 1 + d];
        assert r[k + 1 + d] != n;
      }
    }
  }

  /** Unlinking the block `order[i..j]`: the node before it and the node
      after it are pointed at each other, as `q_remove_head`,
      `q_remove_tail`, `q_delete_mid` and `q_delete_dup` do. */
  lemma Unlink(a: Arena, order: seq<nat>, i: nat, j: nat)
    requires Valid(a, order) && i < j <= |order|
    ensures a.next[Ring(order)[j]] == Ring(order)[j + 1]
    ensures a.prev[Ring(order)[i + 1]] == Ring(order)[i]
    ensures var p := Ring(order)[i]; var n := Ring(order)[j + 1];
      Valid(Arena(a.next[p := n], a.prev[n := p], a.val), order[..i] + order[j..])
  {
    var o' := order[..i] + order[j..];
    assert InArena(a, o');
    UnlinkDistinct(order, i, j);
    UnlinkNext(a, order, i, j);
    UnlinkPrev(a, order, i, j);
    RingFacts(order);
  }

  /** Ring positions after linking `x` in after position `i`. */
  lemma LinkRing(order: seq<nat>, i: nat, x: nat)
    requires i <= |order|
    ensures var r := Ring(order); var r' := Ring(order[..i] + [x] + order[i..]);
      && |r'| == |r| + 1 && r'[i + 1] == x
      && (forall k :: 0 <= k <= i ==> r'[k] == r[k])
      && (forall k :: i + 1 < k < |r'| ==> r'[k] == r[k - 1])
  {
  }

  lemma LinkDistinct(order: seq<nat>, i: nat, x: nat)
    requires RingDistinct(order) && i <= |order| && x != Head && x !in order
    ensures RingDistinct(order[..i] + [x] + order[i..])
  {
    var r := Ring(order);
    var r' := Ring(order[..i] + [x] + order[i..]);
    LinkRing(order, i, x);
    RingFacts(order);
    forall y, z | 0 <= y < z < |r'| - 1 ensures r'[y] != r'[z] {
      var y' := if y <= i then y else y - 1;
      var z' := if z <= i then z else z - 1;
      if y != i + 1 && z != i + 1 {
        assert r'[y] == r[y'] && r'[z] == r[z'];
      } else if y == i + 1 {
        assert r'[z] == r[z'];
        if 1 <= z' <= |order| {
          assert r[z'] == order[z' - 1];
        }
      } else {
        assert r'[y] == r[y'];
        if 1 <= y' <= |order| {
          assert r[y'] == order[y' - 1];
        }
      }
    }
  }

  lemma LinkNext(a: Arena, order: seq<nat>, i: nat, x: nat)
    requires Valid(a, order) && i <= |order| && Head < x < |a.val| && x !in order
    ensures var r := Ring(order); var r' := Ring(order[..i] + [x] + order[i..]);
      var next' := a.next[x := r[i + 1]][r[i] := x];
      forall k :: 0 <= k < |r'| - 1 ==> next'[r'[k]] == r'[k + 1]
  {
    RingFacts(order);
    var r := Ring(order);
    var r' := Ring(order[..i] + [x] + order[i..]);
    var p := r[i];
    var next' := a.next[x := r[i + 1]][p := x];
    LinkRing(order, i, x);
    forall k | 0 <= k < |r'| - 1 ensures next'[r'[k]] == r'[k + 1] {
      if k < i {
        assert r'[k] == r[k] != p;
        if 1 <= k {
          assert r[k] == order[k - 1];
        }
      } else if k > i + 1 {
        assert r'[k] == r[k - 1] != p;
        assert r'[k + 1] == r[k];
        if k - 1 <= |order| {
          assert r[k - 1] == order[k - 2];
        }
      }
    }
  }

  lemma LinkPrev(a: Arena, order: seq<nat>, i: nat, x: nat)
    requires Valid(a, order) && i <= |order| && Head < x < |a.val| && x !in order
    ensures var r := Ring(order); var r' := Ring(order[..i] + [x] + order[i..]);
      var prev' := a.prev[r[i + 1] := x][x := r[i]];
      forall k :: 0 <= k < |r'| - 1 ==> prev'[r'[k + 1]] == r'[k]
  {
    RingFacts(order);
    var r := Ring(order);
    var r' := Ring(order[..i] + [x] + order[i..]);
    var n := r[i + 1];
    var prev' := a.prev[n := x][x := r[i]];
    LinkRing(order, i, x);
    forall k | 0 <= k < |r'| - 1 ensures prev'[r'[k + 1]] == r'[k] {
      if k < i {
        assert r'[k + 1] == r[k + 1] != n;
        assert r[k + 1] != x by {
          if k + 1 <= |order| {
            assert r[k + 1] == order[k];
          }
        }
      } else if k > i + 1 {
        assert r'[k + 1] == r[k] != n;
        assert r'[k] == r[k - 1];
        assert r[k] != x by {
          if k <= |order| {
            assert r[k] == order[k - 1];
          }
        }
      }
    }
  }

  /** Linking the unlinked node `x` between ring positions `i` and `i + 1`,
      as inserting at the head or the tail does: the node after the gap
      points back to `x`, `x` points forward to it and back to the node
      before the gap, and that node points forward to `x`. */
  lemma Link(a: Arena, order: seq<nat>, i: nat, x: nat)
    requires Valid(a, order) && i <= |order|
    requires Head < x < |a.val| && x !in order
    ensures a.next[Ring(order)[i]] == Ring(order)[i + 1]
    ensures var p := Ring(order)[i]; var n := Ring(order)[i + 1];
      Valid(Arena(a.next[x := n][p := x], a.prev[n := x][x := p], a.val), order[..i] + [x] + order[i..])
  {
    var o' := order[..i] + [x] + order[i..];
    assert InArena(a, o');
    LinkDistinct(order, i, x);
    LinkNext(a, order, i, x);
    LinkPrev(a, order, i, x);
    RingFacts(order);
  }

  /** Relinking the adjacent nodes at positions `i` and `i + 1` of `order`
      the other way round, by the six assignments of `q_swap`: the same as
      unlinking the second node and linking it back in before the first. */
  lemma SwapAdjacent(a: Arena, order: seq<nat>, i: nat)
    requires Valid(a, order) && i + 2 <= |order|
    ensures var r := Ring(order);
      a.next[r[i]] == r[i + 1] && a.next[r[i + 1]] == r[i + 2] && a.next[r[i + 2]] == r[i + 3]
    ensures var r := Ring(order);
      var pre := r[i]; var fir := r[i + 1]; var sec := r[i + 2]; var nxt := r[i + 3];
      Valid(Arena(a.next[pre := sec][fir := nxt][sec := fir], a.prev[nxt := fir][fir := sec][sec := pre], a.val),
            order[..i] + [order[i + 1], order[i]] + order[i + 2..])
  {
    RingNodes(a, order);
    var r := Ring(order);
    var pre, fir, sec, nxt := r[i], r[i + 1], r[i + 2], r[i + 3];
    assert pre != fir && fir != sec && pre != sec by {
      assert r[i] != r[i + 1] && r[i + 1] != r[i + 2] && r[i] != r[i + 2];
    }
    Unlink(a, order, i + 1, i + 2);
    var a1 := Arena(a.next[fir := nxt], a.prev[nxt := fir], a.val);
    var ord1 := order[..i + 1] + order[i + 2..];
    BlockNotElsewhere(order, i + 1, i + 2, i + 1);
    assert sec == order[i + 1];
    Link(a1, ord1, i, sec);
    assert Ring(ord1)[i] == pre && Ring(ord1)[i + 1] == fir;
    assert a.next[pre := sec][fir := nxt][sec := fir] == a1.next[sec := fir][pre := sec];
    assert ord1[..i] + [sec] + ord1[i..] == order[..i] + [order[i + 1], order[i]] + order[i + 2..];
  }

  /** The ring of the reversed order is the ring read backwards. */
  lemma ReversedAt(order: seq<nat>, k: nat)
    requires k <= |order| + 1
    ensures |Ring(Rev<nat>(order))| == |Ring(order)|
    ensures Ring(Rev<nat>(order))[k] == Ring(order)[|order| + 1 - k]
  {
    if 0 < k <= |order| {
      assert Ring(Rev<nat>(order))[k] == Rev<nat>(order)[k - 1] == order[|order| - k];
    }
  }

  lemma ReversedDistinct(order: seq<nat>)
    requires RingDistinct(order)
    ensures RingDistinct(Rev<nat>(order))
  {
    var r := Ring(order);
    var r' := Ring(Rev<nat>(order));
    var m := |order| + 1;
    RingFacts(order);
    forall x, y | 0 <= x < y < m ensures r'[x] != r'[y] {
      ReversedAt(order, x);
      ReversedAt(order, y);
      if x == 0 {
        assert r[m - x] == r[0];
      }
    }
  }

  /** One link of the reversed ring: the node at position `k` of the
      reversed order points forwards, via its old `prev`, at position `k + 1`.
      Position 0 is the sentinel, whose old `prev` is the tail. */
  lemma ReversedNextAt(a: Arena, order: seq<nat>, b: Arena, k: nat)
    requires Valid(a, order) && |b.next| == |a.next| && k < |order| + 1
    requires var r := Ring(order); var j := if k == 0 then 0 else |order| + 1 - k;
      r[j] < |b.next| && b.next[r[j]] == a.prev[r[j]]
    ensures var r' := Ring(Rev<nat>(order)); r'[k] < |b.next| && b.next[r'[k]] == r'[k + 1]
  {
    var r := Ring(order);
    var m := |order| + 1;
    ReversedAt(order, k);
    ReversedAt(order, k + 1);
    if k == 0 {
      assert r[m] == r[0] == Head;
      Walk(a, order, m - 1);
    } else {
      Walk(a, order, m - k - 1);
    }
  }

  lemma ReversedNext(a: Arena, order: seq<nat>, b: Arena)
    requires Valid(a, order) && |b.next| == |a.next|
    requires forall j :: 0 <= j < |order| + 1 ==> b.next[Ring(order)[j]] == a.prev[Ring(order)[j]]
    ensures var r' := Ring(Rev<nat>(order));
      forall k :: 0 <= k < |order| + 1 ==> r'[k] < |b.next| && b.next[r'[k]] == r'[k + 1]
  {
    var m := |order| + 1;
    var r' := Ring(Rev<nat>(order));
    forall k | 0 <= k < m ensures r'[k] < |b.next| && b.next[r'[k]] == r'[k + 1] {
      Walk(a, order, if k == 0 then 0 else m - k);
      ReversedNextAt(a, order, b, k);
    }
  }

  /** One back link of the reversed ring: position `k + 1` of the reversed
      order points back, via its old `next`, at position `k`. */
  lemma ReversedPrevAt(a: Arena, order: seq<nat>, b: Arena, k: nat)
    requires Valid(a, order) && |b.prev| == |a.prev| && k < |order| + 1
    requires var r := Ring(order); var j := |order| - k;
      r[j] < |b.prev| && b.prev[r[j]] == a.next[r[j]]
    ensures var r' := Ring(Rev<nat>(order)); r'[k + 1] < |b.prev| && b.prev[r'[k + 1]] == r'[k]
  {
    ReversedAt(order, k);
    ReversedAt(order, k + 1);
    Walk(a, order, |order| - k);
  }

  lemma ReversedPrev(a: Arena, order: seq<nat>, b: Arena)
    requires Valid(a, order) && |b.prev| == |a.prev|
    requires forall j :: 0 <= j < |order| + 1 ==> b.prev[Ring(order)[j]] == a.next[Ring(order)[j]]
    ensures var r' := Ring(Rev<nat>(order));
      forall k :: 1 <= k < |order| + 2 ==> r'[k] < |b.prev| && b.prev[r'[k]] == r'[k - 1]
  {
    var r := Ring(order);
    var m := |order| + 1;
    var r' := Ring(Rev<nat>(order));
    forall k | 1 <= k < m + 1 ensures r'[k] < |b.prev| && b.prev[r'[k]] == r'[k - 1] {
      Walk(a, order, m - k);
      ReversedPrevAt(a, order, b, k - 1);
    }
  }

  /** Exchanging `next` and `prev` on every ring node turns the ring round:
      the result is the valid ring of the reversed order. */
  lemma Reversed(a: Arena, order: seq<nat>, b: Arena)
    requires Valid(a, order)
    requires |b.next| == |a.next| && |b.prev| == |a.prev| && b.val == a.val
    requires forall j :: 0 <= j < |order| + 1 ==>
      b.next[Ring(order)[j]] == a.prev[Ring(order)[j]] && b.prev[Ring(order)[j]] == a.next[Ring(order)[j]]
    ensures Valid(b, Rev(order))
  {
    var ro := Rev<nat>(order);
    assert InArena(b, ro) by {
      forall k | 0 <= k < |ro| ensures ro[k] < |b.val| {
        assert ro[k] == order[|order| - 1 - k];
      }
    }
    ReversedDistinct(order);
    ReversedNext(a, order, b);
    ReversedPrev(a, order, b);
  }

  /** Contents after dropping the block `order[i..j]`. */
  lemma ValuesDrop(val: seq<Str>, order: seq<nat>, i: nat, j: nat)
    requires forall k :: 0 <= k < |order| ==> order[k] < |val|
    requires i <= j <= |order|
    ensures Values(val, order[..i] + order[j..]) == Values(val, order)[..i] + Values(val, order)[j..]
  {
  }

  /** Unlinking the run `order[p..e]` (inclusive) as `q_delete_dup` does,
      giving `b`, keeps the ring valid, drops the run's strings, and leaves
      the node after the run (or the sentinel, when the run reached the
      tail) right after `Ring(order)[p]`. */
  lemma DropRun(a: Arena, order: seq<nat>, p: nat, e: nat, b: Arena)
    requires Valid(a, order) && p < e < |order|
    requires var r := Ring(order);
      b == Arena(a.next[r[p] := r[e + 2]], a.prev[r[e + 2] := r[p]], a.val)
    ensures var o := order[..p] + order[e + 1..];
      var p' := if e + 1 == |order| then 0 else p + 1;
      && Valid(b, o)
      && Values(a.val, o) == Values(a.val, order)[..p] + Values(a.val, order)[e + 1..]
      && p' <= |o| && b.next[Ring(order)[p]] == Ring(o)[p']
      && forall x :: x in o ==> x in order
  {
    var r := Ring(order);
    var j := e + 1;
    assert r[j + 1] == r[e + 2];
    Unlink(a, order, p, j);
    ValuesDrop(a.val, order, p, j);
    var o := order[..p] + order[j..];
    if j < |order| {
      assert r[e + 2] == order[j] == o[p] == Ring(o)[p + 1];
    } else {
      assert r[e + 2] == Head == Ring(o)[0];
    }
  }

  /** The order after `q_sort` moves the node at `k + m` to position `k`. */
  function MovedToFront(order: seq<nat>, k: nat, m: nat): (o: seq<nat>)
    requires k + m < |order|
    ensures |o| == |order|
    ensures multiset(o) == multiset(order)
  {
    assert order == order[..k] + order[k..k + m] + [order[k + m]] + order[k + m + 1..];
    order[..k] + [order[k + m]] + order[k..k + m] + order[k + m + 1..]
  }

  /** The splice of `q_sort`: unlinking node `x = order[k + m]` from its
      place and linking it back right after `Ring(order)[k]` gives a valid
      ring in the order `MovedToFront`. `a1` is the arena between the two
      steps, `b` the arena after them. */
  lemma MoveToFront(a: Arena, order: seq<nat>, k: nat, m: nat, b: Arena)
    requires Valid(a, order) && 0 < m && k + m < |order|
    requires var r := Ring(order); var x := order[k + m];
      var a1 := Arena(a.next[r[k + m] := r[k + m + 2]], a.prev[r[k + m + 2] := r[k + m]], a.val);
      b == Arena(a1.next[x := r[k + 1]][r[k] := x], a1.prev[r[k + 1] := x][x := r[k]], a.val)
    ensures Valid(b, MovedToFront(order, k, m))
  {
    var r := Ring(order);
    var t := k + m;
    var x := order[t];
    Walk(a, order, t);
    assert r[t + 1 + 1] == r[k + m + 2];
    Unlink(a, order, t, t + 1);
    var o1 := order[..t] + order[t + 1..];
    var a1 := Arena(a.next[r[t] := r[t + 2]], a.prev[r[t + 2] := r[t]], a.val);
    BlockNotElsewhere(order, t, t + 1, t);
    Link(a1, o1, k, x);
    var r1 := Ring(o1);
    assert r1[k] == r[k] by {
      if k > 0 { assert r1[k] == o1[k - 1] == order[k - 1]; }
    }
    assert r1[k + 1] == r[k + 1] by {
      assert r1[k + 1] == o1[k] == order[k];
    }
    assert b == Arena(a1.next[x := r1[k + 1]][r1[k] := x], a1.prev[r1[k + 1] := x][x := r1[k]], a.val);
    assert o1[..k] + [x] + o1[k..] == MovedToFront(order, k, m) by {
      assert o1[..k] == order[..k];
      assert o1[k..] == order[k..t] + order[t + 1..];
    }
  }

  /** The links the splice of `q_sort` reads before it writes, and where
      `Ring(order)[k]` and the moved node sit afterwards. */
  lemma MoveToFrontLinks(a: Arena, order: seq<nat>, k: nat, m: nat)
    requires Valid(a, order) && 0 < m && k + m < |order|
    ensures var r := Ring(order); var x := order[k + m];
      && r[k] < |a.val| && r[k + m] < |a.val| && r[k + m + 2] < |a.val|
      && x == r[k + m + 1] && r[k] != r[k + m]
      && a.prev[x] == r[k + m] && a.next[x] == r[k + m + 2] && a.next[r[k]] == r[k + 1]
      && r[k] == Ring(MovedToFront(order, k, m))[k] && x == Ring(MovedToFront(order, k, m))[k + 1]
  {
    RingFacts(order);
    var o := MovedToFront(order, k, m);
    if k > 0 { assert o[k - 1] == order[k - 1]; }
    assert o[k] == order[k + m];
  }

  /** Contents after inserting node `x` at position `i`. */
  lemma ValuesInsert(val: seq<Str>, order: seq<nat>, i: nat, x: nat)
    requires forall k :: 0 <= k < |order| ==> order[k] < |val|
    requires i <= |order| && x < |val|
    ensures Values(val, order[..i] + [x] + order[i..]) == Values(val, order)[..i] + [val[x]] + Values(val, order)[i..]
  {
  }

  /** Contents after the splice of `q_sort`. */
  lemma ValuesMovedToFront(val: seq<Str>, order: seq<nat>, k: nat, m: nat)
    requires forall j :: 0 <= j < |order| ==> order[j] < |val|
    requires k + m < |order|
    ensures forall j :: 0 <= j < |order| ==> MovedToFront(order, k, m)[j] < |val|
    ensures var v := Values(val, order);
      Values(val, MovedToFront(order, k, m)) == v[..k] + [v[k..][m]] + v[k..][..m] + v[k..][m + 1..]
  {
    var o := MovedToFront(order, k, m);
    var v := Values(val, order);
    var w := v[..k] + [v[k..][m]] + v[k..][..m] + v[k..][m + 1..];
    forall j | 0 <= j < |order| ensures o[j] < |val| && val[o[j]] == w[j] {
      if j < k {
        assert o[j] == order[j] && w[j] == v[j];
      } else if j == k {
        assert o[j] == order[k + m] && w[j] == v[k + m];
      } else if j <= k + m {
        assert o[j] == order[j - 1] && w[j] == v[j - 1];
      } else {
        assert o[j] == order[j] && w[j] == v[j];
      }
    }
  }

  /** Moving the first minimum of the unplaced nodes to the front of them
      places one more node and keeps the multiset of the contents. */
  lemma MovedToFrontPlaced(val: seq<Str>, order: seq<nat>, k: nat, m: nat)
    requires forall j :: 0 <= j < |order| ==> order[j] < |val|
    requires k + m < |order|
    requires Placed(Values(val, order), k) && FirstMin(Values(val, order)[k..], |order| - k, m)
    ensures forall j :: 0 <= j < |order| ==> MovedToFront(order, k, m)[j] < |val|
    ensures multiset(Values(val, MovedToFront(order, k, m))) == multiset(Values(val, order))
    ensures Placed(Values(val, MovedToFront(order, k, m)), k + 1)
  {
    ValuesMovedToFront(val, order, k, m);
    PlaceMin(Values(val, order), k, m, Values(val, MovedToFront(order, k, m)));
  }

  /** Contents of the reversed order. */
  lemma ValuesRev(val: seq<Str>, order: seq<nat>)
    requires forall k :: 0 <= k < |order| ==> order[k] < |val|
    ensures forall k :: 0 <= k < |order| ==> Rev(order)[k] < |val|
    ensures Values(val, Rev(order)) == Rev(Values(val, order))
  {
    var r: seq<nat> := Rev<nat>(order);
    var v := Values(val, order);
    forall k | 0 <= k < |order| ensures r[k] < |val| {
      assert r[k] == order[|order| - 1 - k];
    }
    var w := Values(val, r);
    forall k | 0 <= k < |order| ensures w[k] == Rev(v)[k] {
      assert r[k] == order[|order| - 1 - k];
    }
  }

  /** Contents of the pair-swapped order. */
  lemma {:induction false} ValuesSwapPairs(val: seq<Str>, order: seq<nat>)
    requires forall k :: 0 <= k < |order| ==> order[k] < |val|
    ensures forall k :: 0 <= k < |order| ==> SwapPairs<nat>(order)[k] < |val|
    ensures Values(val, SwapPairs<nat>(order)) == SwapPairs(Values(val, order))
    decreases |order|
  {
    if |order| >= 2 {
      var v := Values(val, order);
      ValuesSwapPairs(val, order[2..]);
      assert SwapPairs<nat>(order) == [order[1], order[0]] + SwapPairs<nat>(order[2..]);
      assert Values(val, order[2..]) == v[2..];
      assert SwapPairs(v) == [v[1], v[0]] + SwapPairs(v[2..]);
    }
  }
}
