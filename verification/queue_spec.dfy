/** The queue as its callers see it: the stored strings in head-to-tail
    order. Every whole-list operation of queue.c is given here as a pure
    function on that sequence, with the properties it has; the node arena in
    module Queue is proved to refine these functions. */
module QueueSpec {
  import opened Bytes
  import opened Wrappers

  /* ---------------------------------------------------------------------- */
  /* Ordering                                                               */
  /* ---------------------------------------------------------------------- */

  /** Ascending under `strcmp`: no later string compares below an earlier one. */
  predicate Sorted(s: seq<Str>) {
    forall i, j {:trigger LessEq(s[i], s[j])} :: 0 <= i < j < |s| ==> LessEq(s[i], s[j])
  }

  lemma SortedAt(s: seq<Str>, i: nat, j: nat)
    requires Sorted(s) && i < j < |s|
    ensures LessEq(s[i], s[j])
  {
  }

  /** `x` is `y` with some elements dropped, the rest kept in order. */
  predicate Subseq<T(==)>(x: seq<T>, y: seq<T>)
    decreases |y|
  {
    if x == [] then true
    else if y == [] then false
    else (x[0] == y[0] && Subseq(x[1..], y[1..])) || Subseq(x, y[1..])
  }

  lemma {:induction false} SubseqRefl<T>(x: seq<T>)
    ensures Subseq(x, x)
    decreases |x|
  {
    if x != [] {
      SubseqRefl(x[1..]);
    }
  }

  lemma {:induction false} SubseqTrans<T>(x: seq<T>, y: seq<T>, z: seq<T>)
    requires Subseq(x, y) && Subseq(y, z)
    ensures Subseq(x, z)
    decreases |z|
  {
    if x != [] {
      if Subseq(y, z[1..]) {
        SubseqTrans(x, y, z[1..]);
      } else if x[0] == y[0] && Subseq(x[1..], y[1..]) {
        SubseqTrans(x[1..], y[1..], z[1..]);
      } else {
        SubseqTrans(x, y[1..], z[1..]);
      }
    }
  }

  /** Dropping the block `s[p..q]` leaves a subsequence. */
  lemma {:induction false} SubseqDropBlock<T>(s: seq<T>, p: nat, q: nat)
    requires p <= q <= |s|
    ensures Subseq(s[..p] + s[q..], s)
    decreases |s|
  {
    if p > 0 {
      SubseqDropBlock(s[1..], p - 1, q - 1);
      assert (s[..p] + s[q..])[1..] == s[1..][..p - 1] + s[1..][q - 1..];
    } else if q > 0 {
      SubseqDropBlock(s[1..], 0, q - 1);
      assert s[1..][q - 1..] == s[q..];
      assert s[..p] + s[q..] == s[q..];
    } else {
      assert s[..p] + s[q..] == s;
      SubseqRefl(s);
    }
  }

  /** Dropping elements keeps a sorted sequence sorted. */
  lemma {:induction false} SubseqSorted(x: seq<Str>, y: seq<Str>)
    requires Subseq(x, y) && Sorted(y)
    ensures Sorted(x)
    decreases |y|
  {
    if x != [] {
      assert Sorted(y[1..]) by {
        forall i, j | 0 <= i < j < |y[1..]| ensures LessEq(y[1..][i], y[1..][j]) {
          assert y[1..][i] == y[i + 1] && y[1..][j] == y[j + 1];
        }
      }
      if x[0] == y[0] && Subseq(x[1..], y[1..]) {
        SubseqSorted(x[1..], y[1..]);
        forall j | 0 < j < |x| ensures LessEq(x[0], x[j]) {
          SubseqMember(x[1..], y[1..], j - 1);
        }
        forall i, j | 0 <= i < j < |x| ensures LessEq(x[i], x[j]) {
          if i > 0 {
            assert x[i] == x[1..][i - 1] && x[j] == x[1..][j - 1];
          }
        }
      } else {
        SubseqSorted(x, y[1..]);
      }
    }
  }

  /** Every element of a subsequence occurs in the sequence. */
  lemma {:induction false} SubseqMember<T>(x: seq<T>, y: seq<T>, i: nat)
    requires Subseq(x, y) && i < |x|
    ensures x[i] in y
    decreases |y|
  {
    if x[0] == y[0] && Subseq(x[1..], y[1..]) {
      if i > 0 {
        SubseqMember(x[1..], y[1..], i - 1);
        assert x[i] == x[1..][i - 1];
      }
    } else {
      SubseqMember(x, y[1..], i);
    }
  }

  /* ---------------------------------------------------------------------- */
  /* Endpoint operations                                                    */
  /* ---------------------------------------------------------------------- */

  /** Inserting the strings of `xs` one by one at the tail. */
  function PushTailAll(q: seq<Str>, xs: seq<Str>): seq<Str>
    decreases |xs|
  {
    if xs == [] then q else PushTailAll(q + [xs[0]], xs[1..])
  }

  /** Inserting the strings of `xs` one by one at the head. */
  function PushHeadAll(q: seq<Str>, xs: seq<Str>): seq<Str>
    decreases |xs|
  {
    if xs == [] then q else PushHeadAll([xs[0]] + q, xs[1..])
  }

  /** The strings in reverse order. */
  function Rev<T>(s: seq<T>): (r: seq<T>)
    ensures |r| == |s|
    ensures forall i :: 0 <= i < |s| ==> r[i] == s[|s| - 1 - i]
    decreases |s|
  {
    if s == [] then [] else Rev(s[1..]) + [s[0]]
  }

  /** Tail insertion puts the strings after the old contents in the order
      they were inserted, so the earliest of them is nearest the head. */
  lemma {:induction false} TailInsertIsFifo(q: seq<Str>, xs: seq<Str>)
    ensures PushTailAll(q, xs) == q + xs
    decreases |xs|
  {
    if xs != [] {
      TailInsertIsFifo(q + [xs[0]], xs[1..]);
      assert q + [xs[0]] + xs[1..] == q + xs;
    }
  }

  /** Head insertion puts the strings before the old contents in reverse
      insertion order, so the latest of them is at the head. */
  lemma {:induction false} HeadInsertIsLifo(q: seq<Str>, xs: seq<Str>)
    ensures PushHeadAll(q, xs) == Rev(xs) + q
    decreases |xs|
  {
    if xs != [] {
      HeadInsertIsLifo([xs[0]] + q, xs[1..]);
      assert Rev(xs) == Rev(xs[1..]) + [xs[0]];
      assert Rev(xs[1..]) + ([xs[0]] + q) == Rev(xs[1..]) + [xs[0]] + q;
    }
  }

  /* ---------------------------------------------------------------------- */
  /* Reverse                                                                */
  /* ---------------------------------------------------------------------- */

  /** Reversing twice restores the original order. */
  lemma RevRev<T>(s: seq<T>)
    ensures Rev(Rev(s)) == s
  {
    assert forall i :: 0 <= i < |s| ==> Rev(Rev(s))[i] == s[i];
  }

  /* ---------------------------------------------------------------------- */
  /* Delete middle                                                          */
  /* ---------------------------------------------------------------------- */

  /** Index of the middle element: zero-based floor(n / 2). */
  function Mid(n: nat): nat {
    n / 2
  }

  /** The sequence without its element at index floor(n / 2). */
  function DeleteMiddle<T>(s: seq<T>): (r: seq<T>)
    requires |s| > 0
    ensures |r| == |s| - 1
    ensures forall i :: 0 <= i < Mid(|s|) ==> r[i] == s[i]
    ensures forall i :: Mid(|s|) <= i < |r| ==> r[i] == s[i + 1]
  {
    s[..Mid(|s|)] + s[Mid(|s|) + 1..]
  }

  /** Putting the middle element back where it was restores the sequence:
      exactly one element, the one at floor(n / 2), is removed. */
  lemma DeleteMiddleInverse<T>(s: seq<T>)
    requires |s| > 0
    ensures var r := DeleteMiddle(s);
      r[..Mid(|s|)] + [s[Mid(|s|)]] + r[Mid(|s|)..] == s
    ensures multiset(DeleteMiddle(s)) + multiset{s[Mid(|s|)]} == multiset(s)
  {
    var m := Mid(|s|);
    var r := DeleteMiddle(s);
    assert r[..m] == s[..m];
    assert r[m..] == s[m + 1..];
    assert s == s[..m] + [s[m]] + s[m + 1..];
  }

  /** For six elements the fourth (index 3) goes. */
  lemma DeleteMiddleOfSix<T>(a: T, b: T, c: T, d: T, e: T, f: T)
    ensures DeleteMiddle([a, b, c, d, e, f]) == [a, b, c, e, f]
  {
  }

  /* ---------------------------------------------------------------------- */
  /* Delete duplicates                                                      */
  /* ---------------------------------------------------------------------- */

  /** Last index of the run of equal strings that starts at `c`: the inner
      loop of `q_delete_dup` advances while `strcmp` reports equality and the
      following node is not the sentinel. */
  function RunEnd(s: seq<Str>, c: nat): (e: nat)
    requires c < |s|
    ensures c <= e < |s|
    ensures forall k :: c <= k <= e ==> s[k] == s[c]
    ensures e + 1 == |s| || s[e + 1] != s[e]
    decreases |s| - c
  {
    if c + 1 < |s| && Strcmp(s[c], s[c + 1]) == 0 then
      StrcmpZero(s[c], s[c + 1]);
      RunEnd(s, c + 1)
    else if c + 1 < |s| then
      StrcmpZero(s[c], s[c + 1]);
      c
    else c
  }

  /** One state of the outer loop of `q_delete_dup`: `p` is the position of
      `prev_li` on the ring (0 is the sentinel, k is `s[k-1]`), `curr_li` and
      `next_li` are the two positions after it. A deleted run moves `prev_li`
      onto the node after the run (or back to the sentinel when the run
      reached the tail), so the node after a deleted run is never compared
      with its successor. The scan stops when `next_li` or `curr_li` is the
      sentinel; see `DupPassAsWritten` for the code without the second test. */
  function DupPass(s: seq<Str>, p: nat): (r: seq<Str>)
    requires p <= |s|
    ensures |r| <= |s|
    ensures Subseq(r, s)
    decreases |s|, |s| - p
  {
    if p == |s| || p + 1 == |s| then
      SubseqRefl(s);
      s
    else
      var e := RunEnd(s, p);
      if e == p then DupPass(s, p + 1)
      else
        var s' := s[..p] + s[e + 1..];
        var r' := if e + 1 == |s| then DupPass(s', 0) else DupPass(s', p + 1);
        SubseqDropBlock(s, p, e + 1);
        SubseqTrans(r', s', s);
        r'
  }

  /** `DupPass` only drops strings: its result is a subsequence of its input,
      and sorted when the input is. It drops only strings that have an equal
      copy: a string occurring once survives. It changes the strings after
      `prev_li` exactly when two of them are equal neighbours: with none
      nothing is dropped, and with one pair at least one string is. */
  lemma DupPassKeeps(s: seq<Str>, p: nat)
    requires p <= |s|
    ensures Subseq(DupPass(s, p), s)
    ensures Sorted(s) ==> Sorted(DupPass(s, p))
    ensures forall x :: multiset(s)[x] == 1 ==> x in DupPass(s, p)
    ensures (forall k :: p <= k ==> !EqualNext(s, k)) ==> DupPass(s, p) == s
    ensures (exists k :: p <= k && EqualNext(s, k)) ==> |DupPass(s, p)| < |s|
  {
    if Sorted(s) {
      SubseqSorted(DupPass(s, p), s);
    }
    forall x | multiset(s)[x] == 1 ensures x in DupPass(s, p) {
      DupPassKeepsSingle(s, p, x);
    }
    if forall k :: p <= k ==> !EqualNext(s, k) {
      DupPassNoRuns(s, p);
    } else {
      var k :| p <= k && EqualNext(s, k);
      DupPassShrinks(s, p, k);
    }
  }

  /** A string occurring once is never part of a run of two or more, in the
      input or in anything the pass leaves of it, so it is never dropped. */
  lemma {:induction false} DupPassKeepsSingle(s: seq<Str>, p: nat, x: Str)
    requires p <= |s| && multiset(s)[x] == 1
    ensures x in DupPass(s, p)
    decreases |s|, |s| - p
  {
    if p == |s| || p + 1 == |s| {
      assert x in multiset(s);
    } else {
      var e := RunEnd(s, p);
      DupPassStep(s, p, e);
      if e == p {
        DupPassKeepsSingle(s, p + 1, x);
      } else {
        var s', p' := s[..p] + s[e + 1..], if e + 1 == |s| then 0 else p + 1;
        assert DupPass(s, p) == DupPass(s', p');
        DropRunKeepsSingle(s, p, e, x);
        DupPassKeepsSingle(s', p', x);
      }
    }
  }

  /** A run of two or more equal strings holds no string that occurs once,
      so dropping it leaves such a string's count at one. */
  lemma DropRunKeepsSingle(s: seq<Str>, p: nat, e: nat, x: Str)
    requires p < e < |s| && forall k :: p <= k <= e ==> s[k] == s[p]
    requires multiset(s)[x] == 1
    ensures multiset(s[..p] + s[e + 1..])[x] == 1
  {
    var run := s[p..e + 1];
    assert s == s[..p] + run + s[e + 1..];
    assert multiset(s) == multiset(s[..p]) + multiset(run) + multiset(s[e + 1..]);
    assert run == [s[p], s[p + 1]] + run[2..];
    assert multiset(run)[s[p]] >= 2;
    assert x !in multiset(run) by {
      forall k | 0 <= k < |run| ensures run[k] != x {
        assert run[k] == s[p + k];
      }
    }
    assert multiset(s[..p] + s[e + 1..]) == multiset(s[..p]) + multiset(s[e + 1..]);
  }

  /** With no two equal neighbours from `prev_li` on, every run is a single
      string and the pass changes nothing. */
  lemma {:induction false} DupPassNoRuns(s: seq<Str>, p: nat)
    requires p <= |s| && forall k :: p <= k ==> !EqualNext(s, k)
    ensures DupPass(s, p) == s
    decreases |s| - p
  {
    if p < |s| && p + 1 < |s| {
      var e := RunEnd(s, p);
      assert !EqualNext(s, p) && s[p + 1] != s[p];
      assert e == p;
      DupPassNoRuns(s, p + 1);
    }
  }

  /** With two equal neighbours from `prev_li` on, the pass drops at least
      one string: the first run it meets that holds two or more strings is
      unlinked, since the node after a kept string is always compared. */
  lemma {:induction false} DupPassShrinks(s: seq<Str>, p: nat, k: nat)
    requires p <= k && EqualNext(s, k)
    ensures |DupPass(s, p)| < |s|
    decreases |s| - p
  {
    var e := RunEnd(s, p);
    DupPassStep(s, p, e);
    if e == p {
      if k == p {
        assert false;
      }
      DupPassShrinks(s, p + 1, k);
    } else {
      var s', p' := s[..p] + s[e + 1..], if e + 1 == |s| then 0 else p + 1;
      assert DupPass(s, p) == DupPass(s', p');
    }
  }

  /** The string at `k` equals the one after it. (A named predicate, so
      that a quantifier over `k` does not feed itself `s[k + 1]`.) */
  predicate EqualNext(s: seq<Str>, k: nat) {
    k + 1 < |s| && s[k] == s[k + 1]
  }

  /** `RunEnd` is the one index where a run of equal strings from `c`
      stops: at the tail, or before a different string. */
  lemma {:induction false} RunEndOfRun(s: seq<Str>, c: nat, e: nat)
    requires c <= e < |s|
    requires forall k :: c <= k < e ==> EqualNext(s, k)
    requires e + 1 == |s| || s[e] != s[e + 1]
    ensures RunEnd(s, c) == e
    decreases e - c
  {
    if c < e {
      assert EqualNext(s, c);
      StrcmpZero(s[c], s[c + 1]);
      RunEndOfRun(s, c + 1, e);
    } else if c + 1 < |s| {
      StrcmpZero(s[c], s[c + 1]);
    }
  }

  /** One round of the outer loop: the run starting after `p` is kept when
      it is a single string and dropped otherwise. */
  lemma DupPassStep(s: seq<Str>, p: nat, e: nat)
    requires p + 1 < |s| && e == RunEnd(s, p)
    ensures e == p ==> DupPass(s, p) == DupPass(s, p + 1)
    ensures e != p && e + 1 == |s| ==> DupPass(s, p) == DupPass(s[..p] + s[e + 1..], 0)
    ensures e != p && e + 1 < |s| ==> DupPass(s, p) == DupPass(s[..p] + s[e + 1..], p + 1)
  {
  }

  /** The outer loop ends once fewer than two strings follow `prev_li`. */
  lemma DupPassStop(s: seq<Str>, p: nat)
    requires p <= |s| <= p + 1
    ensures DupPass(s, p) == s
  {
  }

  /** `DupPass` as queue.c writes it. When a deleted run is followed by
      exactly one node, `prev_li` lands on the tail, `curr_li` on the
      sentinel and `next_li` on the head; the loop goes on and reads the
      sentinel as if it were an element, which it is not. That read is
      undefined behaviour; it is modelled as `None`. */
  function DupPassAsWritten(s: seq<Str>, p: nat): (r: Option<seq<Str>>)
    requires p <= |s|
    ensures r.Some? ==> r.value == DupPass(s, p)
    decreases |s|, |s| - p
  {
    if |s| == 0 || p + 1 == |s| then Some(s)
    else if p == |s| then None
    else
      var e := RunEnd(s, p);
      DupPassStep(s, p, e);
      if e == p then
        DupPassAsWritten(s, p + 1)
      else
        var s' := s[..p] + s[e + 1..];
        if e + 1 == |s| then DupPassAsWritten(s', 0) else DupPassAsWritten(s', p + 1)
  }

  /** The whole of `q_delete_dup` on a queue of at least two strings. */
  function DeleteDup(s: seq<Str>): (r: seq<Str>)
    requires |s| >= 2
    ensures Subseq(r, s)
    ensures Sorted(s) ==> Sorted(r)
    ensures forall x :: multiset(s)[x] == 1 ==> x in r
    ensures (forall k :: !EqualNext(s, k)) ==> r == s
    ensures (exists k :: EqualNext(s, k)) ==> |r| < |s|
  {
    DupPassKeeps(s, 0);
    DupPass(s, 0)
  }

  /** [1,1,2,3,3,3] becomes [2]. */
  lemma DeleteDupExample()
    ensures DeleteDup([[1], [1], [2], [3], [3], [3]]) == [[2]]
  {
    var s: seq<Str> := [[1], [1], [2], [3], [3], [3]];
    assert RunEnd(s, 0) == 1;
    var s1: seq<Str> := [[2], [3], [3], [3]];
    assert s[..0] + s[2..] == s1;
    DupPassStep(s, 0, 1);
    ExampleAfterFirstRun();
  }

  /** The rest of the scan of `DeleteDupExample`: [2] is kept and the run
      [3,3,3] is deleted at the tail. */
  lemma ExampleAfterFirstRun()
    ensures DupPass([[2], [3], [3], [3]], 1) == [[2]]
  {
    var s1: seq<Str> := [[2], [3], [3], [3]];
    assert RunEnd(s1, 1) == 3;
    assert s1[..1] + s1[4..] == [[2]];
    DupPassStep(s1, 1, 3);
    DupPassStop([[2]], 0);
  }

  /** After a deleted run the next survivor is not compared with its
      successor: [a,a,b,b] keeps both b's. */
  lemma DeleteDupSkipsAfterRun()
    ensures DeleteDup([[1], [1], [2], [2]]) == [[2], [2]]
  {
    var s: seq<Str> := [[1], [1], [2], [2]];
    assert RunEnd(s, 0) == 1;
    assert s[..0] + s[2..] == [[2], [2]];
  }

  /** A run deleted at the tail sends the scan back to the head, which then
      removes the pair the first pass skipped: [a,a,b,b,c,c] becomes []. */
  lemma DeleteDupRestartsAfterTailRun()
    ensures DeleteDup([[1], [1], [2], [2], [3], [3]]) == []
  {
    var s: seq<Str> := [[1], [1], [2], [2], [3], [3]];
    assert RunEnd(s, 0) == 1;
    var s1: seq<Str> := [[2], [2], [3], [3]];
    assert s[..0] + s[2..] == s1;
    DupPassStep(s, 0, 1);
    RestartAfterTailRun();
  }

  /** The rest of the scan of `DeleteDupRestartsAfterTailRun`: [c,c] is
      deleted at the tail, and the restart from the head deletes [b,b]. */
  lemma RestartAfterTailRun()
    ensures DupPass([[2], [2], [3], [3]], 1) == []
  {
    var s1: seq<Str> := [[2], [2], [3], [3]];
    assert RunEnd(s1, 1) == 1;
    assert RunEnd(s1, 2) == 3;
    var s2: seq<Str> := [[2], [2]];
    assert s1[..2] + s1[4..] == s2;
    assert RunEnd(s2, 0) == 1;
    assert s2[..0] + s2[2..] == [];
    DupPassStep(s1, 1, 1);
    DupPassStep(s1, 2, 3);
    DupPassStep(s2, 0, 1);
    DupPassStop([], 0);
  }

  /** As written, [a,a,b] reaches the state where the sentinel is read as an
      element. */
  lemma DupPassAsWrittenReadsSentinel()
    ensures DupPassAsWritten([[1], [1], [2]], 0) == None
  {
    var s: seq<Str> := [[1], [1], [2]];
    assert RunEnd(s, 0) == 1;
    assert s[..0] + s[2..] == [[2]];
  }

  /* ---------------------------------------------------------------------- */
  /* Pairwise swap                                                          */
  /* ---------------------------------------------------------------------- */

  /** The index whose element `SwapPairs` moves to index `k` of a sequence
      of length `n`: the other member of `k`'s pair, or `k` itself for an
      odd last element. */
  function PairPartner(k: nat, n: nat): nat {
    if k % 2 == 1 then k - 1 else if k + 1 < n then k + 1 else k
  }

  /** `PairPartner` pairs indices up: applied twice it is the identity. */
  lemma PairPartnerInvolutive(k: nat, n: nat)
    requires k < n
    ensures PairPartner(k, n) < n && PairPartner(PairPartner(k, n), n) == k
  {
    if k % 2 == 1 {
      assert (k - 1) % 2 == 0;
    } else if k + 1 < n {
      assert (k + 1) % 2 == 1;
    }
  }

  /** The pair-swapped sequence. */
  function SwapPairs<T>(s: seq<T>): (r: seq<T>)
    ensures |r| == |s|
    decreases |s|
  {
    if |s| < 2 then s else [s[1], s[0]] + SwapPairs(s[2..])
  }

  /** Elements 2k and 2k+1 are exchanged for every complete pair and an odd
      last element stays where it is: index `k` of the result holds the
      element at `PairPartner(k)`. */
  lemma {:induction false} SwapPairsMovesPairs<T>(s: seq<T>)
    ensures forall k :: 0 <= k < |s| ==> PairPartner(k, |s|) < |s| && SwapPairs(s)[k] == s[PairPartner(k, |s|)]
    decreases |s|
  {
    if |s| >= 2 {
      var t := s[2..];
      SwapPairsMovesPairs(t);
      forall k | 0 <= k < |s| ensures PairPartner(k, |s|) < |s| && SwapPairs(s)[k] == s[PairPartner(k, |s|)] {
        if k >= 2 {
          assert (k - 2) % 2 == k % 2;
          assert PairPartner(k, |s|) == PairPartner(k - 2, |t|) + 2;
          assert SwapPairs(s)[k] == SwapPairs(t)[k - 2];
        }
      }
    }
  }

  /** Swapping the pairs twice restores the original order. */
  lemma SwapPairsInvolutive<T>(s: seq<T>)
    ensures SwapPairs(SwapPairs(s)) == s
  {
    var t := SwapPairs(s);
    SwapPairsMovesPairs(s);
    SwapPairsMovesPairs(t);
    forall k | 0 <= k < |s| ensures SwapPairs(t)[k] == s[k] {
      var j := PairPartner(k, |s|);
      PairPartnerInvolutive(k, |s|);
      assert SwapPairs(t)[k] == t[j] == s[k];
    }
  }

  /** The first `2k` elements swapped, then the rest. */
  lemma {:induction false} SwapPairsAppend<T>(x: seq<T>, y: seq<T>, k: nat)
    requires |x| == 2 * k
    ensures SwapPairs(x + y) == SwapPairs(x) + SwapPairs(y)
    decreases k
  {
    if k > 0 {
      SwapPairsAppend(x[2..], y, k - 1);
      assert (x + y)[2..] == x[2..] + y;
    } else {
      assert x == [];
      assert x + y == y;
    }
  }

  /** The end of the loop of `q_swap`: with the pairs before an even `n`
      (`2k`) swapped and fewer than two elements after it, every pair is swapped. */
  lemma SwapDone<T>(s: seq<T>, t: seq<T>, n: nat, k: nat)
    requires n == 2 * k && n <= |s| < n + 2
    requires t == SwapPairs(s[..n]) + s[n..]
    ensures t == SwapPairs(s)
  {
    assert SwapPairs(s[n..]) == s[n..];
    SwapPairsAppend(s[..n], s[n..], k);
    assert s[..n] + s[n..] == s;
  }

  /** One round of the loop of `q_swap`: with the pairs of `s` before an
      even `n` swapped in `t`, swapping the pair at `n` as well gives the
      pairs before `n + 2` swapped. */
  lemma SwapStep<T>(s: seq<T>, t: seq<T>, n: nat, k: nat)
    requires n == 2 * k && n + 2 <= |s|
    requires t == SwapPairs(s[..n]) + s[n..]
    ensures t[..n] + [t[n + 1], t[n]] + t[n + 2..] == SwapPairs(s[..n + 2]) + s[n + 2..]
  {
    SwapPairsAppend(s[..n], s[n..n + 2], k);
    assert s[..n + 2] == s[..n] + s[n..n + 2];
    assert SwapPairs(s[n..n + 2]) == [s[n + 1], s[n]];
    assert t[..n] == SwapPairs(s[..n]);
    assert t[n + 2..] == s[n + 2..];
  }

  /* ---------------------------------------------------------------------- */
  /* Selection sort                                                         */
  /* ---------------------------------------------------------------------- */

  /** Index of the first minimum, as the scan of `q_sort` finds it: a later
      element replaces the current minimum only when `strcmp` says it is
      strictly smaller. So the result is a minimum, and the first one:
      every element before it is strictly greater. */
  function LeftmostMin(s: seq<Str>): (m: nat)
    requires |s| > 0
    ensures m < |s|
    ensures forall j :: 0 <= j < |s| ==> LessEq(s[m], s[j])
    ensures forall j :: 0 <= j < m ==> Less(s[m], s[j])
    decreases |s|
  {
    if |s| == 1 then
      LessIrreflexive(s[0]);
      0
    else
      var s' := s[..|s| - 1];
      var m := LeftmostMin(s');
      assert forall j :: 0 <= j < |s| - 1 ==> s'[j] == s[j];
      if Less(s[|s| - 1], s[m]) then
        LeftmostMinReplace(s, m);
        LessIrreflexive(s[|s| - 1]);
        |s| - 1
      else
        LessConnected(s[|s| - 1], s[m]);
        m
  }

  /** A new strict minimum at the end is below everything before it. */
  lemma LeftmostMinReplace(s: seq<Str>, m: nat)
    requires m < |s| - 1
    requires forall j :: 0 <= j < |s| - 1 ==> LessEq(s[m], s[j])
    requires Less(s[|s| - 1], s[m])
    ensures forall j :: 0 <= j < |s| - 1 ==> Less(s[|s| - 1], s[j]) && LessEq(s[|s| - 1], s[j])
  {
    forall j | 0 <= j < |s| - 1 ensures Less(s[|s| - 1], s[j]) && LessEq(s[|s| - 1], s[j]) {
      LessLessEqTransitive(s[|s| - 1], s[m], s[j]);
      LessAsymmetric(s[|s| - 1], s[j]);
    }
  }

  /** `m` is the first minimum of `s[..n]`: nothing in that prefix is below
      `s[m]`, and everything before `m` is strictly above it. This is what
      the scan of `q_sort` knows after `n` elements. */
  predicate FirstMin(s: seq<Str>, n: nat, m: nat) {
    m < n <= |s|
    && (forall t :: 0 <= t < n ==> LessEq(s[m], s[t]))
    && (forall t :: 0 <= t < m ==> Less(s[m], s[t]))
  }

  /** One more element for the scan of `q_sort`, whose minimum so far is at
      `m` (0 before the first comparison, which compares the first element
      with itself): taking the new element exactly when `strcmp` puts it
      strictly below the current minimum keeps `m` the first minimum. */
  lemma FirstMinStep(s: seq<Str>, j: nat, m: nat)
    requires j < |s|
    requires j == 0 ==> m == 0
    requires j > 0 ==> FirstMin(s, j, m)
    ensures FirstMin(s, j + 1, if Less(s[j], s[m]) then j else m)
  {
    LessIrreflexive(s[j]);
    if j > 0 && Less(s[j], s[m]) {
      forall t | 0 <= t < j ensures Less(s[j], s[t]) && LessEq(s[j], s[t]) {
        LessLessEqTransitive(s[j], s[m], s[t]);
        LessAsymmetric(s[j], s[t]);
      }
    }
  }

  /** There is one first minimum, so the scan and `LeftmostMin` agree. */
  lemma FirstMinIsLeftmostMin(s: seq<Str>, m: nat)
    requires |s| > 0 && FirstMin(s, |s|, m)
    ensures m == LeftmostMin(s)
  {
  }

  /** Selection sort as `q_sort` performs it: the leftmost minimum of what is
      left is spliced after the sorted prefix, the rest keeping its order. */
  function SelSort(s: seq<Str>): (r: seq<Str>)
    ensures |r| == |s|
    ensures multiset(r) == multiset(s)
    decreases |s|
  {
    if |s| == 0 then []
    else
      var m := LeftmostMin(s);
      assert s == s[..m] + [s[m]] + s[m + 1..];
      [s[m]] + SelSort(s[..m] + s[m + 1..])
  }

  /** `SelSort` sorts: its result is an ascending permutation of its input. */
  lemma {:induction false} SelSortSorts(s: seq<Str>)
    ensures multiset(SelSort(s)) == multiset(s)
    ensures Sorted(SelSort(s))
    decreases |s|
  {
    if |s| > 0 {
      var m := LeftmostMin(s);
      var rest := s[..m] + s[m + 1..];
      assert s == s[..m] + [s[m]] + s[m + 1..];
      var t := SelSort(rest);
      SelSortSorts(rest);
      forall y | y in multiset(t) ensures LessEq(s[m], y) {
        assert y in multiset(s);
        var j :| 0 <= j < |s| && s[j] == y;
      }
      MinFirstSorted(s[m], t);
    }
  }

  /** A string below every element of a sorted sequence can be put first. */
  lemma MinFirstSorted(x: Str, t: seq<Str>)
    requires Sorted(t)
    requires forall y :: y in multiset(t) ==> LessEq(x, y)
    ensures Sorted([x] + t)
  {
    forall i, j | 0 <= i < j < |[x] + t| ensures LessEq(([x] + t)[i], ([x] + t)[j]) {
      if i == 0 {
        assert t[j - 1] in multiset(t);
      }
    }
  }

  /** The state of `q_sort` after `k` rounds: the first `k` strings are in
      order, and none of them is above a string not yet placed. */
  predicate Placed(v: seq<Str>, k: nat) {
    k <= |v| && Sorted(v[..k])
    && forall x, y {:trigger LessEq(v[x], v[y])} :: 0 <= x < k <= y < |v| ==> LessEq(v[x], v[y])
  }

  /** Where the string at position `y` comes from when the string at
      `k + m` is moved to position `k`. */
  function MovedFrom(k: nat, m: nat, y: nat): nat {
    if y < k || y > k + m then y else if y == k then k + m else y - 1
  }

  lemma MovedAt(v: seq<Str>, k: nat, m: nat, w: seq<Str>, y: nat)
    requires k + m < |v| && y < |v|
    requires w == v[..k] + [v[k..][m]] + v[k..][..m] + v[k..][m + 1..]
    ensures |w| == |v| && MovedFrom(k, m, y) < |v| && w[y] == v[MovedFrom(k, m, y)]
  {
  }

  /** The move of `PlaceMin` only permutes. */
  lemma PlaceMinPermutes(v: seq<Str>, k: nat, m: nat, w: seq<Str>)
    requires k + m < |v|
    requires w == v[..k] + [v[k..][m]] + v[k..][..m] + v[k..][m + 1..]
    ensures |w| == |v| && multiset(w) == multiset(v)
  {
    var rem := v[k..];
    assert v == v[..k] + rem[..m] + [rem[m]] + rem[m + 1..];
    assert multiset(v) == multiset(v[..k]) + multiset(rem[..m]) + multiset{rem[m]} + multiset(rem[m + 1..]);
    assert multiset(w) == multiset(v[..k]) + multiset{rem[m]} + multiset(rem[..m]) + multiset(rem[m + 1..]);
  }

  /** After the move the first `k + 1` strings are in order. */
  lemma PlaceMinSorted(v: seq<Str>, k: nat, m: nat, w: seq<Str>)
    requires Placed(v, k) && k + m < |v|
    requires w == v[..k] + [v[k..][m]] + v[k..][..m] + v[k..][m + 1..]
    ensures |w| == |v| && Sorted(w[..k + 1])
  {
    var placed := w[..k + 1];
    forall i, j | 0 <= i < j < k + 1 ensures LessEq(placed[i], placed[j]) {
      MovedAt(v, k, m, w, i);
      MovedAt(v, k, m, w, j);
      if j < k {
        SortedAt(v[..k], i, j);
      } else {
        assert LessEq(v[i], v[k + m]);
      }
    }
  }

  /** After the move none of the first `k + 1` strings is above a later one. */
  lemma PlaceMinBelow(v: seq<Str>, k: nat, m: nat, w: seq<Str>)
    requires Placed(v, k) && k + m < |v| && FirstMin(v[k..], |v| - k, m)
    requires w == v[..k] + [v[k..][m]] + v[k..][..m] + v[k..][m + 1..]
    ensures |w| == |v|
    ensures forall x, y {:trigger LessEq(w[x], w[y])} :: 0 <= x < k + 1 <= y < |w| ==> LessEq(w[x], w[y])
  {
    var rem := v[k..];
    forall x, y | 0 <= x < k + 1 <= y < |w| ensures LessEq(w[x], w[y]) {
      MovedAt(v, k, m, w, x);
      MovedAt(v, k, m, w, y);
      var y' := MovedFrom(k, m, y);
      if x < k {
        assert LessEq(v[x], v[y']);
      } else {
        assert rem[y' - k] == v[y'];
        assert LessEq(rem[m], rem[y' - k]);
      }
    }
  }

  /** One round of the outer loop of `q_sort`: with `k` strings placed,
      moving the first minimum `m` of the rest to position `k` (giving `w`)
      places `k + 1` and permutes nothing but the order. */
  lemma PlaceMin(v: seq<Str>, k: nat, m: nat, w: seq<Str>)
    requires Placed(v, k) && k + m < |v| && FirstMin(v[k..], |v| - k, m)
    requires w == v[..k] + [v[k..][m]] + v[k..][..m] + v[k..][m + 1..]
    ensures |w| == |v| && multiset(w) == multiset(v)
    ensures Placed(w, k + 1)
  {
    PlaceMinPermutes(v, k, m, w);
    PlaceMinSorted(v, k, m, w);
    PlaceMinBelow(v, k, m, w);
  }

  /** The round of `PlaceMin` in which the minimum is already in place. */
  lemma PlaceMinInPlace(v: seq<Str>, k: nat)
    requires Placed(v, k) && k < |v| && FirstMin(v[k..], |v| - k, 0)
    ensures Placed(v, k + 1)
  {
    assert v == v[..k] + [v[k..][0]] + v[k..][..0] + v[k..][1..];
    PlaceMin(v, k, 0, v);
  }

  /** The first element of a sorted sequence is below all of its elements. */
  lemma SortedFirstBelow(s: seq<Str>, e: Str)
    requires Sorted(s) && e in multiset(s)
    ensures LessEq(s[0], e)
  {
    var j :| 0 <= j < |s| && s[j] == e;
    if j > 0 {
      SortedAt(s, 0, j);
    } else {
      LessIrreflexive(e);
    }
  }

  /** Strings have one sorted arrangement: two ascending sequences holding
      the same strings are equal. */
  lemma {:induction false} SortedUnique(x: seq<Str>, y: seq<Str>)
    requires Sorted(x) && Sorted(y) && multiset(x) == multiset(y)
    ensures x == y
    decreases |x|
  {
    assert |x| == |multiset(x)| == |multiset(y)| == |y|;
    if |x| > 0 {
      MultisetTail(x);
      MultisetTail(y);
      SortedFirstBelow(x, y[0]);
      SortedFirstBelow(y, x[0]);
      LessConnected(x[0], y[0]);
      SortedTail(x);
      SortedTail(y);
      assert x[0] == y[0];
      SortedUnique(x[1..], y[1..]);
      assert x == [x[0]] + x[1..];
      assert y == [y[0]] + y[1..];
    }
  }

  /** The multiset of a non-empty sequence is its head plus its tail's. */
  lemma MultisetTail(x: seq<Str>)
    requires |x| > 0
    ensures x[0] in multiset(x)
    ensures multiset(x[1..]) == multiset(x) - multiset{x[0]}
  {
    assert x == [x[0]] + x[1..];
  }

  /** Any ascending arrangement of the strings of `s` is `SelSort(s)`. */
  lemma SortedIsSelSort(v: seq<Str>, s: seq<Str>)
    requires Sorted(v) && multiset(v) == multiset(s)
    ensures v == SelSort(s)
  {
    SelSortSorts(s);
    SortedUnique(v, SelSort(s));
  }

  lemma SortedTail(s: seq<Str>)
    requires |s| > 0 && Sorted(s)
    ensures Sorted(s[1..])
  {
    forall i, j | 0 <= i < j < |s[1..]| ensures LessEq(s[1..][i], s[1..][j]) {
      assert s[1..][i] == s[i + 1] && s[1..][j] == s[j + 1];
    }
  }

  /** Sorting a sorted sequence changes nothing. */
  lemma SelSortSorted(s: seq<Str>)
    requires Sorted(s)
    ensures SelSort(s) == s
  {
    SortedIsSelSort(s, s);
  }

}
