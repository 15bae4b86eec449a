/** Byte strings as the queue stores them: the bytes of a C string before
    its terminating NUL, compared the way `strcmp` compares them, and copied
    out into a caller's buffer the way `q_remove_head`/`q_remove_tail` do. */
module Bytes {

  newtype byte = x: int | 0 <= x < 256

  /** The content of a C string: the bytes before its terminator, so none
      of them is NUL. */
  type Str = s: seq<byte> | forall i :: 0 <= i < |s| ==> s[i] != 0

  /** Largest value of C's `size_t` on a 64-bit target. */
  const SIZE_MAX: nat := 0xFFFF_FFFF_FFFF_FFFF

  type SizeT = x: nat | x <= SIZE_MAX

  /** The sign of `strcmp(a, b)`: unsigned bytes compared left to right, the
      terminator (0) making a proper prefix the smaller string. */
  function Strcmp(a: Str, b: Str): (r: int)
    ensures -1 <= r <= 1
    decreases |a|
  {
    if |a| == 0 && |b| == 0 then 0
    else if |a| == 0 then -1
    else if |b| == 0 then 1
    else if a[0] < b[0] then -1
    else if a[0] > b[0] then 1
    else Strcmp(a[1..], b[1..])
  }

  /** A call of `strcmp` from the queue code. */
  method Compare(a: Str, b: Str) returns (r: int)
    ensures r == Strcmp(a, b)
    ensures r == 0 <==> a == b
  {
    StrcmpZero(a, b);
    r := Strcmp(a, b);
  }

  /** `strcmp` returns 0 exactly for equal strings. */
  lemma {:induction false} StrcmpZero(a: Str, b: Str)
    ensures Strcmp(a, b) == 0 <==> a == b
    decreases |a|
  {
    if |a| > 0 && |b| > 0 && a[0] == b[0] {
      StrcmpZero(a[1..], b[1..]);
      assert a == [a[0]] + a[1..] && b == [b[0]] + b[1..];
    }
  }

  /** `strcmp(a, b) < 0`. */
  predicate Less(a: Str, b: Str) {
    Strcmp(a, b) < 0
  }

  /** Exchanging the arguments of `Strcmp` negates its result. */
  lemma {:induction false} StrcmpAntisymmetric(a: Str, b: Str)
    ensures Strcmp(b, a) == -Strcmp(a, b)
    decreases |a|
  {
    if |a| > 0 && |b| > 0 && a[0] == b[0] {
      StrcmpAntisymmetric(a[1..], b[1..]);
    }
  }

  /** `Less` is a strict total order: asymmetric, connected and transitive. */
  lemma LessAsymmetric(a: Str, b: Str)
    ensures Less(a, b) ==> !Less(b, a)
  {
    StrcmpAntisymmetric(a, b);
  }

  lemma LessConnected(a: Str, b: Str)
    ensures a != b ==> Less(a, b) || Less(b, a)
  {
    StrcmpAntisymmetric(a, b);
    StrcmpZero(a, b);
  }

  lemma LessIrreflexive(a: Str)
    ensures !Less(a, a)
  {
    StrcmpZero(a, a);
  }

  lemma {:induction false} LessTransitive(a: Str, b: Str, c: Str)
    requires Less(a, b) && Less(b, c)
    ensures Less(a, c)
    decreases |a|
  {
    if |a| > 0 && |b| > 0 && |c| > 0 && a[0] == b[0] == c[0] {
      LessTransitive(a[1..], b[1..], c[1..]);
    }
  }

  /** `!Less(b, a)`, i.e. `strcmp(a, b) <= 0`. */
  predicate LessEq(a: Str, b: Str) {
    !Less(b, a)
  }

  lemma LessEqTransitive(a: Str, b: Str, c: Str)
    requires LessEq(a, b) && LessEq(b, c)
    ensures LessEq(a, c)
  {
    if Less(c, a) {
      if a == b {
      } else if b == c {
      } else {
        LessConnected(a, b);
        LessConnected(b, c);
        LessTransitive(c, a, b);
        assert false;
      }
    }
  }

  lemma LessLessEqTransitive(a: Str, b: Str, c: Str)
    requires Less(a, b) && LessEq(b, c)
    ensures Less(a, c)
  {
    if b == c {
    } else {
      LessConnected(b, c);
      LessTransitive(a, b, c);
    }
  }

  /** The number of bytes `q_remove_head` copies into a buffer of `bufsize`
      bytes: `strlen(value)` capped at `bufsize - 1`, where the subtraction is
      on `size_t` and so wraps to SIZE_MAX when `bufsize` is 0. */
  function CopyLength(value: Str, bufsize: SizeT): (n: nat)
    ensures n <= |value|
    ensures bufsize >= 1 ==> n < bufsize
    ensures bufsize >= 1 && |value| < bufsize ==> n == |value|
    ensures bufsize >= 1 && |value| >= bufsize ==> n == bufsize - 1
    ensures bufsize == 0 && |value| <= SIZE_MAX ==> n == |value|
  {
    var cap := if bufsize == 0 then SIZE_MAX else bufsize - 1;
    if |value| > cap then cap else |value|
  }

  /** The bytes written into the caller's buffer: the copied prefix followed
      by a NUL terminator. */
  function CopyOut(value: Str, bufsize: SizeT): (out: seq<byte>)
    ensures 1 <= |out| <= |value| + 1 && out[|out| - 1] == 0
    ensures out[..|out| - 1] == value[..|out| - 1]
    ensures bufsize >= 1 ==> |out| <= bufsize
    ensures bufsize >= 1 ==> |out| - 1 == if |value| < bufsize then |value| else bufsize - 1
  {
    value[..CopyLength(value, bufsize)] + [0]
  }

  /** A buffer with room for the value and its terminator receives the value
      unchanged: the value stored by an insert is the value copied out by the
      remove that takes it. */
  lemma CopyOutWhole(value: Str, bufsize: SizeT)
    requires |value| < bufsize
    ensures CopyOut(value, bufsize) == value + [0]
  {
    assert value[..|value|] == value;
  }

  /** With `bufsize == 0` the wrapped cap lets the whole value through, so
      more bytes are written than the buffer holds. */
  lemma CopyOutOverflowsEmptyBuffer(value: Str)
    requires |value| <= SIZE_MAX
    ensures |CopyOut(value, 0)| == |value| + 1 > 0
  {
  }
}
