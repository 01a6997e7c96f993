/** Bytes, fixed-width integer fields and in-place patches: the vocabulary of every binary format here.
    Go's `int` is taken as unbounded; each conversion to a narrower type is written out with U8, U16 or U32. */
module Bytes {

  type byte = b: int | 0 <= b < 0x100

  const TWO_16 := 0x1_0000
  const TWO_32 := 0x1_0000_0000

  datatype Option<+T> = None | Some(value: T) {
    predicate IsFailure() { None? }

    function PropagateFailure<U>(): Option<U>
      requires None?
    {
      None
    }

    function Extract(): T
      requires Some?
    {
      value
    }
  }

  /** What a Go function that may return an error, or panic on an index out of range, does. */
  datatype Outcome<+T> = Ok(value: T) | Err | Panic

  function U8(x: nat): byte { x % 0x100 }

  function U16(x: nat): nat { x % TWO_16 }

  function U32(x: nat): nat { x % TWO_32 }

  lemma SmallU32(n: nat)
    ensures n < TWO_32 ==> U32(n) == n
  {
  }

  lemma SmallU16(n: nat)
    ensures n < TWO_16 ==> U16(n) == n
  {
  }

  function Min(a: int, b: int): int { if a <= b then a else b }

  lemma DivModUnique(x: int, a: nat, q: int, m: nat)
    requires m < a && x == q * a + m
    ensures x / a == q && x % a == m
  {
    SameQuotient(a, q, m, x / a, x % a);
  }

  lemma SameQuotient(a: nat, q: int, m: nat, q': int, m': nat)
    requires m < a && m' < a && q * a + m == q' * a + m'
    ensures q == q' && m == m'
  {
    if q > q' {
      MulStep(a, q, q');
    } else if q < q' {
      MulStep(a, q', q);
    }
  }

  lemma {:induction false} MulStep(a: nat, k: int, j: int)
    requires k > j
    ensures k * a >= j * a + a
    decreases k - j
  {
    if k > j + 1 {
      MulStep(a, k - 1, j);
      assert k * a == (k - 1) * a + a;
    }
  }

  function Zeros(n: nat): (r: seq<byte>)
    ensures |r| == n
  {
    seq(n, _ => 0)
  }

  function Le16(s: seq<byte>, off: nat): (v: nat)
    requires off + 2 <= |s|
    ensures v < TWO_16
  {
    s[off] as int + 0x100 * s[off + 1] as int
  }

  function Le32(s: seq<byte>, off: nat): (v: nat)
    requires off + 4 <= |s|
    ensures v < TWO_32
  {
    Le16(s, off) + 0x1_0000 * Le16(s, off + 2)
  }

  function PutLe16(v: nat): (r: seq<byte>)
    ensures |r| == 2
    ensures Le16(r, 0) == U16(v)
  {
    [v % 0x100, v / 0x100 % 0x100]
  }

  function PutLe32(v: nat): (r: seq<byte>)
    ensures |r| == 4
    ensures Le32(r, 0) == U32(v)
  {
    Halves(v);
    PutLe16(v) + PutLe16(v / 0x1_0000)
  }

  lemma Halves(v: nat)
    ensures U32(v) == U16(v) + 0x1_0000 * U16(v / 0x1_0000)
  {
    var low, high := v % TWO_16, v / TWO_16;
    var q, r := high / TWO_16, high % TWO_16;
    assert v == TWO_32 * q + (0x1_0000 * r + low);
  }

  /** s with b written over it from offset off on. */
  function Patch(s: seq<byte>, off: nat, b: seq<byte>): (r: seq<byte>)
    requires off + |b| <= |s|
    ensures |r| == |s|
    ensures forall i {:trigger r[i]} :: 0 <= i < |s| ==> r[i] == if off <= i < off + |b| then b[i - off] else s[i]
  {
    s[..off] + b + s[off + |b|..]
  }

  method PutUint16(a: array<byte>, off: nat, v: nat)
    requires off + 2 <= a.Length
    modifies a
    ensures a[..] == Patch(old(a[..]), off, PutLe16(v))
  {
    a[off], a[off + 1] := v % 0x100, v / 0x100 % 0x100;
  }

  method PutUint32(a: array<byte>, off: nat, v: nat)
    requires off + 4 <= a.Length
    modifies a
    ensures a[..] == Patch(old(a[..]), off, PutLe32(v))
  {
    PutUint16(a, off, v);
    PutUint16(a, off + 2, v / 0x1_0000);
  }

  /** `out := make([]byte, n); copy(out, s)` for n >= len(s). */
  method CopyInto(s: seq<byte>, n: nat) returns (a: array<byte>)
    requires |s| <= n
    ensures fresh(a) && a[..] == s + Zeros(n - |s|)
  {
    a := new byte[n](i => if 0 <= i < |s| then s[i] else 0);
  }

  method CopyOver(a: array<byte>, off: nat, b: seq<byte>)
    requires off + |b| <= a.Length
    modifies a
    ensures a[..] == Patch(old(a[..]), off, b)
  {
    for i := 0 to |b|
      invariant forall k :: 0 <= k < a.Length ==> a[k] == if off <= k < off + i then b[k - off] else old(a[k])
    {
      a[off + i] := b[i];
    }
  }
}
