/** The PE image checksum (`peChecksum`, `recomputeChecksum`): a folding sum of 16-bit words,
    specified by a plain sum of weighted bytes and one closed formula. */
module PeChecksum {
  import opened Bytes

  /** What byte b at index i adds to the sum of little-endian words. The words starting at off and off + 2 are skipped. */
  function Weighted(off: nat, i: nat, b: byte): nat {
    var start := i - i % 2;
    if start == off || start == off + 2 then 0 else if i % 2 == 0 then b else 0x100 * (b as int)
  }

  function WordSum(d: seq<byte>, off: nat): nat {
    if d == [] then 0 else WordSum(d[..|d| - 1], off) + Weighted(off, |d| - 1, d[|d| - 1])
  }

  /** The representative of s modulo 0xffff that end-around carries leave: 1 .. 0xffff for every positive s. */
  function OnesSum(s: nat): (r: nat)
    ensures r <= 0xffff
  {
    if s == 0 then 0 else 1 + (s - 1) % 0xffff
  }

  function Checksum(d: seq<byte>, off: nat): nat {
    U32(OnesSum(WordSum(d, off)) + |d|)
  }

  function Rechecksummed(d: seq<byte>, off: nat): (r: seq<byte>)
    requires off + 4 <= |d|
    ensures |r| == |d|
  {
    Patch(d, off, PutLe32(Checksum(Patch(d, off, PutLe32(0)), off)))
  }

  function Fold(x: nat): nat { x % 0x1_0000 + x / 0x1_0000 }

  lemma FoldKeepsOnesSum(s: nat, w: nat)
    requires w <= 0xffff
    ensures Fold(OnesSum(s) + w) == OnesSum(s + w)
  {
    if s > 0 {
      var q, r := (s - 1) / 0xffff, (s - 1) % 0xffff;
      if r + w < 0xffff {
        DivModUnique(s - 1 + w, 0xffff, q, r + w);
      } else {
        DivModUnique(s - 1 + w, 0xffff, q + 1, r + w - 0xffff);
      }
    }
  }

  lemma WordSumExtends(d: seq<byte>, off: nat, i: nat)
    requires i < |d|
    ensures WordSum(d[..i + 1], off) == WordSum(d[..i], off) + Weighted(off, i, d[i])
  {
    assert d[..i + 1][..i] == d[..i];
  }

  function WordAt(d: seq<byte>, i: nat): (w: nat)
    requires i < |d|
    ensures w <= 0xffff
  {
    if i + 1 < |d| then Le16(d, i) else d[i]
  }

  lemma WordSumStep(d: seq<byte>, off: nat, i: nat)
    requires i % 2 == 0 && i < |d|
    ensures WordSum(d[..Min(i + 2, |d|)], off)
         == WordSum(d[..i], off) + if i == off || i == off + 2 then 0 else WordAt(d, i)
  {
    WordSumExtends(d, off, i);
    if i + 1 < |d| {
      WordSumExtends(d, off, i + 1);
    }
  }

  lemma EmptyWordSum(off: nat)
    ensures OnesSum(WordSum([], off)) == 0
  {
  }

  method PeChecksum(data: array<byte>, checksumOff: nat) returns (r: nat)
    ensures r == Checksum(data[..], checksumOff)
  {
    hide WordSum, OnesSum, Fold;
    ghost var d := data[..];
    EmptyWordSum(checksumOff);
    var sum := 0;
    var n := data.Length;
    var i := 0;
    while i < n
      invariant i % 2 == 0 && i <= n + 1
      invariant sum == OnesSum(WordSum(d[..Min(i, n)], checksumOff))
    {
      WordSumStep(d, checksumOff, i);
      if i == checksumOff || i == checksumOff + 2 {
        i := i + 2;
        continue;
      }
      var word := if i + 1 < n then data[i] as int + 0x100 * data[i + 1] as int else data[i];
      FoldKeepsOnesSum(WordSum(d[..i], checksumOff), WordAt(d, i));
      sum := sum + word;
      sum := Fold(sum);
      i := i + 2;
    }
    assert d[..n] == d;
    FoldKeepsOnesSum(WordSum(d, checksumOff), 0);
    sum := Fold(sum);
    sum := Fold(sum);
    sum := sum + n;
    r := U32(sum);
  }

  method RecomputeChecksum(data: array<byte>, checksumOff: nat)
    requires checksumOff + 4 <= data.Length
    modifies data
    ensures data[..] == Rechecksummed(old(data[..]), checksumOff)
  {
    PutUint32(data, checksumOff, 0);
    var sum := PeChecksum(data, checksumOff);
    PutUint32(data, checksumOff, sum);
    assert data[..] == Rechecksummed(old(data[..]), checksumOff);
  }

  // ----- what the sum depends on

  lemma {:induction false} WordSumUpdate(d: seq<byte>, off: nat, i: nat, b: byte)
    requires i < |d|
    ensures WordSum(d[i := b], off) + Weighted(off, i, d[i]) == WordSum(d, off) + Weighted(off, i, b)
  {
    var n := |d| - 1;
    if i == n {
      assert d[i := b][..n] == d[..n];
    } else {
      assert d[i := b][..n] == d[..n][i := b];
      WordSumUpdate(d[..n], off, i, b);
    }
  }

  /** At an even field offset a byte outside the field counts once at an even index and 256 times at an odd one. */
  lemma OutsideByteCounts(d: seq<byte>, off: nat, i: nat, b: byte)
    requires off % 2 == 0 && i < |d| && !(off <= i < off + 4)
    ensures WordSum(d[i := b], off) - WordSum(d, off) == (if i % 2 == 0 then 1 else 256) * (b - d[i])
  {
    WordSumUpdate(d, off, i, b);
  }

  lemma {:induction false} ZerosSumToNothing(n: nat, off: nat)
    ensures WordSum(Zeros(n), off) == 0
  {
    if n > 0 {
      ZerosSumToNothing(n - 1, off);
      WordSumExtends(Zeros(n), off, n - 1);
      assert Zeros(n)[..n] == Zeros(n) && Zeros(n)[..n - 1] == Zeros(n - 1);
    }
  }

  /** Four patched bytes change the sum by exactly their weighted difference. */
  lemma WordSumPatch4(d: seq<byte>, off: nat, at: nat, b: seq<byte>)
    requires at + 4 <= |d| && |b| == 4
    ensures WordSum(Patch(d, at, b), off)
         + Weighted(off, at, d[at]) + Weighted(off, at + 1, d[at + 1]) + Weighted(off, at + 2, d[at + 2]) + Weighted(off, at + 3, d[at + 3])
         == WordSum(d, off)
         + Weighted(off, at, b[0]) + Weighted(off, at + 1, b[1]) + Weighted(off, at + 2, b[2]) + Weighted(off, at + 3, b[3])
  {
    var d1 := d[at := b[0]];
    var d2 := d1[at + 1 := b[1]];
    var d3 := d2[at + 2 := b[2]];
    var d4 := d3[at + 3 := b[3]];
    WordSumUpdate(d, off, at, b[0]);
    WordSumUpdate(d1, off, at + 1, b[1]);
    WordSumUpdate(d2, off, at + 2, b[2]);
    WordSumUpdate(d3, off, at + 3, b[3]);
    assert d4 == Patch(d, at, b);
  }

  /** An even-aligned CheckSum field does not influence the checksum. */
  lemma ChecksumIgnoresField(d: seq<byte>, off: nat, b: seq<byte>)
    requires off % 2 == 0 && off + 4 <= |d| && |b| == 4
    ensures Checksum(Patch(d, off, b), off) == Checksum(d, off)
  {
    WordSumPatch4(d, off, off, b);
  }

  ghost predicate StoresOwnChecksum(d: seq<byte>, off: nat)
    requires off + 4 <= |d|
  {
    Le32(d, off) == Checksum(d, off)
  }

  /** A recomputed checksum is the checksum of the file that carries it, and of the file before. */
  lemma RecomputedIsStable(d: seq<byte>, off: nat)
    requires off % 2 == 0 && off + 4 <= |d|
    ensures StoresOwnChecksum(Rechecksummed(d, off), off)
    ensures Checksum(Rechecksummed(d, off), off) == Checksum(d, off)
    ensures Rechecksummed(Rechecksummed(d, off), off) == Rechecksummed(d, off)
  {
    hide PutLe32, Le32, WordSum, OnesSum;
    var zero := PutLe32(0);
    var z := Patch(d, off, zero);
    var v := Checksum(z, off);
    var b := PutLe32(v);
    ChecksumIgnoresField(d, off, zero);
    StoredStable(d, off, b, v);
    PatchTwice(d, off, b, zero);
  }

  lemma StoredStable(d: seq<byte>, off: nat, b: seq<byte>, v: nat)
    requires off % 2 == 0 && off + 4 <= |d| && |b| == 4 && v == Checksum(d, off) && Le32(b, 0) == v
    ensures StoresOwnChecksum(Patch(d, off, b), off)
    ensures Checksum(Patch(d, off, b), off) == v
  {
    ChecksumIgnoresField(d, off, b);
    FieldReads(d, off, b);
  }

  lemma FieldReads(d: seq<byte>, off: nat, b: seq<byte>)
    requires off + 4 <= |d| && |b| == 4
    ensures Le32(Patch(d, off, b), off) == Le32(b, 0)
  {
    var p := Patch(d, off, b);
    assert p[off] == b[0] && p[off + 1] == b[1] && p[off + 2] == b[2] && p[off + 3] == b[3];
  }

  lemma PatchTwice(d: seq<byte>, off: nat, b: seq<byte>, c: seq<byte>)
    requires off + |b| <= |d| && |c| == |b|
    ensures Patch(Patch(d, off, b), off, c) == Patch(d, off, c)
  {
  }

  /** No 32-bit truncation happens exactly while the folded sum and the length fit together. */
  lemma ChecksumTruncation(d: seq<byte>, off: nat)
    ensures Checksum(d, off) == OnesSum(WordSum(d, off)) + |d| <==> OnesSum(WordSum(d, off)) + |d| < TWO_32
    ensures |d| <= TWO_32 - 0x1_0000 ==> Checksum(d, off) == OnesSum(WordSum(d, off)) + |d|
  {
  }

  /** What the four stored bytes themselves add to the sum when they sit at an odd offset. */
  function OddShare(b: seq<byte>): nat
    requires |b| == 4
  {
    0x100 * (b[0] as int) + b[1] as int + 0x100 * (b[2] as int) + b[3] as int
  }

  /** At an odd offset the skip test never fires, and the stored value is the checksum of its own file exactly when it is
      a multiple of 0xffff and the sum is not zero, or it is zero itself. */
  lemma RecomputedAtOddOffset(d: seq<byte>, off: nat)
    requires off % 2 == 1 && off + 4 <= |d|
    ensures var z := Patch(d, off, PutLe32(0));
            var stored := Checksum(z, off);
            StoresOwnChecksum(Rechecksummed(d, off), off) <==> stored == 0 || (WordSum(z, off) > 0 && stored % 0xffff == 0)
  {
    hide Le32, WordSum, OnesSum, OddShare, StoresOwnChecksum;
    var z := Patch(d, off, PutLe32(0));
    var b := PutLe32(Checksum(z, off));
    PatchTwice(d, off, PutLe32(0), b);
    assert z[off] == z[off + 1] == z[off + 2] == z[off + 3] == 0;
    StoredAtOdd(z, off, b);
    OddShareResidue(b);
  }

  /** 0x100 times 0x100 is 1 modulo 0xffff: moving the field by one byte does not change which values are multiples. */
  lemma OddShareResidue(b: seq<byte>)
    requires |b| == 4
    ensures OddShare(b) == 0 <==> Le32(b, 0) == 0
    ensures OddShare(b) % 0xffff == 0 <==> Le32(b, 0) % 0xffff == 0
  {
    var b0, b1, b2, b3: int := b[0], b[1], b[2], b[3];
    assert Le32(b, 0) == b0 + 0x100 * b1 + 0x1_0000 * b2 + 0x100_0000 * b3;
    assert OddShare(b) == 0x100 * b0 + b1 + 0x100 * b2 + b3;
    MultiplesAgree(OddShare(b), Le32(b, 0), b1 + 0x100 * b2 + 0x1_0001 * b3);
    MultiplesAgree(Le32(b, 0), OddShare(b), b0 - 0x100 * b3);
  }

  lemma MultiplesAgree(x: nat, y: nat, k: int)
    requires x == 0x100 * y - 0xffff * k
    ensures y % 0xffff == 0 ==> x % 0xffff == 0
  {
    if y % 0xffff == 0 {
      var q := y / 0xffff;
      DivModUnique(x, 0xffff, 0x100 * q - k, 0);
    }
  }

  lemma StoredAtOdd(z: seq<byte>, off: nat, b: seq<byte>)
    requires off % 2 == 1 && off + 4 <= |z| && |b| == 4 && Le32(b, 0) == Checksum(z, off)
    requires z[off] == z[off + 1] == z[off + 2] == z[off + 3] == 0
    ensures StoresOwnChecksum(Patch(z, off, b), off)
            <==> OddShare(b) == 0 || (WordSum(z, off) > 0 && OddShare(b) % 0xffff == 0)
  {
    hide WordSum, OnesSum, Le32, OddShare;
    var share := OddShare(b);
    FieldReads(z, off, b);
    WordSumOddField(z, off, b);
    OnesSumPeriod(WordSum(z, off), share);
    SameLow32(OnesSum(WordSum(z, off) + share), OnesSum(WordSum(z, off)), |z|);
  }

  lemma WordSumOddField(z: seq<byte>, off: nat, b: seq<byte>)
    requires off % 2 == 1 && off + 4 <= |z| && |b| == 4
    requires z[off] == z[off + 1] == z[off + 2] == z[off + 3] == 0
    ensures WordSum(Patch(z, off, b), off) == WordSum(z, off) + OddShare(b)
  {
    hide WordSum;
    WordSumPatch4(z, off, off, b);
  }

  lemma SameLow32(x: nat, y: nat, n: nat)
    requires x <= 0xffff && y <= 0xffff
    ensures U32(x + n) == U32(y + n) <==> x == y
  {
    var q, r := n / TWO_32, n % TWO_32;
    assert x + n == TWO_32 * q + (x + r) && y + n == TWO_32 * q + (y + r);
    Low32(q, x + r);
    Low32(q, y + r);
  }

  lemma Low32(q: nat, r: nat)
    requires r < 2 * TWO_32
    ensures U32(TWO_32 * q + r) == if r < TWO_32 then r else r - TWO_32
  {
    if r >= TWO_32 {
      assert TWO_32 * q + r == TWO_32 * (q + 1) + (r - TWO_32);
    }
  }

  lemma OnesSumPeriod(s: nat, c: nat)
    ensures OnesSum(s + c) == OnesSum(s) <==> c == 0 || (s > 0 && c % 0xffff == 0)
  {
    if s > 0 {
      var q, r := (s - 1) / 0xffff, (s - 1) % 0xffff;
      var p, t := c / 0xffff, c % 0xffff;
      assert s + c - 1 == 0xffff * (q + p) + (r + t);
      if r + t < 0xffff {
        assert (s + c - 1) % 0xffff == r + t;
      } else {
        assert s + c - 1 == 0xffff * (q + p + 1) + (r + t - 0xffff);
        assert (s + c - 1) % 0xffff == r + t - 0xffff;
      }
    }
  }

  /** A six-byte file with its field at offset 1 whose recomputed checksum is not its own checksum. */
  lemma OddOffsetCounterexample()
    ensures var d: seq<byte> := [1, 0, 0, 0, 0, 0];
            !StoresOwnChecksum(Rechecksummed(d, 1), 1)
  {
    hide WordSum, Checksum, StoresOwnChecksum, Rechecksummed;
    var d: seq<byte> := [1, 0, 0, 0, 0, 0];
    assert Patch(d, 1, PutLe32(0)) == d;
    SixByteChecksum(d);
    RecomputedAtOddOffset(d, 1);
  }

  lemma SixByteChecksum(d: seq<byte>)
    requires d == [1, 0, 0, 0, 0, 0]
    ensures Checksum(d, 1) == 7
  {
    hide WordSum;
    WordSumOf6(d, 1);
  }

  lemma WordSumOf6(d: seq<byte>, off: nat)
    requires |d| == 6
    ensures WordSum(d, off) == Weighted(off, 0, d[0]) + Weighted(off, 1, d[1]) + Weighted(off, 2, d[2])
                             + Weighted(off, 3, d[3]) + Weighted(off, 4, d[4]) + Weighted(off, 5, d[5])
  {
    WordSumExtends(d, off, 0);
    WordSumExtends(d, off, 1);
    WordSumExtends(d, off, 2);
    WordSumExtends(d, off, 3);
    WordSumExtends(d, off, 4);
    WordSumExtends(d, off, 5);
    assert d[..6] == d && d[..0] == [];
  }
}
