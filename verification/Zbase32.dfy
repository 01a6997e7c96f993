/** z-base-32 (`zbase32`), the encoding of section 5.1.6 of RFC 6189: a shift register over a 64-bit signed accumulator,
    as a refinement of splitting a string of bits into groups of five. */
module Zbase32 {
  import opened Bytes

  const ALPHABET: string := "ybndrfg8ejkmcpqxot1uwisza345h769"
  const TWO_63 := 0x8000_0000_0000_0000
  const TWO_64 := 0x1_0000_0000_0000_0000

  /** What Go's 64-bit int keeps of an exact result. */
  function Wrap(x: int): (r: int)
    ensures -TWO_63 <= r < TWO_63
  {
    (x + TWO_63) % TWO_64 - TWO_63
  }

  function Pow2(n: nat): (r: nat)
    ensures r > 0
  {
    if n == 0 then 1 else 2 * Pow2(n - 1)
  }

  // ----- strings of bits

  type bits = seq<bool>

  /** The k low bits of v, highest first. */
  function ToBits(v: nat, k: nat): (b: bits)
    ensures |b| == k
  {
    if k == 0 then [] else ToBits(v / 2, k - 1) + [v % 2 == 1]
  }

  function Number(b: bits): (v: nat)
    ensures v < Pow2(|b|)
  {
    if b == [] then 0 else 2 * Number(b[..|b| - 1]) + if b[|b| - 1] then 1 else 0
  }

  function BitsOf(data: seq<byte>): (b: bits)
    ensures |b| == 8 * |data|
  {
    if data == [] then [] else ToBits(data[0], 8) + BitsOf(data[1..])
  }

  function Padding(n: nat): (b: bits)
    ensures |b| == n && forall i :: 0 <= i < n ==> !b[i]
  {
    seq(n, _ => false)
  }

  /** Groups of five bits, the last one filled up with zeros. */
  function Groups(b: bits): (g: seq<bits>)
    ensures |g| == (|b| + 4) / 5
    ensures forall i :: 0 <= i < |g| ==> |g[i]| == 5
  {
    if b == [] then []
    else if |b| < 5 then [b + Padding(5 - |b|)]
    else [b[..5]] + Groups(b[5..])
  }

  function Letter(group: bits): char
    requires |group| == 5
  {
    assert Pow2(5) == 32;
    ALPHABET[Number(group)]
  }

  function Letters(g: seq<bits>): (s: string)
    requires forall i :: 0 <= i < |g| ==> |g[i]| == 5
    ensures |s| == |g|
  {
    if g == [] then [] else [Letter(g[0])] + Letters(g[1..])
  }

  function Encoded(data: seq<byte>): (s: string)
    ensures |s| == (8 * |data| + 4) / 5
  {
    Letters(Groups(BitsOf(data)))
  }

  // ----- the shift register

  method Encode(data: seq<byte>) returns (s: string)
    ensures s == Encoded(data)
  {
    hide Letters, Groups, BitsOf, Number, Encoded, Wrap, Pow2, ToBits;
    s := [];
    var pending, value := 0, 0;
    ghost var held: bits := [];
    Start(data);
    for i := 0 to |data|
      invariant pending == |held| < 5
      invariant value % Pow2(pending) == Number(held)
      invariant Encoded(data) == s + Letters(Groups(held + BitsOf(data[i..])))
    {
      ShiftIn(value, held, data[i]);
      value := Wrap(value * 0x100) + data[i];
      pending := pending + 8;
      assert data[i..][0] == data[i] && data[i..][1..] == data[i + 1..];
      NextByte(held, data[i..]);
      held := held + ToBits(data[i], 8);
      while pending >= 5
        invariant pending == |held| < 13
        invariant value % Pow2(pending) == Number(held)
        invariant Encoded(data) == s + Letters(Groups(held + BitsOf(data[i + 1..])))
      {
        ShiftOut(value, held);
        NextGroup(s, held, BitsOf(data[i + 1..]));
        s := s + [ALPHABET[value / Pow2(pending - 5) % 0x20]];
        pending := pending - 5;
        held := held[5..];
      }
    }
    assert data[|data|..] == [];
    LastGroup(value, held);
    if pending > 0 {
      s := s + [ALPHABET[Wrap(value * Pow2(5 - pending)) % 0x20]];
    }
  }

  lemma Start(data: seq<byte>)
    ensures 0 % Pow2(0) == Number([])
    ensures Encoded(data) == [] + Letters(Groups([] + BitsOf(data[0..])))
  {
    assert data[0..] == data && [] + BitsOf(data) == BitsOf(data);
  }

  lemma NextByte(held: bits, data: seq<byte>)
    requires data != []
    ensures held + BitsOf(data) == held + ToBits(data[0], 8) + BitsOf(data[1..])
  {
  }

  lemma {:induction false} NumberConcat(a: bits, b: bits)
    ensures Number(a + b) == Number(a) * Pow2(|b|) + Number(b)
  {
    if b == [] {
      assert a + b == a;
    } else {
      var init := b[..|b| - 1];
      NumberConcat(a, init);
      assert Pow2(|b|) == 2 * Pow2(|init|);
      hide Pow2;
      var c := a + b;
      assert c[..|c| - 1] == a + init && c[|c| - 1] == b[|b| - 1];
      Doubled(Number(a), Pow2(|init|));
    }
  }

  lemma Doubled(n: nat, p: nat)
    ensures n * (2 * p) == 2 * (n * p)
  {
  }

  lemma {:induction false} NumberToBits(v: nat, k: nat)
    ensures Number(ToBits(v, k)) == v % Pow2(k)
  {
    if k > 0 {
      NumberToBits(v / 2, k - 1);
      var b := ToBits(v, k);
      assert b[..k - 1] == ToBits(v / 2, k - 1) && b[k - 1] == (v % 2 == 1);
      assert Pow2(k) == 2 * Pow2(k - 1);
      hide Pow2, ToBits;
      HalfMod(v, Pow2(k - 1));
    }
  }

  lemma HalfMod(v: nat, p: nat)
    requires p > 0
    ensures v % (2 * p) == 2 * (v / 2 % p) + v % 2
  {
    var h := v / 2;
    var q, m := h / p, h % p;
    assert v == q * (2 * p) + (2 * m + v % 2);
    DivModUnique(v, 2 * p, q, 2 * m + v % 2);
  }

  /** Powers used by the register. */
  lemma SmallPowers()
    ensures Pow2(0) == 1 && Pow2(1) == 2 && Pow2(2) == 4 && Pow2(3) == 8 && Pow2(4) == 16 && Pow2(5) == 32 && Pow2(6) == 64
    ensures Pow2(7) == 128 && Pow2(8) == 256 && Pow2(9) == 512 && Pow2(10) == 1024 && Pow2(11) == 2048 && Pow2(12) == 4096
  {
    assert Pow2(4) == 16;
    assert Pow2(8) == 256;
  }

  /** Shifting a byte in keeps the pending bits, whatever the wrap-around does to the bits above. */
  lemma ShiftIn(value: int, held: bits, b: byte)
    requires |held| < 5 && value % Pow2(|held|) == Number(held)
    ensures (Wrap(value * 0x100) + b) % Pow2(|held| + 8) == Number(held + ToBits(b, 8))
  {
    hide Number, ToBits, Wrap;
    NumberConcat(held, ToBits(b, 8));
    NumberToBits(b, 8);
    var p := Pow2(|held|);
    RegisterPowers(|held|);
    hide Pow2;
    WrapShift(value, 0x100, p, TWO_64 / (0x100 * p), b);
  }

  lemma RegisterPowers(n: nat)
    requires n < 5
    ensures Pow2(8) == 0x100 && Pow2(n + 8) == 0x100 * Pow2(n) && Pow2(5 - n) * Pow2(n) == 0x20
    ensures TWO_64 == TWO_64 / (0x100 * Pow2(n)) * (0x100 * Pow2(n))
  {
    SmallPowers();
    assert n == 0 || n == 1 || n == 2 || n == 3 || n == 4;
  }

  /** Wrapping changes a number by a multiple of 2 to the 64th, which no remainder by a smaller power of two sees. */
  lemma WrapShift(value: int, f: nat, p: nat, c: nat, low: nat)
    requires low < f && p > 0 && TWO_64 == c * (f * p)
    ensures (Wrap(value * f) + low) % (f * p) == value % p * f + low
  {
    var k := WrapCarry(value * f);
    var q, m := value / p, value % p;
    hide Wrap;
    Regroup(value, f, p, q, m, k, c, low);
    DivModUnique(Wrap(value * f) + low, f * p, q - k * c, m * f + low);
  }

  lemma WrapCarry(x: int) returns (k: int)
    ensures Wrap(x) == x - k * TWO_64
  {
    k := (x + TWO_63) / TWO_64;
  }

  lemma Regroup(value: int, f: nat, p: nat, q: int, m: nat, k: int, c: nat, low: nat)
    requires value == q * p + m && m < p && low < f
    ensures value * f - k * (c * (f * p)) + low == (q - k * c) * (f * p) + (m * f + low)
    ensures m * f + low < f * p
  {
    assert value * f == q * (f * p) + m * f;
    assert k * (c * (f * p)) == (k * c) * (f * p);
    MulStep(f, p, m);
  }

  /** The five highest pending bits make the emitted letter, and the rest stay pending. */
  lemma ShiftOut(value: int, held: bits)
    requires 5 <= |held| < 13 && value % Pow2(|held|) == Number(held)
    ensures value / Pow2(|held| - 5) % 0x20 == Number(held[..5])
    ensures value % Pow2(|held| - 5) == Number(held[5..])
  {
    hide Number;
    var high, low := held[..5], held[5..];
    assert held == high + low;
    NumberConcat(high, low);
    PowTimes32(|low|);
    assert Pow2(5) == 0x20 by { SmallPowers(); }
    hide Pow2;
    var p := Pow2(|low|);
    SplitTwice(value, p, value / (0x20 * p), Number(high), Number(low));
  }

  lemma PowTimes32(n: nat)
    ensures Pow2(n + 5) == 0x20 * Pow2(n)
  {
    assert Pow2(n + 2) == 4 * Pow2(n);
    assert Pow2(n + 4) == 4 * Pow2(n + 2);
  }

  lemma SplitTwice(value: int, p: nat, q: int, high: nat, low: nat)
    requires value == q * (0x20 * p) + (high * p + low) && high < 0x20 && low < p
    ensures value / p % 0x20 == high && value % p == low
  {
    assert value == (q * 0x20 + high) * p + low;
    DivModUnique(value, p, q * 0x20 + high, low);
  }

  lemma NextGroup(s: string, held: bits, rest: bits)
    requires |held| >= 5
    ensures Number(held[..5]) < 0x20
    ensures s + Letters(Groups(held + rest)) == s + [ALPHABET[Number(held[..5])]] + Letters(Groups(held[5..] + rest))
  {
    assert Pow2(5) == 0x20 by { SmallPowers(); }
    var all := held + rest;
    assert all[..5] == held[..5] && all[5..] == held[5..] + rest;
    var g := Groups(all);
    assert g[0] == all[..5] && g[1..] == Groups(all[5..]);
  }

  /** Pending bits at the end are filled up with zeros; none pending, no letter. */
  lemma LastGroup(value: int, held: bits)
    requires |held| < 5 && value % Pow2(|held|) == Number(held)
    ensures |held| > 0 ==> Letters(Groups(held + BitsOf([]))) == [ALPHABET[Wrap(value * Pow2(5 - |held|)) % 0x20]]
    ensures |held| == 0 ==> Letters(Groups(held + BitsOf([]))) == []
  {
    hide Number, Wrap, Pow2;
    assert held + BitsOf([]) == held;
    if held != [] {
      var n := |held|;
      var zeros := Padding(5 - n);
      RestFilled(value, held);
      var g := Groups(held);
      assert g == [held + zeros] && g[1..] == [];
    }
  }

  lemma RestFilled(value: int, held: bits)
    requires 0 < |held| < 5 && value % Pow2(|held|) == Number(held)
    ensures Wrap(value * Pow2(5 - |held|)) % 0x20 == Number(held + Padding(5 - |held|))
  {
    hide Number, Wrap;
    var n := |held|;
    NumberConcat(held, Padding(5 - n));
    ZeroNumber(5 - n);
    RegisterPowers(n);
    hide Pow2;
    WrapShift(value, Pow2(5 - n), Pow2(n), TWO_64 / 0x20, 0);
  }

  lemma {:induction false} ZeroNumber(n: nat)
    ensures Number(Padding(n)) == 0
  {
    if n > 0 {
      ZeroNumber(n - 1);
      assert Padding(n)[..n - 1] == Padding(n - 1);
    }
  }

  // ----- the inverse

  /** The first position of a letter in an alphabet. */
  function Position(c: char, alphabet: string): (r: Option<nat>)
    ensures r.Some? ==> r.value < |alphabet| && alphabet[r.value] == c
    ensures r.None? ==> c !in alphabet
  {
    if alphabet == [] then None
    else if alphabet[0] == c then Some(0)
    else
      var k :- Position(c, alphabet[1..]);
      Some(k + 1)
  }

  /** The bits that letters stand for, by the alphabet of the encoding's definition; None at any other character. */
  function Spread(s: string): (r: Option<bits>)
    ensures r.Some? ==> |r.value| == 5 * |s|
  {
    if s == [] then Some([])
    else
      var v :- Position(s[0], "ybndrfg8ejkmcpqxot1uwisza345h769");
      var rest :- Spread(s[1..]);
      Some(ToBits(v, 5) + rest)
  }

  /** Whole bytes; what is left over must be padding: fewer than five bits, all zero. */
  function Gather(b: bits): (r: Option<seq<byte>>) {
    if |b| < 8 then if b == Padding(|b|) && |b| < 5 then Some([]) else None
    else
      assert Pow2(8) == 0x100 by { SmallPowers(); }
      var rest :- Gather(b[8..]);
      Some([Number(b[..8]) as byte] + rest)
  }

  function Decode(s: string): Option<seq<byte>> {
    var b :- Spread(s);
    Gather(b)
  }

  lemma {:induction false} BitsRoundTrip(b: bits)
    ensures ToBits(Number(b), |b|) == b
  {
    if b != [] {
      BitsRoundTrip(b[..|b| - 1]);
    }
  }

  lemma {:induction false} GatherInverts(data: seq<byte>, n: nat)
    requires n < 5
    ensures Gather(BitsOf(data) + Padding(n)) == Some(data)
  {
    hide Number, ToBits, Pow2;
    var b := BitsOf(data) + Padding(n);
    if data == [] {
      assert b == Padding(n);
    } else {
      NumberToBits(data[0], 8);
      assert b[..8] == ToBits(data[0], 8) && b[8..] == BitsOf(data[1..]) + Padding(n);
      assert Pow2(8) == 0x100 by { SmallPowers(); }
      GatherInverts(data[1..], n);
      assert [data[0]] + data[1..] == data;
    }
  }

  lemma {:induction false} GatherIs(b: bits)
    requires Gather(b).Some?
    ensures 0 <= |b| - 8 * |Gather(b).value| < 5
    ensures b == BitsOf(Gather(b).value) + Padding(|b| - 8 * |Gather(b).value|)
  {
    if |b| >= 8 {
      GatherIs(b[8..]);
      BitsRoundTrip(b[..8]);
      assert b == b[..8] + b[8..];
    }
  }

  /** Every letter has its own place in the alphabet. */
  lemma PositionOf(i: nat)
    requires i < 32
    ensures Position(ALPHABET[i], ALPHABET) == Some(i)
  {
    var r := Position(ALPHABET[i], ALPHABET);
    Distinct(i, r.value);
  }

  lemma Distinct(i: nat, j: nat)
    requires i < 32 && j < 32 && ALPHABET[i] == ALPHABET[j]
    ensures i == j
  {
    PlaceOf(i);
    PlaceOf(j);
  }

  function Place(c: char): nat {
    match c
    case 'y' => 0
    case 'b' => 1
    case 'n' => 2
    case 'd' => 3
    case 'r' => 4
    case 'f' => 5
    case 'g' => 6
    case '8' => 7
    case 'e' => 8
    case 'j' => 9
    case 'k' => 10
    case 'm' => 11
    case 'c' => 12
    case 'p' => 13
    case 'q' => 14
    case 'x' => 15
    case 'o' => 16
    case 't' => 17
    case '1' => 18
    case 'u' => 19
    case 'w' => 20
    case 'i' => 21
    case 's' => 22
    case 'z' => 23
    case 'a' => 24
    case '3' => 25
    case '4' => 26
    case '5' => 27
    case 'h' => 28
    case '7' => 29
    case '6' => 30
    case '9' => 31
    case _ => 32
  }

  lemma PlaceOf(i: nat)
    requires i < 32
    ensures Place(ALPHABET[i]) == i
  {
  }

  function Flat(g: seq<bits>): bits {
    if g == [] then [] else g[0] + Flat(g[1..])
  }

  lemma {:induction false} FlatGroups(b: bits, n: nat)
    requires n < 5 && (|b| + n) % 5 == 0
    ensures Flat(Groups(b)) == b + Padding(n)
  {
    var g := Groups(b);
    if |b| >= 5 {
      FlatGroups(b[5..], n);
      assert g[1..] == Groups(b[5..]);
      assert b == b[..5] + b[5..];
    } else if b != [] {
      assert g[1..] == [];
    }
  }

  /** Reading letters undoes writing them. */
  lemma {:induction false} SpreadLetters(g: seq<bits>)
    requires forall i :: 0 <= i < |g| ==> |g[i]| == 5
    ensures Spread(Letters(g)) == Some(Flat(g))
  {
    hide Letter, ToBits;
    if g != [] {
      SpreadLetters(g[1..]);
      GroupLetter(g[0]);
      assert Letters(g)[1..] == Letters(g[1..]);
    }
  }

  /** Only the letters of these groups read as their bits. */
  lemma {:induction false} SpreadOnly(s: string, g: seq<bits>)
    requires forall i :: 0 <= i < |g| ==> |g[i]| == 5
    requires Spread(s) == Some(Flat(g))
    ensures s == Letters(g)
    decreases |g|
  {
    hide Letter, ToBits;
    FlatLength(g);
    if g != [] {
      var v := Position(s[0], ALPHABET).value;
      SameFront(ToBits(v, 5), Spread(s[1..]).value, g[0], Flat(g[1..]));
      LetterOfBits(v);
      SpreadOnly(s[1..], g[1..]);
      hide Spread, Position;
      assert s == [s[0]] + s[1..];
    }
  }

  lemma {:induction false} FlatLength(g: seq<bits>)
    requires forall i :: 0 <= i < |g| ==> |g[i]| == 5
    ensures |Flat(g)| == 5 * |g|
  {
    if g != [] {
      FlatLength(g[1..]);
    }
  }

  lemma SameFront(a: bits, b: bits, c: bits, d: bits)
    requires |a| == |c| && a + b == c + d
    ensures a == c && b == d
  {
    assert (a + b)[..|a|] == a && (c + d)[..|a|] == c;
    assert (a + b)[|a|..] == b && (c + d)[|a|..] == d;
  }

  lemma GroupLetter(group: bits)
    requires |group| == 5
    ensures var v := Position(Letter(group), ALPHABET); v.Some? && ToBits(v.value, 5) == group
  {
    assert Pow2(5) == 0x20 by { SmallPowers(); }
    PositionOf(Number(group));
    BitsRoundTrip(group);
  }

  lemma LetterOfBits(v: nat)
    requires v < 0x20
    ensures Letter(ToBits(v, 5)) == ALPHABET[v]
  {
    hide Number, ToBits, Pow2;
    SmallPowers();
    var b := ToBits(v, 5);
    NumberToBits(v, 5);
    assert Number(b) == v;
  }

  /** Every byte string is recovered from its encoding. */
  lemma EncodeRoundTrip(data: seq<byte>)
    ensures Decode(Encoded(data)) == Some(data)
  {
    hide BitsOf, Groups, Letters, Spread, Gather, Flat;
    var b := BitsOf(data);
    var n := 5 * ((|b| + 4) / 5) - |b|;
    SpreadLetters(Groups(b));
    FlatGroups(b, n);
    GatherInverts(data, n);
  }

  /** Exactly the encodings decode. */
  lemma DecodeAcceptsOnlyEncodings(s: string, data: seq<byte>)
    ensures Decode(s) == Some(data) <==> s == Encoded(data)
  {
    EncodeRoundTrip(data);
    if Decode(s) == Some(data) {
      OnlyEncodings(s, Spread(s).value, data);
    }
  }

  lemma OnlyEncodings(s: string, b: bits, data: seq<byte>)
    requires Spread(s) == Some(b) && Gather(b) == Some(data)
    ensures s == Encoded(data)
  {
    hide BitsOf, Groups, Letters, Spread, Gather, Flat;
    GatherIs(b);
    FlatGroups(BitsOf(data), |b| - 8 * |data|);
    SpreadOnly(s, Groups(BitsOf(data)));
  }
}
