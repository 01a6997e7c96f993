/** DER tag-length-value printing (`derTLV`, `setOf`, `concatAll`) and an independent reader that inverts it. */
module Der {
  import opened Bytes

  datatype Tlv = Tlv(tag: byte, content: seq<byte>)

  const TAG_INTEGER: byte := 0x02
  const TAG_OCTET_STRING: byte := 0x04
  const TAG_NULL: byte := 0x05
  const TAG_OID: byte := 0x06
  const TAG_SEQUENCE: byte := 0x30
  const TAG_SET: byte := 0x31
  const TAG_CONTEXT_0: byte := 0xA0

  // ----- printing

  /** The big-endian octets of n, none for zero. */
  function LenBytes(n: nat): seq<byte> {
    if n == 0 then [] else LenBytes(n / 0x100) + [n % 0x100]
  }

  /** byte(0x80 | k) in Go's arithmetic. */
  function LongFormOctet(k: nat): byte { 0x80 + k % 0x80 }

  function LengthOctets(n: nat): seq<byte> {
    if n < 0x80 then [n] else [LongFormOctet(|LenBytes(n)|)] + LenBytes(n)
  }

  function Encode(t: Tlv): seq<byte> {
    [t.tag] + LengthOctets(|t.content|) + t.content
  }

  function EncodeAll(ts: seq<Tlv>): seq<byte> {
    if ts == [] then [] else Encode(ts[0]) + EncodeAll(ts[1..])
  }

  /** A constructed value around the encodings of its elements. */
  function Node(tag: byte, elements: seq<Tlv>): Tlv {
    Tlv(tag, EncodeAll(elements))
  }

  method DerTlv(tag: byte, content: seq<byte>) returns (out: seq<byte>)
    ensures out == Encode(Tlv(tag, content))
  {
    out := [tag];
    var n := |content|;
    if n < 0x80 {
      out := out + [n];
    } else {
      var lenBytes: seq<byte> := [];
      var x: nat := n;
      while x > 0
        invariant LenBytes(n) == LenBytes(x) + lenBytes
      {
        assert LenBytes(x) + lenBytes == LenBytes(x / 0x100) + ([x % 0x100] + lenBytes);
        lenBytes := [x % 0x100] + lenBytes;
        x := x / 0x100;
      }
      out := out + [LongFormOctet(|lenBytes|)];
      out := out + lenBytes;
      assert out == [tag] + LengthOctets(n);
    }
    out := out + content;
  }

  function Flatten(parts: seq<seq<byte>>): seq<byte> {
    if parts == [] then [] else Flatten(parts[..|parts| - 1]) + parts[|parts| - 1]
  }

  method ConcatAll(parts: seq<seq<byte>>) returns (out: seq<byte>)
    ensures out == Flatten(parts)
  {
    out := [];
    for i := 0 to |parts|
      invariant out == Flatten(parts[..i])
    {
      assert parts[..i + 1][..i] == parts[..i];
      out := out + parts[i];
    }
    assert parts[..|parts|] == parts;
  }

  method SetOf(elements: seq<seq<byte>>) returns (out: seq<byte>)
    ensures out == Encode(Tlv(TAG_SET, Flatten(elements)))
  {
    var content := ConcatAll(elements);
    out := DerTlv(TAG_SET, content);
  }

  function Encodings(ts: seq<Tlv>): (r: seq<seq<byte>>)
    ensures |r| == |ts|
  {
    seq(|ts|, i requires 0 <= i < |ts| => Encode(ts[i]))
  }

  /** Appending one encoding after the other is what EncodeAll denotes. */
  lemma {:induction false} FlattenEncodings(ts: seq<Tlv>)
    ensures Flatten(Encodings(ts)) == EncodeAll(ts)
  {
    hide Encode;
    if ts != [] {
      var n := |ts| - 1;
      assert Encodings(ts)[..n] == Encodings(ts[..n]);
      FlattenEncodings(ts[..n]);
      EncodeAllAppend(ts[..n], [ts[n]]);
      assert ts[..n] + [ts[n]] == ts && [ts[n]][1..] == [];
      assert EncodeAll([ts[n]]) == Encode(ts[n]) + EncodeAll([]);
    }
  }

  lemma {:induction false} EncodeAllAppend(a: seq<Tlv>, b: seq<Tlv>)
    ensures EncodeAll(a + b) == EncodeAll(a) + EncodeAll(b)
  {
    if a == [] {
      assert a + b == b;
    } else {
      assert (a + b)[1..] == a[1..] + b;
      EncodeAllAppend(a[1..], b);
    }
  }

  // ----- reading, after section 8.1 and section 10.1 of ITU-T X.690

  function BeNat(s: seq<byte>): nat {
    if s == [] then 0 else 0x100 * BeNat(s[..|s| - 1]) + s[|s| - 1]
  }

  datatype Header = Header(length: nat, size: nat)

  /** The tag and length octets: single-octet tags only, definite minimal lengths only. */
  function ReadHeader(s: seq<byte>): Option<Header> {
    if |s| < 2 || s[0] % 0x20 == 0x1F then None
    else if s[1] < 0x80 then Some(Header(s[1], 2))
    else
      var k := s[1] - 0x80;
      if k == 0 || k == 0x7F || |s| < 2 + k || s[2] == 0 then None
      else
        var n := BeNat(s[2..2 + k]);
        if n < 0x80 then None else Some(Header(n, 2 + k))
  }

  function Read(s: seq<byte>): (r: Option<(Tlv, seq<byte>)>)
    ensures r.Some? ==> |r.value.1| < |s|
  {
    match ReadHeader(s)
    case None => None
    case Some(Header(n, h)) =>
      if |s| < h + n then None else Some((Tlv(s[0], s[h..h + n]), s[h + n..]))
  }

  function ReadAll(s: seq<byte>): Option<seq<Tlv>>
    decreases |s|
  {
    if s == [] then Some([]) else
    match Read(s)
    case None => None
    case Some((t, rest)) =>
      match ReadAll(rest)
      case None => None
      case Some(ts) => Some([t] + ts)
  }

  /** One value and nothing after it. */
  function ReadOne(s: seq<byte>): Option<Tlv> {
    match Read(s)
    case Some((t, rest)) => if rest == [] then Some(t) else None
    case None => None
  }

  // ----- the reader inverts the printer

  /** Lengths a Go int can hold; the tag has no room for a second octet otherwise. */
  predicate Encodable(t: Tlv) {
    ShortTag(t) && |t.content| < 0x8000_0000_0000_0000
  }

  predicate ShortTag(t: Tlv) { t.tag % 0x20 != 0x1F }

  lemma {:induction false} LenBytesValue(n: nat)
    ensures BeNat(LenBytes(n)) == n
    ensures n > 0 ==> LenBytes(n) != [] && LenBytes(n)[0] != 0
  {
    if n > 0 {
      LenBytesValue(n / 0x100);
      var s := LenBytes(n);
      assert s[..|s| - 1] == LenBytes(n / 0x100);
    }
  }

  function Pow256(k: nat): nat { if k == 0 then 1 else 0x100 * Pow256(k - 1) }

  lemma {:induction false} LenBytesSize(n: nat, k: nat)
    requires n < Pow256(k)
    ensures |LenBytes(n)| <= k
  {
    if n > 0 {
      LenBytesSize(n / 0x100, k - 1);
    }
  }

  lemma Pow256Of8()
    ensures Pow256(8) == 0x1_0000_0000_0000_0000
  {
    assert Pow256(4) == 0x1_0000_0000;
    assert Pow256(8) == 0x100 * (0x100 * (0x100 * (0x100 * Pow256(4))));
  }

  lemma HeaderReads(t: Tlv, rest: seq<byte>)
    requires Encodable(t)
    ensures ReadHeader(Encode(t) + rest) == Some(Header(|t.content|, 1 + |LengthOctets(|t.content|)|))
  {
    var n := |t.content|;
    var s := Encode(t) + rest;
    if n >= 0x80 {
      var b := LenBytes(n);
      LenBytesValue(n);
      Pow256Of8();
      LenBytesSize(n, 8);
      assert s[2..2 + |b|] == b;
    }
  }

  /** Decoding an encoding followed by anything gives the value and that rest back, for every content length. */
  lemma ReadInvertsEncode(t: Tlv, rest: seq<byte>)
    requires Encodable(t)
    ensures Read(Encode(t) + rest) == Some((t, rest))
  {
    HeaderReads(t, rest);
    var s := Encode(t) + rest;
    var h := 1 + |LengthOctets(|t.content|)|;
    assert s[h..h + |t.content|] == t.content;
    assert s[h + |t.content|..] == rest;
  }

  /** A tag with all five number bits set cannot be read back: the printer has no high-tag-number form. */
  lemma EncodableIffReadable(t: Tlv)
    requires |t.content| < 0x8000_0000_0000_0000
    ensures Read(Encode(t)) == Some((t, [])) <==> ShortTag(t)
  {
    if ShortTag(t) {
      ReadInvertsEncode(t, []);
      assert Encode(t) + [] == Encode(t);
    }
  }

  lemma {:induction false} LenBytesInvertsBeNat(s: seq<byte>)
    requires s != [] ==> s[0] != 0
    ensures LenBytes(BeNat(s)) == s
  {
    if s != [] {
      var p := s[..|s| - 1];
      LenBytesInvertsBeNat(p);
      var n := BeNat(s);
      assert n / 0x100 == BeNat(p) && n % 0x100 == s[|s| - 1];
      if p != [] {
        BeNatPositive(p);
      }
      assert s == p + [s[|s| - 1]];
    }
  }

  lemma {:induction false} BeNatPositive(s: seq<byte>)
    requires s != [] && s[0] != 0
    ensures BeNat(s) > 0
  {
    if |s| > 1 {
      BeNatPositive(s[..|s| - 1]);
    }
  }

  /** Whatever the reader accepts is the printer's output: the length form is the unique minimal one. */
  lemma ReadAcceptsOnlyEncodings(s: seq<byte>)
    requires Read(s).Some?
    ensures var (t, rest) := Read(s).value; s == Encode(t) + rest
  {
    var Header(n, h) := ReadHeader(s).value;
    HeaderIsMinimal(s);
    assert s == [s[0]] + s[1..h] + s[h..h + n] + s[h + n..];
  }

  lemma HeaderIsMinimal(s: seq<byte>)
    requires ReadHeader(s).Some?
    ensures var Header(n, h) := ReadHeader(s).value; 1 <= h <= |s| && s[1..h] == LengthOctets(n)
  {
    var Header(n, h) := ReadHeader(s).value;
    if s[1] >= 0x80 {
      LenBytesInvertsBeNat(s[2..h]);
      assert s[1..h] == [s[1]] + s[2..h];
    }
  }

  lemma {:induction false} ReadAllInvertsEncodeAll(ts: seq<Tlv>)
    requires forall t :: t in ts ==> Encodable(t)
    ensures ReadAll(EncodeAll(ts)) == Some(ts)
  {
    if ts != [] {
      ReadInvertsEncode(ts[0], EncodeAll(ts[1..]));
      ReadAllInvertsEncodeAll(ts[1..]);
      assert ts == [ts[0]] + ts[1..];
    }
  }

  /** A whole constructed value decodes to its tag and its list of elements. */
  lemma NodeRoundTrip(tag: byte, elements: seq<Tlv>)
    requires Encodable(Node(tag, elements))
    requires forall i :: 0 <= i < |elements| ==> ShortTag(elements[i])
    ensures ReadOne(Encode(Node(tag, elements))) == Some(Node(tag, elements))
    ensures ReadAll(Node(tag, elements).content) == Some(elements)
  {
    var node := Node(tag, elements);
    ReadInvertsEncode(node, []);
    assert Encode(node) + [] == Encode(node);
    ElementsFit(elements);
    ReadAllInvertsEncodeAll(elements);
  }

  lemma {:induction false} ElementsFit(ts: seq<Tlv>)
    ensures forall t :: t in ts ==> |t.content| < |EncodeAll(ts)|
  {
    if ts != [] {
      ElementsFit(ts[1..]);
      assert ts == [ts[0]] + ts[1..];
    }
  }

  /** No two values share an encoding, and no encoding is a proper prefix of another. */
  lemma EncodeInjective(a: Tlv, b: Tlv, x: seq<byte>, y: seq<byte>)
    requires Encodable(a) && Encodable(b) && Encode(a) + x == Encode(b) + y
    ensures a == b && x == y
  {
    ReadInvertsEncode(a, x);
    ReadInvertsEncode(b, y);
  }
}
