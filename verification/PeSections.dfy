/** Appending a section to an image in place of its header padding (`appendSection`), and an independent walk over the
    section table of the result. */
module PeSections {
  import opened Bytes
  import opened PeChecksum
  import opened PeLayout

  const INITIALIZED_DATA_READ := 0x4000_0040

  function Max(a: nat, b: nat): nat { if a >= b then a else b }

  function SectionHeader(name: seq<byte>, size: nat, vma: nat, rawSize: nat, rawOffset: nat): (r: seq<byte>)
    requires |name| <= 8
    ensures |r| == SECTION_HEADER_SIZE
  {
    name + Zeros(8 - |name|) + PutLe32(size) + PutLe32(vma) + PutLe32(rawSize) + PutLe32(rawOffset)
    + Zeros(12) + PutLe32(INITIALIZED_DATA_READ)
  }

  function SizeOfHeaders(pe: seq<byte>, l: Layout): nat
    requires l.SecurityDirEnd() <= |pe|
  {
    LayoutOffsets(l);
    Le32(pe, l.SizeOfHeadersOff())
  }

  function SizeOfImage(pe: seq<byte>, l: Layout): nat
    requires l.SecurityDirEnd() <= |pe|
  {
    LayoutOffsets(l);
    Le32(pe, l.SizeOfImageOff())
  }

  function InsertAt(l: Layout): nat { l.SectionTable() + l.numberOfSections * SECTION_HEADER_SIZE }

  predicate HeaderRoom(pe: seq<byte>, l: Layout)
    requires l.SecurityDirEnd() <= |pe|
  {
    l.SectionTable() + (l.numberOfSections + 1) * SECTION_HEADER_SIZE <= SizeOfHeaders(pe, l)
  }

  /** pe followed by the padding block, the data copied to the block's start. */
  function Grown(pe: seq<byte>, l: Layout, data: seq<byte>): (r: seq<byte>)
    requires l.fileAlignment > 0
    ensures |r| == Align(|pe|, l.fileAlignment) + Align(|data|, l.fileAlignment)
  {
    pe + (data + Zeros(Align(|pe|, l.fileAlignment) - |pe| + Align(|data|, l.fileAlignment) - |data|))
  }

  function NewHeader(pe: seq<byte>, l: Layout, name: seq<byte>, data: seq<byte>, vma: nat): (r: seq<byte>)
    requires |name| <= 8
    ensures |r| == SECTION_HEADER_SIZE
  {
    SectionHeader(name, |data|, vma, Align(|data|, l.fileAlignment), Align(|pe|, l.fileAlignment))
  }

  function WithCount(d: seq<byte>, l: Layout): (r: seq<byte>)
    requires l.SecurityDirEnd() <= |d|
    ensures |r| == |d|
  {
    Patch(d, l.NumberOfSectionsOff(), PutLe16(l.numberOfSections + 1))
  }

  function WithSizeOfImage(d: seq<byte>, l: Layout, end: nat): (r: seq<byte>)
    requires l.SecurityDirEnd() <= |d|
    ensures |r| == |d|
  {
    LayoutOffsets(l);
    Patch(d, l.SizeOfImageOff(), PutLe32(Max(SizeOfImage(d, l), Align(end, l.sectionAlignment))))
  }

  /** Every store of `appendSection` but the last one, the checksum. */
  function Unsummed(pe: seq<byte>, l: Layout, name: seq<byte>, data: seq<byte>, vma: nat): (r: seq<byte>)
    requires |name| <= 8 && l.fileAlignment > 0 && l.SecurityDirEnd() <= |pe|
    requires InsertAt(l) + SECTION_HEADER_SIZE <= |Grown(pe, l, data)|
    ensures |r| == |Grown(pe, l, data)|
  {
    WithSizeOfImage(WithCount(Patch(Grown(pe, l, data), InsertAt(l), NewHeader(pe, l, name, data, vma)), l), l, vma + |data|)
  }

  function Appended(pe: seq<byte>, name: seq<byte>, data: seq<byte>, vma: nat): Outcome<seq<byte>> {
    if |name| > 8 then Err else
    match Parse(pe)
    case Err => Err
    case Panic => Panic
    case Ok(l) =>
      if !HeaderRoom(pe, l) then Err
      else if InsertAt(l) + SECTION_HEADER_SIZE > |Grown(pe, l, data)| then Panic
      else
        var d := Unsummed(pe, l, name, data, vma);
        match Parse(d)
        case Err => Err
        case Panic => Panic
        case Ok(l2) => LayoutOffsets(l2); Ok(Rechecksummed(d, l2.ChecksumOff()))
  }

  method GrowBuffer(pe: array<byte>, l: Layout, data: seq<byte>) returns (out: array<byte>)
    requires l.fileAlignment > 0
    ensures fresh(out) && out[..] == Grown(pe[..], l, data)
  {
    var rawSize := Align(|data|, l.fileAlignment);
    var rawOffset := Align(pe.Length, l.fileAlignment);
    out := CopyInto(pe[..] + data, rawOffset + rawSize);
    assert out[..] == Grown(pe[..], l, data);
  }

  method StoreFields(out: array<byte>, l: Layout, hdr: seq<byte>, end: nat)
    requires l.SecurityDirEnd() <= out.Length && InsertAt(l) + |hdr| <= out.Length
    modifies out
    ensures out[..] == WithSizeOfImage(WithCount(Patch(old(out[..]), InsertAt(l), hdr), l), l, end)
  {
    hide Le32, PutLe32, PutLe16, Align, Patch;
    LayoutOffsets(l);
    CopyOver(out, InsertAt(l), hdr);
    ghost var d1 := out[..];
    PutUint16(out, l.NumberOfSectionsOff(), l.numberOfSections + 1);
    ghost var d2 := out[..];
    assert d2 == WithCount(d1, l);
    var newSizeOfImage := Align(end, l.sectionAlignment);
    var cur := SizeOfImage(out[..], l);
    if cur > newSizeOfImage {
      newSizeOfImage := cur;
    }
    PutUint32(out, l.SizeOfImageOff(), newSizeOfImage);
  }

  method AppendSection(pe: array<byte>, name: seq<byte>, data: seq<byte>, vma: nat) returns (r: Outcome<array<byte>>)
    ensures r.Ok? ==> fresh(r.value) && Appended(pe[..], name, data, vma) == Ok(r.value[..])
    ensures r == Err <==> Appended(pe[..], name, data, vma) == Err
    ensures r == Panic <==> Appended(pe[..], name, data, vma) == Panic
  {
    hide Parse, Rechecksummed, Unsummed, Grown, SectionHeader;
    if |name| > 8 {
      return Err;
    }
    var parsed := Parse(pe[..]);
    if parsed == Err {
      return Err;
    } else if parsed == Panic {
      return Panic;
    }
    var l := parsed.value;
    ParsedBounds(pe[..], l);
    if !HeaderRoom(pe[..], l) {
      return Err;
    }
    var out := GrowBuffer(pe, l, data);
    if InsertAt(l) + SECTION_HEADER_SIZE > out.Length {
      return Panic;
    }
    StoreFields(out, l, NewHeader(pe[..], l, name, data, vma), vma + |data|);
    UnsummedIs(pe[..], l, name, data, vma, out[..]);
    var reparsed := Parse(out[..]);
    if reparsed == Err {
      return Err;
    } else if reparsed == Panic {
      return Panic;
    }
    ParsedBounds(out[..], reparsed.value);
    LayoutOffsets(reparsed.value);
    RecomputeChecksum(out, reparsed.value.ChecksumOff());
    return Ok(out);
  }

  lemma UnsummedIs(pe: seq<byte>, l: Layout, name: seq<byte>, data: seq<byte>, vma: nat, d: seq<byte>)
    requires |name| <= 8 && l.fileAlignment > 0 && l.SecurityDirEnd() <= |pe|
    requires InsertAt(l) + SECTION_HEADER_SIZE <= |Grown(pe, l, data)|
    requires d == WithSizeOfImage(WithCount(Patch(Grown(pe, l, data), InsertAt(l), NewHeader(pe, l, name, data, vma)), l), l, vma + |data|)
    ensures Unsummed(pe, l, name, data, vma) == d
  {
  }

  lemma ParsedBounds(pe: seq<byte>, l: Layout)
    requires Parse(pe) == Ok(l)
    ensures l.SecurityDirEnd() <= |pe| && l.fileAlignment > 0 && l.ntHeader > 0 && l.numberOfSections < TWO_16
    ensures l.SectionTable() <= |pe|
  {
  }
}
