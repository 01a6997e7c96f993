/** A reader of the section table, and what appending a section does to what it reads. */
module SectionWalk {
  import opened Bytes
  import opened PeChecksum
  import opened PeReader
  import opened PeLayout
  import opened PeSections

  /** A section header and the raw bytes its SizeOfRawData and PointerToRawData name. */
  datatype Section = Section(header: seq<byte>, raw: seq<byte>)

  function HeaderAt(d: seq<byte>, table: nat, i: nat): (r: seq<byte>)
    requires table + SECTION_HEADER_SIZE * (i + 1) <= |d|
    ensures |r| == SECTION_HEADER_SIZE
  {
    d[table + SECTION_HEADER_SIZE * i..table + SECTION_HEADER_SIZE * (i + 1)]
  }

  function RawOf(d: seq<byte>, header: seq<byte>): Option<seq<byte>>
    requires |header| == SECTION_HEADER_SIZE
  {
    var size, pointer := Le32(header, 16), Le32(header, 20);
    if size == 0 then Some([])
    else if pointer + size <= |d| then Some(d[pointer..pointer + size])
    else None
  }

  function WalkTable(d: seq<byte>, table: nat, n: nat): (r: Option<seq<Section>>)
    ensures r.Some? ==> |r.value| == n
  {
    if n == 0 then Some([])
    else if table + SECTION_HEADER_SIZE * n > |d| then None
    else
      var init :- WalkTable(d, table, n - 1);
      var header := HeaderAt(d, table, n - 1);
      var raw :- RawOf(d, header);
      Some(init + [Section(header, raw)])
  }

  function WalkSections(d: seq<byte>): Option<seq<Section>> {
    var h :- ReadHeaders(d);
    WalkTable(d, SectionTableOf(h), SectionCount(d, h))
  }

  lemma WalkOfParsed(d: seq<byte>, l: Layout)
    requires Parse(d) == Ok(l)
    ensures WalkSections(d) == WalkTable(d, l.SectionTable(), l.numberOfSections)
  {
    hide Parse, WalkTable;
    ParsedFields(d, l);
  }

  /** Non-empty raw data starts at lo or later. */
  ghost predicate RawPast(ss: seq<Section>, lo: nat) {
    forall i :: 0 <= i < |ss| ==> |ss[i].header| == SECTION_HEADER_SIZE && (Le32(ss[i].header, 16) == 0 || lo <= Le32(ss[i].header, 20))
  }

  /** The NT header follows the 64-byte DOS header, the section table follows the data directories, and the raw data of
      every section follows the headers. */
  ghost predicate WellFormed(pe: seq<byte>, l: Layout) {
    && Parse(pe) == Ok(l)
    && l.ntHeader >= 0x40
    && l.SecurityDirEnd() <= l.SectionTable()
    && l.SecurityDirEnd() <= |pe|
    && InsertAt(l) <= SizeOfHeaders(pe, l) <= |pe|
    && WalkSections(pe).Some? && RawPast(WalkSections(pe).value, SizeOfHeaders(pe, l))
  }

  /** Two files agree on the first n section headers and on everything at lo or later. */
  ghost predicate AgreeForWalk(a: seq<byte>, b: seq<byte>, table: nat, n: nat, lo: nat) {
    && |a| <= |b| && table + SECTION_HEADER_SIZE * n <= |a|
    && (forall i :: table <= i < table + SECTION_HEADER_SIZE * n ==> a[i] == b[i])
    && (forall i :: lo <= i < |a| ==> a[i] == b[i])
  }

  lemma {:induction false} WalkFrame(a: seq<byte>, b: seq<byte>, table: nat, n: nat, lo: nat)
    requires AgreeForWalk(a, b, table, n, lo)
    requires WalkTable(a, table, n).Some? && RawPast(WalkTable(a, table, n).value, lo)
    ensures WalkTable(b, table, n) == WalkTable(a, table, n)
  {
    hide RawOf, Le32;
    if n > 0 {
      var ss := WalkTable(a, table, n).value;
      var init := WalkTable(a, table, n - 1).value;
      assert forall i :: 0 <= i < n - 1 ==> init[i] == ss[i];
      WalkFrame(a, b, table, n - 1, lo);
      HeaderFrame(a, b, table, n - 1);
      assert ss[n - 1].header == HeaderAt(a, table, n - 1);
      RawFrame(a, b, ss[n - 1].header, lo);
    }
  }

  lemma HeaderFrame(a: seq<byte>, b: seq<byte>, table: nat, i: nat)
    requires table + SECTION_HEADER_SIZE * (i + 1) <= |a| <= |b|
    requires forall k :: table <= k < table + SECTION_HEADER_SIZE * (i + 1) ==> a[k] == b[k]
    ensures HeaderAt(a, table, i) == HeaderAt(b, table, i)
  {
    var start := table + SECTION_HEADER_SIZE * i;
    assert a[start..start + SECTION_HEADER_SIZE] == b[start..start + SECTION_HEADER_SIZE];
  }

  lemma RawFrame(a: seq<byte>, b: seq<byte>, header: seq<byte>, lo: nat)
    requires |a| <= |b| && |header| == SECTION_HEADER_SIZE && RawOf(a, header).Some?
    requires Le32(header, 16) == 0 || lo <= Le32(header, 20)
    requires forall i :: lo <= i < |a| ==> a[i] == b[i]
    ensures RawOf(b, header) == RawOf(a, header)
  {
    hide Le32;
    var size, pointer := Le32(header, 16), Le32(header, 20);
    if size > 0 {
      assert a[pointer..pointer + size] == b[pointer..pointer + size];
    }
  }

  // ----- one append

  /** Where `appendSection` may store, in front of the old end of the file. */
  predicate Stored(l: Layout, i: int) {
    || InsertAt(l) <= i < InsertAt(l) + SECTION_HEADER_SIZE
    || l.NumberOfSectionsOff() <= i < l.NumberOfSectionsOff() + 2
    || l.SizeOfImageOff() <= i < l.SizeOfImageOff() + 4
    || l.ChecksumOff() <= i < l.ChecksumOff() + 4
  }

  ghost predicate CanAppend(pe: seq<byte>, l: Layout, name: seq<byte>) {
    WellFormed(pe, l) && |name| <= 8 && l.fileAlignment > 0 && HeaderRoom(pe, l) && SizeOfHeaders(pe, l) <= |pe|
  }

  lemma SlotInFile(pe: seq<byte>, l: Layout, name: seq<byte>, data: seq<byte>)
    requires CanAppend(pe, l, name)
    ensures InsertAt(l) + SECTION_HEADER_SIZE <= SizeOfHeaders(pe, l) <= |pe| <= |Grown(pe, l, data)|
  {
    hide Parse, Le32;
  }

  /** The bytes of the image after all stores but the checksum. */
  lemma UnsummedBytes(pe: seq<byte>, l: Layout, name: seq<byte>, data: seq<byte>, vma: nat)
    requires CanAppend(pe, l, name) && InsertAt(l) + SECTION_HEADER_SIZE <= |Grown(pe, l, data)|
    ensures var d := Unsummed(pe, l, name, data, vma);
            && (forall i :: 0 <= i < |pe| && !Stored(l, i) ==> d[i] == pe[i])
            && (forall i :: |pe| <= i < |d| ==> d[i] == Grown(pe, l, data)[i])
            && HeaderAt(d, l.SectionTable(), l.numberOfSections) == NewHeader(pe, l, name, data, vma)
            && Le16(d, l.NumberOfSectionsOff()) == U16(l.numberOfSections + 1)
            && SizeOfImage(d, l) == U32(Max(SizeOfImage(pe, l), Align(vma + |data|, l.sectionAlignment)))
  {
    hide Parse, SectionHeader, Le32, WalkSections;
    LayoutOffsets(l);
    SlotInFile(pe, l, name, data);
    var g := Grown(pe, l, data);
    var h := NewHeader(pe, l, name, data, vma);
    var d1 := Patch(g, InsertAt(l), h);
    var d2 := WithCount(d1, l);
    var d := WithSizeOfImage(d2, l, vma + |data|);
    CountReads(d1, l);
    SizeReads(d2, l, vma + |data|);
    SameField(g, pe, l.SizeOfImageOff());
    SameField(d2, g, l.SizeOfImageOff());
    assert HeaderAt(d, l.SectionTable(), l.numberOfSections) == h;
  }

  lemma SameField(a: seq<byte>, b: seq<byte>, off: nat)
    requires off + 4 <= |a| && off + 4 <= |b|
    requires forall i :: off <= i < off + 4 ==> a[i] == b[i]
    ensures Le32(a, off) == Le32(b, off)
  {
  }

  lemma CountReads(d: seq<byte>, l: Layout)
    requires l.SecurityDirEnd() <= |d|
    ensures Le16(WithCount(d, l), l.NumberOfSectionsOff()) == U16(l.numberOfSections + 1)
    ensures forall i {:trigger WithCount(d, l)[i]} :: 0 <= i < |d| && !(l.NumberOfSectionsOff() <= i < l.NumberOfSectionsOff() + 2) ==> WithCount(d, l)[i] == d[i]
  {
    LayoutOffsets(l);
    var b := PutLe16(l.numberOfSections + 1);
    var o := l.NumberOfSectionsOff();
    assert WithCount(d, l)[o] == b[0] && WithCount(d, l)[o + 1] == b[1];
  }

  lemma SizeReads(d: seq<byte>, l: Layout, end: nat)
    requires l.SecurityDirEnd() <= |d|
    ensures SizeOfImage(WithSizeOfImage(d, l, end), l) == U32(Max(SizeOfImage(d, l), Align(end, l.sectionAlignment)))
    ensures forall i {:trigger WithSizeOfImage(d, l, end)[i]} :: 0 <= i < |d| && !(l.SizeOfImageOff() <= i < l.SizeOfImageOff() + 4) ==> WithSizeOfImage(d, l, end)[i] == d[i]
    ensures Le16(WithSizeOfImage(d, l, end), l.NumberOfSectionsOff()) == Le16(d, l.NumberOfSectionsOff())
  {
    LayoutOffsets(l);
    FieldReads(d, l.SizeOfImageOff(), PutLe32(Max(SizeOfImage(d, l), Align(end, l.sectionAlignment))));
  }

  /** The appended image: its layout differs in the section count only, and its bytes in the stored ranges only. */
  lemma AppendedBytes(pe: seq<byte>, l: Layout, name: seq<byte>, data: seq<byte>, vma: nat)
    requires CanAppend(pe, l, name)
    ensures Appended(pe, name, data, vma).Ok?
    ensures var out := Appended(pe, name, data, vma).value;
            && |out| == |Grown(pe, l, data)|
            && Parse(out) == Ok(l.(numberOfSections := U16(l.numberOfSections + 1)))
            && (forall i :: 0 <= i < |pe| && !Stored(l, i) ==> out[i] == pe[i])
            && (forall i :: |pe| <= i < |out| ==> out[i] == Grown(pe, l, data)[i])
            && HeaderAt(out, l.SectionTable(), l.numberOfSections) == NewHeader(pe, l, name, data, vma)
            && SizeOfImage(out, l) == U32(Max(SizeOfImage(pe, l), Align(vma + |data|, l.sectionAlignment)))
            && StoresOwnChecksumIfEven(out, l)
  {
    hide Parse, Rechecksummed, Unsummed, Grown, NewHeader, Le32, Le16, WalkSections, StoresOwnChecksum;
    LayoutOffsets(l);
    SlotInFile(pe, l, name, data);
    UnsummedBytes(pe, l, name, data, vma);
    var d := Unsummed(pe, l, name, data, vma);
    var count := U16(l.numberOfSections + 1);
    ParseOtherCount(pe, d, l, count);
    var l2 := l.(numberOfSections := count);
    RechecksummedKeeps(d, l.ChecksumOff());
    var out := Rechecksummed(d, l.ChecksumOff());
    ParseOtherCount(pe, out, l, count);
    SameField(out, d, l.SizeOfImageOff());
    assert HeaderAt(out, l.SectionTable(), l.numberOfSections) == HeaderAt(d, l.SectionTable(), l.numberOfSections);
    if l.ChecksumOff() % 2 == 0 {
      RecomputedIsStable(d, l.ChecksumOff());
    }
  }

  ghost predicate StoresOwnChecksumIfEven(out: seq<byte>, l: Layout)
    requires l.SecurityDirEnd() <= |out|
  {
    LayoutOffsets(l);
    l.ChecksumOff() % 2 == 0 ==> StoresOwnChecksum(out, l.ChecksumOff())
  }

  lemma RechecksummedKeeps(d: seq<byte>, off: nat)
    requires off + 4 <= |d|
    ensures forall i {:trigger Rechecksummed(d, off)[i]} :: 0 <= i < |d| && !(off <= i < off + 4) ==> Rechecksummed(d, off)[i] == d[i]
    ensures forall o: nat :: o + 2 <= off ==> Le16(Rechecksummed(d, off), o) == Le16(d, o)
  {
    hide Checksum;
  }

  // ----- what the walk finds afterwards

  lemma HeaderReads(name: seq<byte>, size: nat, vma: nat, rawSize: nat, rawOffset: nat)
    requires |name| <= 8
    ensures var h := SectionHeader(name, size, vma, rawSize, rawOffset);
            && h[..8] == name + Zeros(8 - |name|)
            && Le32(h, 8) == U32(size) && Le32(h, 12) == U32(vma) && Le32(h, 16) == U32(rawSize) && Le32(h, 20) == U32(rawOffset)
            && (forall i :: 24 <= i < 36 ==> h[i] == 0) && Le32(h, 36) == 0x4000_0040
  {
    SmallU32(0x4000_0040);
    hide Le32, PutLe32, U32;
    var h := SectionHeader(name, size, vma, rawSize, rawOffset);
    FieldAt(h, 8, PutLe32(size));
    FieldAt(h, 12, PutLe32(vma));
    FieldAt(h, 16, PutLe32(rawSize));
    FieldAt(h, 20, PutLe32(rawOffset));
    FieldAt(h, 36, PutLe32(0x4000_0040));
  }

  lemma FieldAt(h: seq<byte>, off: nat, b: seq<byte>)
    requires off + 4 <= |h| && |b| == 4 && h[off..off + 4] == b
    ensures Le32(h, off) == Le32(b, 0)
  {
    assert b[0] == h[off] && b[1] == h[off + 1] && b[2] == h[off + 2] && b[3] == h[off + 3];
  }

  /** The raw bytes of the new section: the padding block from the aligned offset on. */
  function NewRaw(pe: seq<byte>, l: Layout, data: seq<byte>): (r: seq<byte>)
    requires l.fileAlignment > 0
    ensures |r| == Align(|data|, l.fileAlignment)
  {
    Grown(pe, l, data)[Align(|pe|, l.fileAlignment)..]
  }

  lemma NewRawReads(out: seq<byte>, pe: seq<byte>, l: Layout, name: seq<byte>, data: seq<byte>, vma: nat)
    requires |name| <= 8 && l.fileAlignment > 0 && |out| == |Grown(pe, l, data)| < TWO_32
    requires forall i :: |pe| <= i < |out| ==> out[i] == Grown(pe, l, data)[i]
    ensures RawOf(out, NewHeader(pe, l, name, data, vma)) == Some(NewRaw(pe, l, data))
  {
    hide Le32, Align, SectionHeader, Grown;
    var pointer, size := Align(|pe|, l.fileAlignment), Align(|data|, l.fileAlignment);
    HeaderReads(name, |data|, vma, size, pointer);
    SmallU32(pointer);
    SmallU32(size);
    assert out[pointer..pointer + size] == Grown(pe, l, data)[pointer..];
  }

  lemma AppendedAgrees(pe: seq<byte>, l: Layout, name: seq<byte>, data: seq<byte>, vma: nat)
    requires CanAppend(pe, l, name)
    ensures Appended(pe, name, data, vma).Ok?
    ensures AgreeForWalk(pe, Appended(pe, name, data, vma).value, l.SectionTable(), l.numberOfSections, SizeOfHeaders(pe, l))
  {
    hide Parse, Appended, Grown, NewHeader, Le32, Align, WalkSections, SizeOfHeaders;
    LayoutOffsets(l);
    SlotInFile(pe, l, name, data);
    AppendedBytes(pe, l, name, data, vma);
  }

  /** Walking the appended image gives every original header and its raw bytes unchanged, then the new section. */
  lemma AppendedWalk(pe: seq<byte>, l: Layout, name: seq<byte>, data: seq<byte>, vma: nat)
    requires CanAppend(pe, l, name) && |Grown(pe, l, data)| < TWO_32 && l.numberOfSections + 1 < TWO_16
    ensures Appended(pe, name, data, vma).Ok?
    ensures WalkSections(Appended(pe, name, data, vma).value)
         == Some(WalkSections(pe).value + [Section(NewHeader(pe, l, name, data, vma), NewRaw(pe, l, data))])
  {
    hide Parse, Appended, Grown, NewHeader, NewRaw, Le32, Le16, U16, Align, RawOf, RawPast, WalkTable, HeaderAt, SizeOfHeaders, WalkSections;
    LayoutOffsets(l);
    WalkOfParsed(pe, l);
    SmallU16(l.numberOfSections + 1);
    AppendedAgrees(pe, l, name, data, vma);
    AppendedBytes(pe, l, name, data, vma);
    var out := Appended(pe, name, data, vma).value;
    WalkFrame(pe, out, l.SectionTable(), l.numberOfSections, SizeOfHeaders(pe, l));
    NewRawReads(out, pe, l, name, data, vma);
    WalkOneMore(out, l.SectionTable(), l.numberOfSections, NewRaw(pe, l, data));
    WalkOfParsed(out, l.(numberOfSections := l.numberOfSections + 1));
  }

  lemma WalkOneMore(d: seq<byte>, table: nat, n: nat, raw: seq<byte>)
    requires table + SECTION_HEADER_SIZE * (n + 1) <= |d| && WalkTable(d, table, n).Some?
    requires RawOf(d, HeaderAt(d, table, n)) == Some(raw)
    ensures WalkTable(d, table, n + 1) == Some(WalkTable(d, table, n).value + [Section(HeaderAt(d, table, n), raw)])
  {
    hide RawOf, HeaderAt;
  }

  /** At 65535 sections the 16-bit count wraps to zero and the walk finds nothing. */
  lemma SectionCountWraps(pe: seq<byte>, l: Layout, name: seq<byte>, data: seq<byte>, vma: nat)
    requires CanAppend(pe, l, name) && l.numberOfSections == TWO_16 - 1
    ensures Appended(pe, name, data, vma).Ok? && WalkSections(Appended(pe, name, data, vma).value) == Some([])
  {
    hide Parse, Appended, Grown, NewHeader, Le32, WalkSections;
    AppendedBytes(pe, l, name, data, vma);
    WalkOfParsed(Appended(pe, name, data, vma).value, l.(numberOfSections := 0));
  }

  /** The section is called text, as the format writes names: padded with zeros to eight octets. */
  predicate IsNamed(s: Section, text: string) {
    |s.header| == 40 && |text| <= 8
    && forall i :: 0 <= i < 8 ==> s.header[i] == if i < |text| then U8(text[i] as int) else 0
  }

  /** Initialized, readable data of this size at this address, with no relocations and no line numbers. */
  predicate IsReadableData(s: Section, size: nat, address: nat) {
    && |s.header| == 40
    && Le32(s.header, 8) == size && Le32(s.header, 12) == address
    && (forall i :: 24 <= i < 36 ==> s.header[i] == 0)
    && Le32(s.header, 36) == 0x0000_0040 + 0x4000_0000
  }

  /** The new section by literal header offsets: its name, size, address and characteristics, and that the file holds
      nothing but zeros behind its data. */
  lemma NewSectionFields(pe: seq<byte>, l: Layout, name: seq<byte>, text: string, data: seq<byte>, vma: nat)
    requires CanAppend(pe, l, name) && |Grown(pe, l, data)| < TWO_32 && l.numberOfSections + 1 < TWO_16 && vma < TWO_32
    requires |text| == |name| && forall i :: 0 <= i < |name| ==> name[i] == U8(text[i] as int)
    ensures Appended(pe, name, data, vma).Ok?
    ensures var out := Appended(pe, name, data, vma).value;
            && WalkSections(out).Some? && |WalkSections(out).value| == l.numberOfSections + 1
            && IsNamed(WalkSections(out).value[l.numberOfSections], text)
            && IsReadableData(WalkSections(out).value[l.numberOfSections], |data|, vma)
            && (forall i :: |pe| + |data| <= i < |out| ==> out[i] == 0)
  {
    hide Parse, Appended, NewRaw, Le32, Align, WalkSections, SizeOfHeaders, RawPast, HeaderRoom, IsNamed, IsReadableData;
    AppendedWalk(pe, l, name, data, vma);
    AppendedBytes(pe, l, name, data, vma);
    WalkOfParsed(pe, l);
    NewHeaderFields(pe, l, name, text, data, vma);
  }

  lemma NewHeaderFields(pe: seq<byte>, l: Layout, name: seq<byte>, text: string, data: seq<byte>, vma: nat)
    requires |name| <= 8 && l.fileAlignment > 0 && |data| < TWO_32 && vma < TWO_32
    requires |text| == |name| && forall i :: 0 <= i < |name| ==> name[i] == U8(text[i] as int)
    ensures var s := Section(NewHeader(pe, l, name, data, vma), NewRaw(pe, l, data));
            IsNamed(s, text) && IsReadableData(s, |data|, vma)
  {
    hide Le32, Align, SectionHeader, NewRaw;
    HeaderReads(name, |data|, vma, Align(|data|, l.fileAlignment), Align(|pe|, l.fileAlignment));
    SmallU32(|data|);
    SmallU32(vma);
    var h := NewHeader(pe, l, name, data, vma);
    assert forall i :: 0 <= i < 8 ==> h[i] == h[..8][i];
  }

  /** A section holds data: its VirtualSize is the data's length and its raw bytes begin with it. */
  ghost predicate Holds(s: Section, data: seq<byte>) {
    && |s.header| == SECTION_HEADER_SIZE && Le32(s.header, 8) == |data|
    && |data| <= |s.raw| && s.raw[..|data|] == data
  }

  /** The new section holds its data exactly when the file length was already aligned, or the data is all zeros:
      otherwise the data was copied in front of the offset the header names. */
  lemma DataFoundIff(pe: seq<byte>, l: Layout, name: seq<byte>, data: seq<byte>, vma: nat)
    requires |name| <= 8 && l.fileAlignment > 0 && |data| < TWO_32
    ensures Holds(Section(NewHeader(pe, l, name, data, vma), NewRaw(pe, l, data)), data)
       <==> |pe| % l.fileAlignment == 0 || data == Zeros(|data|)
  {
    hide Le32, Align, SectionHeader, NewRaw, Grown;
    var gap := Align(|pe|, l.fileAlignment) - |pe|;
    var raw := NewRaw(pe, l, data);
    AlignedIff(|pe|, l.fileAlignment);
    HeaderReads(name, |data|, vma, Align(|data|, l.fileAlignment), Align(|pe|, l.fileAlignment));
    SmallU32(|data|);
    NewRawBytes(pe, l, data);
    ShiftedCopy(raw[..|data|], data, gap);
  }

  lemma NewRawBytes(pe: seq<byte>, l: Layout, data: seq<byte>)
    requires l.fileAlignment > 0
    ensures var gap := Align(|pe|, l.fileAlignment) - |pe|;
            |data| <= |NewRaw(pe, l, data)|
            && forall i :: 0 <= i < |data| ==> NewRaw(pe, l, data)[..|data|][i] == if i + gap < |data| then data[i + gap] else 0
  {
  }

  /** A copy read gap places later equals the original exactly when nothing was shifted or there is nothing but zeros. */
  lemma ShiftedCopy(copy: seq<byte>, data: seq<byte>, gap: nat)
    requires |copy| == |data|
    requires forall i :: 0 <= i < |data| ==> copy[i] == if i + gap < |data| then data[i + gap] else 0
    ensures copy == data <==> gap == 0 || data == Zeros(|data|)
  {
    if gap > 0 && copy == data {
      ShiftedIsZero(data, gap, 0);
    }
  }

  lemma AlignedIff(n: nat, a: nat)
    requires a > 0
    ensures Align(n, a) == n <==> n % a == 0
  {
  }

  lemma {:induction false} ShiftedIsZero(data: seq<byte>, gap: nat, i: nat)
    requires gap > 0
    requires forall k {:trigger data[k]} :: 0 <= k < |data| ==> data[k] == if k + gap < |data| then data[k + gap] else 0
    ensures forall k :: i <= k < |data| ==> data[k] == 0
    decreases |data| - i
  {
    if i < |data| {
      ShiftedIsZero(data, gap, i + 1);
      assert data[i] == if i + gap < |data| then data[i + gap] else 0;
    }
  }

  /** SizeOfImage never shrinks, and covers the new section, exactly when the new end fits the 32-bit field. */
  lemma SizeOfImageCovers(pe: seq<byte>, l: Layout, name: seq<byte>, data: seq<byte>, vma: nat)
    requires CanAppend(pe, l, name)
    ensures Appended(pe, name, data, vma).Ok?
    ensures var out := Appended(pe, name, data, vma).value;
            l.SecurityDirEnd() <= |out|
            && (SizeOfImage(pe, l) <= SizeOfImage(out, l) && vma + |data| <= SizeOfImage(out, l)
                <==> Align(vma + |data|, l.sectionAlignment) < TWO_32)
  {
    hide Parse, Appended, Grown, NewHeader, Le32, Align, WalkSections;
    AppendedBytes(pe, l, name, data, vma);
    FieldWidth(pe, l);
    CoversIff(SizeOfImage(pe, l), vma + |data|, Align(vma + |data|, l.sectionAlignment), l.sectionAlignment);
  }

  lemma FieldWidth(pe: seq<byte>, l: Layout)
    requires Parse(pe) == Ok(l)
    ensures l.sectionAlignment < TWO_32
  {
  }

  lemma CoversIff(cur: nat, need: nat, end: nat, alignment: nat)
    requires cur < TWO_32 && alignment < TWO_32 && need <= end && (end == need || end < need + alignment)
    ensures cur <= U32(Max(cur, end)) && need <= U32(Max(cur, end)) <==> end < TWO_32
  {
    if TWO_32 <= end && need < TWO_32 {
      assert U32(end) == end - TWO_32;
    }
  }

  /** An appended image is itself well formed, so that sections can be appended one after the other. */
  lemma AppendedWellFormed(pe: seq<byte>, l: Layout, name: seq<byte>, data: seq<byte>, vma: nat)
    requires CanAppend(pe, l, name) && |Grown(pe, l, data)| < TWO_32 && l.numberOfSections + 1 < TWO_16
    ensures Appended(pe, name, data, vma).Ok?
    ensures var out := Appended(pe, name, data, vma).value;
            var l2 := l.(numberOfSections := l.numberOfSections + 1);
            && WellFormed(out, l2) && SizeOfHeaders(out, l2) == SizeOfHeaders(pe, l)
            && SecurityOffset(out, l2) == SecurityOffset(pe, l)
            && |out| % l.fileAlignment == 0
  {
    hide Parse, Appended, NewRaw, NewHeader, Le32, Le16, U16, WalkSections, SizeOfHeaders, RawPast, SecurityOffset, Grown;
    LayoutOffsets(l);
    SlotInFile(pe, l, name, data);
    AppendedBytes(pe, l, name, data, vma);
    AppendedWalk(pe, l, name, data, vma);
    AppendedFields(pe, l, name, data, vma);
    NewSectionPast(pe, l, name, data, vma);
    SmallU16(l.numberOfSections + 1);
    var out := Appended(pe, name, data, vma).value;
    var l2 := l.(numberOfSections := l.numberOfSections + 1);
    assert Parse(out) == Ok(l2);
    assert InsertAt(l2) <= SizeOfHeaders(out, l2) <= |out|;
  }

  lemma AppendedFields(pe: seq<byte>, l: Layout, name: seq<byte>, data: seq<byte>, vma: nat)
    requires CanAppend(pe, l, name)
    ensures Appended(pe, name, data, vma).Ok?
    ensures var out := Appended(pe, name, data, vma).value;
            var l2 := l.(numberOfSections := l.numberOfSections + 1);
            && |pe| <= |out| && SizeOfHeaders(out, l2) == SizeOfHeaders(pe, l)
            && SecurityOffset(out, l2) == SecurityOffset(pe, l)
            && |out| % l.fileAlignment == 0
  {
    hide Parse, Appended, NewHeader, Le32, WalkSections;
    LayoutOffsets(l);
    SlotInFile(pe, l, name, data);
    AppendedBytes(pe, l, name, data, vma);
    var out := Appended(pe, name, data, vma).value;
    SameField(out, pe, l.SizeOfHeadersOff());
    SameField(out, pe, l.SecurityDir());
    SumAligned(Align(|pe|, l.fileAlignment), Align(|data|, l.fileAlignment), l.fileAlignment);
  }

  lemma NewSectionPast(pe: seq<byte>, l: Layout, name: seq<byte>, data: seq<byte>, vma: nat)
    requires CanAppend(pe, l, name) && |Grown(pe, l, data)| < TWO_32
    ensures RawPast(WalkSections(pe).value + [Section(NewHeader(pe, l, name, data, vma), NewRaw(pe, l, data))], SizeOfHeaders(pe, l))
  {
    hide Parse, Grown, NewRaw, Le32, Align, SectionHeader, WalkSections;
    var pointer := Align(|pe|, l.fileAlignment);
    HeaderReads(name, |data|, vma, Align(|data|, l.fileAlignment), pointer);
    SmallU32(pointer);
  }

  lemma SumAligned(x: nat, y: nat, a: nat)
    requires a > 0 && x % a == 0 && y % a == 0
    ensures (x + y) % a == 0
  {
    var p, q := x / a, y / a;
    assert x + y == p * a + q * a == (p + q) * a;
    DivModUnique(x + y, a, p + q, 0);
  }
}
