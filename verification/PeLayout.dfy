/** The fixed-offset parts of a PE/COFF image: `parsePELayout`, the Security data directory and the
    bytes the Authenticode digest covers. */
module PeLayout {
  import opened Bytes
  import opened PeReader

  const E_LFANEW_OFFSET := 0x3C
  const FILE_HEADER_SIZE := 20
  const SECTION_HEADER_SIZE := 40
  const MAGIC_PE32 := 0x10B
  const MAGIC_PE32_PLUS := 0x20B
  const POST_IMAGE_BASE_32 := 28 + 4
  const POST_IMAGE_BASE_64 := 24 + 8
  const SECURITY_DIR_INDEX := 4
  const DATA_DIR_ENTRY_SIZE := 8
  const FILE_ALIGNMENT_DEFAULT := 0x200

  /** Every offset the package uses follows from the NT header offset and SizeOfOptionalHeader. */
  datatype Layout = Layout(
    ntHeader: nat,
    numberOfSections: nat,
    sizeOfOptionalHeader: nat,
    isPe32Plus: bool,
    sectionAlignment: nat,
    fileAlignment: nat)
  {
    function FileHeader(): nat { ntHeader + 4 }
    function NumberOfSectionsOff(): nat { FileHeader() + 2 }
    function OptionalHeader(): nat { FileHeader() + FILE_HEADER_SIZE }
    function SectionTable(): nat { OptionalHeader() + sizeOfOptionalHeader }
    function PostImageBase(): nat { OptionalHeader() + if isPe32Plus then POST_IMAGE_BASE_64 else POST_IMAGE_BASE_32 }
    function SizeOfImageOff(): nat { PostImageBase() + 24 }
    function SizeOfHeadersOff(): nat { PostImageBase() + 28 }
    function ChecksumOff(): nat { PostImageBase() + 32 }
    function NumRvaSizesOff(): nat { ChecksumOff() + 4 + 2 + 2 + 4 * 8 + 4 }
    function DataDir(): nat { NumRvaSizesOff() + 4 }
    function SecurityDir(): nat { DataDir() + SECURITY_DIR_INDEX * DATA_DIR_ENTRY_SIZE }
    function SecurityDirEnd(): nat { SecurityDir() + DATA_DIR_ENTRY_SIZE }
  }

  /** `parsePELayout`. The alignment fields are read before the bounds test on the data directories,
      so an image that ends between the magic and them makes the Go code index out of range. */
  function Parse(data: seq<byte>): Outcome<Layout> {
    if |data| < 0x40 || data[0] != 'M' as int || data[1] != 'Z' as int then Err else
    var nt := Le32(data, E_LFANEW_OFFSET);
    if nt <= 0 || nt + 4 + FILE_HEADER_SIZE > |data| then Err
    else if data[nt] != 'P' as int || data[nt + 1] != 'E' as int || data[nt + 2] != 0 || data[nt + 3] != 0 then Err else
    var fh := nt + 4;
    var sections := Le16(data, fh + 2);
    var optSize := Le16(data, fh + 16);
    var oh := fh + FILE_HEADER_SIZE;
    if oh + optSize > |data| || oh + 2 > |data| then Err else
    var magic := Le16(data, oh);
    if magic != MAGIC_PE32_PLUS && magic != MAGIC_PE32 then Err else
    var base := oh + if magic == MAGIC_PE32_PLUS then POST_IMAGE_BASE_64 else POST_IMAGE_BASE_32;
    if base + 12 > |data| then Panic else
    var sectionAlignment := Le32(data, base + 4);
    var fileAlignment := Le32(data, base + 8);
    var l := Layout(nt, sections, optSize, magic == MAGIC_PE32_PLUS, sectionAlignment,
                    if fileAlignment == 0 then FILE_ALIGNMENT_DEFAULT else fileAlignment);
    if l.DataDir() + DATA_DIR_ENTRY_SIZE * (SECURITY_DIR_INDEX + 1) > |data| then Err else Ok(l)
  }

  /** The offsets of the Go layout, spelled out from the NT header. */
  lemma LayoutOffsets(l: Layout)
    ensures l.NumberOfSectionsOff() == l.ntHeader + 6 && l.OptionalHeader() == l.ntHeader + 24
    ensures l.SizeOfImageOff() == l.ntHeader + 80 && l.SizeOfHeadersOff() == l.ntHeader + 84 && l.ChecksumOff() == l.ntHeader + 88
    ensures l.SecurityDir() == l.ntHeader + 168 && l.SecurityDirEnd() == l.ntHeader + 176
  {
  }

  /** Exactly these images parse: by the format's own reader a header with a known magic, whose declared optional header
      and whose first 152 bytes of it lie in the file. */
  lemma ParseOkIff(d: seq<byte>)
    ensures Parse(d).Ok?
       <==> ReadHeaders(d).Some?
            && var h := ReadHeaders(d).value; h.optional + h.optionalSize <= |d| && h.optional + 152 <= |d|
  {
    hide Le16, Le32;
  }

  /** What the parser reads, by literal offsets: the alignments where the code looks for them, everything else where the
      format has it. */
  lemma ParsedFields(d: seq<byte>, l: Layout)
    requires Parse(d) == Ok(l)
    ensures ReadHeaders(d) == Some(Headers(l.ntHeader + 24, l.isPe32Plus, l.sizeOfOptionalHeader)) && l.ntHeader == Le32(d, 0x3C)
    ensures l.SectionTable() == SectionTableOf(ReadHeaders(d).value) && l.numberOfSections == SectionCount(d, ReadHeaders(d).value)
    ensures var oh := l.ntHeader + 24;
            && oh + 152 <= |d| && l.SectionTable() <= |d|
            && l.sectionAlignment == Le32(d, oh + 36)
            && l.fileAlignment == (if Le32(d, oh + 40) == 0 then 512 else Le32(d, oh + 40))
            && l.SizeOfImageOff() == oh + 56 && l.SizeOfHeadersOff() == oh + 60 && l.ChecksumOff() == oh + 64
            && l.SecurityDir() == oh + 144 && l.SecurityDirEnd() == oh + 152
  {
    hide Le16, Le32;
  }

  /** Two files agree on everything the parser looks at in front of the CheckSum field. */
  ghost predicate SameHead(a: seq<byte>, b: seq<byte>, l: Layout) {
    l.ChecksumOff() <= |a| && l.ChecksumOff() <= |b| && a[..l.ChecksumOff()] == b[..l.ChecksumOff()]
  }

  /** None of the parsed fields lies at or past the CheckSum field, wherever e_lfanew points: a file with the same head
      parses to the same layout exactly when it still holds the section table start and the Security directory entry. */
  lemma ParseReadsOnlyTheHead(a: seq<byte>, b: seq<byte>, l: Layout)
    requires Parse(a) == Ok(l) && SameHead(a, b, l)
    ensures Parse(b) == Ok(l) <==> l.SectionTable() <= |b| && l.SecurityDirEnd() <= |b|
  {
    LayoutOffsets(l);
    var c := l.ChecksumOff();
    assert forall i :: 0 <= i < c ==> a[i] == a[..c][i] == b[..c][i] == b[i];
  }

  /** A file with the same head except for its section count parses to the same layout with that count,
      provided the count field does not overlap e_lfanew. */
  lemma ParseOtherCount(a: seq<byte>, b: seq<byte>, l: Layout, count: nat)
    requires Parse(a) == Ok(l) && l.ntHeader >= 0x40 && |a| <= |b| && count < TWO_16
    requires forall i :: 0 <= i < l.SizeOfImageOff() && i != l.NumberOfSectionsOff() && i != l.NumberOfSectionsOff() + 1 ==> b[i] == a[i]
    requires Le16(b, l.NumberOfSectionsOff()) == count
    ensures Parse(b) == Ok(l.(numberOfSections := count))
  {
    LayoutOffsets(l);
  }

  function Align(n: nat, alignment: nat): (r: nat)
    ensures alignment > 0 ==> n <= r < n + alignment && r % alignment == 0
    ensures alignment == 0 || n % alignment == 0 ==> r == n
  {
    if alignment <= 0 then n else
    AlignFacts(n, alignment);
    (n + alignment - 1) / alignment * alignment
  }

  lemma AlignFacts(n: nat, a: nat)
    requires a > 0
    ensures var r := (n + a - 1) / a * a; n <= r < n + a && r % a == 0 && (n % a == 0 ==> r == n)
  {
    var p, m := n / a, n % a;
    assert n == p * a + m;
    var q := if m == 0 then p else p + 1;
    assert q * a == if m == 0 then p * a else p * a + a;
    DivModUnique(n + a - 1, a, q, if m == 0 then a - 1 else m - 1);
    DivModUnique(q * a, a, q, 0);
  }

  // ----- the Security directory and the digested bytes

  function SecurityOffset(data: seq<byte>, l: Layout): nat
    requires l.SecurityDirEnd() <= |data|
  {
    Le32(data, l.SecurityDir())
  }

  function SecuritySize(data: seq<byte>, l: Layout): nat
    requires l.SecurityDirEnd() <= |data|
  {
    Le32(data, l.SecurityDir() + 4)
  }

  /** Where the image proper ends: at an existing certificate table, else at the end of the file. */
  function ImageEnd(data: seq<byte>, l: Layout): (end: nat)
    requires l.SecurityDirEnd() <= |data|
    ensures end <= |data|
  {
    var secOff := SecurityOffset(data, l);
    if secOff != 0 && secOff < |data| then secOff else |data|
  }

  /** The bytes `authenticodeDigest` hashes; None where its slice bounds make Go panic. */
  function Preimage(data: seq<byte>, l: Layout): Option<seq<byte>>
    requires l.SecurityDirEnd() <= |data|
  {
    var end := ImageEnd(data, l);
    if end < l.SecurityDirEnd() then None
    else Some(data[..l.ChecksumOff()] + data[l.ChecksumOff() + 4..l.SecurityDir()] + data[l.SecurityDirEnd()..end])
  }

  function WithSecurityDir(data: seq<byte>, l: Layout, offset: nat, size: nat): (r: seq<byte>)
    requires l.SecurityDirEnd() <= |data|
    ensures |r| == |data|
  {
    Patch(Patch(data, l.SecurityDir(), PutLe32(offset)), l.SecurityDir() + 4, PutLe32(size))
  }

  method SetSecurityDataDirectory(data: array<byte>, l: Layout, offset: nat, size: nat)
    requires l.SecurityDirEnd() <= data.Length
    modifies data
    ensures data[..] == WithSecurityDir(old(data[..]), l, offset, size)
  {
    PutUint32(data, l.SecurityDir(), offset);
    PutUint32(data, l.SecurityDir() + 4, size);
  }

  lemma SecurityDirReads(data: seq<byte>, l: Layout, offset: nat, size: nat)
    requires l.SecurityDirEnd() <= |data|
    ensures var r := WithSecurityDir(data, l, offset, size);
            SecurityOffset(r, l) == U32(offset) && SecuritySize(r, l) == U32(size)
    ensures forall i {:trigger WithSecurityDir(data, l, offset, size)[i]} ::
              0 <= i < |data| && !(l.SecurityDir() <= i < l.SecurityDirEnd()) ==> WithSecurityDir(data, l, offset, size)[i] == data[i]
  {
    var s := l.SecurityDir();
    var o, z := PutLe32(offset), PutLe32(size);
    var r := WithSecurityDir(data, l, offset, size);
    assert r[s] == o[0] && r[s + 1] == o[1] && r[s + 2] == o[2] && r[s + 3] == o[3];
    assert r[s + 4] == z[0] && r[s + 5] == z[1] && r[s + 6] == z[2] && r[s + 7] == z[3];
  }

  predicate InHole(l: Layout, i: int) {
    l.ChecksumOff() <= i < l.ChecksumOff() + 4 || l.SecurityDir() <= i < l.SecurityDirEnd()
  }

  ghost predicate SameDigestedBytes(a: seq<byte>, b: seq<byte>, l: Layout)
    requires l.SecurityDirEnd() <= |a|
  {
    forall i :: 0 <= i < ImageEnd(a, l) && !InHole(l, i) ==> i < |b| && a[i] == b[i]
  }

  /** The file offset of the k-th digested byte. */
  function FileIndex(l: Layout, k: nat): nat {
    if k < l.ChecksumOff() then k else if k + 4 < l.SecurityDir() then k + 4 else k + 12
  }

  function DigestIndex(l: Layout, i: nat): int {
    if i < l.ChecksumOff() then i else if i < l.SecurityDir() then i - 4 else i - 12
  }

  lemma PreimageBytes(data: seq<byte>, l: Layout)
    requires l.SecurityDirEnd() <= |data|
    ensures Preimage(data, l).Some? <==> l.SecurityDirEnd() <= ImageEnd(data, l)
    ensures Preimage(data, l).Some? ==>
              |Preimage(data, l).value| == ImageEnd(data, l) - 12
              && forall k :: 0 <= k < ImageEnd(data, l) - 12 ==> FileIndex(l, k) < |data| && Preimage(data, l).value[k] == data[FileIndex(l, k)]
  {
    LayoutOffsets(l);
  }

  /** The three holes: what the digest of a file depends on. Two files with equal preimages agree on every byte
      before the end of the image outside the CheckSum field and the Security entry, and conversely. */
  lemma PreimageDetermines(a: seq<byte>, b: seq<byte>, l: Layout)
    requires l.SecurityDirEnd() <= |a| && l.SecurityDirEnd() <= |b| && l.SecurityDirEnd() <= ImageEnd(a, l)
    ensures Preimage(a, l) == Preimage(b, l) <==> ImageEnd(a, l) == ImageEnd(b, l) && SameDigestedBytes(a, b, l)
  {
    hide Preimage;
    PreimageBytes(a, l);
    PreimageBytes(b, l);
    LayoutOffsets(l);
    if Preimage(b, l).Some? && ImageEnd(a, l) == ImageEnd(b, l) {
      var pa, pb := Preimage(a, l).value, Preimage(b, l).value;
      if pa == pb {
        forall i | 0 <= i < ImageEnd(a, l) && !InHole(l, i)
          ensures i < |b| && a[i] == b[i]
        {
          var k := DigestIndex(l, i);
          assert FileIndex(l, k) == i && pa[k] == pb[k];
        }
      }
      if SameDigestedBytes(a, b, l) {
        forall k | 0 <= k < |pa|
          ensures pa[k] == pb[k]
        {
          assert !InHole(l, FileIndex(l, k));
        }
      }
    }
  }
}
