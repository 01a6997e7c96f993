/** Unified Kernel Image assembly (`BuildAndSignUKI`): up to two appended sections, then the signature. */
module Uki {
  import opened Bytes
  import opened PeLayout
  import opened PeSections
  import opened SectionWalk
  import opened Authenticode
  import opened AuthenticodeVerifier
  import opened PeReader
  import opened SignedImages
  import opened SampleImages

  const CMDLINE_VMA := 0x100_0000
  const INITRD_VMA := 0x400_0000
  const CMDLINE_NAME: seq<byte> := [0x2E, 0x63, 0x6D, 0x64, 0x6C, 0x69, 0x6E, 0x65]  // ".cmdline"
  const INITRD_NAME: seq<byte> := [0x2E, 0x69, 0x6E, 0x69, 0x74, 0x72, 0x64]  // ".initrd"

  /** The stub with its sections: an empty command line adds none. */
  function WithCmdline(vmlinuz: seq<byte>, cmdline: seq<byte>): Outcome<seq<byte>> {
    if cmdline == [] then Ok(vmlinuz) else Appended(vmlinuz, CMDLINE_NAME, cmdline, CMDLINE_VMA)
  }

  function Assembled(vmlinuz: seq<byte>, initramfs: seq<byte>, cmdline: seq<byte>): Outcome<seq<byte>> {
    match WithCmdline(vmlinuz, cmdline)
    case Ok(stub) => Appended(stub, INITRD_NAME, initramfs, INITRD_VMA)
    case failure => failure
  }

  function UkiImage(c: Crypto, vmlinuz: seq<byte>, initramfs: seq<byte>, cmdline: seq<byte>, kp: Option<Identity>): Outcome<seq<byte>> {
    match Assembled(vmlinuz, initramfs, cmdline)
    case Ok(stub) => SignedImage(c, stub, kp)
    case failure => failure
  }

  method BuildAndSignUki(c: Crypto, vmlinuz: array<byte>, initramfs: seq<byte>, cmdline: seq<byte>, kp: Option<Identity>)
    returns (r: Outcome<array<byte>>)
    ensures r.Ok? ==> UkiImage(c, vmlinuz[..], initramfs, cmdline, kp) == Ok(r.value[..])
    ensures r == Err <==> UkiImage(c, vmlinuz[..], initramfs, cmdline, kp) == Err
    ensures r == Panic <==> UkiImage(c, vmlinuz[..], initramfs, cmdline, kp) == Panic
  {
    hide Appended, SignedImage;
    var stub := vmlinuz;
    if cmdline != [] {
      r := AppendSection(stub, CMDLINE_NAME, cmdline, CMDLINE_VMA);
      if !r.Ok? {
        return;
      }
      stub := r.value;
    }
    r := AppendSection(stub, INITRD_NAME, initramfs, INITRD_VMA);
    if !r.Ok? {
      return;
    }
    r := SignPe(c, r.value, kp);
  }

  // ----- the sections of the result

  /** A well-formed image with room for two more sections below the format's limits. */
  ghost predicate Extendable(vmlinuz: seq<byte>, l: Layout, initramfs: seq<byte>, cmdline: seq<byte>) {
    && WellFormed(vmlinuz, l)
    && l.numberOfSections + 2 < TWO_16
    && l.fileAlignment > 0
    && FinalLength(vmlinuz, l, initramfs, cmdline) < TWO_32
  }

  function StubLength(length: nat, l: Layout, cmdline: seq<byte>): nat {
    if cmdline == [] then length else Align(length, l.fileAlignment) + Align(|cmdline|, l.fileAlignment)
  }

  function FinalLength(vmlinuz: seq<byte>, l: Layout, initramfs: seq<byte>, cmdline: seq<byte>): nat {
    Align(StubLength(|vmlinuz|, l, cmdline), l.fileAlignment) + Align(|initramfs|, l.fileAlignment)
  }

  function FinalLayout(l: Layout, cmdline: seq<byte>): Layout {
    l.(numberOfSections := l.numberOfSections + if cmdline == [] then 1 else 2)
  }

  function AppendedOne(pe: seq<byte>, l: Layout, name: seq<byte>, data: seq<byte>, vma: nat): Section
    requires |name| <= 8 && l.fileAlignment > 0
  {
    Section(NewHeader(pe, l, name, data, vma), NewRaw(pe, l, data))
  }

  /** The sections of the stub `pe`, then `.cmdline` if there is one. */
  function CmdlineSections(vmlinuz: seq<byte>, l: Layout, cmdline: seq<byte>): seq<Section>
    requires l.fileAlignment > 0
  {
    if cmdline == [] then [] else [AppendedOne(vmlinuz, l, CMDLINE_NAME, cmdline, CMDLINE_VMA)]
  }

  /** Everything one successful append gives about the next image. */
  lemma AppendStep(pe: seq<byte>, l: Layout, name: seq<byte>, data: seq<byte>, vma: nat)
    requires WellFormed(pe, l) && l.fileAlignment > 0 && l.numberOfSections + 1 < TWO_16
    requires Appended(pe, name, data, vma).Ok?
    requires Align(|pe|, l.fileAlignment) + Align(|data|, l.fileAlignment) < TWO_32
    ensures |name| <= 8 && CanAppend(pe, l, name)
    ensures var out := Appended(pe, name, data, vma).value;
            var l2 := l.(numberOfSections := l.numberOfSections + 1);
            && WellFormed(out, l2) && SecurityOffset(out, l2) == SecurityOffset(pe, l)
            && SizeOfHeaders(out, l2) == SizeOfHeaders(pe, l)
            && |out| == Align(|pe|, l.fileAlignment) + Align(|data|, l.fileAlignment) && |out| % l.fileAlignment == 0
            && WalkSections(out) == Some(WalkSections(pe).value + [AppendedOne(pe, l, name, data, vma)])
            && InsertAt(l2) <= |out| && HeaderAt(out, l.SectionTable(), l.numberOfSections) == NewHeader(pe, l, name, data, vma)
  {
    hide WellFormed, WalkSections, NewRaw, NewHeader, Align, SecurityOffset, SizeOfHeaders, Appended, Grown;
    AppendableIfOk(pe, l, name, data, vma);
    AppendedWalk(pe, l, name, data, vma);
    AppendedWellFormed(pe, l, name, data, vma);
    AppendedBytes(pe, l, name, data, vma);
    SlotInFile(pe, l, name, data);
  }

  /** The stub after the first step: the layout it parses to and the sections it holds. */
  lemma CmdlineStep(vmlinuz: seq<byte>, l: Layout, initramfs: seq<byte>, cmdline: seq<byte>)
    requires Extendable(vmlinuz, l, initramfs, cmdline) && WithCmdline(vmlinuz, cmdline).Ok?
    ensures var stub := WithCmdline(vmlinuz, cmdline).value;
            var l1 := if cmdline == [] then l else l.(numberOfSections := l.numberOfSections + 1);
            && WellFormed(stub, l1) && |stub| == StubLength(|vmlinuz|, l, cmdline)
            && SecurityOffset(stub, l1) == SecurityOffset(vmlinuz, l) && SizeOfHeaders(stub, l1) == SizeOfHeaders(vmlinuz, l)
            && (cmdline != [] ==> |stub| % l.fileAlignment == 0)
            && WalkSections(stub) == Some(WalkSections(vmlinuz).value + CmdlineSections(vmlinuz, l, cmdline))
  {
    hide WellFormed, WalkSections, NewRaw, NewHeader, Align, SecurityOffset, SizeOfHeaders;
    if cmdline == [] {
      WalksSome(vmlinuz, l);
      assert WalkSections(vmlinuz).value + [] == WalkSections(vmlinuz).value;
    } else {
      AppendStep(vmlinuz, l, CMDLINE_NAME, cmdline, CMDLINE_VMA);
    }
  }

  lemma WalksSome(pe: seq<byte>, l: Layout)
    requires WellFormed(pe, l)
    ensures WalkSections(pe).Some? && Parse(pe) == Ok(l)
  {
  }

  lemma AppendableIfOk(pe: seq<byte>, l: Layout, name: seq<byte>, data: seq<byte>, vma: nat)
    requires WellFormed(pe, l) && l.fileAlignment > 0 && Appended(pe, name, data, vma).Ok?
    ensures CanAppend(pe, l, name)
  {
    hide Unsummed, WalkSections, Grown;
  }

  /** An append to a well-formed image works exactly when the header area has room for one more header. */
  lemma AppendsIff(pe: seq<byte>, l: Layout, name: seq<byte>, data: seq<byte>, vma: nat)
    requires WellFormed(pe, l) && l.fileAlignment > 0 && |name| <= 8
    ensures Appended(pe, name, data, vma).Ok? <==> HeaderRoom(pe, l)
  {
    hide WellFormed, Appended, HeaderRoom;
    WellFormedBounds(pe, l);
    if Appended(pe, name, data, vma).Ok? {
      AppendableIfOk(pe, l, name, data, vma);
    }
    if HeaderRoom(pe, l) {
      assert CanAppend(pe, l, name) by { RoomSuffices(pe, l, name); }
      AppendedAgrees(pe, l, name, data, vma);
    }
  }

  lemma RoomSuffices(pe: seq<byte>, l: Layout, name: seq<byte>)
    requires WellFormed(pe, l) && l.fileAlignment > 0 && |name| <= 8 && HeaderRoom(pe, l)
    ensures CanAppend(pe, l, name)
  {
    hide WalkSections, Parse;
  }

  /** How many section headers a build appends. */
  function NewHeaders(cmdline: seq<byte>): nat { if cmdline == [] then 1 else 2 }

  /** Assembly works exactly when the header area has room for all new headers: neither the data nor the kernel's
      sections can make it fail. */
  lemma AssemblesIff(vmlinuz: seq<byte>, l: Layout, initramfs: seq<byte>, cmdline: seq<byte>)
    requires Extendable(vmlinuz, l, initramfs, cmdline)
    ensures Assembled(vmlinuz, initramfs, cmdline).Ok?
       <==> l.SecurityDirEnd() <= |vmlinuz|
            && InsertAt(l) + NewHeaders(cmdline) * SECTION_HEADER_SIZE <= SizeOfHeaders(vmlinuz, l)
  {
    hide WellFormed, Appended, SizeOfHeaders, WalkSections, SecurityOffset, Align;
    WellFormedBounds(vmlinuz, l);
    if cmdline == [] {
      AppendsIff(vmlinuz, l, INITRD_NAME, initramfs, INITRD_VMA);
    } else {
      AppendsIff(vmlinuz, l, CMDLINE_NAME, cmdline, CMDLINE_VMA);
      if Appended(vmlinuz, CMDLINE_NAME, cmdline, CMDLINE_VMA).Ok? {
        CmdlineStep(vmlinuz, l, initramfs, cmdline);
        var stub := WithCmdline(vmlinuz, cmdline).value;
        AppendsIff(stub, l.(numberOfSections := l.numberOfSections + 1), INITRD_NAME, initramfs, INITRD_VMA);
        WellFormedBounds(stub, l.(numberOfSections := l.numberOfSections + 1));
      }
    }
  }

  lemma WellFormedBounds(pe: seq<byte>, l: Layout)
    requires WellFormed(pe, l)
    ensures l.SecurityDirEnd() <= |pe|
  {
  }

  lemma SampleIsWellFormed(table: nat)
    requires table < 0x100
    ensures WellFormed(SampleImage(true, table), SampleLayout(true)) && SizeOfHeaders(SampleImage(true, table), SampleLayout(true)) == 0x200
  {
    hide Le16, Le32, SampleImage, Parse, WalkSections;
    SampleParses(true, table);
    SampleFields(true, table);
    LayoutOffsets(SampleLayout(true));
    WalkOfParsed(SampleImage(true, table), SampleLayout(true));
  }

  /** The hypotheses used here can be met: the sample kernel, unsigned or signed, takes any command line and initramfs
      below the limits. */
  lemma SampleKernelAssembles(table: nat, initramfs: seq<byte>, cmdline: seq<byte>)
    requires table < 0x100 && |initramfs| < 0x4000_0000 && |cmdline| < 0x4000_0000
    ensures var vmlinuz, l := SampleImage(true, table), SampleLayout(true);
            && Extendable(vmlinuz, l, initramfs, cmdline) && SignableFormat(vmlinuz, l)
            && SecurityOffset(vmlinuz, l) == (if table == 0 then 0 else SizeOfHeaders(vmlinuz, l))
            && Assembled(vmlinuz, initramfs, cmdline).Ok?
  {
    hide Assembled, WithCmdline, SampleImage, WellFormed, SizeOfHeaders, SecurityOffset, Align, CertificateEntry;
    SampleIsWellFormed(table);
    SampleParses(true, table);
    WellFormedBounds(SampleImage(true, table), SampleLayout(true));
    AssemblesIff(SampleImage(true, table), SampleLayout(true), initramfs, cmdline);
  }

  /** Both steps: the stub that gets signed. */
  lemma AssembledSections(vmlinuz: seq<byte>, l: Layout, initramfs: seq<byte>, cmdline: seq<byte>)
    requires Extendable(vmlinuz, l, initramfs, cmdline) && Assembled(vmlinuz, initramfs, cmdline).Ok?
    ensures WithCmdline(vmlinuz, cmdline).Ok?
    ensures var first := WithCmdline(vmlinuz, cmdline).value;
            var stub := Assembled(vmlinuz, initramfs, cmdline).value;
            && WellFormed(stub, FinalLayout(l, cmdline))
            && SecurityOffset(stub, FinalLayout(l, cmdline)) == SecurityOffset(vmlinuz, l)
            && SizeOfHeaders(stub, FinalLayout(l, cmdline)) == SizeOfHeaders(vmlinuz, l)
            && |stub| == FinalLength(vmlinuz, l, initramfs, cmdline)
            && WalkSections(stub) == Some(WalkSections(vmlinuz).value + CmdlineSections(vmlinuz, l, cmdline)
                                          + [AppendedOne(first, l, INITRD_NAME, initramfs, INITRD_VMA)])
  {
    hide WellFormed, WalkSections, NewRaw, Align, SecurityOffset, SizeOfHeaders, Appended, Grown, SectionHeader;
    CmdlineStep(vmlinuz, l, initramfs, cmdline);
    var first := WithCmdline(vmlinuz, cmdline).value;
    var l1 := if cmdline == [] then l else l.(numberOfSections := l.numberOfSections + 1);
    AppendStep(first, l1, INITRD_NAME, initramfs, INITRD_VMA);
    SameSection(first, l, l1, initramfs);
  }

  lemma SameSection(pe: seq<byte>, l: Layout, l1: Layout, data: seq<byte>)
    requires l.fileAlignment == l1.fileAlignment > 0
    ensures AppendedOne(pe, l, INITRD_NAME, data, INITRD_VMA) == AppendedOne(pe, l1, INITRD_NAME, data, INITRD_VMA)
    ensures Grown(pe, l, data) == Grown(pe, l1, data)
  {
  }

  /** Signing an image that carries no certificate table inside the file changes no section header and no section
      data. */
  lemma SigningKeepsSections(c: Crypto, stub: seq<byte>, l: Layout, id: Identity, out: seq<byte>)
    requires WellFormed(stub, l) && ImageEnd(stub, l) == |stub|
    requires SignedImage(c, stub, Some(id)) == Ok(out)
    ensures WalkSections(out) == WalkSections(stub) && |stub| <= |out|
  {
    hide Embedded, WinCertificate, SignatureDer, RawPast, ImageEnd, Le32, SizeOfHeaders, WalkTable;
    var der := SignatureDer(c, id, c.hash(Preimage(stub, l).value)).value;
    EmbedKeepsLayout(stub, l, der);
    EmbeddedBytes(stub, l, der);
    LayoutOffsets(l);
    WalkOfParsed(stub, l);
    WalkOfParsed(out, l);
    assert AgreeForWalk(stub, out, l.SectionTable(), l.numberOfSections, SizeOfHeaders(stub, l));
    WalkFrame(stub, out, l.SectionTable(), l.numberOfSections, SizeOfHeaders(stub, l));
  }

  /** No certificate table, or one that would start past everything this build appends. */
  predicate NoTableInside(vmlinuz: seq<byte>, l: Layout, initramfs: seq<byte>, cmdline: seq<byte>)
    requires l.SecurityDirEnd() <= |vmlinuz|
  {
    SecurityOffset(vmlinuz, l) == 0 || FinalLength(vmlinuz, l, initramfs, cmdline) <= SecurityOffset(vmlinuz, l)
  }

  /** Where the image proper ends once it is assembled. */
  function KeptLength(vmlinuz: seq<byte>, l: Layout, initramfs: seq<byte>, cmdline: seq<byte>): nat
    requires l.SecurityDirEnd() <= |vmlinuz|
  {
    if NoTableInside(vmlinuz, l, initramfs, cmdline) then FinalLength(vmlinuz, l, initramfs, cmdline) else SecurityOffset(vmlinuz, l)
  }

  lemma AssembledEnd(vmlinuz: seq<byte>, l: Layout, initramfs: seq<byte>, cmdline: seq<byte>)
    requires Extendable(vmlinuz, l, initramfs, cmdline) && Assembled(vmlinuz, initramfs, cmdline).Ok?
    ensures l.SecurityDirEnd() <= |Assembled(vmlinuz, initramfs, cmdline).value|
    ensures ImageEnd(Assembled(vmlinuz, initramfs, cmdline).value, FinalLayout(l, cmdline)) == KeptLength(vmlinuz, l, initramfs, cmdline)
  {
    hide WellFormed, WalkSections, NewRaw, NewHeader, SecurityOffset, SizeOfHeaders, Appended, FinalLength;
    AssembledSections(vmlinuz, l, initramfs, cmdline);
    WellFormedBounds(vmlinuz, l);
    WellFormedBounds(Assembled(vmlinuz, initramfs, cmdline).value, FinalLayout(l, cmdline));
  }

  /** Walking the signed UKI recovers every original section header with its raw bytes unchanged, then `.cmdline` when
      it is non-empty, then `.initrd`. */
  lemma UkiSections(c: Crypto, vmlinuz: seq<byte>, l: Layout, initramfs: seq<byte>, cmdline: seq<byte>, id: Identity, out: seq<byte>)
    requires Extendable(vmlinuz, l, initramfs, cmdline) && NoTableInside(vmlinuz, l, initramfs, cmdline)
    requires UkiImage(c, vmlinuz, initramfs, cmdline, Some(id)) == Ok(out)
    ensures WithCmdline(vmlinuz, cmdline).Ok?
    ensures var first := WithCmdline(vmlinuz, cmdline).value;
            WalkSections(out) == Some(WalkSections(vmlinuz).value + CmdlineSections(vmlinuz, l, cmdline)
                                      + [AppendedOne(first, l, INITRD_NAME, initramfs, INITRD_VMA)])
  {
    hide WellFormed, WalkSections, NewRaw, NewHeader, ImageEnd, Appended, SignedImage, FinalLength;
    AssembledSections(vmlinuz, l, initramfs, cmdline);
    AssembledEnd(vmlinuz, l, initramfs, cmdline);
    var stub := Assembled(vmlinuz, initramfs, cmdline).value;
    SigningKeepsSections(c, stub, FinalLayout(l, cmdline), id, out);
  }

  /** The last section with this name. */
  function Lookup(ss: seq<Section>, text: string): Option<Section> {
    if ss == [] then None
    else if IsNamed(ss[|ss| - 1], text) then Some(ss[|ss| - 1])
    else Lookup(ss[..|ss| - 1], text)
  }

  lemma LookupAppended(ss: seq<Section>, s: Section, text: string)
    ensures Lookup(ss + [s], text) == if IsNamed(s, text) then Some(s) else Lookup(ss, text)
  {
    hide IsNamed;
    assert (ss + [s])[..|ss|] == ss;
  }

  lemma NamesDiffer(s: Section)
    ensures !(IsNamed(s, ".cmdline") && IsNamed(s, ".initrd"))
  {
    assert IsNamed(s, ".cmdline") ==> s.header[1] == U8('c' as int);
    assert IsNamed(s, ".initrd") ==> s.header[1] == U8('i' as int);
  }

  lemma NamesAreText()
    ensures |CMDLINE_NAME| == |".cmdline"| == 8 && forall i :: 0 <= i < 8 ==> CMDLINE_NAME[i] == U8(".cmdline"[i] as int)
    ensures |INITRD_NAME| == |".initrd"| == 7 && forall i :: 0 <= i < 7 ==> INITRD_NAME[i] == U8(".initrd"[i] as int)
  {
  }

  /** Looked up by name, `.initrd` holds exactly the initramfs and `.cmdline` exactly the command line, as readable data
      at their addresses; an empty command line leaves what the kernel had. */
  ghost predicate FoundByName(ss: seq<Section>, kernel: seq<Section>, initramfs: seq<byte>, cmdline: seq<byte>) {
    var initrd, cmd := Lookup(ss, ".initrd"), Lookup(ss, ".cmdline");
    && initrd.Some? && IsReadableData(initrd.value, |initramfs|, 0x400_0000) && Holds(initrd.value, initramfs)
    && if cmdline == [] then cmd == Lookup(kernel, ".cmdline")
       else cmd.Some? && IsReadableData(cmd.value, |cmdline|, 0x100_0000) && Holds(cmd.value, cmdline)
  }

  /** From a kernel of aligned length, both sections of the signed UKI are found by name. */
  lemma UkiLookup(c: Crypto, vmlinuz: seq<byte>, l: Layout, initramfs: seq<byte>, cmdline: seq<byte>, id: Identity, out: seq<byte>)
    requires Extendable(vmlinuz, l, initramfs, cmdline) && NoTableInside(vmlinuz, l, initramfs, cmdline)
    requires UkiImage(c, vmlinuz, initramfs, cmdline, Some(id)) == Ok(out) && |vmlinuz| % l.fileAlignment == 0
    ensures WalkSections(out).Some? && WalkSections(vmlinuz).Some?
    ensures FoundByName(WalkSections(out).value, WalkSections(vmlinuz).value, initramfs, cmdline)
  {
    UkiSections(c, vmlinuz, l, initramfs, cmdline, id, out);
    WalksSome(vmlinuz, l);
    SectionsFound(vmlinuz, l, initramfs, cmdline);
  }

  lemma SectionsFound(vmlinuz: seq<byte>, l: Layout, initramfs: seq<byte>, cmdline: seq<byte>)
    requires Extendable(vmlinuz, l, initramfs, cmdline) && Assembled(vmlinuz, initramfs, cmdline).Ok? && |vmlinuz| % l.fileAlignment == 0
    ensures WithCmdline(vmlinuz, cmdline).Ok? && WalkSections(vmlinuz).Some?
    ensures var first := WithCmdline(vmlinuz, cmdline).value;
            FoundByName(WalkSections(vmlinuz).value + CmdlineSections(vmlinuz, l, cmdline)
                        + [AppendedOne(first, l, INITRD_NAME, initramfs, INITRD_VMA)],
                        WalkSections(vmlinuz).value, initramfs, cmdline)
  {
    hide WalkSections, Assembled, WithCmdline, AppendedOne, IsNamed, IsReadableData, Holds, Lookup, WellFormed, Align;
    UkiDataIff(vmlinuz, l, initramfs, cmdline);
    WalksSome(vmlinuz, l);
    var first := WithCmdline(vmlinuz, cmdline).value;
    assert |initramfs| < TWO_32 && |cmdline| < TWO_32;
    NamedAndReadable(first, vmlinuz, l, initramfs, cmdline);
    BothFound(WalkSections(vmlinuz).value, CmdlineSections(vmlinuz, l, cmdline), AppendedOne(first, l, INITRD_NAME, initramfs, INITRD_VMA));
  }

  lemma NamedAndReadable(first: seq<byte>, vmlinuz: seq<byte>, l: Layout, initramfs: seq<byte>, cmdline: seq<byte>)
    requires l.fileAlignment > 0 && |initramfs| < TWO_32 && |cmdline| < TWO_32
    ensures var initrd := AppendedOne(first, l, INITRD_NAME, initramfs, INITRD_VMA);
            IsNamed(initrd, ".initrd") && IsReadableData(initrd, |initramfs|, 0x400_0000)
    ensures var cmd := AppendedOne(vmlinuz, l, CMDLINE_NAME, cmdline, CMDLINE_VMA);
            IsNamed(cmd, ".cmdline") && IsReadableData(cmd, |cmdline|, 0x100_0000)
  {
    hide NewHeader, NewRaw, IsNamed, IsReadableData;
    NamesAreText();
    NewHeaderFields(first, l, INITRD_NAME, ".initrd", initramfs, INITRD_VMA);
    NewHeaderFields(vmlinuz, l, CMDLINE_NAME, ".cmdline", cmdline, CMDLINE_VMA);
  }

  lemma BothFound(kernel: seq<Section>, cmd: seq<Section>, initrd: Section)
    requires IsNamed(initrd, ".initrd") && |cmd| <= 1 && (cmd != [] ==> IsNamed(cmd[0], ".cmdline"))
    ensures Lookup(kernel + cmd + [initrd], ".initrd") == Some(initrd)
    ensures Lookup(kernel + cmd + [initrd], ".cmdline") == if cmd == [] then Lookup(kernel, ".cmdline") else Some(cmd[0])
  {
    hide IsNamed, Lookup;
    NamesDiffer(initrd);
    LookupAppended(kernel + cmd, initrd, ".initrd");
    LookupAppended(kernel + cmd, initrd, ".cmdline");
    if cmd == [] {
      assert kernel + cmd == kernel;
    } else {
      assert cmd == [cmd[0]];
      LookupAppended(kernel, cmd[0], ".cmdline");
    }
  }

  /** An address that both sections occupy. */
  predicate Occupies(s: Section, address: nat) {
    |s.header| == 40 && Le32(s.header, 12) <= address < Le32(s.header, 12) + Le32(s.header, 8)
  }

  /** The two address ranges are disjoint if and only if the command line is at most 48 MiB long or the initramfs empty. */
  lemma AddressesDisjointIff(cmd: Section, initrd: Section, cmdline: seq<byte>, initramfs: seq<byte>)
    requires IsReadableData(cmd, |cmdline|, 0x100_0000) && IsReadableData(initrd, |initramfs|, 0x400_0000)
    ensures (forall address: nat :: !(Occupies(cmd, address) && Occupies(initrd, address))) <==> |cmdline| <= 0x300_0000 || initramfs == []
  {
    hide Le32;
    if |cmdline| > 0x300_0000 && initramfs != [] {
      assert Occupies(cmd, 0x400_0000) && Occupies(initrd, 0x400_0000);
    }
  }

  /** The end addresses of both new sections fit the 32-bit SizeOfImage field. */
  predicate EndsFit(l: Layout, initramfs: seq<byte>, cmdline: seq<byte>) {
    && (cmdline != [] ==> Align(CMDLINE_VMA + |cmdline|, l.sectionAlignment) < TWO_32)
    && Align(INITRD_VMA + |initramfs|, l.sectionAlignment) < TWO_32
  }

  /** SizeOfImage of the signed UKI is no smaller than the kernel's and covers both appended sections. */
  lemma UkiSizeOfImage(c: Crypto, vmlinuz: seq<byte>, l: Layout, initramfs: seq<byte>, cmdline: seq<byte>, id: Identity, out: seq<byte>)
    requires Extendable(vmlinuz, l, initramfs, cmdline) && EndsFit(l, initramfs, cmdline)
    requires SecurityOffset(vmlinuz, l) == 0 || SizeOfHeaders(vmlinuz, l) <= SecurityOffset(vmlinuz, l)
    requires UkiImage(c, vmlinuz, initramfs, cmdline, Some(id)) == Ok(out)
    ensures l.SecurityDirEnd() <= |out| && SizeOfImage(vmlinuz, l) <= SizeOfImage(out, l)
    ensures INITRD_VMA + |initramfs| <= SizeOfImage(out, l)
    ensures cmdline != [] ==> CMDLINE_VMA + |cmdline| <= SizeOfImage(out, l)
  {
    hide WellFormed, WalkSections, NewRaw, NewHeader, SecurityOffset, SizeOfImage, SizeOfHeaders, Appended, SignedImage, Align;
    AssembledSections(vmlinuz, l, initramfs, cmdline);
    AssembledSize(vmlinuz, l, initramfs, cmdline);
    var stub := Assembled(vmlinuz, initramfs, cmdline).value;
    SigningKeepsSize(c, stub, FinalLayout(l, cmdline), id, out);
    SizeOfImageOfAny(stub, l, FinalLayout(l, cmdline));
    SizeOfImageOfAny(out, l, FinalLayout(l, cmdline));
  }

  lemma CmdlineSize(vmlinuz: seq<byte>, l: Layout, initramfs: seq<byte>, cmdline: seq<byte>)
    requires Extendable(vmlinuz, l, initramfs, cmdline) && WithCmdline(vmlinuz, cmdline).Ok? && EndsFit(l, initramfs, cmdline)
    ensures var stub := WithCmdline(vmlinuz, cmdline).value;
            l.SecurityDirEnd() <= |stub| && SizeOfImage(vmlinuz, l) <= SizeOfImage(stub, l)
            && (cmdline != [] ==> CMDLINE_VMA + |cmdline| <= SizeOfImage(stub, l))
  {
    hide WellFormed, WalkSections, NewRaw, NewHeader, SecurityOffset, SizeOfImage, SizeOfHeaders, Appended, Align;
    if cmdline == [] {
      WalksSome(vmlinuz, l);
      ParsedBounds(vmlinuz, l);
    } else {
      AppendableIfOk(vmlinuz, l, CMDLINE_NAME, cmdline, CMDLINE_VMA);
      SizeOfImageCovers(vmlinuz, l, CMDLINE_NAME, cmdline, CMDLINE_VMA);
    }
  }

  lemma AssembledSize(vmlinuz: seq<byte>, l: Layout, initramfs: seq<byte>, cmdline: seq<byte>)
    requires Extendable(vmlinuz, l, initramfs, cmdline) && Assembled(vmlinuz, initramfs, cmdline).Ok? && EndsFit(l, initramfs, cmdline)
    ensures var stub := Assembled(vmlinuz, initramfs, cmdline).value;
            l.SecurityDirEnd() <= |stub| && SizeOfImage(vmlinuz, l) <= SizeOfImage(stub, l)
            && INITRD_VMA + |initramfs| <= SizeOfImage(stub, l)
            && (cmdline != [] ==> CMDLINE_VMA + |cmdline| <= SizeOfImage(stub, l))
  {
    hide WellFormed, WalkSections, NewRaw, NewHeader, SecurityOffset, SizeOfImage, SizeOfHeaders, Appended, Align;
    CmdlineStep(vmlinuz, l, initramfs, cmdline);
    CmdlineSize(vmlinuz, l, initramfs, cmdline);
    var first := WithCmdline(vmlinuz, cmdline).value;
    var l1 := if cmdline == [] then l else l.(numberOfSections := l.numberOfSections + 1);
    AppendableIfOk(first, l1, INITRD_NAME, initramfs, INITRD_VMA);
    SizeOfImageCovers(first, l1, INITRD_NAME, initramfs, INITRD_VMA);
    var stub := Assembled(vmlinuz, initramfs, cmdline).value;
    SizeOfImageOfAny(first, l, l1);
    SizeOfImageOfAny(stub, l, l1);
  }

  lemma SizeOfImageOfAny(d: seq<byte>, l: Layout, l1: Layout)
    requires l.SecurityDirEnd() <= |d| && l1 == l.(numberOfSections := l1.numberOfSections)
    ensures SizeOfImage(d, l) == SizeOfImage(d, l1)
  {
  }

  lemma SigningKeepsSize(c: Crypto, stub: seq<byte>, l: Layout, id: Identity, out: seq<byte>)
    requires WellFormed(stub, l) && (SecurityOffset(stub, l) == 0 || SizeOfHeaders(stub, l) <= SecurityOffset(stub, l))
    requires SignedImage(c, stub, Some(id)) == Ok(out)
    ensures l.SecurityDirEnd() <= |out| && SizeOfImage(out, l) == SizeOfImage(stub, l)
  {
    hide Embedded, WinCertificate, SignatureDer, RawPast, SecurityOffset, Le32, WalkTable, SizeOfHeaders;
    var der := SignatureDer(c, id, c.hash(Preimage(stub, l).value)).value;
    EmbeddedBytes(stub, l, der);
    LayoutOffsets(l);
    SameField(stub, out, l.SizeOfImageOff());
  }

  /** Appending leaves the format's reading of the Certificate Table entry as it was. */
  lemma FormatStep(pe: seq<byte>, l: Layout, name: seq<byte>, data: seq<byte>, vma: nat)
    requires CanAppend(pe, l, name) && l.numberOfSections + 1 < TWO_16
    ensures Appended(pe, name, data, vma).Ok?
    ensures var out := Appended(pe, name, data, vma).value;
            && CertificateEntry(out) == CertificateEntry(pe)
            && (CertificateEntry(pe).Some? ==> TableOffset(out, CertificateEntry(out).value) == TableOffset(pe, CertificateEntry(pe).value))
  {
    hide Parse, Appended, Grown, NewHeader, Le32, Le16, U16, WalkSections, CertificateEntry, ReadHeaders, StoresOwnChecksumIfEven, SizeOfImage;
    LayoutOffsets(l);
    SmallU16(l.numberOfSections + 1);
    SlotInFile(pe, l, name, data);
    AppendedBytes(pe, l, name, data, vma);
    var out := Appended(pe, name, data, vma).value;
    EntryOfLayout(pe, l);
    EntryOfLayout(out, l.(numberOfSections := l.numberOfSections + 1));
    var h := ReadHeaders(pe).value;
    SameField(pe, out, h.CountAt());
    SameField(pe, out, h.EntryAt(CERTIFICATE_TABLE_INDEX));
  }

  lemma FormatKept(vmlinuz: seq<byte>, l: Layout, initramfs: seq<byte>, cmdline: seq<byte>)
    requires Extendable(vmlinuz, l, initramfs, cmdline) && Assembled(vmlinuz, initramfs, cmdline).Ok?
    ensures var stub := Assembled(vmlinuz, initramfs, cmdline).value;
            && (SignableFormat(stub, FinalLayout(l, cmdline)) <==> SignableFormat(vmlinuz, l))
            && (Unsigned(stub) <==> Unsigned(vmlinuz))
  {
    hide WellFormed, WalkSections, NewRaw, NewHeader, SecurityOffset, SizeOfHeaders, Appended, CertificateEntry, Align;
    CmdlineStep(vmlinuz, l, initramfs, cmdline);
    var first := WithCmdline(vmlinuz, cmdline).value;
    if cmdline != [] {
      AppendableIfOk(vmlinuz, l, CMDLINE_NAME, cmdline, CMDLINE_VMA);
      FormatStep(vmlinuz, l, CMDLINE_NAME, cmdline, CMDLINE_VMA);
    }
    var l1 := if cmdline == [] then l else l.(numberOfSections := l.numberOfSections + 1);
    AppendableIfOk(first, l1, INITRD_NAME, initramfs, INITRD_VMA);
    FormatStep(first, l1, INITRD_NAME, initramfs, INITRD_VMA);
  }

  /** A UKI verifies if and only if its kernel was PE32+ with a Certificate Table entry, signed before or not. */
  lemma UkiVerifies(c: Crypto, vmlinuz: seq<byte>, l: Layout, initramfs: seq<byte>, cmdline: seq<byte>, id: Identity, out: seq<byte>)
    requires Extendable(vmlinuz, l, initramfs, cmdline) && (l.isPe32Plus || Unsigned(vmlinuz))
    requires SecurityOffset(vmlinuz, l) == 0 || SizeOfHeaders(vmlinuz, l) <= SecurityOffset(vmlinuz, l)
    requires WellFormedIdentity(id) && MatchingPair(c, id)
    requires UkiImage(c, vmlinuz, initramfs, cmdline, Some(id)) == Ok(out)
    requires |out| - KeptLength(vmlinuz, l, initramfs, cmdline) < TWO_32
    ensures Verifies(c, out) <==> SignableFormat(vmlinuz, l)
  {
    hide WalkSections, NewRaw, NewHeader, SecurityOffset, SizeOfHeaders, Appended, SignedImage, Align, Verifies, RawPast, ImageEnd,
         SignableFormat, Unsigned, KeptLength;
    AssembledSections(vmlinuz, l, initramfs, cmdline);
    AssembledEnd(vmlinuz, l, initramfs, cmdline);
    FormatKept(vmlinuz, l, initramfs, cmdline);
    var stub := Assembled(vmlinuz, initramfs, cmdline).value;
    var last := FinalLayout(l, cmdline);
    SignedLength(c, stub, last, id, out);
    SignedImagesVerifyIff(c, stub, last, id, out);
  }

  lemma SignedLength(c: Crypto, stub: seq<byte>, l: Layout, id: Identity, out: seq<byte>)
    requires WellFormed(stub, l) && (SecurityOffset(stub, l) == 0 || SizeOfHeaders(stub, l) <= SecurityOffset(stub, l))
    requires SignedImage(c, stub, Some(id)) == Ok(out)
    ensures l.SectionTable() <= ImageEnd(stub, l) <= |out|
  {
    hide Parse, Embedded, SignatureDer, RawPast, SecurityOffset, WalkTable, WalkSections, SizeOfHeaders;
  }

  function FirstAppended(initramfs: seq<byte>, cmdline: seq<byte>): seq<byte> {
    if cmdline == [] then initramfs else cmdline
  }

  /** Both appended sections hold exactly their data if and only if the kernel's length is a multiple of the alignment
      the parser read, or the first data appended is nothing but zeros. */
  lemma UkiDataIff(vmlinuz: seq<byte>, l: Layout, initramfs: seq<byte>, cmdline: seq<byte>)
    requires Extendable(vmlinuz, l, initramfs, cmdline) && Assembled(vmlinuz, initramfs, cmdline).Ok?
    ensures WithCmdline(vmlinuz, cmdline).Ok?
    ensures var first := WithCmdline(vmlinuz, cmdline).value;
            Holds(AppendedOne(first, l, INITRD_NAME, initramfs, INITRD_VMA), initramfs)
            && (cmdline != [] ==> Holds(AppendedOne(vmlinuz, l, CMDLINE_NAME, cmdline, CMDLINE_VMA), cmdline))
            <==> |vmlinuz| % l.fileAlignment == 0
                 || FirstAppended(initramfs, cmdline) == Zeros(|FirstAppended(initramfs, cmdline)|)
  {
    hide WellFormed, WalkSections, NewRaw, NewHeader, SecurityOffset, Appended, Holds, Zeros;
    CmdlineStep(vmlinuz, l, initramfs, cmdline);
    var first := WithCmdline(vmlinuz, cmdline).value;
    assert |initramfs| < TWO_32 && |cmdline| < TWO_32;
    DataFoundIff(first, l, INITRD_NAME, initramfs, INITRD_VMA);
    DataFoundIff(vmlinuz, l, CMDLINE_NAME, cmdline, CMDLINE_VMA);
  }

  /** Raw data lies inside the image proper, in front of the certificate table. */
  ghost predicate RawWithin(ss: seq<Section>, end: nat) {
    forall i :: 0 <= i < |ss| ==>
      |ss[i].header| == SECTION_HEADER_SIZE
      && (Le32(ss[i].header, 16) == 0 || Le32(ss[i].header, 20) + Le32(ss[i].header, 16) <= end)
  }

  /** The section table can be walked, and all it names belongs to the image. */
  ghost predicate SectionsInImage(d: seq<byte>, l: Layout) {
    && Parse(d) == Ok(l) && l.SecurityDirEnd() <= |d|
    && WalkSections(d).Some? && RawWithin(WalkSections(d).value, ImageEnd(d, l))
  }

  lemma {:induction false} WalkWithin(d: seq<byte>, table: nat, n: nat)
    requires WalkTable(d, table, n).Some?
    ensures RawWithin(WalkTable(d, table, n).value, |d|)
  {
    hide Le32;
    if n > 0 {
      WalkWithin(d, table, n - 1);
    }
  }

  /** The sections of a signed UKI are all there if and only if the kernel came without a certificate table, or with an
      offset past everything the build appends. */
  lemma SectionsSurviveIff(c: Crypto, vmlinuz: seq<byte>, l: Layout, initramfs: seq<byte>, cmdline: seq<byte>,
                           id: Identity, out: seq<byte>)
    requires Extendable(vmlinuz, l, initramfs, cmdline) && initramfs != []
    requires SecurityOffset(vmlinuz, l) == 0 || SizeOfHeaders(vmlinuz, l) <= SecurityOffset(vmlinuz, l)
    requires UkiImage(c, vmlinuz, initramfs, cmdline, Some(id)) == Ok(out)
    ensures SectionsInImage(out, FinalLayout(l, cmdline)) <==> NoTableInside(vmlinuz, l, initramfs, cmdline)
  {
    hide WellFormed, WalkSections, NewRaw, NewHeader, SecurityOffset, SizeOfHeaders, Appended, SignedImage, Align, FinalLength, ImageEnd, SectionsInImage;
    AssembledSections(vmlinuz, l, initramfs, cmdline);
    AssembledEnd(vmlinuz, l, initramfs, cmdline);
    var stub := Assembled(vmlinuz, initramfs, cmdline).value;
    var last := FinalLayout(l, cmdline);
    WellFormedBounds(vmlinuz, l);
    if NoTableInside(vmlinuz, l, initramfs, cmdline) {
      SectionsStay(c, stub, last, id, out);
    } else {
      InitrdHeader(vmlinuz, l, initramfs, cmdline);
      SectionsGo(c, stub, last, WithCmdline(vmlinuz, cmdline).value, initramfs, id, out);
    }
  }

  lemma SectionsGo(c: Crypto, stub: seq<byte>, l: Layout, first: seq<byte>, data: seq<byte>, id: Identity, out: seq<byte>)
    requires WellFormed(stub, l) && SignedImage(c, stub, Some(id)) == Ok(out) && l.numberOfSections > 0
    requires l.fileAlignment > 0 && data != [] && InsertAt(l) <= |stub| == |Grown(first, l, data)| < TWO_32
    requires HeaderAt(stub, l.SectionTable(), l.numberOfSections - 1) == NewHeader(first, l, INITRD_NAME, data, INITRD_VMA)
    requires SizeOfHeaders(stub, l) <= SecurityOffset(stub, l) < |stub|
    ensures !SectionsInImage(out, l)
  {
    hide WellFormed, WalkSections, NewHeader, SecurityOffset, SizeOfHeaders, SignedImage, Align, ImageEnd, SectionsInImage, Preimage,
         SignatureDer, WinCertificate, Grown;
    SignedAtOldTable(c, stub, l, id, out);
    HeaderSame(stub, out, l.SectionTable(), l.numberOfSections - 1);
    LastSectionOutside(out, l, first, data);
  }

  lemma SectionsStay(c: Crypto, stub: seq<byte>, l: Layout, id: Identity, out: seq<byte>)
    requires WellFormed(stub, l) && ImageEnd(stub, l) == |stub| < TWO_32
    requires SignedImage(c, stub, Some(id)) == Ok(out)
    ensures SectionsInImage(out, l)
  {
    hide Parse, Embedded, WinCertificate, SignatureDer, RawPast, RawWithin, ImageEnd, Le32, SizeOfHeaders, WalkTable, WalkSections;
    WalkOfParsed(stub, l);
    var der := SignatureDer(c, id, c.hash(Preimage(stub, l).value)).value;
    SigningKeepsSections(c, stub, l, id, out);
    EmbedKeepsLayout(stub, l, der);
    EmbedImageEnd(stub, l, der);
    WalkWithin(stub, l.SectionTable(), l.numberOfSections);
  }

  lemma LastSectionOutside(out: seq<byte>, l: Layout, first: seq<byte>, data: seq<byte>)
    requires Parse(out) == Ok(l) && l.numberOfSections > 0 && l.SecurityDirEnd() <= |out|
    requires l.fileAlignment > 0 && data != [] && InsertAt(l) <= |out| && ImageEnd(out, l) < |Grown(first, l, data)| < TWO_32
    requires HeaderAt(out, l.SectionTable(), l.numberOfSections - 1) == NewHeader(first, l, INITRD_NAME, data, INITRD_VMA)
    ensures !SectionsInImage(out, l)
  {
    hide Parse, SectionHeader, Le32, ImageEnd, RawOf, WalkSections;
    WalkOfParsed(out, l);
    var pointer, size := Align(|first|, l.fileAlignment), Align(|data|, l.fileAlignment);
    HeaderReads(INITRD_NAME, |data|, INITRD_VMA, size, pointer);
    SmallU32(pointer);
    SmallU32(size);
    if WalkSections(out).Some? {
      var ss := WalkSections(out).value;
      assert ss[l.numberOfSections - 1].header == HeaderAt(out, l.SectionTable(), l.numberOfSections - 1);
    }
  }

  /** What is left of an already signed kernel: the assembled image up to the old table's offset, outside the two holes,
      and then the new table. From the offset on nothing of the kernel's tail, the command line or the initramfs
      remains, and if `.initrd` would end past the file the walk fails. */
  lemma SignedInputLosesSections(c: Crypto, vmlinuz: seq<byte>, l: Layout, initramfs: seq<byte>, cmdline: seq<byte>,
                                 id: Identity, out: seq<byte>)
    requires Extendable(vmlinuz, l, initramfs, cmdline) && initramfs != []
    requires SizeOfHeaders(vmlinuz, l) <= SecurityOffset(vmlinuz, l) < FinalLength(vmlinuz, l, initramfs, cmdline)
    requires UkiImage(c, vmlinuz, initramfs, cmdline, Some(id)) == Ok(out)
    ensures var stub := Assembled(vmlinuz, initramfs, cmdline).value;
            var off := SecurityOffset(vmlinuz, l);
            var last := FinalLayout(l, cmdline);
            && last.SecurityDirEnd() <= off <= |stub| && Preimage(stub, last).Some?
            && (var der := SignatureDer(c, id, c.hash(Preimage(stub, last).value));
                der.Some? && |out| == off + PaddedLen(der.value) && out[off..] == WinCertificate(der.value))
            && (forall i :: 0 <= i < off && !InHole(last, i) ==> out[i] == stub[i])
    ensures |out| < FinalLength(vmlinuz, l, initramfs, cmdline) ==> WalkSections(out) == None
  {
    hide WellFormed, WalkSections, NewRaw, NewHeader, SecurityOffset, SizeOfHeaders, Appended, SignedImage, Align, StubLength,
         SignatureDer, WinCertificate, Preimage;
    AssembledSections(vmlinuz, l, initramfs, cmdline);
    InitrdHeader(vmlinuz, l, initramfs, cmdline);
    var first := WithCmdline(vmlinuz, cmdline).value;
    var stub := Assembled(vmlinuz, initramfs, cmdline).value;
    SignedAtOldTable(c, stub, FinalLayout(l, cmdline), id, out);
    if |out| < |stub| {
      HeaderSame(stub, out, l.SectionTable(), FinalLayout(l, cmdline).numberOfSections - 1);
      LastSectionCut(out, FinalLayout(l, cmdline), first, initramfs);
    }
  }

  /** The signed sample kernel, whoever signs the UKI made of it with a key that signs everything. */
  lemma SignedSampleLosesInitrd(c: Crypto, id: Identity, initramfs: seq<byte>, cmdline: seq<byte>)
    requires initramfs != [] && |initramfs| < 0x4000_0000 && |cmdline| < 0x4000_0000 && forall digest :: id.sign(digest).Some?
    ensures var out := UkiImage(c, SampleImage(true, 8), initramfs, cmdline, Some(id));
            out.Ok? && !SectionsInImage(out.value, FinalLayout(SampleLayout(true), cmdline))
  {
    hide Assembled, SampleImage, WellFormed, SizeOfHeaders, SecurityOffset, Align, CertificateEntry, SignedImage, SectionsInImage,
         SignatureDer, Preimage, ImageEnd;
    var vmlinuz, l := SampleImage(true, 8), SampleLayout(true);
    var last := FinalLayout(l, cmdline);
    SampleKernelAssembles(8, initramfs, cmdline);
    SampleIsWellFormed(8);
    FinalIsLonger(vmlinuz, l, initramfs, cmdline);
    AssembledSections(vmlinuz, l, initramfs, cmdline);
    AssembledEnd(vmlinuz, l, initramfs, cmdline);
    var stub := Assembled(vmlinuz, initramfs, cmdline).value;
    WalksSome(stub, last);
    SigningOutcome(c, stub, Some(id));
    LayoutOffsets(last);
    if Preimage(stub, last).Some? {
      Signs(c, id, c.hash(Preimage(stub, last).value));
    }
    PreimageBytes(stub, last);
    SectionsSurviveIff(c, vmlinuz, l, initramfs, cmdline, id, SignedImage(c, stub, Some(id)).value);
  }

  lemma FinalIsLonger(vmlinuz: seq<byte>, l: Layout, initramfs: seq<byte>, cmdline: seq<byte>)
    requires l.fileAlignment > 0 && initramfs != []
    ensures |vmlinuz| < FinalLength(vmlinuz, l, initramfs, cmdline)
  {
    hide Align;
  }

  lemma HeaderSame(a: seq<byte>, b: seq<byte>, table: nat, i: nat)
    requires table + SECTION_HEADER_SIZE * (i + 1) <= |a| && table + SECTION_HEADER_SIZE * (i + 1) <= |b|
    requires forall k :: table <= k < table + SECTION_HEADER_SIZE * (i + 1) ==> a[k] == b[k]
    ensures HeaderAt(a, table, i) == HeaderAt(b, table, i)
  {
    var start := table + SECTION_HEADER_SIZE * i;
    assert a[start..start + SECTION_HEADER_SIZE] == b[start..start + SECTION_HEADER_SIZE];
  }

  /** The header of `.initrd` sits in the last slot of the stub. */
  lemma InitrdHeader(vmlinuz: seq<byte>, l: Layout, initramfs: seq<byte>, cmdline: seq<byte>)
    requires Extendable(vmlinuz, l, initramfs, cmdline) && Assembled(vmlinuz, initramfs, cmdline).Ok?
    ensures var first := WithCmdline(vmlinuz, cmdline);
            var stub := Assembled(vmlinuz, initramfs, cmdline).value;
            var last := FinalLayout(l, cmdline);
            && first.Ok? && InsertAt(last) <= |stub| == |Grown(first.value, last, initramfs)|
            && HeaderAt(stub, l.SectionTable(), last.numberOfSections - 1)
               == NewHeader(first.value, last, INITRD_NAME, initramfs, INITRD_VMA)
  {
    hide WellFormed, WalkSections, NewRaw, Align, SecurityOffset, SizeOfHeaders, Appended, Grown, SectionHeader;
    CmdlineStep(vmlinuz, l, initramfs, cmdline);
    var first := WithCmdline(vmlinuz, cmdline).value;
    var l1 := if cmdline == [] then l else l.(numberOfSections := l.numberOfSections + 1);
    AppendStep(first, l1, INITRD_NAME, initramfs, INITRD_VMA);
    SameSection(first, FinalLayout(l, cmdline), l1, initramfs);
  }

  /** Signing a stub that carries a Security entry: the headers stay, everything from the old table on goes. */
  lemma SignedAtOldTable(c: Crypto, stub: seq<byte>, l: Layout, id: Identity, out: seq<byte>)
    requires WellFormed(stub, l) && SignedImage(c, stub, Some(id)) == Ok(out)
    requires SizeOfHeaders(stub, l) <= SecurityOffset(stub, l) < |stub|
    ensures var off := SecurityOffset(stub, l);
            && l.SecurityDirEnd() <= off && Preimage(stub, l).Some?
            && (var der := SignatureDer(c, id, c.hash(Preimage(stub, l).value));
                der.Some? && |out| == off + PaddedLen(der.value) && out[off..] == WinCertificate(der.value))
            && (forall i :: 0 <= i < off && !InHole(l, i) ==> out[i] == stub[i])
    ensures Parse(out) == Ok(l) && l.SecurityDirEnd() <= |out|
    ensures SecurityOffset(stub, l) < TWO_32 ==> ImageEnd(out, l) == SecurityOffset(stub, l)
    ensures InsertAt(l) <= |out| && forall i :: l.SectionTable() <= i < InsertAt(l) ==> out[i] == stub[i]
  {
    hide Parse, Embedded, WinCertificate, SignatureDer, RawPast, SecurityOffset, SizeOfHeaders, WalkTable;
    var der := SignatureDer(c, id, c.hash(Preimage(stub, l).value)).value;
    EmbedKeepsLayout(stub, l, der);
    EmbeddedBytes(stub, l, der);
    EmbedImageEnd(stub, l, der);
    LayoutOffsets(l);
  }

  lemma LastSectionCut(out: seq<byte>, l: Layout, first: seq<byte>, data: seq<byte>)
    requires Parse(out) == Ok(l) && l.numberOfSections > 0
    requires l.fileAlignment > 0 && data != [] && InsertAt(l) <= |out| < |Grown(first, l, data)| < TWO_32
    requires HeaderAt(out, l.SectionTable(), l.numberOfSections - 1) == NewHeader(first, l, INITRD_NAME, data, INITRD_VMA)
    ensures WalkSections(out) == None
  {
    hide Parse, SectionHeader, Le32, WalkSections;
    WalkOfParsed(out, l);
    var pointer, size := Align(|first|, l.fileAlignment), Align(|data|, l.fileAlignment);
    HeaderReads(INITRD_NAME, |data|, INITRD_VMA, size, pointer);
    SmallU32(pointer);
    SmallU32(size);
  }
}
