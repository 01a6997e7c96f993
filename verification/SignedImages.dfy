/** What embedding a certificate keeps, and exactly which images the signer returns verify. */
module SignedImages {
  import opened Bytes
  import opened Der
  import opened PeChecksum
  import opened PeLayout
  import opened Authenticode
  import opened PeReader
  import opened ObjectIdentifiers
  import opened AuthenticodeVerifier
  import opened SampleImages

  /** The image proper reaches past the Security entry, so that signing does not panic. */
  predicate HeaderInImage(pe: seq<byte>, l: Layout) {
    l.SecurityDirEnd() <= |pe| && l.SecurityDirEnd() <= ImageEnd(pe, l)
  }

  /** Embedding changes no byte of the image outside the two holes, and appends the entry. */
  lemma EmbeddedBytes(pe: seq<byte>, l: Layout, certData: seq<byte>)
    requires HeaderInImage(pe, l)
    ensures var out := Embedded(pe, l, certData);
            && (forall i :: 0 <= i < ImageEnd(pe, l) && !InHole(l, i) ==> out[i] == pe[i])
            && out[ImageEnd(pe, l)..] == WinCertificate(certData)
            && SecurityOffset(out, l) == U32(ImageEnd(pe, l)) && SecuritySize(out, l) == U32(PaddedLen(certData))
  {
    var base := Base(pe, l);
    var all := base + WinCertificate(certData);
    var patched := WithSecurityDir(all, l, |base|, PaddedLen(certData));
    var out := Embedded(pe, l, certData);
    hide WinCertificate, WithSecurityDir, Rechecksummed, Le32, U32;
    LayoutOffsets(l);
    SecurityDirReads(all, l, |base|, PaddedLen(certData));
    RechecksummedElsewhere(patched, l.ChecksumOff());
    SameSecurityDir(patched, out, l);
  }

  lemma RechecksummedElsewhere(d: seq<byte>, off: nat)
    requires off + 4 <= |d|
    ensures forall i {:trigger Rechecksummed(d, off)[i]} :: 0 <= i < |d| && !(off <= i < off + 4) ==> Rechecksummed(d, off)[i] == d[i]
  {
  }

  lemma SameSecurityDir(a: seq<byte>, b: seq<byte>, l: Layout)
    requires l.SecurityDirEnd() <= |a| == |b|
    requires forall i :: l.SecurityDir() <= i < l.SecurityDirEnd() ==> a[i] == b[i]
    ensures SecurityOffset(a, l) == SecurityOffset(b, l) && SecuritySize(a, l) == SecuritySize(b, l)
  {
  }

  /** At an even CheckSum offset the output carries its own checksum. */
  lemma EmbeddedChecksum(pe: seq<byte>, l: Layout, certData: seq<byte>)
    requires HeaderInImage(pe, l) && l.ntHeader % 2 == 0
    ensures var out := Embedded(pe, l, certData);
            l.ntHeader + 92 <= |out| && Le32(out, l.ntHeader + 88) == Checksum(out, l.ntHeader + 88)
  {
    hide Rechecksummed, WithSecurityDir, WinCertificate, Checksum;
    LayoutOffsets(l);
    RecomputedIsStable(WithSecurityDir(Base(pe, l) + WinCertificate(certData), l, |Base(pe, l)|, PaddedLen(certData)), l.ChecksumOff());
  }

  /** For every image, signed before or not, re-parsing gives the identical layout, exactly when the section table
      start is still inside the file. */
  lemma EmbedKeepsLayout(pe: seq<byte>, l: Layout, certData: seq<byte>)
    requires Parse(pe) == Ok(l) && HeaderInImage(pe, l)
    ensures Parse(Embedded(pe, l, certData)) == Ok(l) <==> l.SectionTable() <= ImageEnd(pe, l) + PaddedLen(certData)
  {
    hide Parse, Embedded, WinCertificate, ImageEnd;
    var out := Embedded(pe, l, certData);
    LayoutOffsets(l);
    EmbeddedBytes(pe, l, certData);
    assert SameHead(pe, out, l);
    ParseReadsOnlyTheHead(pe, out, l);
  }

  /** The new Security entry delimits the same image, exactly when its offset fits the 32-bit field. */
  lemma EmbedImageEnd(pe: seq<byte>, l: Layout, certData: seq<byte>)
    requires HeaderInImage(pe, l)
    ensures ImageEnd(Embedded(pe, l, certData), l) == ImageEnd(pe, l) <==> ImageEnd(pe, l) < TWO_32
  {
    EmbeddedBytes(pe, l, certData);
    EndAtStoredOffset(Embedded(pe, l, certData), l, ImageEnd(pe, l));
  }

  lemma EndAtStoredOffset(out: seq<byte>, l: Layout, end: nat)
    requires l.SecurityDirEnd() <= |out| && 0 < end < |out| && SecurityOffset(out, l) == U32(end)
    ensures ImageEnd(out, l) == end <==> end < TWO_32
  {
  }

  /** Embedding any certificate leaves the digested bytes unchanged, exactly when the image is below four gigabytes. */
  lemma EmbedKeepsPreimage(pe: seq<byte>, l: Layout, certData: seq<byte>)
    requires HeaderInImage(pe, l)
    ensures Preimage(Embedded(pe, l, certData), l) == Preimage(pe, l) <==> ImageEnd(pe, l) < TWO_32
  {
    hide Embedded, WinCertificate, Preimage, ImageEnd;
    var out := Embedded(pe, l, certData);
    EmbeddedBytes(pe, l, certData);
    EmbedImageEnd(pe, l, certData);
    PreimageDetermines(pe, out, l);
  }

  /** Re-signing collapses: no trace of an earlier table, Security entry or checksum survives. */
  lemma ReembedCollapses(pe: seq<byte>, l: Layout, c1: seq<byte>, c2: seq<byte>)
    requires HeaderInImage(pe, l)
    ensures var first := Embedded(pe, l, c1);
            l.SecurityDirEnd() <= ImageEnd(first, l) + PaddedLen(c2) && Embedded(first, l, c2) == Embedded(pe, l, c2)
            <==> ImageEnd(pe, l) < TWO_32
  {
    hide WinCertificate, WithSecurityDir, Rechecksummed, ImageEnd, PaddedLen, InHole;
    var first := Embedded(pe, l, c1);
    EmbedImageEnd(pe, l, c1);
    if ImageEnd(pe, l) < TWO_32 {
      EmbeddedBytes(pe, l, c1);
      SameOutsideHoles(Base(first, l), Base(pe, l), l, c2);
    }
  }

  /** The output depends on the image only outside the holes. */
  lemma SameOutsideHoles(a: seq<byte>, b: seq<byte>, l: Layout, certData: seq<byte>)
    requires |a| == |b| && l.SecurityDirEnd() <= |a|
    requires forall i :: 0 <= i < |a| && !InHole(l, i) ==> a[i] == b[i]
    ensures var pa := WithSecurityDir(a + WinCertificate(certData), l, |a|, PaddedLen(certData));
            var pb := WithSecurityDir(b + WinCertificate(certData), l, |b|, PaddedLen(certData));
            l.ChecksumOff() + 4 <= |pa| && Rechecksummed(pa, l.ChecksumOff()) == Rechecksummed(pb, l.ChecksumOff())
  {
    hide WinCertificate, Rechecksummed, WithSecurityDir;
    LayoutOffsets(l);
    var e := WinCertificate(certData);
    var pa := WithSecurityDir(a + e, l, |a|, PaddedLen(certData));
    var pb := WithSecurityDir(b + e, l, |b|, PaddedLen(certData));
    SameDirPatched(a + e, b + e, l, |a|, PaddedLen(certData));
    SameRechecksummed(pa, pb, l.ChecksumOff());
  }

  lemma SameDirPatched(a: seq<byte>, b: seq<byte>, l: Layout, offset: nat, size: nat)
    requires |a| == |b| && l.SecurityDirEnd() <= |a|
    requires forall i :: 0 <= i < |a| && !InHole(l, i) ==> a[i] == b[i]
    ensures var pa, pb := WithSecurityDir(a, l, offset, size), WithSecurityDir(b, l, offset, size);
            forall i :: 0 <= i < |pa| && !(l.ChecksumOff() <= i < l.ChecksumOff() + 4) ==> pa[i] == pb[i]
  {
  }

  lemma SameRechecksummed(a: seq<byte>, b: seq<byte>, off: nat)
    requires |a| == |b| && off + 4 <= |a|
    requires forall i :: 0 <= i < |a| && !(off <= i < off + 4) ==> a[i] == b[i]
    ensures Rechecksummed(a, off) == Rechecksummed(b, off)
  {
    var zero := PutLe32(0);
    assert Patch(a, off, zero) == Patch(b, off, zero);
    var sum := PutLe32(Checksum(Patch(a, off, zero), off));
    assert Patch(a, off, sum) == Patch(b, off, sum);
  }

  /** A second signing of the output with another identity is the first signing done with that identity. */
  lemma ResignCollapses(c: Crypto, pe: seq<byte>, l: Layout, id1: Identity, id2: Identity, out: seq<byte>)
    requires Parse(pe) == Ok(l) && SignedImage(c, pe, Some(id1)) == Ok(out)
    requires ImageEnd(pe, l) < TWO_32 && l.SectionTable() <= |out|
    ensures SignedImage(c, out, Some(id2)) == SignedImage(c, pe, Some(id2))
  {
    var preimage := Preimage(pe, l).value;
    hide Embedded, Parse, ImageEnd, PaddedLen, SignatureDer;
    var der1 := SignatureDer(c, id1, c.hash(preimage)).value;
    EmbedKeepsLayout(pe, l, der1);
    EmbedKeepsPreimage(pe, l, der1);
    var der2 := SignatureDer(c, id2, c.hash(preimage));
    if der2.Some? {
      ReembedCollapses(pe, l, der1, der2.value);
    }
  }

  /** The certificate table of the output holds exactly the certificate data, while all sizes fit their fields. */
  lemma CertificateDataReads(pe: seq<byte>, l: Layout, certData: seq<byte>)
    requires HeaderInImage(pe, l)
    requires ImageEnd(pe, l) < TWO_32 && PaddedLen(certData) < TWO_32
    ensures CertificateData(Embedded(pe, l, certData), l.SecurityDir()) == Some(certData)
  {
    EmbeddedBytes(pe, l, certData);
    WinCertificateReads(certData);
    EntryReads(Embedded(pe, l, certData), l, ImageEnd(pe, l), WinCertificate(certData), certData);
  }

  lemma EntryReads(out: seq<byte>, l: Layout, end: nat, entry: seq<byte>, certData: seq<byte>)
    requires l.SecurityDirEnd() <= |out| && l.SecurityDirEnd() <= end <= |out| && out[end..] == entry
    requires end < TWO_32 && |entry| < TWO_32 && |entry| == PaddedLen(certData)
    requires SecurityOffset(out, l) == U32(end) && SecuritySize(out, l) == U32(|entry|)
    requires Le32(entry, 0) == 8 + |certData| && Le16(entry, 4) == 0x0200 && Le16(entry, 6) == 0x0002
    requires 8 + |certData| <= |entry| && entry[8..8 + |certData|] == certData
    ensures CertificateData(out, l.SecurityDir()) == Some(certData)
  {
    SmallU32(end);
    SmallU32(|entry|);
    EightfoldIs(8 + |certData|);
    hide Le32, Le16, U32, PaddedLen;
    assert out[end..][8..8 + |certData|] == certData;
  }

  lemma EightfoldIs(n: nat)
    ensures (n + 7) / 8 * 8 == Align(n, 8)
  {
  }

  lemma WinCertificateReads(certData: seq<byte>)
    requires PaddedLen(certData) < TWO_32
    ensures var e := WinCertificate(certData);
            && Le32(e, 0) == 8 + |certData| && Le16(e, 4) == 0x0200 && Le16(e, 6) == 0x0002
            && e[8..8 + |certData|] == certData
            && forall i :: 8 + |certData| <= i < |e| ==> e[i] == 0
  {
    var e := WinCertificate(certData);
    var length := PutLe32(8 + |certData|);
    assert e[0] == length[0] && e[1] == length[1] && e[2] == length[2] && e[3] == length[3];
    assert e[8..8 + |certData|] == certData;
  }

  // ----- the signer's layout against the format

  /** The layout agrees with the format on the optional header and the CheckSum field, and on the Certificate Table entry
      exactly in PE32+: what it takes for that entry in PE32 is the Debug entry, sixteen bytes further on. */
  lemma EntryOfLayout(d: seq<byte>, l: Layout)
    requires Parse(d) == Ok(l)
    ensures ReadHeaders(d) == Some(Headers(l.OptionalHeader(), l.isPe32Plus, l.sizeOfOptionalHeader))
    ensures var h := ReadHeaders(d).value;
            && h.CheckSumAt() == l.ChecksumOff() && l.SecurityDirEnd() <= |d|
            && l.SecurityDir() == h.EntryAt(if l.isPe32Plus then CERTIFICATE_TABLE_INDEX else DEBUG_INDEX)
            && (CertificateEntry(d).Some?
                <==> h.EntryAt(CERTIFICATE_TABLE_INDEX) + 8 <= l.SectionTable() && Le32(d, h.CountAt()) > CERTIFICATE_TABLE_INDEX)
            && (l.isPe32Plus && CertificateEntry(d).Some? ==> CertificateEntry(d).value == l.SecurityDir())
  {
    hide Le32, Le16;
    LayoutOffsets(l);
  }

  /** Embedding leaves the reader's entry where it was. */
  lemma EntryKept(pe: seq<byte>, l: Layout, certData: seq<byte>)
    requires Parse(pe) == Ok(l) && HeaderInImage(pe, l) && Parse(Embedded(pe, l, certData)) == Ok(l)
    ensures CertificateEntry(Embedded(pe, l, certData)) == CertificateEntry(pe)
  {
    hide Embedded, Parse, WinCertificate, ImageEnd, Le32;
    var out := Embedded(pe, l, certData);
    LayoutOffsets(l);
    EntryOfLayout(pe, l);
    EntryOfLayout(out, l);
    EmbeddedBytes(pe, l, certData);
    SameLe32(pe, out, ReadHeaders(pe).value.CountAt());
  }

  lemma SameLe32(a: seq<byte>, b: seq<byte>, off: nat)
    requires off + 4 <= |a| && off + 4 <= |b| && forall i :: off <= i < off + 4 ==> a[i] == b[i]
    ensures Le32(a, off) == Le32(b, off)
  {
  }

  /** In a PE32 image signing never touches the Certificate Table entry: an unsigned image stays unsigned. */
  lemma Pe32EntryUntouched(pe: seq<byte>, l: Layout, certData: seq<byte>)
    requires Parse(pe) == Ok(l) && HeaderInImage(pe, l) && !l.isPe32Plus
    ensures var out := Embedded(pe, l, certData);
            var entry := l.OptionalHeader() + 128;
            entry + 8 <= |out| && out[entry..entry + 8] == pe[entry..entry + 8]
  {
    hide Embedded, Parse, WinCertificate, ImageEnd, Le32;
    LayoutOffsets(l);
    EmbeddedBytes(pe, l, certData);
  }

  /** The verifier accepts the printed signature over any digested bytes. */
  lemma SignatureAccepted(c: Crypto, id: Identity, digested: seq<byte>)
    requires WellFormedIdentity(id) && MatchingPair(c, id)
    requires SignatureDer(c, id, c.hash(digested)).Some? && |SignatureDer(c, id, c.hash(digested)).value| < TWO_32
    ensures var view := DecodeContentInfo(SignatureDer(c, id, c.hash(digested)).value);
            view.Some? && Accepts(c, view.value, digested)
  {
    hide DecodeContentInfo, SignatureDer, SpcIndirectDataContent, AuthAttributes, Encode, EncodeAll, IsOid;
    SpcOids();
    SignatureDecodes(c, id, c.hash(digested));
  }

  /** The image on which the signer's reading of the headers is the format's, and whose headers have a Certificate Table
      entry to sign in. */
  predicate SignableFormat(pe: seq<byte>, l: Layout) { l.isPe32Plus && CertificateEntry(pe).Some? }

  /** Every PE32+ image with a Certificate Table entry that the signer returns passes the verifier, signed before or not,
      for every key whose certificate belongs to it. */
  lemma SignedImagesVerify(c: Crypto, pe: seq<byte>, l: Layout, id: Identity, out: seq<byte>)
    requires WellFormedIdentity(id) && MatchingPair(c, id)
    requires Parse(pe) == Ok(l) && SignedImage(c, pe, Some(id)) == Ok(out)
    requires ImageEnd(pe, l) < TWO_32 && |out| - ImageEnd(pe, l) < TWO_32 && l.SectionTable() <= |out|
    requires SignableFormat(pe, l)
    ensures Verifies(c, out)
  {
    hide Embedded, Parse, ImageEnd, PaddedLen, DecodeContentInfo, CertificateData, Encode, SignatureDer, Accepts, ReadHeaders, CertificateEntry, Le32, Digested;
    var preimage := Preimage(pe, l).value;
    var der := SignatureDer(c, id, c.hash(preimage)).value;
    EmbedKeepsLayout(pe, l, der);
    EmbedKeepsPreimage(pe, l, der);
    EmbedImageEnd(pe, l, der);
    EmbeddedBytes(pe, l, der);
    EntryKept(pe, l, der);
    EntryOfLayout(out, l);
    CertificateDataReads(pe, l, der);
    SmallU32(ImageEnd(pe, l));
    DigestedIsPreimage(out, l);
    SignatureAccepted(c, id, preimage);
  }

  lemma DigestedIsPreimage(out: seq<byte>, l: Layout)
    requires l.SecurityDirEnd() <= |out| && l.SecurityDirEnd() <= ImageEnd(out, l) == SecurityOffset(out, l)
    ensures l.ChecksumOff() + 4 <= l.SecurityDir()
    ensures Preimage(out, l) == Some(Digested(out, l.ChecksumOff(), l.SecurityDir(), SecurityOffset(out, l)))
  {
    hide Le32;
    LayoutOffsets(l);
  }

  /** No certificate table in the sense of the format. */
  predicate Unsigned(pe: seq<byte>) { CertificateEntry(pe).Some? ==> TableOffset(pe, CertificateEntry(pe).value) == 0 }

  /** The exact condition: the signed image verifies if and only if the image was PE32+ with a Certificate Table entry.
      (A PE32 image must come unsigned: a table it already has stays in its entry and may verify for itself.) */
  lemma SignedImagesVerifyIff(c: Crypto, pe: seq<byte>, l: Layout, id: Identity, out: seq<byte>)
    requires WellFormedIdentity(id) && MatchingPair(c, id)
    requires Parse(pe) == Ok(l) && SignedImage(c, pe, Some(id)) == Ok(out)
    requires ImageEnd(pe, l) < TWO_32 && |out| - ImageEnd(pe, l) < TWO_32 && l.SectionTable() <= |out|
    requires l.isPe32Plus || Unsigned(pe)
    ensures Verifies(c, out) <==> SignableFormat(pe, l)
  {
    hide Embedded, Parse, ImageEnd, PaddedLen, DecodeContentInfo, Encode, SignatureDer, Accepts, ReadHeaders, CertificateEntry, Le32, Digested;
    if SignableFormat(pe, l) {
      SignedImagesVerify(c, pe, l, id, out);
    } else {
      var der := SignatureDer(c, id, c.hash(Preimage(pe, l).value)).value;
      EmbedKeepsLayout(pe, l, der);
      EntryKept(pe, l, der);
      if !l.isPe32Plus && CertificateEntry(pe).Some? {
        EntryOfLayout(pe, l);
        Pe32EntryUntouched(pe, l, der);
        var entry := CertificateEntry(pe).value;
        SameTable(pe, out, entry);
      }
    }
  }

  lemma SameTable(a: seq<byte>, b: seq<byte>, entry: nat)
    requires entry + 8 <= |a| && entry + 8 <= |b| && a[entry..entry + 8] == b[entry..entry + 8]
    ensures TableOffset(a, entry) == TableOffset(b, entry)
  {
    assert forall i :: entry <= i < entry + 8 ==> a[i] == a[entry..entry + 8][i - entry] == b[entry..entry + 8][i - entry] == b[i];
    SameLe32(a, b, entry);
  }

  /** A 512-byte PE32 image: whoever signs it with a key that signs everything, the result verifies for nobody. */
  lemma Pe32Counterexample(c: Crypto, id: Identity)
    requires WellFormedIdentity(id) && forall digest :: id.sign(digest).Some?
    ensures SignedImage(c, SampleImage(false, 0), Some(id)).Ok?
    ensures !Verifies(c, SignedImage(c, SampleImage(false, 0), Some(id)).value)
  {
    hide Embedded, Parse, PaddedLen, DecodeContentInfo, Encode, SignatureDer, Accepts, ReadHeaders, CertificateEntry, Le32, Digested;
    var pe := SampleImage(false, 0);
    var l := SampleLayout(false);
    SampleParses(false, 0);
    LayoutOffsets(l);
    SigningOutcome(c, pe, Some(id));
    Signs(c, id, c.hash(Preimage(pe, l).value));
    var out := SignedImage(c, pe, Some(id)).value;
    var der := SignatureDer(c, id, c.hash(Preimage(pe, l).value)).value;
    EmbedKeepsLayout(pe, l, der);
    EntryKept(pe, l, der);
    EntryOfLayout(pe, l);
    Pe32EntryUntouched(pe, l, der);
    if CertificateEntry(pe).Some? {
      SameTable(pe, out, CertificateEntry(pe).value);
    }
  }

  lemma Signs(c: Crypto, id: Identity, peDigest: seq<byte>)
    requires forall digest :: id.sign(digest).Some?
    ensures SignatureDer(c, id, peDigest).Some?
  {
  }

  /** The signer panics exactly when the parser does or the image proper ends in front of the Security entry's end; it
      returns an image exactly when all of parsing, loading and the key's signature work out. */
  lemma SigningOutcome(c: Crypto, pe: seq<byte>, kp: Option<Identity>)
    ensures SignedImage(c, pe, kp) == Panic
       <==> Parse(pe) == Panic || (Parse(pe).Ok? && kp.Some? && !HeaderInImage(pe, Parse(pe).value))
    ensures SignedImage(c, pe, kp).Ok?
       <==> && Parse(pe).Ok? && kp.Some? && HeaderInImage(pe, Parse(pe).value)
            && SignatureDer(c, kp.value, c.hash(Preimage(pe, Parse(pe).value).value)).Some?
  {
  }

  /** The offset stored in the Security entry is a multiple of eight, as the attribute certificate table of the PE/COFF
      specification asks, exactly when the image already had such a length: nothing pads it. */
  lemma CertificateOffsetAlignment(pe: seq<byte>, l: Layout, certData: seq<byte>)
    requires HeaderInImage(pe, l)
    ensures SecurityOffset(Embedded(pe, l, certData), l) % 8 == 0 <==> ImageEnd(pe, l) % 8 == 0
  {
    EmbeddedBytes(pe, l, certData);
    LowBits(ImageEnd(pe, l));
  }

  lemma LowBits(n: nat)
    ensures U32(n) % 8 == n % 8
  {
    var q, r := n / TWO_32, n % TWO_32;
    assert n == 8 * (0x2000_0000 * q + r / 8) + r % 8;
    DivModUnique(n, 8, 0x2000_0000 * q + r / 8, r % 8);
  }

  /** The verifier is not fooled by a change to the image: a verifying image that differs from another one in a digested
      byte has a different digest, or the hash collides. */
  lemma TamperingChangesPreimage(a: seq<byte>, b: seq<byte>, l: Layout, i: nat)
    requires HeaderInImage(a, l) && |a| == |b| && SecurityOffset(a, l) == SecurityOffset(b, l)
    requires i < ImageEnd(a, l) && !InHole(l, i) && a[i] != b[i]
    ensures Preimage(a, l) != Preimage(b, l)
  {
    PreimageDetermines(a, b, l);
  }
}
