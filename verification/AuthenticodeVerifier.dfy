/** A verifier that finds the signature with the header reader of its own (PeReader), unwraps the WIN_CERTIFICATE and its
    DER, compares object identifiers by their dotted numbers, and recomputes both digests. Tags and identifiers are
    written out here; with the signer it shares only the DER reader and the given cryptographic functions. */
module AuthenticodeVerifier {
  import opened Bytes
  import opened Der
  import opened ObjectIdentifiers
  import opened PeReader
  import opened Authenticode

  /** The n elements of a constructed value with this tag. */
  function Elements(t: Tlv, tag: byte, n: nat): (r: Option<seq<Tlv>>)
    ensures r.Some? ==> |r.value| == n
  {
    if t.tag != tag then None else
    var ts :- ReadAll(t.content);
    if |ts| == n then Some(ts) else None
  }

  /** An algorithm without parameters other than NULL. */
  predicate IsAlgorithm(t: Tlv, arcs: seq<nat>) {
    match Elements(t, 0x30, 2)
    case Some(parts) => IsOid(parts[0], arcs) && parts[1] == Tlv(0x05, [])
    case None => false
  }

  datatype SpcView = SpcView(octets: seq<byte>, digest: seq<byte>)

  /** Big-endian UTF-16 of plain characters. */
  predicate IsUtf16(octets: seq<byte>, text: string) {
    |octets| == 2 * |text| && forall i :: 0 <= i < |text| ==> octets[2 * i] == 0 && octets[2 * i + 1] == text[i] as int
  }

  /** SpcPeImageData: no flags, and a link [0] to a file [2] with the customary Unicode name [0]. */
  predicate IsPeImageData(t: Tlv) {
    match Elements(t, 0x30, 2)
    case None => false
    case Some(parts) =>
      parts[0] == Tlv(0x03, [0])
      && (match Elements(parts[1], 0xA0, 1)
          case Some(link) => (match Elements(link[0], 0xA2, 1)
                              case Some(file) => file[0].tag == 0x80 && IsUtf16(file[0].content, "<<<Obsolete>>>")
                              case None => false)
          case None => false)
  }

  /** SpcIndirectDataContent: its content octets and the digest in its DigestInfo. */
  function DecodeSpc(t: Tlv): Option<SpcView> {
    var parts :- Elements(t, 0x30, 2);
    var data :- Elements(parts[0], 0x30, 2);
    var info :- Elements(parts[1], 0x30, 2);
    if !IsOid(data[0], [1, 3, 6, 1, 4, 1, 311, 2, 1, 15]) || !IsPeImageData(data[1]) then None
    else if !IsAlgorithm(info[0], [2, 16, 840, 1, 101, 3, 4, 2, 1]) || info[1].tag != 0x04 then None
    else Some(SpcView(t.content, info[1].content))
  }

  /** The single value of the first attribute with this type. */
  function FindAttribute(attributes: seq<Tlv>, arcs: seq<nat>): Option<Tlv> {
    if attributes == [] then None else
    var parts :- Elements(attributes[0], 0x30, 2);
    if !IsOid(parts[0], arcs) then FindAttribute(attributes[1..], arcs) else
    var values :- Elements(parts[1], 0x31, 1);
    Some(values[0])
  }

  datatype SignerView = SignerView(
    issuer: Tlv, serial: Tlv, attributeOctets: seq<byte>, contentType: Tlv, messageDigest: Tlv, signature: seq<byte>)

  /** Version 1; the digest is SHA-256 and the signature RSA. */
  function DecodeSignerInfo(t: Tlv): Option<SignerView> {
    var parts :- Elements(t, 0x30, 6);
    var id :- Elements(parts[1], 0x30, 2);
    var attributes :- Elements(parts[3], 0xA0, 2);
    var contentType :- FindAttribute(attributes, [1, 2, 840, 113549, 1, 9, 3]);
    var messageDigest :- FindAttribute(attributes, [1, 2, 840, 113549, 1, 9, 4]);
    if parts[0] != Tlv(0x02, [1]) || !IsAlgorithm(parts[2], [2, 16, 840, 1, 101, 3, 4, 2, 1])
       || !IsAlgorithm(parts[4], [1, 2, 840, 113549, 1, 1, 1]) || parts[5].tag != 0x04 then None
    else Some(SignerView(id[0], id[1], parts[3].content, contentType, messageDigest, parts[5].content))
  }

  datatype View = View(spc: SpcView, certificate: Tlv, signer: SignerView)

  /** Version 1, the one digest algorithm, the content, one certificate and one signer. */
  function DecodeSignedData(t: Tlv): Option<View> {
    var parts :- Elements(t, 0x30, 5);
    var digestAlgorithms :- Elements(parts[1], 0x31, 1);
    var content :- Elements(parts[2], 0x30, 2);
    var wrapped :- Elements(content[1], 0xA0, 1);
    var spc :- DecodeSpc(wrapped[0]);
    var certificates :- Elements(parts[3], 0xA0, 1);
    var signers :- Elements(parts[4], 0x31, 1);
    var signer :- DecodeSignerInfo(signers[0]);
    if parts[0] != Tlv(0x02, [1]) || !IsAlgorithm(digestAlgorithms[0], [2, 16, 840, 1, 101, 3, 4, 2, 1])
       || !IsOid(content[0], [1, 3, 6, 1, 4, 1, 311, 2, 1, 4]) then None
    else Some(View(spc, certificates[0], signer))
  }

  function DecodeContentInfo(der: seq<byte>): Option<View> {
    var top :- ReadOne(der);
    var parts :- Elements(top, 0x30, 2);
    var wrapped :- Elements(parts[1], 0xA0, 1);
    if !IsOid(parts[0], [1, 2, 840, 113549, 1, 7, 2]) then None else DecodeSignedData(wrapped[0])
  }

  /** The image's own digest is the signed one, contentType names SpcIndirectDataContent, messageDigest is the hash of the
      content octets only, the signer is named by the issuer and serial number of the certificate that comes along, and
      the signature verifies under that certificate and covers the attributes re-tagged as a SET. */
  predicate Accepts(c: Crypto, view: View, digested: seq<byte>) {
    && view.spc.digest == c.hash(digested)
    && IsOid(view.signer.contentType, [1, 3, 6, 1, 4, 1, 311, 2, 1, 4])
    && view.signer.messageDigest == Tlv(0x04, c.hash(view.spc.octets))
    && view.signer.issuer == c.issuerOf(view.certificate)
    && view.signer.serial == c.serialOf(view.certificate)
    && c.verify(view.certificate, c.hash(Encode(Tlv(0x31, view.signer.attributeOctets))), view.signer.signature)
  }

  predicate Verifies(c: Crypto, image: seq<byte>) {
    match CertificateEntry(image)
    case None => false
    case Some(entry) =>
      match CertificateData(image, entry)
      case None => false
      case Some(der) =>
        var digested := Digested(image, ReadHeaders(image).value.CheckSumAt(), entry, TableOffset(image, entry));
        match DecodeContentInfo(der)
        case Some(view) => Accepts(c, view, digested)
        case None => false
  }

  // ----- the signer's object identifiers

  /** The first octet holds two arcs. */
  lemma ArcsAre(octets: seq<byte>, ids: seq<nat>, arcs: seq<nat>)
    requires Subidentifiers(octets, 0, true) == Some(ids) && ids != [] && |arcs| == |ids| + 1
    requires arcs[0] == (if ids[0] < 40 then 0 else if ids[0] < 80 then 1 else 2) && arcs[1] == ids[0] - 40 * arcs[0]
    requires forall i :: 1 <= i < |ids| ==> arcs[i + 1] == ids[i]
    ensures IsOid(Oid(octets), arcs)
  {
    hide Subidentifiers;
    assert [arcs[0], arcs[1]] + ids[1..] == arcs;
  }

  /** 1.3.6.1.4.1.311.2.1.n */
  lemma SpcOid(octets: seq<byte>, n: byte, arcs: seq<nat>)
    requires n < 0x80 && octets == [0x2B, 0x06, 0x01, 0x04, 0x01, 0x82, 0x37, 0x02, 0x01, n]
    requires arcs == [1, 3, 6, 1, 4, 1, 311, 2, 1] + [n as nat]
    ensures IsOid(Oid(octets), arcs)
  {
    hide Subidentifiers;
    var head, long, tail: seq<byte> := [0x2B, 0x06, 0x01, 0x04, 0x01], [0x82, 0x37], [0x02, 0x01, n];
    var headArcs, tailArcs: seq<nat> := [43, 6, 1, 4, 1], [2, 1, n as nat];
    SmallArcs(head, headArcs);
    SmallArcs(tail, tailArcs);
    TwoOctets(0x82, 0x37);
    WithLongArc(octets, head, long, tail, 311, headArcs, tailArcs);
    ArcsAre(octets, headArcs + [311] + tailArcs, arcs);
  }

  /** 1.2.840.113549.1.k.n */
  lemma RsaOid(octets: seq<byte>, k: byte, n: byte, arcs: seq<nat>)
    requires k < 0x80 && n < 0x80 && octets == [0x2A, 0x86, 0x48, 0x86, 0xF7, 0x0D, 0x01, k, n]
    requires arcs == [1, 2, 840, 113549, 1] + [k as nat, n as nat]
    ensures IsOid(Oid(octets), arcs)
  {
    hide Subidentifiers;
    var first, second, tail: seq<byte> := [0x2A], [0x86, 0x48], [0x01, k, n];
    var tailArcs: seq<nat> := [1, k as nat, n as nat];
    SmallArcs(first, [42]);
    SmallArcs(tail, tailArcs);
    TwoOctets(0x86, 0x48);
    ThreeOctets(0x86, 0xF7, 0x0D);
    Joined(first, second, 0, true, [42], [840]);
    WithLongArc(octets, first + second, [0x86, 0xF7, 0x0D], tail, 113549, [42] + [840], tailArcs);
    ArcsAre(octets, [42] + [840] + [113549] + tailArcs, arcs);
  }

  lemma Sha256Oid(octets: seq<byte>)
    requires octets == [0x60, 0x86, 0x48, 0x01, 0x65, 0x03, 0x04, 0x02, 0x01]
    ensures IsOid(Oid(octets), [2, 16, 840, 1, 101, 3, 4, 2, 1])
  {
    hide Subidentifiers;
    var tail: seq<byte> := [0x01, 0x65, 0x03, 0x04, 0x02, 0x01];
    var tailArcs: seq<nat> := [1, 101, 3, 4, 2, 1];
    SmallArcs([0x60], [96]);
    SmallArcs(tail, tailArcs);
    TwoOctets(0x86, 0x48);
    WithLongArc(octets, [0x60], [0x86, 0x48], tail, 840, [96], tailArcs);
    ArcsAre(octets, [96] + [840] + tailArcs, [2, 16, 840, 1, 101, 3, 4, 2, 1]);
  }

  /** What the signer's octets say in dotted numbers. */
  lemma SpcOids()
    ensures IsOid(Oid(OID_SPC_INDIRECT_DATA), [1, 3, 6, 1, 4, 1, 311, 2, 1, 4])
    ensures IsOid(Oid(OID_SPC_PE_IMAGE_DATA), [1, 3, 6, 1, 4, 1, 311, 2, 1, 15])
  {
    SpcOid(OID_SPC_INDIRECT_DATA, 4, [1, 3, 6, 1, 4, 1, 311, 2, 1, 4]);
    SpcOid(OID_SPC_PE_IMAGE_DATA, 15, [1, 3, 6, 1, 4, 1, 311, 2, 1, 15]);
  }

  lemma PkcsOids()
    ensures IsOid(Oid(OID_PKCS7_SIGNED_DATA), [1, 2, 840, 113549, 1, 7, 2])
    ensures IsOid(Oid(OID_PKCS9_CONTENT_TYPE), [1, 2, 840, 113549, 1, 9, 3])
    ensures IsOid(Oid(OID_PKCS9_MESSAGE_DIGEST), [1, 2, 840, 113549, 1, 9, 4])
  {
    RsaOid(OID_PKCS7_SIGNED_DATA, 7, 2, [1, 2, 840, 113549, 1, 7, 2]);
    RsaOid(OID_PKCS9_CONTENT_TYPE, 9, 3, [1, 2, 840, 113549, 1, 9, 3]);
    RsaOid(OID_PKCS9_MESSAGE_DIGEST, 9, 4, [1, 2, 840, 113549, 1, 9, 4]);
  }

  lemma AlgorithmOids()
    ensures IsOid(Oid(OID_SHA256), [2, 16, 840, 1, 101, 3, 4, 2, 1])
    ensures IsOid(Oid(OID_RSA_ENCRYPTION), [1, 2, 840, 113549, 1, 1, 1])
  {
    Sha256Oid(OID_SHA256);
    RsaOid(OID_RSA_ENCRYPTION, 1, 1, [1, 2, 840, 113549, 1, 1, 1]);
  }

  lemma SameArcs(t: Tlv, a: seq<nat>, b: seq<nat>)
    requires IsOid(t, a) && a != b
    ensures !IsOid(t, b)
  {
  }

  // ----- decoding what the signer prints

  lemma NodeOpens(tag: byte, elements: seq<Tlv>)
    requires |EncodeAll(elements)| < TWO_32
    requires forall i :: 0 <= i < |elements| ==> ShortTag(elements[i])
    ensures Elements(Node(tag, elements), tag, |elements|) == Some(elements)
    ensures forall i :: 0 <= i < |elements| ==> |elements[i].content| < TWO_32
  {
    ElementsFit(elements);
    ReadAllInvertsEncodeAll(elements);
    forall i | 0 <= i < |elements|
      ensures |elements[i].content| < TWO_32
    {
      assert elements[i] in elements;
    }
  }

  lemma AlgorithmOpens(oid: seq<byte>, arcs: seq<nat>)
    requires |oid| < 16 && IsOid(Oid(oid), arcs)
    ensures IsAlgorithm(AlgorithmIdentifier(oid), arcs)
  {
    var ts := [Oid(oid), Tlv(TAG_NULL, [])];
    assert EncodeAll(ts) == Encode(ts[0]) + EncodeAll(ts[1..]);
    assert EncodeAll(ts[1..]) == Encode(ts[1]) + EncodeAll([]);
    NodeOpens(TAG_SEQUENCE, ts);
  }

  lemma Sha256Opens()
    ensures IsAlgorithm(AlgorithmIdentifier(OID_SHA256), [2, 16, 840, 1, 101, 3, 4, 2, 1])
  {
    hide IsOid, IsAlgorithm;
    AlgorithmOids();
    AlgorithmOpens(OID_SHA256, [2, 16, 840, 1, 101, 3, 4, 2, 1]);
  }

  lemma RsaOpens()
    ensures IsAlgorithm(AlgorithmIdentifier(OID_RSA_ENCRYPTION), [1, 2, 840, 113549, 1, 1, 1])
  {
    hide IsOid, IsAlgorithm;
    AlgorithmOids();
    AlgorithmOpens(OID_RSA_ENCRYPTION, [1, 2, 840, 113549, 1, 1, 1]);
  }

  /** The fixed octets of SpcPeImageData are the encodings of its two fields. */
  lemma PeImageDataOpens()
    ensures IsPeImageData(Tlv(TAG_SEQUENCE, FLAGS_AND_FILE))
  {
    hide Elements, IsUtf16, EncodeAll, Encode;
    var name := Tlv(0x80, OBSOLETE_UTF16);
    var file := Node(0xA2, [name]);
    var link := Node(0xA0, [file]);
    var parts := [Tlv(0x03, [0]), link];
    ObsoleteName();
    EncodeAllTwo(name, name);
    ShortEncoding(name);
    EncodeAllTwo(file, file);
    ShortEncoding(file);
    EncodeAllTwo(Tlv(0x03, [0]), link);
    ShortEncoding(link);
    ShortEncoding(Tlv(0x03, [0]));
    FlagsAndFileParts();
    assert EncodeAll(parts) == FLAGS_AND_FILE;
    WrapperOpens(0xA2, name);
    WrapperOpens(0xA0, file);
    NodeOpens(TAG_SEQUENCE, parts);
  }

  const OBSOLETE_UTF16: seq<byte> :=
    [0x00, 0x3c, 0x00, 0x3c, 0x00, 0x3c, 0x00, 0x4f, 0x00, 0x62, 0x00, 0x73, 0x00, 0x6f, 0x00, 0x6c,
     0x00, 0x65, 0x00, 0x74, 0x00, 0x65, 0x00, 0x3e, 0x00, 0x3e, 0x00, 0x3e]

  lemma FlagsAndFileParts()
    ensures |OBSOLETE_UTF16| == 28
    ensures FLAGS_AND_FILE == [0x03, 1] + [0] + ([0xA0, 32] + ([0xA2, 30] + ([0x80, 28] + OBSOLETE_UTF16)))
  {
  }

  lemma ObsoleteName()
    ensures IsUtf16(OBSOLETE_UTF16, "<<<Obsolete>>>")
  {
    var a: seq<byte> := [0x00, 0x3c, 0x00, 0x3c, 0x00, 0x3c];
    var b: seq<byte> := [0x00, 0x4f, 0x00, 0x62, 0x00, 0x73, 0x00, 0x6f];
    var c: seq<byte> := [0x00, 0x6c, 0x00, 0x65, 0x00, 0x74, 0x00, 0x65];
    var d: seq<byte> := [0x00, 0x3e, 0x00, 0x3e, 0x00, 0x3e];
    assert OBSOLETE_UTF16 == a + (b + (c + d));
    assert "<<<Obsolete>>>" == "<<<" + ("Obso" + ("lete" + ">>>"));
    assert IsUtf16(a, "<<<") && IsUtf16(b, "Obso") && IsUtf16(c, "lete") && IsUtf16(d, ">>>");
    hide IsUtf16;
    Utf16Concat(c, d, "lete", ">>>");
    Utf16Concat(b, c + d, "Obso", "lete" + ">>>");
    Utf16Concat(a, b + (c + d), "<<<", "Obso" + ("lete" + ">>>"));
  }

  lemma Utf16Concat(a: seq<byte>, b: seq<byte>, s: string, t: string)
    requires IsUtf16(a, s) && IsUtf16(b, t)
    ensures IsUtf16(a + b, s + t)
  {
    forall i | 0 <= i < |s + t|
      ensures (a + b)[2 * i] == 0 && (a + b)[2 * i + 1] == (s + t)[i] as int
    {
      if i >= |s| {
        assert (a + b)[2 * i] == b[2 * (i - |s|)] && (a + b)[2 * i + 1] == b[2 * (i - |s|) + 1];
      }
    }
  }

  lemma ShortEncoding(t: Tlv)
    requires |t.content| < 0x80
    ensures Encode(t) == [t.tag, |t.content|] + t.content
  {
  }

  lemma SpcOpens(peDigest: seq<byte>)
    requires |SpcIndirectDataContent(peDigest).content| < TWO_32
    ensures DecodeSpc(SpcIndirectDataContent(peDigest)) == Some(SpcView(SpcIndirectDataContent(peDigest).content, peDigest))
  {
    hide Encode, EncodeAll, Elements, ReadAll, IsOid, IsAlgorithm, IsPeImageData;
    var data := [Oid(OID_SPC_PE_IMAGE_DATA), Tlv(TAG_SEQUENCE, FLAGS_AND_FILE)];
    var info := [AlgorithmIdentifier(OID_SHA256), Tlv(TAG_OCTET_STRING, peDigest)];
    var parts := [Node(TAG_SEQUENCE, data), Node(TAG_SEQUENCE, info)];
    NodeOpens(TAG_SEQUENCE, parts);
    assert |parts[0].content| < TWO_32 && |parts[1].content| < TWO_32;
    NodeOpens(TAG_SEQUENCE, data);
    NodeOpens(TAG_SEQUENCE, info);
    SpcOids();
    Sha256Opens();
    PeImageDataOpens();
  }

  lemma AttributeOpens(oid: seq<byte>, value: Tlv)
    requires |Attribute(oid, value).content| < TWO_32 && ShortTag(value)
    ensures Elements(Attribute(oid, value), TAG_SEQUENCE, 2) == Some([Oid(oid), Node(TAG_SET, [value])])
    ensures Elements(Node(TAG_SET, [value]), TAG_SET, 1) == Some([value])
  {
    var parts := [Oid(oid), Node(TAG_SET, [value])];
    NodeOpens(TAG_SEQUENCE, parts);
    assert |parts[1].content| < TWO_32;
    WrapperOpens(TAG_SET, value);
  }

  lemma AttributesFound(contentDigest: seq<byte>)
    requires |EncodeAll(AuthAttributes(contentDigest))| < TWO_32
    ensures var attributes := AuthAttributes(contentDigest);
            FindAttribute(attributes, [1, 2, 840, 113549, 1, 9, 3]) == Some(Oid(OID_SPC_INDIRECT_DATA))
            && FindAttribute(attributes, [1, 2, 840, 113549, 1, 9, 4]) == Some(Tlv(TAG_OCTET_STRING, contentDigest))
  {
    hide Encode, EncodeAll, Elements, ReadAll, IsOid;
    var one, two: seq<nat> := [1, 2, 840, 113549, 1, 9, 3], [1, 2, 840, 113549, 1, 9, 4];
    var attributes := AuthAttributes(contentDigest);
    NodeOpens(TAG_CONTEXT_0, attributes);
    assert |attributes[0].content| < TWO_32 && |attributes[1].content| < TWO_32;
    AttributeOpens(OID_PKCS9_CONTENT_TYPE, Oid(OID_SPC_INDIRECT_DATA));
    AttributeOpens(OID_PKCS9_MESSAGE_DIGEST, Tlv(TAG_OCTET_STRING, contentDigest));
    PkcsOids();
    assert one[6] != two[6];
    SameArcs(Oid(OID_PKCS9_CONTENT_TYPE), one, two);
    assert attributes[1..][0] == attributes[1];
  }

  lemma SignerInfoParts(id: Identity, attributes: seq<Tlv>, sig: seq<byte>)
    requires WellFormedIdentity(id) && |attributes| == 2 && attributes[0].tag == attributes[1].tag == TAG_SEQUENCE
    requires |SignerInfo(id, attributes, sig).content| < TWO_32
    ensures Elements(SignerInfo(id, attributes, sig), TAG_SEQUENCE, 6)
         == Some([VERSION_1, Node(TAG_SEQUENCE, [id.issuer, id.serial]), AlgorithmIdentifier(OID_SHA256),
                  Node(TAG_CONTEXT_0, attributes), AlgorithmIdentifier(OID_RSA_ENCRYPTION), Tlv(TAG_OCTET_STRING, sig)])
    ensures Elements(Node(TAG_SEQUENCE, [id.issuer, id.serial]), TAG_SEQUENCE, 2) == Some([id.issuer, id.serial])
    ensures Elements(Node(TAG_CONTEXT_0, attributes), TAG_CONTEXT_0, 2) == Some(attributes) && |EncodeAll(attributes)| < TWO_32
  {
    SignerInfoElements(id, attributes, sig);
    NodeOpens(TAG_SEQUENCE, [id.issuer, id.serial]);
    NodeOpens(TAG_CONTEXT_0, attributes);
  }

  lemma SignerInfoElements(id: Identity, attributes: seq<Tlv>, sig: seq<byte>)
    requires |SignerInfo(id, attributes, sig).content| < TWO_32
    ensures Elements(SignerInfo(id, attributes, sig), TAG_SEQUENCE, 6)
         == Some([VERSION_1, Node(TAG_SEQUENCE, [id.issuer, id.serial]), AlgorithmIdentifier(OID_SHA256),
                  Node(TAG_CONTEXT_0, attributes), AlgorithmIdentifier(OID_RSA_ENCRYPTION), Tlv(TAG_OCTET_STRING, sig)])
    ensures |EncodeAll([id.issuer, id.serial])| < TWO_32 && |EncodeAll(attributes)| < TWO_32
  {
    hide Encode, EncodeAll, Elements, ReadAll;
    var parts := [VERSION_1, Node(TAG_SEQUENCE, [id.issuer, id.serial]), AlgorithmIdentifier(OID_SHA256),
                  Node(TAG_CONTEXT_0, attributes), AlgorithmIdentifier(OID_RSA_ENCRYPTION), Tlv(TAG_OCTET_STRING, sig)];
    NodeOpens(TAG_SEQUENCE, parts);
    assert |parts[1].content| < TWO_32 && |parts[3].content| < TWO_32;
  }

  lemma SignerInfoOpens(id: Identity, contentDigest: seq<byte>, sig: seq<byte>)
    requires WellFormedIdentity(id)
    requires |SignerInfo(id, AuthAttributes(contentDigest), sig).content| < TWO_32
    ensures var attributes := AuthAttributes(contentDigest);
            DecodeSignerInfo(SignerInfo(id, attributes, sig))
            == Some(SignerView(id.issuer, id.serial, EncodeAll(attributes), Oid(OID_SPC_INDIRECT_DATA),
                               Tlv(TAG_OCTET_STRING, contentDigest), sig))
  {
    hide Encode, EncodeAll, Elements, ReadAll, FindAttribute, IsAlgorithm;
    SignerInfoParts(id, AuthAttributes(contentDigest), sig);
    AttributesFound(contentDigest);
    Sha256Opens();
    RsaOpens();
  }

  lemma SignedDataElements(id: Identity, eContent: Tlv, signerInfo: Tlv)
    requires WellFormedIdentity(id) && |SignedData(id, eContent, signerInfo).content| < TWO_32
    ensures var content := [Oid(OID_SPC_INDIRECT_DATA), Node(TAG_CONTEXT_0, [eContent])];
            && Elements(SignedData(id, eContent, signerInfo), TAG_SEQUENCE, 5)
               == Some([VERSION_1, Node(TAG_SET, [AlgorithmIdentifier(OID_SHA256)]), Node(TAG_SEQUENCE, content),
                        Node(TAG_CONTEXT_0, [id.cert]), Node(TAG_SET, [signerInfo])])
            && |EncodeAll(content)| < TWO_32 && |EncodeAll([id.cert])| < TWO_32 && |EncodeAll([signerInfo])| < TWO_32
            && |EncodeAll([AlgorithmIdentifier(OID_SHA256)])| < TWO_32
  {
    hide Encode, EncodeAll, Elements, ReadAll;
    var content := [Oid(OID_SPC_INDIRECT_DATA), Node(TAG_CONTEXT_0, [eContent])];
    var parts := [VERSION_1, Node(TAG_SET, [AlgorithmIdentifier(OID_SHA256)]), Node(TAG_SEQUENCE, content),
                  Node(TAG_CONTEXT_0, [id.cert]), Node(TAG_SET, [signerInfo])];
    NodeOpens(TAG_SEQUENCE, parts);
    assert |parts[1].content| < TWO_32 && |parts[2].content| < TWO_32 && |parts[3].content| < TWO_32 && |parts[4].content| < TWO_32;
  }

  /** A wrapper around one value. */
  lemma WrapperOpens(tag: byte, t: Tlv)
    requires |EncodeAll([t])| < TWO_32 && ShortTag(t)
    ensures Elements(Node(tag, [t]), tag, 1) == Some([t]) && |t.content| < TWO_32
  {
    NodeOpens(tag, [t]);
    assert |[t][0].content| < TWO_32;
  }

  lemma ContentOpens(eContent: Tlv)
    requires ShortTag(eContent) && |EncodeAll([Oid(OID_SPC_INDIRECT_DATA), Node(TAG_CONTEXT_0, [eContent])])| < TWO_32
    ensures var content := [Oid(OID_SPC_INDIRECT_DATA), Node(TAG_CONTEXT_0, [eContent])];
            Elements(Node(TAG_SEQUENCE, content), TAG_SEQUENCE, 2) == Some(content)
    ensures Elements(Node(TAG_CONTEXT_0, [eContent]), TAG_CONTEXT_0, 1) == Some([eContent]) && |eContent.content| < TWO_32
  {
    var content := [Oid(OID_SPC_INDIRECT_DATA), Node(TAG_CONTEXT_0, [eContent])];
    NodeOpens(TAG_SEQUENCE, content);
    assert |content[1].content| < TWO_32;
    WrapperOpens(TAG_CONTEXT_0, eContent);
  }

  lemma SignedDataOpens(id: Identity, peDigest: seq<byte>, contentDigest: seq<byte>, sig: seq<byte>)
    requires WellFormedIdentity(id)
    requires |SignedData(id, SpcIndirectDataContent(peDigest), SignerInfo(id, AuthAttributes(contentDigest), sig)).content| < TWO_32
    ensures var spc := SpcIndirectDataContent(peDigest);
            var signerInfo := SignerInfo(id, AuthAttributes(contentDigest), sig);
            DecodeSignedData(SignedData(id, spc, signerInfo))
            == Some(View(SpcView(spc.content, peDigest), id.cert,
                         SignerView(id.issuer, id.serial, EncodeAll(AuthAttributes(contentDigest)), Oid(OID_SPC_INDIRECT_DATA),
                                    Tlv(TAG_OCTET_STRING, contentDigest), sig)))
  {
    var spc := SpcIndirectDataContent(peDigest);
    var signerInfo := SignerInfo(id, AuthAttributes(contentDigest), sig);
    hide Encode, EncodeAll, Elements, ReadAll, DecodeSpc, DecodeSignerInfo, IsAlgorithm, IsOid;
    SpcOids();
    Sha256Opens();
    SignedDataElements(id, spc, signerInfo);
    WrapperOpens(TAG_SET, AlgorithmIdentifier(OID_SHA256));
    ContentOpens(spc);
    SpcOpens(peDigest);
    WrapperOpens(TAG_CONTEXT_0, id.cert);
    WrapperOpens(TAG_SET, signerInfo);
    SignerInfoOpens(id, contentDigest, sig);
  }

  /** Whatever the signer prints, below four gigabytes, decodes to exactly the digests, attributes, certificate and
      signature that went in. */
  lemma SignatureDecodes(c: Crypto, id: Identity, peDigest: seq<byte>)
    requires WellFormedIdentity(id) && SignatureDer(c, id, peDigest).Some? && |SignatureDer(c, id, peDigest).value| < TWO_32
    ensures var spc := SpcIndirectDataContent(peDigest);
            var attributes := AuthAttributes(c.hash(spc.content));
            var sig := id.sign(c.hash(ToSign(attributes)));
            sig.Some? && DecodeContentInfo(SignatureDer(c, id, peDigest).value)
            == Some(View(SpcView(spc.content, peDigest), id.cert,
                         SignerView(id.issuer, id.serial, EncodeAll(attributes), Oid(OID_SPC_INDIRECT_DATA),
                                    Tlv(TAG_OCTET_STRING, c.hash(spc.content)), sig.value)))
  {
    hide Encode, DecodeContentInfo, DecodeSignedData, SpcIndirectDataContent, AuthAttributes, SignedData, SignerInfo;
    var spc := SpcIndirectDataContent(peDigest);
    var contentDigest := c.hash(spc.content);
    var attributes := AuthAttributes(contentDigest);
    var sig := id.sign(c.hash(ToSign(attributes))).value;
    ContentInfoOpens(id, spc, SignerInfo(id, attributes, sig));
    SignedDataOpens(id, peDigest, contentDigest, sig);
  }

  lemma ContentFits(t: Tlv)
    ensures |t.content| < |Encode(t)|
  {
  }

  lemma ContentInfoOpens(id: Identity, eContent: Tlv, signerInfo: Tlv)
    requires |Encode(ContentInfo(SignedData(id, eContent, signerInfo)))| < TWO_32
    ensures |SignedData(id, eContent, signerInfo).content| < TWO_32
    ensures DecodeContentInfo(Encode(ContentInfo(SignedData(id, eContent, signerInfo))))
         == DecodeSignedData(SignedData(id, eContent, signerInfo))
  {
    var signedData := SignedData(id, eContent, signerInfo);
    var parts := [Oid(OID_PKCS7_SIGNED_DATA), Node(TAG_CONTEXT_0, [signedData])];
    assert ContentInfo(signedData) == Node(TAG_SEQUENCE, parts);
    hide Encode, EncodeAll, Elements, ReadAll, ReadOne, DecodeSignedData, IsOid;
    PkcsOids();
    ContentFits(Node(TAG_SEQUENCE, parts));
    NodeRoundTrip(TAG_SEQUENCE, parts);
    NodeOpens(TAG_SEQUENCE, parts);
    assert |parts[1].content| < TWO_32;
    WrapperOpens(TAG_CONTEXT_0, signedData);
  }
}
