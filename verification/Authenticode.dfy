/** Authenticode signing: the certificate table entry (`embedWinCertificate`) and the PKCS#7 nesting (`signPE`). */
module Authenticode {
  import opened Bytes
  import opened Der
  import opened PeChecksum
  import opened PeLayout

  // ----- embedWinCertificate

  const WIN_CERT_REVISION_2_0 := 0x0200
  const WIN_CERT_TYPE_PKCS_SIGNED_DATA := 0x0002

  function PaddedLen(certData: seq<byte>): (n: nat)
    ensures 8 + |certData| <= n < 16 + |certData| && n % 8 == 0
  {
    Align(8 + |certData|, 8)
  }

  /** One WIN_CERTIFICATE entry with its padding to a multiple of eight. */
  function WinCertificate(certData: seq<byte>): (r: seq<byte>)
    ensures |r| == PaddedLen(certData)
  {
    PutLe32(8 + |certData|) + PutLe16(WIN_CERT_REVISION_2_0) + PutLe16(WIN_CERT_TYPE_PKCS_SIGNED_DATA)
    + certData + Zeros(PaddedLen(certData) - (8 + |certData|))
  }

  /** pe without the certificate table it may already carry. */
  function Base(pe: seq<byte>, l: Layout): (r: seq<byte>)
    requires l.SecurityDirEnd() <= |pe|
    ensures |r| == ImageEnd(pe, l)
  {
    pe[..ImageEnd(pe, l)]
  }

  function Embedded(pe: seq<byte>, l: Layout, certData: seq<byte>): (r: seq<byte>)
    requires l.SecurityDirEnd() <= |pe| && l.SecurityDirEnd() <= ImageEnd(pe, l) + PaddedLen(certData)
    ensures |r| == ImageEnd(pe, l) + PaddedLen(certData)
  {
    var base := Base(pe, l);
    LayoutOffsets(l);
    Rechecksummed(WithSecurityDir(base + WinCertificate(certData), l, |base|, PaddedLen(certData)), l.ChecksumOff())
  }

  /** A buffer holding base, the entry's header, its data and zeros up to the next multiple of eight. */
  method AppendEntry(base: seq<byte>, certData: seq<byte>) returns (out: array<byte>)
    ensures fresh(out) && out[..] == base + WinCertificate(certData)
  {
    var hdr := PutLe32(8 + |certData|) + PutLe16(WIN_CERT_REVISION_2_0) + PutLe16(WIN_CERT_TYPE_PKCS_SIGNED_DATA);
    var entry := hdr + certData;
    out := CopyInto(base + entry, |base| + Align(|entry|, 8));
    assert base + WinCertificate(certData) == base + entry + Zeros(PaddedLen(certData) - |entry|);
  }

  /** The Security entry of the output is written even when the input image is cut in front of it, in which case the
      store lands in the new entry or, past the end, panics. */
  method EmbedWinCertificate(pe: array<byte>, l: Layout, certData: seq<byte>) returns (r: Outcome<array<byte>>)
    requires l.SecurityDirEnd() <= pe.Length
    ensures r == Panic <==> ImageEnd(pe[..], l) + PaddedLen(certData) < l.SecurityDirEnd()
    ensures r != Err
    ensures r.Ok? ==> fresh(r.value) && r.value[..] == Embedded(pe[..], l, certData)
  {
    hide WinCertificate, WithSecurityDir, Rechecksummed, PaddedLen;
    LayoutOffsets(l);
    var secOff := Le32(pe[..], l.SecurityDir());
    var base := pe[..];
    if secOff != 0 && secOff < pe.Length {
      base := pe[..secOff];
    }
    var certOffset := |base|;
    var paddedLen := PaddedLen(certData);
    var out := AppendEntry(base, certData);
    if out.Length < l.SecurityDirEnd() {
      return Panic;
    }
    PatchHeader(out, l, certOffset, paddedLen);
    assert base == Base(pe[..], l);
    return Ok(out);
  }

  method PatchHeader(out: array<byte>, l: Layout, certOffset: nat, paddedLen: nat)
    requires l.SecurityDirEnd() <= out.Length && l.ChecksumOff() + 4 <= out.Length
    modifies out
    ensures out[..] == Rechecksummed(WithSecurityDir(old(out[..]), l, certOffset, paddedLen), l.ChecksumOff())
  {
    SetSecurityDataDirectory(out, l, certOffset, paddedLen);
    RecomputeChecksum(out, l.ChecksumOff());
  }

  // ----- signPE

  /** SHA-256, RSA verification under a certificate, and the two names an X.509 parser reads from a certificate, which
      this model takes as given functions. */
  datatype Crypto = Crypto(
    hash: seq<byte> -> seq<byte>,
    verify: (Tlv, seq<byte>, seq<byte>) -> bool,
    issuerOf: Tlv -> Tlv,
    serialOf: Tlv -> Tlv)

  /** A parsed certificate and private key. `sign` may refuse, as rsa.SignPKCS1v15 does for a key too short. */
  datatype Identity = Identity(cert: Tlv, issuer: Tlv, serial: Tlv, sign: seq<byte> -> Option<seq<byte>>)

  /** crypto/x509 parsed these from single-octet-tag DER; RSA signatures and SHA-256 digests are short. */
  ghost predicate WellFormedIdentity(id: Identity) {
    id.cert.tag == id.issuer.tag == TAG_SEQUENCE && id.serial.tag == TAG_INTEGER
  }

  /** The issuer and serial number were read from the certificate, and the certificate belongs to the private key: what
      the key signs verifies under the certificate. */
  ghost predicate MatchingPair(c: Crypto, id: Identity) {
    && id.issuer == c.issuerOf(id.cert) && id.serial == c.serialOf(id.cert)
    && forall digest, sig :: id.sign(digest) == Some(sig) ==> c.verify(id.cert, digest, sig)
  }

  const OID_SPC_INDIRECT_DATA: seq<byte> := [0x2B, 0x06, 0x01, 0x04, 0x01, 0x82, 0x37, 0x02, 0x01, 0x04]
  const OID_SPC_PE_IMAGE_DATA: seq<byte> := [0x2B, 0x06, 0x01, 0x04, 0x01, 0x82, 0x37, 0x02, 0x01, 0x0F]
  const OID_PKCS7_SIGNED_DATA: seq<byte> := [0x2A, 0x86, 0x48, 0x86, 0xF7, 0x0D, 0x01, 0x07, 0x02]
  const OID_PKCS9_CONTENT_TYPE: seq<byte> := [0x2A, 0x86, 0x48, 0x86, 0xF7, 0x0D, 0x01, 0x09, 0x03]
  const OID_PKCS9_MESSAGE_DIGEST: seq<byte> := [0x2A, 0x86, 0x48, 0x86, 0xF7, 0x0D, 0x01, 0x09, 0x04]
  const OID_SHA256: seq<byte> := [0x60, 0x86, 0x48, 0x01, 0x65, 0x03, 0x04, 0x02, 0x01]
  const OID_RSA_ENCRYPTION: seq<byte> := [0x2A, 0x86, 0x48, 0x86, 0xF7, 0x0D, 0x01, 0x01, 0x01]

  function Oid(content: seq<byte>): Tlv { Tlv(TAG_OID, content) }

  function AlgorithmIdentifier(oid: seq<byte>): Tlv {
    Node(TAG_SEQUENCE, [Oid(oid), Tlv(TAG_NULL, [])])
  }

  /** SpcPeImageData's two fields: empty flags and the customary "<<<Obsolete>>>" link. */
  const FLAGS_AND_FILE: seq<byte> :=
    [0x03, 0x01, 0x00, 0xa0, 0x20, 0xa2, 0x1e, 0x80, 0x1c,
     0x00, 0x3c, 0x00, 0x3c, 0x00, 0x3c, 0x00, 0x4f, 0x00, 0x62, 0x00, 0x73,
     0x00, 0x6f, 0x00, 0x6c, 0x00, 0x65, 0x00, 0x74, 0x00, 0x65, 0x00, 0x3e,
     0x00, 0x3e, 0x00, 0x3e]

  /** The SpcIndirectDataContent value; its content octets are what messageDigest covers. */
  function SpcIndirectDataContent(peDigest: seq<byte>): Tlv {
    Node(TAG_SEQUENCE, [
      Node(TAG_SEQUENCE, [Oid(OID_SPC_PE_IMAGE_DATA), Tlv(TAG_SEQUENCE, FLAGS_AND_FILE)]),
      Node(TAG_SEQUENCE, [AlgorithmIdentifier(OID_SHA256), Tlv(TAG_OCTET_STRING, peDigest)])])
  }

  function Attribute(oid: seq<byte>, value: Tlv): Tlv {
    Node(TAG_SEQUENCE, [Oid(oid), Node(TAG_SET, [value])])
  }

  function AuthAttributes(contentDigest: seq<byte>): seq<Tlv> {
    [Attribute(OID_PKCS9_CONTENT_TYPE, Oid(OID_SPC_INDIRECT_DATA)),
     Attribute(OID_PKCS9_MESSAGE_DIGEST, Tlv(TAG_OCTET_STRING, contentDigest))]
  }

  const VERSION_1 := Tlv(TAG_INTEGER, [1])

  function SignerInfo(id: Identity, attributes: seq<Tlv>, sig: seq<byte>): Tlv {
    Node(TAG_SEQUENCE, [
      VERSION_1,
      Node(TAG_SEQUENCE, [id.issuer, id.serial]),
      AlgorithmIdentifier(OID_SHA256),
      Node(TAG_CONTEXT_0, attributes),
      AlgorithmIdentifier(OID_RSA_ENCRYPTION),
      Tlv(TAG_OCTET_STRING, sig)])
  }

  function SignedData(id: Identity, eContent: Tlv, signerInfo: Tlv): Tlv {
    Node(TAG_SEQUENCE, [
      VERSION_1,
      Node(TAG_SET, [AlgorithmIdentifier(OID_SHA256)]),
      Node(TAG_SEQUENCE, [Oid(OID_SPC_INDIRECT_DATA), Node(TAG_CONTEXT_0, [eContent])]),
      Node(TAG_CONTEXT_0, [id.cert]),
      Node(TAG_SET, [signerInfo])])
  }

  function ContentInfo(signedData: Tlv): Tlv {
    Node(TAG_SEQUENCE, [Oid(OID_PKCS7_SIGNED_DATA), Node(TAG_CONTEXT_0, [signedData])])
  }

  /** The signature covers the attributes re-tagged as a universal SET (section 9.3 of RFC 2315). */
  function ToSign(attributes: seq<Tlv>): seq<byte> {
    Encode(Node(TAG_SET, attributes))
  }

  /** The certificate data of the signature over an image with this digest; None when the key refuses. */
  function SignatureDer(c: Crypto, id: Identity, peDigest: seq<byte>): Option<seq<byte>> {
    var eContent := SpcIndirectDataContent(peDigest);
    var attributes := AuthAttributes(c.hash(eContent.content));
    var sig :- id.sign(c.hash(ToSign(attributes)));
    Some(Encode(ContentInfo(SignedData(id, eContent, SignerInfo(id, attributes, sig)))))
  }

  /** `signPE` on values: parse, load the key pair, digest, sign, embed. */
  function SignedImage(c: Crypto, pe: seq<byte>, kp: Option<Identity>): Outcome<seq<byte>> {
    match Parse(pe)
    case Err => Err
    case Panic => Panic
    case Ok(l) =>
      if kp.None? then Err else
      match Preimage(pe, l)
      case None => Panic
      case Some(preimage) =>
        match SignatureDer(c, kp.value, c.hash(preimage))
        case None => Err
        case Some(der) => Ok(Embedded(pe, l, der))
  }

  lemma EncodeAllTwo(a: Tlv, b: Tlv)
    ensures EncodeAll([a, b]) == Encode(a) + Encode(b) && EncodeAll([a]) == Encode(a)
  {
    hide Encode;
    assert [a, b][1..] == [b] && [b][1..] == [] && [a][1..] == [];
    assert EncodeAll([b]) == Encode(b) + EncodeAll([]) && EncodeAll([a]) == Encode(a) + EncodeAll([]);
  }

  lemma EncodingsOf(ts: seq<Tlv>, parts: seq<seq<byte>>)
    requires |parts| == |ts| && forall i :: 0 <= i < |ts| ==> parts[i] == Encode(ts[i])
    ensures Flatten(parts) == EncodeAll(ts)
  {
    hide Encode;
    FlattenEncodings(ts);
    assert parts == Encodings(ts);
  }

  method SpcIndirectDataContentInner(peDigest: seq<byte>) returns (inner: seq<byte>)
    ensures inner == SpcIndirectDataContent(peDigest).content
  {
    hide Encode;
    var imageData := Tlv(TAG_SEQUENCE, FLAGS_AND_FILE);
    var spcPeImageData := DerTlv(TAG_SEQUENCE, FLAGS_AND_FILE);
    var data := DerTlv(TAG_SEQUENCE, Encode(Oid(OID_SPC_PE_IMAGE_DATA)) + spcPeImageData);
    EncodeAllTwo(Oid(OID_SPC_PE_IMAGE_DATA), imageData);
    var digest := Tlv(TAG_OCTET_STRING, peDigest);
    var digestInfo := DerTlv(TAG_SEQUENCE, Encode(AlgorithmIdentifier(OID_SHA256)) + Encode(digest));
    EncodeAllTwo(AlgorithmIdentifier(OID_SHA256), digest);
    EncodeAllTwo(Node(TAG_SEQUENCE, [Oid(OID_SPC_PE_IMAGE_DATA), imageData]),
                 Node(TAG_SEQUENCE, [AlgorithmIdentifier(OID_SHA256), digest]));
    inner := data + digestInfo;
  }

  method AttributeDer(oid: seq<byte>, value: Tlv) returns (der: seq<byte>)
    ensures der == Encode(Attribute(oid, value))
  {
    hide Encode;
    var values := SetOf([Encode(value)]);
    EncodingsOf([value], [Encode(value)]);
    der := DerTlv(TAG_SEQUENCE, Encode(Oid(oid)) + values);
    EncodeAllTwo(Oid(oid), Node(TAG_SET, [value]));
  }

  method AuthAttributesContent(contentDigest: seq<byte>) returns (content: seq<byte>)
    ensures content == EncodeAll(AuthAttributes(contentDigest))
  {
    hide Encode, Attribute;
    var contentTypeAttr := AttributeDer(OID_PKCS9_CONTENT_TYPE, Oid(OID_SPC_INDIRECT_DATA));
    var messageDigestAttr := AttributeDer(OID_PKCS9_MESSAGE_DIGEST, Tlv(TAG_OCTET_STRING, contentDigest));
    content := ConcatAll([contentTypeAttr, messageDigestAttr]);
    EncodingsOf(AuthAttributes(contentDigest), [contentTypeAttr, messageDigestAttr]);
  }

  method SignerInfoDer(id: Identity, ghost attributes: seq<Tlv>, attributesContent: seq<byte>, sig: seq<byte>) returns (der: seq<byte>)
    requires attributesContent == EncodeAll(attributes)
    ensures der == Encode(SignerInfo(id, attributes, sig))
  {
    hide Encode, EncodeAll, AlgorithmIdentifier;
    EncodeAllTwo(id.issuer, id.serial);
    var issuerAndSerial := DerTlv(TAG_SEQUENCE, Encode(id.issuer) + Encode(id.serial));
    var authAttrsForSignerInfo := DerTlv(TAG_CONTEXT_0, attributesContent);
    var version := DerTlv(TAG_INTEGER, [1]);
    var parts := [version, issuerAndSerial, Encode(AlgorithmIdentifier(OID_SHA256)), authAttrsForSignerInfo,
                  Encode(AlgorithmIdentifier(OID_RSA_ENCRYPTION)), Encode(Tlv(TAG_OCTET_STRING, sig))];
    var content := ConcatAll(parts);
    EncodingsOf([VERSION_1, Node(TAG_SEQUENCE, [id.issuer, id.serial]), AlgorithmIdentifier(OID_SHA256),
                 Node(TAG_CONTEXT_0, attributes), AlgorithmIdentifier(OID_RSA_ENCRYPTION), Tlv(TAG_OCTET_STRING, sig)], parts);
    der := DerTlv(TAG_SEQUENCE, content);
  }

  method SignedDataDer(id: Identity, ghost eContent: Tlv, eContentDer: seq<byte>, ghost signerInfo: Tlv, signerInfoDer: seq<byte>)
    returns (der: seq<byte>)
    requires eContentDer == Encode(eContent) && signerInfoDer == Encode(signerInfo)
    ensures der == Encode(SignedData(id, eContent, signerInfo))
  {
    hide Encode, EncodeAll, AlgorithmIdentifier;
    var algorithm := AlgorithmIdentifier(OID_SHA256);
    EncodeAllTwo(eContent, eContent);
    EncodeAllTwo(id.cert, id.cert);
    EncodingsOf([algorithm], [Encode(algorithm)]);
    EncodingsOf([signerInfo], [signerInfoDer]);
    var wrapped := DerTlv(TAG_CONTEXT_0, eContentDer);
    var contentParts := ConcatAll([Encode(Oid(OID_SPC_INDIRECT_DATA)), wrapped]);
    EncodingsOf([Oid(OID_SPC_INDIRECT_DATA), Node(TAG_CONTEXT_0, [eContent])], [Encode(Oid(OID_SPC_INDIRECT_DATA)), wrapped]);
    var contentInfo := DerTlv(TAG_SEQUENCE, contentParts);
    var certificates := DerTlv(TAG_CONTEXT_0, Encode(id.cert));
    var version := DerTlv(TAG_INTEGER, [1]);
    var digestAlgorithms := SetOf([Encode(algorithm)]);
    var signers := SetOf([signerInfoDer]);
    var parts := [version, digestAlgorithms, contentInfo, certificates, signers];
    var content := ConcatAll(parts);
    EncodingsOf([VERSION_1, Node(TAG_SET, [algorithm]), Node(TAG_SEQUENCE, [Oid(OID_SPC_INDIRECT_DATA), Node(TAG_CONTEXT_0, [eContent])]),
                 Node(TAG_CONTEXT_0, [id.cert]), Node(TAG_SET, [signerInfo])], parts);
    der := DerTlv(TAG_SEQUENCE, content);
  }

  method ContentInfoDer(ghost signedData: Tlv, signedDataDer: seq<byte>) returns (der: seq<byte>)
    requires signedDataDer == Encode(signedData)
    ensures der == Encode(ContentInfo(signedData))
  {
    hide Encode, EncodeAll;
    EncodeAllTwo(signedData, signedData);
    var wrapped := DerTlv(TAG_CONTEXT_0, signedDataDer);
    var content := ConcatAll([Encode(Oid(OID_PKCS7_SIGNED_DATA)), wrapped]);
    EncodingsOf([Oid(OID_PKCS7_SIGNED_DATA), Node(TAG_CONTEXT_0, [signedData])], [Encode(Oid(OID_PKCS7_SIGNED_DATA)), wrapped]);
    der := DerTlv(TAG_SEQUENCE, content);
  }

  /** The DER nesting of `signPE`, built in its order from `derTLV`, `setOf` and `concatAll`. */
  method BuildSignature(c: Crypto, id: Identity, peDigest: seq<byte>) returns (r: Option<seq<byte>>)
    ensures r == SignatureDer(c, id, peDigest)
  {
    hide Encode, EncodeAll, SpcIndirectDataContent, AuthAttributes, SignerInfo, SignedData, ContentInfo;
    ghost var eContent := SpcIndirectDataContent(peDigest);
    var eContentInner := SpcIndirectDataContentInner(peDigest);
    SpcTag(peDigest);
    var eContentDer := DerTlv(TAG_SEQUENCE, eContentInner);
    var contentDigest := c.hash(eContentInner);
    ghost var attributes := AuthAttributes(contentDigest);
    var authAttrsContent := AuthAttributesContent(contentDigest);
    var toSign := DerTlv(TAG_SET, authAttrsContent);
    var sig := id.sign(c.hash(toSign));
    if sig.None? {
      return None;
    }
    ghost var signerInfo := SignerInfo(id, attributes, sig.value);
    var signerInfoDer := SignerInfoDer(id, attributes, authAttrsContent, sig.value);
    var signedDataDer := SignedDataDer(id, eContent, eContentDer, signerInfo, signerInfoDer);
    var topContentInfo := ContentInfoDer(SignedData(id, eContent, signerInfo), signedDataDer);
    return Some(topContentInfo);
  }

  lemma SpcTag(peDigest: seq<byte>)
    ensures SpcIndirectDataContent(peDigest).tag == TAG_SEQUENCE
  {
  }

  method SignPe(c: Crypto, pe: array<byte>, kp: Option<Identity>) returns (r: Outcome<array<byte>>)
    ensures r.Ok? ==> fresh(r.value) && SignedImage(c, pe[..], kp) == Ok(r.value[..])
    ensures r == Err <==> SignedImage(c, pe[..], kp) == Err
    ensures r == Panic <==> SignedImage(c, pe[..], kp) == Panic
  {
    var parsed := Parse(pe[..]);
    if parsed == Err {
      return Err;
    } else if parsed == Panic {
      return Panic;
    }
    var l := parsed.value;
    if kp.None? {
      return Err;
    }
    var preimage := Preimage(pe[..], l);
    if preimage.None? {
      return Panic;
    }
    var der := BuildSignature(c, kp.value, c.hash(preimage.value));
    if der.None? {
      return Err;
    }
    r := EmbedWinCertificate(pe, l, der.value);
  }
}
