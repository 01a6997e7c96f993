# Verification of cnimbus's byte formats, caches and supervisors

cnimbus builds small bootable Linux images. This project models the parts of it that are all bytes, bookkeeping and
protocol, and proves what they are for:

- **Secure Boot** (`Bytes`, `PeChecksum`, `PeLayout`, `PeSections`, `SectionWalk`, `Der`, `Authenticode`,
  `PeReader`, `ObjectIdentifiers`, `AuthenticodeVerifier`, `SampleImages`, `SignedImages`, `Uki`): a kernel image gets two sections appended
  and an Authenticode signature. The buffer-patching methods are proved against functions on byte sequences; a section
  reader, a DER reader and a verifier then read the result back. The verifier and the section walk read the PE headers
  with a reader of their own, written from the format, and object identifiers by their dotted numbers. SHA-256, the RSA key and the X.509 reading of a certificate's issuer and serial number
  are parameters (`Crypto`, `Identity`); the only assumptions about them are that the identity's issuer and serial number
  are the certificate's, and that what the key signs verifies under its certificate.
- **Initramfs** (`Strings`, `FileTree`, `Newc`): the de-duplicating tree as a class, the newc writer as a class, and an
  archive reader that inverts it, over every sequence of calls.
- **Pieces cache** (`PieceManifests`, `PiecesCache`, `PiecesTrust`): the two text formats with their printers, `Resolve`
  with its verification and cache path, and runs in which every resolve may see another source and every save may stop
  after any rename.
- **Signing identity** (`KeyStore`): every file-system step of a call may work, fail, or be where the process dies.
- **Generated supervisors** (`Supervisor`, `Shutdown`): the emitted restart, health-check and shutdown loops as programs
  with a trace of signals and sleeps, together with the inittab action around them.
- **Codecs and arithmetic** (`Rpci`, `Vhd`, `RawImage`, `ArgSubst`, `ShellQuote`, `Zbase32`): the VMware message channel
  against every protocol-following host, VHD geometry and footer, raw-disk layout, ARG substitution against a token
  meaning, shell quoting against a POSIX word reader, and z-base-32 against bit strings.

Bytes are integers 0..255 and Go's `int` is unbounded; each narrowing to 8, 16, 32 or 64 bits is written out. A Go function that
can return an error or index out of range gives an `Outcome`: `Ok`, `Err` or `Panic`.

`dafny verify dfyconfig.toml` checks everything.

## Where the code and its documentation part

The model follows the code. Each of these is a theorem with its exact condition, unless it only names constants.

- `parsePELayout` reads the two alignments at optional-header offsets 36 and 40; the PE/COFF specification has them at
  32 and 36. All alignment statements are about the values as read. It reads them before its last length check, so it
  panics on exactly the images that end within the first 44 bytes of a declared optional header
  (`SampleImages.ParsePanicsIff`, `SampleImages.ShortHeaderPanics`).
- It places the data directories of PE32 images where those of PE32+ are. Signing a PE32 image therefore writes over its
  Debug entry and leaves the Certificate Table entry alone: the result verifies if and only if the image was PE32+ with
  such an entry (`SignedImages.SignedImagesVerifyIff`, `SignedImages.Pe32EntryUntouched`,
  `SignedImages.Pe32Counterexample`).
- `appendSection` copies the data behind the old end of the file, not to the padded offset the header names:
  the section holds its data if and only if the length was aligned or the data is all zeros (`SectionWalk.DataFoundIff`,
  `Uki.UkiDataIff`). At 65535 sections the count wraps to zero (`SectionWalk.SectionCountWraps`).
- Signing panics exactly when an existing Security offset points in front of the end of the data-directory entry
  (`SignedImages.SigningOutcome`), and does not pad the certificate offset (`SignedImages.CertificateOffsetAlignment`).
- A UKI built from an already signed kernel loses its appended sections: they survive if and only if the kernel has no
  certificate table or an offset past everything appended (`Uki.SectionsSurviveIff`, `Uki.SignedInputLosesSections`,
  `Uki.SignedSampleLosesInitrd`).
- At an odd checksum offset the stored checksum is the file's own if and only if it is a multiple of 0xffff
  (`PeChecksum.RecomputedAtOddOffset` has the case of an all-zero file too).
- An entry called `TRAILER!!!` ends the archive early (`Newc.AllEntriesReadIff`), and a file or link can end up as the
  parent of an entry, if and only if it sits at an ancestor when the entry is added (`FileTree.DirParentsIff`,
  `FileTree.RunDirParentsIff`, `FileTree.FileServesAsParent`).
- Once a source stops publishing iptables, the copy in the cache defeats the cache for good
  (`PiecesTrust.DroppedIptablesDefeatsTheCache`, with the exact condition for the next hit in
  `PiecesTrust.SavedIsServedNextTime`). What arrived of an iptables whose download broke off is cached although the set
  comes without it (`PiecesTrust.PartialIptablesIsCached`).
- A half-written key pair is never repaired and blocks every later call (`KeyStore.HalfAPairIsNeverRepaired`): a faultless
  call succeeds if and only if no earlier call was cut between its two renames (`KeyStore.FaultlessSucceedsUnlessCut`).
- `killed` survives recovery: a child that recovers after SIGTERM and fails again gets SIGKILL without another SIGTERM
  (`Supervisor.RecoveredChildIsKilledOutright`; `Supervisor.SignalsEscalate` has every signal of every run). At shutdown,
  a process is killed without having been asked to stop if and only if it is behind a pid file at the end of the wait and
  was behind none at its start (`Shutdown.TermBeforeKillIff`, `Shutdown.RestartedServiceIsKilledOutright`).

## Model

| member | source | states |
|---|---|---|
| PeChecksum.PeChecksum | internal/secureboot/pecoff.go:213-233 | the fold-as-you-go loop computes one closed form: the weighted byte sum outside the field, brought to 1..0xffff by end-around carries (0 for a zero sum), plus the length, cut to 32 bits |
| PeChecksum.FoldKeepsOnesSum | internal/secureboot/pecoff.go:226-230 | folding after every word gives the same representative as reducing the whole sum once |
| PeChecksum.RecomputeChecksum | internal/secureboot/pecoff.go:241-245 | the file afterwards is the old one with its field zeroed, summed and stored, and nothing else changed |
| PeChecksum.ChecksumIgnoresField | internal/secureboot/pecoff.go:213-233 | at an even offset the four field bytes never influence the checksum |
| PeChecksum.OutsideByteCounts | internal/secureboot/pecoff.go:216-226 | at an even field offset every byte outside the field counts once at even and 256 times at odd indices |
| PeChecksum.RecomputedIsStable | internal/secureboot/pecoff.go:241-245 | at an even offset the stored field equals the checksum of the file that carries it, and recomputing changes nothing |
| PeChecksum.RecomputedAtOddOffset | internal/secureboot/pecoff.go:216-219 | at an odd offset the stored field is the file's own checksum if and only if it is a multiple of 0xffff and the sum is not zero, or zero itself |
| PeChecksum.OddOffsetCounterexample | internal/secureboot/pecoff.go:216-219 | a six-byte file whose recomputed checksum is not its own |
| PeChecksum.ChecksumTruncation | internal/secureboot/pecoff.go:229-233 | the 32-bit cut loses nothing if and only if sum plus length fit, in particular up to 2^32 - 65536 bytes |
| PeLayout.ParseReadsOnlyTheHead | internal/secureboot/pecoff.go:99-161 | two files that agree in front of the CheckSum field parse alike if and only if both still reach the section table start and the Security entry: no parsed field overlaps what signing patches |
| PeLayout.ParseOtherCount | internal/secureboot/pecoff.go:99-161 | changing the section count changes only that field of the layout |
| PeLayout.ParseOkIff | internal/secureboot/pecoff.go:99-161 | an image parses if and only if the format's reader finds a known magic and the declared optional header and its first 152 bytes lie in the file |
| PeLayout.ParsedFields | internal/secureboot/pecoff.go:99-161 | each parsed field by its literal offset: the alignments at 36 and 40 as the code reads them, everything else where the format has it |
| SampleImages.ParsePanicsIff | internal/secureboot/pecoff.go:121-160 | the parser panics if and only if the format's reader finds a known magic, the declared optional header lies in the file, and the file ends within its first 44 bytes |
| SampleImages.ShortHeaderPanics | internal/secureboot/pecoff.go:121-160 | a 90-byte image on which it panics |
| PeLayout.Align | internal/secureboot/pecoff.go:163-168 | the next multiple, less than one step away; itself for aligned input or alignment zero |
| PeLayout.SetSecurityDataDirectory | internal/secureboot/pecoff.go:178-182 | exactly the eight bytes of the Security entry change, in place |
| PeLayout.SecurityDirReads | internal/secureboot/pecoff.go:173-182 | reading the entry gives what was set modulo 2^32, every other byte as before |
| PeLayout.PreimageBytes | internal/secureboot/pecoff.go:193-205 | the digested bytes are the image's bytes in front of its table, in order, without the 4 and 8 byte holes; defined exactly when no slice bound panics |
| PeLayout.PreimageDetermines | internal/secureboot/pecoff.go:193-205 | equal preimages if and only if same image end and the same bytes outside the holes: the digest covers all it should and nothing else |
| PeSections.AppendSection | internal/secureboot/pecoff.go:255-337 | the in-place surgery on a grown buffer gives exactly the specified image, or the specified error or panic, for every input; NewSectionFields and AppendedWalk say what that image is |
| SectionWalk.WalkFrame | internal/secureboot/pecoff.go:255-337 | a walk over the section table depends only on the headers and on the bytes past the header area |
| SectionWalk.AppendedWalk | internal/secureboot/pecoff.go:255-337 | walking the new image with the format's own header reader gives every old section header and raw bytes unchanged, then the new section |
| SectionWalk.NewSectionFields | internal/secureboot/pecoff.go:290-300 | the last section of the walk by literal header offsets: padded name, size, address, no relocations or line numbers, and characteristics 0x40000040; zeros behind its data |
| SectionWalk.AppendedBytes | internal/secureboot/pecoff.go:255-337 | only the count, SizeOfImage, CheckSum and header slot change in front of the old end, and at an even offset the file stores its own checksum |
| SectionWalk.DataFoundIff | internal/secureboot/pecoff.go:284-288 | the new section holds its data if and only if the file length was aligned or the data is all zeros |
| SectionWalk.SizeOfImageCovers | internal/secureboot/pecoff.go:318-322 | SizeOfImage does not shrink and covers the new section, if and only if the new end fits 32 bits |
| SectionWalk.SectionCountWraps | internal/secureboot/pecoff.go:316 | at 65535 sections the result has none |
| SectionWalk.AppendedWellFormed | internal/secureboot/pecoff.go:255-337 | the result is well formed again, unsigned if it was, and file-aligned, so appends compose |
| Der.DerTlv | internal/secureboot/authenticode.go:66-81 | the length-building loop prints the DER encoding of the value, in Go's byte arithmetic |
| Der.ReadInvertsEncode | internal/secureboot/authenticode.go:66-81 | decoding an encoding followed by any rest yields the tag, content and that rest, for every length a Go int holds |
| Der.ReadAcceptsOnlyEncodings | internal/secureboot/authenticode.go:66-81 | whatever the reader accepts is the printer's output: the length form is the unique minimal one of section 10.1 of ITU-T X.690 |
| Der.EncodableIffReadable | internal/secureboot/authenticode.go:66-81 | a value reads back if and only if its tag number fits one octet |
| Der.EncodeInjective | internal/secureboot/authenticode.go:66-81 | encodings are prefix-free and injective |
| Der.SetOf | internal/secureboot/authenticode.go:83-89 | the loop wraps the concatenation of its elements in a SET |
| Der.ConcatAll | internal/secureboot/authenticode.go:256-262 | the loop concatenates its parts in order |
| Der.FlattenEncodings | internal/secureboot/authenticode.go:83-89 | concatenated encodings are the encoding of the list |
| Der.ReadAllInvertsEncodeAll | internal/secureboot/authenticode.go:256-262 | a concatenation of encodings decodes to the same list |
| Der.NodeRoundTrip | internal/secureboot/authenticode.go:83-89 | a constructed value decodes to its tag and its list of elements |
| Authenticode.EmbedWinCertificate | internal/secureboot/authenticode.go:334-368 | cut at an old table, append the padded entry, patch Security entry and CheckSum in place: the exact bytes, and exactly when it panics |
| Authenticode.SignPe | internal/secureboot/authenticode.go:183-254 | parse, load, digest, sign and embed in order, with the same errors and panics; SignatureDecodes and SignedImagesVerify say what the octets mean |
| Authenticode.BuildSignature | internal/secureboot/authenticode.go:193-251 | the nesting built in the source's order with derTLV, setOf and concatAll is the SignedData value, or nothing when the key refuses |
| Authenticode.SpcIndirectDataContentInner | internal/secureboot/authenticode.go:170-175 | the content octets of SpcIndirectDataContent, without its tag and length |
| AuthenticodeVerifier.SpcOids | internal/secureboot/authenticode.go:50-58 | the octets of both Authenticode identifiers are 1.3.6.1.4.1.311.2.1.4 and .15, by a base-128 reader (section 8.19 of ITU-T X.690) |
| AuthenticodeVerifier.PkcsOids | internal/secureboot/authenticode.go:50-58 | signedData, contentType and messageDigest are 1.2.840.113549.1.7.2, .9.3 and .9.4 |
| AuthenticodeVerifier.AlgorithmOids | internal/secureboot/authenticode.go:50-58 | SHA-256 is 2.16.840.1.101.3.4.2.1 and rsaEncryption 1.2.840.113549.1.1.1 |
| AuthenticodeVerifier.PeImageDataOpens | internal/secureboot/authenticode.go:170-175 | SpcPeImageData is no flags and a link to a file called <<<Obsolete>>> in UTF-16 |
| AuthenticodeVerifier.SpcOpens | internal/secureboot/authenticode.go:170-175 | the SpcIndirectDataContent decodes to its own content octets and the image digest in its DigestInfo |
| AuthenticodeVerifier.SignedDataOpens | internal/secureboot/authenticode.go:207-245 | the SignedData decodes to the digest, certificate, issuer, serial, attributes and signature that went in |
| AuthenticodeVerifier.SignatureDecodes | internal/secureboot/authenticode.go:183-254 | everything printed below 4 GiB decodes to what went in, messageDigest being the hash of the content octets only |
| SignedImages.EmbeddedBytes | internal/secureboot/authenticode.go:334-368 | no byte outside the two holes changes, and the entry follows the image |
| SignedImages.EmbeddedChecksum | internal/secureboot/authenticode.go:361-366 | at an even header offset the output stores its own checksum at optional-header offset 64 |
| SignedImages.EmbedKeepsLayout | internal/secureboot/pecoff.go:99-161 | the signed image parses to the identical layout, signed before or not, if and only if the section table start is inside it |
| SignedImages.EmbedImageEnd | internal/secureboot/authenticode.go:338-355 | the new Security entry delimits the same image, if and only if its offset fits 32 bits |
| SignedImages.EmbedKeepsPreimage | internal/secureboot/pecoff.go:193-205 | embedding any certificate leaves the digested bytes unchanged, if and only if the image is below 4 GiB |
| SignedImages.ReembedCollapses | internal/secureboot/authenticode.go:334-368 | embedding a second certificate gives the bytes of embedding it alone, if and only if the image is below 4 GiB |
| SignedImages.ResignCollapses | internal/secureboot/authenticode.go:183-254 | signing again with another identity is signing the original with it |
| SignedImages.CertificateDataReads | internal/secureboot/authenticode.go:344-360 | following the Security entry finds one WIN_CERTIFICATE with exactly the certificate data |
| SignedImages.EntryOfLayout | internal/secureboot/pecoff.go:129-160 | the parsed offsets agree with the format on the optional header and CheckSum in both formats, and on the Certificate Table entry in PE32+ only: in PE32 they name the Debug entry |
| SignedImages.SignedImagesVerify | internal/secureboot/authenticode.go:183-254 | every PE32+ image with a Certificate Table entry that the signer returns, signed before or not, passes a verifier with its own header reader: image digest, messageDigest, issuer and serial number of the certificate, and the signature over the attributes re-tagged as a SET (section 9.3 of RFC 2315) |
| SignedImages.SignedImagesVerifyIff | internal/secureboot/authenticode.go:183-254 | the signed image verifies if and only if the image was PE32+ and its headers have a Certificate Table entry (PE32 inputs unsigned) |
| SignedImages.Pe32EntryUntouched | internal/secureboot/pecoff.go:173-182 | in PE32 signing leaves the Certificate Table entry byte for byte as it was |
| SignedImages.Pe32Counterexample | internal/secureboot/authenticode.go:183-254 | a concrete PE32 image that is signed without an error and never verifies |
| SignedImages.SigningOutcome | internal/secureboot/authenticode.go:183-254 | for every input, exactly when signing panics and exactly when it returns an image |
| SignedImages.CertificateOffsetAlignment | internal/secureboot/authenticode.go:354 | the stored offset is a multiple of eight if and only if the image's length was |
| SignedImages.TamperingChangesPreimage | internal/secureboot/pecoff.go:193-205 | any change to a digested byte changes the preimage |
| Uki.BuildAndSignUki | internal/secureboot/sign.go:72-100 | command line if there is one, initramfs, signature, in this order, with the errors and panics of each |
| Uki.AssemblesIff | internal/secureboot/pecoff.go:274-279 | a well-formed kernel takes its new sections if and only if SizeOfHeaders leaves room for their headers |
| Uki.SampleKernelAssembles | internal/secureboot/sign.go:72-100 | concrete kernels, unsigned and signed, that meet every hypothesis used for UKIs, for any command line and initramfs below 1 GiB |
| Uki.UkiSections | internal/secureboot/sign.go:72-100 | walking the signed UKI recovers every kernel section header and its bytes, then .cmdline when non-empty, then .initrd, for every kernel without a certificate table inside the assembled image |
| Uki.UkiLookup | internal/secureboot/sign.go:67-100 | from a kernel of aligned length: looked up by the name ".initrd" and ".cmdline", the sections hold exactly the initramfs and the command line as readable data at 0x4000000 and 0x1000000; an empty command line leaves what the kernel had |
| Uki.AddressesDisjointIff | internal/secureboot/sign.go:67-70 | their address ranges are disjoint if and only if the command line is at most 48 MiB long or the initramfs empty |
| Uki.UkiDataIff | internal/secureboot/sign.go:72-100 | both appended sections hold exactly their data if and only if the kernel's length is aligned or the first data appended is all zeros |
| Uki.UkiSizeOfImage | internal/secureboot/sign.go:67-100 | SizeOfImage never shrinks and covers both sections, for unsigned and signed kernels |
| Uki.SigningKeepsSections | internal/secureboot/sign.go:94-100 | signing an image whose end is the end of the file changes no section header and no section data |
| Uki.UkiVerifies | internal/secureboot/sign.go:72-100 | the finished UKI passes the verifier if and only if the kernel was PE32+ with a Certificate Table entry, signed before or not |
| Uki.SectionsSurviveIff | internal/secureboot/sign.go:72-100 | all sections of the signed UKI can be walked and lie inside the image if and only if the kernel had no certificate table or an offset past everything appended |
| Uki.SignedInputLosesSections | internal/secureboot/sign.go:72-100 | from a signed kernel: exactly the assembled bytes up to the old table's offset, then the new table; nothing behind the offset remains, and the walk fails when .initrd would end past the file |
| Uki.SignedSampleLosesInitrd | internal/secureboot/sign.go:72-100 | a concrete signed kernel whose UKI loses its sections under every key and initramfs |
| FileTree.TrimToCleanPath | internal/rootfs/tree.go:64-73 | the trimming loop removes exactly the leading slashes, and "." counts as nothing |
| FileTree.Tree.AddDir | internal/rootfs/tree.go:32-42 | terminates for every path; the missing ancestors and the directory are appended, `seen` stays the set of paths |
| FileTree.Tree.AddFile | internal/rootfs/tree.go:44-52 | parents first, then the file unless the path is taken |
| FileTree.Tree.AddSymlink | internal/rootfs/tree.go:54-62 | parents first, then the link unless the path is taken |
| FileTree.ParentIsShorter | internal/rootfs/tree.go:32-42 | the cleaned parent of any relative path is strictly shorter, the reason the recursion ends |
| FileTree.RunUnique | internal/rootfs/tree.go:32-62 | after any sequence of calls on any paths, entry paths are unique |
| FileTree.RunAncestorsFirst | internal/rootfs/tree.go:32-62 | after any sequence of calls on canonical paths, every proper ancestor appears earlier |
| FileTree.ApplyExtends | internal/rootfs/tree.go:32-62 | no call disturbs an earlier entry, and the path asked for is present afterwards |
| FileTree.FreshFileRecorded | internal/rootfs/tree.go:44-52 | a file at a fresh path is recorded as given, last |
| FileTree.FreshLinkRecorded | internal/rootfs/tree.go:54-62 | a link at a fresh path is recorded with exactly its target, last |
| FileTree.PiecesCancel | internal/rootfs/tree.go:39 | lexical cleaning: a piece and ".." behind it cancel, "." and empty pieces vanish, any other piece is kept |
| FileTree.CleanIsNormal | internal/rootfs/tree.go:39 | cleaned paths hold no "." or empty piece, and ".." only in front of a relative one |
| FileTree.DirParentsIff | internal/rootfs/tree.go:32-62 | for every call on a canonical path: every parent stays a directory if and only if no file or link sits at a proper ancestor of the path |
| FileTree.RunDirParentsIff | internal/rootfs/tree.go:32-62 | the same over every run: if and only if each call finds only directories on its way |
| FileTree.FileServesAsParent | internal/rootfs/tree.go:44-52 | a file "a" and then a file "a/b" put the second below the first |
| FileTree.AnyEntryServesAsParent | internal/rootfs/tree.go:32-42 | whatever sits at the parent's path is taken for the directory; if it is none, the new entry's parent is no directory |
| Newc.CpioWriter.WriteEntry | internal/rootfs/cpio.go:31-63 | one more inode, and the header, name and data with their padding behind what was written |
| Newc.CpioWriter.Pad | internal/rootfs/cpio.go:67-73 | zeros up to the next multiple of four |
| Newc.BuildCpio | internal/rootfs/cpio.go:81-107 | the loop writes every entry with its kind's mode and payload, then the trailer; CallReadsBack says what unpacking gives |
| Newc.HeaderWidth | internal/rootfs/cpio.go:33-46 | the header has its 110 bytes if and only if all four variable fields fit 32 bits |
| Newc.Hex8Field | internal/rootfs/cpio.go:33-46 | eight digits if and only if below 2^32, and it always reads back |
| Newc.ArchiveReads | internal/rootfs/cpio.go:81-107 | a newc reader with its own magic, rounding and trailer name applied to the archive returns its entries up to the first one with the trailer's name |
| Newc.AllEntriesReadIff | internal/rootfs/cpio.go:75-77 | all entries come back if and only if none is called TRAILER!!! |
| Newc.RecordAt | internal/rootfs/cpio.go:31-63 | each record has its entry's path, mode and contents, the next inode number, owner root, one link and no device |
| Newc.InodesDistinct | internal/rootfs/cpio.go:31-33 | inode numbers are distinct up to 2^32 entries |
| Newc.ModeRecovers | internal/rootfs/cpio.go:24-29 | kind and permission come back from the mode, for files if and only if the permission is at most 0o7777 |
| Newc.EntryAligned | internal/rootfs/cpio.go:56-73 | every entry is a multiple of four bytes long, whatever its sizes |
| Newc.ArchiveEnds | internal/rootfs/cpio.go:75-77 | behind the last entry stands one TRAILER!!! record without data, and nothing else |
| Newc.TreeRoundTrip | internal/rootfs/cpio.go:81-107 | any sequence of tree calls, archived and read back: one aligned, uniquely named record per entry, parents first; directories empty with mode 0755, files with their permission and data, links with their target |
| Newc.CallReadsBack | internal/rootfs/cpio.go:94-98 | from the call to the unpacked archive: a directory, file or link added at a fresh path reads back at that path with exactly the data or target given, whatever calls surround it |
| PieceManifests.ParseHashes | internal/pieces/pieces.go:518-532 | the line loop fails on the first malformed line and otherwise maps each name to its last hash, lower-cased |
| PieceManifests.PrintedHashesParse | internal/pieces/pieces.go:518-532 | printed "hash, two blanks, name" lines parse back to exactly those hashes |
| PieceManifests.AnyCaseParses | internal/pieces/pieces.go:518-532 | lines of two words in any case, with carriage returns or blanks behind them, list each name with its last hash in lower case |
| PieceManifests.HashesFailIff | internal/pieces/pieces.go:518-532 | refused if and only if some line holds neither no word nor two |
| PieceManifests.ParseManifest | internal/pieces/pieces.go:614-628 | the line loop gives the applets in order, skipping empty lines, or fails |
| PieceManifests.ManifestRoundTrip | internal/pieces/pieces.go:614-628 | printed applet lines parse back to exactly that list |
| PieceManifests.AppletsFailIff | internal/pieces/pieces.go:614-628 | refused if and only if some line has something besides carriage returns on it but no tab |
| PieceManifests.CarriageReturnsIgnored | internal/pieces/pieces.go:614-628 | carriage returns in front of line ends and empty lines change nothing |
| PiecesCache.Cache.LoadFromCache | internal/pieces/pieces.go:427-482 | the stepwise load equals the specified one; LoadedIff says when it hits and HitCarriesTheCache what it carries |
| PiecesCache.Cache.SaveToCache | internal/pieces/pieces.go:490-516 | write-then-rename in some order, cut off anywhere: the renamed files are new, the rest as before |
| PiecesCache.Cache.Resolve | internal/pieces/pieces.go:183-414 | result and cache afterwards, for every option, source state and interruption |
| PiecesCache.FetchListing | internal/pieces/pieces.go:201-242 | the fresh manifest, its presence rules and its signature, before the cache is looked at |
| PiecesCache.DownloadPieces | internal/pieces/pieces.go:250-338 | a full download with its optional pieces and firmware lists, checked in the source's order |
| PiecesCache.FetchFirmware | internal/pieces/pieces.go:315-338 | all firmware files or failure, nothing for an empty list |
| PiecesCache.CheckDownload | internal/pieces/pieces.go:340-377 | true if and only if every piece carried has its listed hash |
| PiecesTrust.LoadedIff | internal/pieces/pieces.go:427-482 | a hit if and only if the three mandatory files are there and listed, the applet list parses, and iptables and pieces.json are absent or listed |
| PiecesTrust.HitCarriesTheCache | internal/pieces/pieces.go:446-482 | a hit carries every cached file: iptables exactly when it is in the directory, and the provenance its pieces.json decodes to |
| PiecesTrust.HitIsListed | internal/pieces/pieces.go:427-482 | whatever state the cache directory is in, what it serves is listed by the manifest given |
| PiecesTrust.ListingSucceedsIff | internal/pieces/pieces.go:187-242 | when the fresh manifest is accepted, for every option |
| PiecesTrust.DownloadSucceedsIff | internal/pieces/pieces.go:250-378 | when a download succeeds, without and with a hash manifest |
| PiecesTrust.DownloadCarries | internal/pieces/pieces.go:250-338 | where each field comes from: the supplicant only for a Wi-Fi profile, each firmware list in its own field, iptables only if served whole |
| PiecesTrust.ServesIff | internal/pieces/pieces.go:245-248 | when a resolve serves anything, whether it is a hit, and what it then serves |
| PiecesTrust.ServedIsChecked | internal/pieces/pieces.go:200-248 | HashesVerified if and only if a manifest was fetched in that very resolve, and then every piece carried is listed in it; no hit without it |
| PiecesTrust.ServedIsSigned | internal/pieces/pieces.go:225-242 | with a verify key nothing is served unless the fetched manifest's signature verifies over its exact bytes |
| PiecesTrust.RunServesListedBytes | internal/pieces/pieces.go:340-391 | a hit anywhere in a run has the unique listed kernel, busybox and manifest; iptables and provenance are the listed ones or absent, whatever the run left in the cache |
| PiecesTrust.HitAgreesWithDownload | internal/pieces/pieces.go:245-248 | a hit equals a full download of the same source, except for supplicant and firmware, which it never carries |
| PiecesTrust.SavedIsServedNextTime | internal/pieces/pieces.go:383-391 | after a complete save the next resolve hits, if and only if no stale optional file is left over |
| PiecesTrust.SecondResolveAgrees | internal/pieces/pieces.go:383-391 | two resolves of one source: after a complete save the second is a hit with the same kernel, busybox and applets, and the same iptables and provenance exactly when the source serves them or nothing of them is left over |
| PiecesTrust.CompleteSaveIsTidy | internal/pieces/pieces.go:490-516 | a complete save leaves no temporary file of its pieces |
| PiecesTrust.DroppedIptablesDefeatsTheCache | internal/pieces/pieces.go:490-516 | a cached iptables the source no longer lists is never removed and no later resolve hits |
| PiecesTrust.InterruptedSaveIsPerFile | internal/pieces/pieces.go:490-516 | an interrupted save leaves each piece as it was or as downloaded, whole |
| PiecesTrust.CachedWasPublished | internal/pieces/pieces.go:379-391 | over any run of republishes, resolves and interrupted saves from an empty cache, each cached piece was listed by the manifest of some step, except for an iptables that broke off |
| PiecesTrust.PartialIptablesIsCached | internal/pieces/pieces.go:250-338 | iptables is cached while the set comes without it if and only if its download broke off after some bytes |
| KeyStore.KeyDir.AtomicWriteFile | internal/secureboot/keys.go:220-253 | the directory after create, write, sync, close, chmod and rename, any of which may fail or be the last |
| KeyStore.KeyDir.SaveKeypair | internal/secureboot/keys.go:124-135 | key first, then certificate, stopping at the first step that does not work |
| KeyStore.KeyDir.LoadOrGenerateKeypair | internal/secureboot/keys.go:195-211 | load, or generate and save when neither file exists |
| KeyStore.WriteIsAtomic | internal/secureboot/keys.go:220-253 | the named file changes only if the write completes, and then to all of the data; the other never |
| KeyStore.WriteLeavesNothing | internal/secureboot/keys.go:220-253 | a completed write changes exactly its file, a failed one that cleans up changes nothing, and a dead process leaves at most one temporary file, private or whole |
| KeyStore.GeneratedPair | internal/secureboot/keys.go:195-211 | a faultless call in an empty directory leaves exactly the pair, under its two names with permissions 0600 and 0644, and returns it as generated |
| KeyStore.SecondCallLoads | internal/secureboot/keys.go:195-211 | the next faultless call returns that pair from the files and changes nothing |
| KeyStore.StatErrorsNeverGenerate | internal/secureboot/keys.go:169-178 | a stat that fails for another reason than absence generates and writes nothing |
| KeyStore.CallKeepsFiles | internal/secureboot/keys.go:195-211 | present files stay as they are whatever fails; new ones belong to the pair of this call |
| KeyStore.GotIsStored | internal/secureboot/keys.go:195-211 | a successful call returns what is on disk, and says generated if and only if nothing was |
| KeyStore.PresentFilesNeverChange | internal/secureboot/keys.go:169-211 | over any run of interrupted calls a file once present never changes |
| KeyStore.FilesComeFromOnePair | internal/secureboot/keys.go:195-211 | both files always come from one and the same Generate |
| KeyStore.SuccessesAgree | internal/secureboot/keys.go:195-211 | all successful returns of a run are the same pair, and only the first can be generated |
| KeyStore.FaultlessSucceedsIff | internal/secureboot/keys.go:195-211 | a call in which nothing fails succeeds if and only if the directory holds both files or neither |
| KeyStore.FaultlessSucceedsUnlessCut | internal/secureboot/keys.go:195-211 | in any run of failing and killed calls, a faultless call succeeds if and only if no earlier call was cut between its two renames |
| KeyStore.FaultlessRun | internal/secureboot/keys.go:195-211 | in a run of faultless calls all succeed, or none from a half pair |
| KeyStore.HalvedIff | internal/secureboot/keys.go:124-135 | a whole directory becomes half if and only if the key was renamed and the certificate was not |
| KeyStore.HalfAPairIsNeverRepaired | internal/secureboot/keys.go:169-178 | with one of the two files missing every later call fails and changes nothing |
| KeyStore.HalfAPairIsReachable | internal/secureboot/keys.go:124-135 | a call killed between the two renames leaves that state |
| KeyStore.KeyIsNeverReadableByOthers | internal/secureboot/keys.go:124-133 | in every state of every run the key file's permission is 0600: nothing for group and others |
| Supervisor.ServiceScript.RunOnce | internal/rootfs/build.go:305-371 | the health-check loop appends exactly the start, the signals and the exit code of one life |
| Supervisor.LifeEventsShape | internal/rootfs/build.go:305-371 | one life is a start, then only the signals of its watch in order, then its end with its code; no signals without a health check |
| Supervisor.ServiceScript.BackoffResetAndSleep | internal/rootfs/build.go:411-420 | counter and sleep after a run of a given length |
| Supervisor.ServiceScript.Run | internal/rootfs/build.go:373-395 | the whole script for each restart policy, over every list of lives |
| Supervisor.SignalsEscalate | internal/rootfs/build.go:338-368 | one signal in exactly each turn completing max(1, retries) consecutive failed probes: SIGTERM first, SIGKILL ever after |
| Supervisor.WedgedChildIsKilled | internal/rootfs/build.go:338-368 | a child alive under continuous failure gets SIGTERM at failure max(1, retries) and SIGKILL at the next |
| Supervisor.HealthyChildIsLeftAlone | internal/rootfs/build.go:338-368 | no signal without a failed probe |
| Supervisor.RecoveredChildIsKilledOutright | internal/rootfs/build.go:338-368 | after a recovery the next escalation starts with SIGKILL |
| Supervisor.SleepsAreBounded | internal/rootfs/build.go:411-420 | every sleep of every run is between 1 and 30 seconds |
| Supervisor.LongRunResets | internal/rootfs/build.go:411-420 | a run longer than its own back-off puts the counter at 1 |
| Supervisor.CrashLoopBacksOffLinearly | internal/rootfs/build.go:411-420 | n short runs give counter n and a last sleep of min(n, 30) |
| Supervisor.SaturatedUntilLongRun | internal/rootfs/build.go:411-420 | once the script's counter is at 30, every further restart sleeps 30 seconds through any runs of at most 30 seconds |
| Supervisor.NoRunsOnce | internal/rootfs/build.go:109-122 | with "no", init and script together start the command exactly once, or never if the first session does not get that far |
| Supervisor.SuccessIsFinal | internal/rootfs/build.go:379-388 | with "on-failure", nothing follows exit code 0, and the script exits only then |
| Supervisor.OnFailureStopsAfterSuccess | internal/rootfs/build.go:109-122 | the same for init and script together |
| Supervisor.AlwaysKeepsRunning | internal/rootfs/build.go:389-395 | any other policy never exits, one start per life |
| Supervisor.RespawnRunsEverySession | internal/rootfs/build.go:109-122 | init starts a new session after each one ends, and the command is started once per life of all of them |
| Supervisor.ExitCodes | internal/rootfs/build.go:373-388 | the script exits with the command's code under "no" and with 0 under "on-failure" |
| Supervisor.FailureRestarts | internal/rootfs/build.go:379-388 | with "on-failure" a failing command is always started again |
| Shutdown.RunShutdown | internal/rootfs/build.go:198-234 | SIGTERM to all, wait while any is alive but at most the grace period, SIGKILL the rest, unmount: the whole trace; TraceOrder and WaitBetween say its order |
| Shutdown.TraceOrder | internal/rootfs/build.go:211-233 | by index in the trace: every SIGTERM before everything else, every second of waiting before every SIGKILL, and one unmount, last |
| Shutdown.WaitBetween | internal/rootfs/build.go:198-232 | between any SIGTERM and SIGKILL lies the whole wait; to one process, with nothing restarted, the whole grace period, ten seconds by default |
| Shutdown.KilledIff | internal/rootfs/build.go:198-234 | while nothing is restarted, a process is sent SIGKILL if and only if it was sent SIGTERM and is alive after the whole grace period |
| Shutdown.NothingTrackedSurvives | internal/rootfs/build.go:227-232 | every tracked process still alive at the end of the wait is sent SIGKILL |
| Shutdown.TermBeforeKillIff | internal/rootfs/build.go:198-234 | in any world: everything killed was asked to stop first if and only if every live process behind a pid file at the end of the wait was behind one at its start |
| Shutdown.RestartedServiceIsKilledOutright | internal/rootfs/build.go:227-232 | a service restarted during the wait gets SIGKILL without SIGTERM |
| Rpci.BackdoorOp | cmd/cnimbusagent/vmware_linux_amd64.go:151-162 | one call whose registers a host with its own numbers for magic, port, command and message type understands (CallArrives) |
| Rpci.SendPayload | cmd/cnimbusagent/vmware_linux_amd64.go:184-194 | the host receives exactly the request, for lengths not divisible by four too, if and only if no call fails and the size fits 32 bits |
| Rpci.ReceivePayload | cmd/cnimbusagent/vmware_linux_amd64.go:203-216 | the caller gets exactly the reply, without the noise past its end |
| Rpci.Exchange | cmd/cnimbusagent/vmware_linux_amd64.go:175-224 | size, payload, reply size, reply and status: success if and only if no call of the exchange fails |
| Rpci.RpciSendOneRaw | cmd/cnimbusagent/vmware_linux_amd64.go:169-224 | on every path an opened channel is closed exactly once and last; success if and only if nothing fails, and then request and reply are exact |
| Rpci.InfoGetAccepts | cmd/cnimbusagent/vmware_linux_amd64.go:137-146 | accepted if and only if "1" alone or "1", a space and the value, which comes back whole |
| Rpci.StoredValueComesBack | cmd/cnimbusagent/vmware_linux_amd64.go:137-146 | a stored value comes back as it is, spaces included |
| Vhd.ChsGeometry | cmd/cnimbus/run_vhd.go:93-124 | the branches with their narrowing conversions give the geometry the lemmas below are about |
| Vhd.ShapeIs | cmd/cnimbus/run_vhd.go:93-124 | for every sector count exactly which of 17, 31, 63 and 255 sectors per track and how many heads are chosen |
| Vhd.GeometryFits | cmd/cnimbus/run_vhd.go:93-124 | for every sector count: fields in range, capacity at most the clamped size, and less than one cylinder wasted |
| Vhd.Untruncated | cmd/cnimbus/run_vhd.go:123 | no narrowing conversion loses anything |
| Vhd.CylindersMaximal | cmd/cnimbus/run_vhd.go:93-124 | no larger cylinder count would fit |
| Vhd.VhdFooter | cmd/cnimbus/run_vhd.go:33-85 | the filled buffer and its summing loop give the specified 512 bytes, or refuse a size that is not a positive multiple of 512 |
| Vhd.ChecksumComplements | cmd/cnimbus/run_vhd.go:76-84 | the stored checksum is the complement of the sum of all other bytes, without overflow |
| Vhd.FooterReads | cmd/cnimbus/run_vhd.go:33-85 | a big-endian reader finds every field at its offset: cookie, features, version, no dynamic header, time, creator, both sizes, geometry, type and id, and zeros to the end |
| Vhd.WriteFixedVhd | cmd/cnimbus/run_vhd.go:131-160 | the raw disk, then its footer |
| RawImage.PlanDisk | internal/rawimage/rawimage.go:97-120 | partitions MiB-aligned, disjoint, in order and as small as their content and the fixed minimums in literal bytes allow; the disk the smallest whole number of MiB with 3 MiB left over |
| RawImage.PlanIsUnique | internal/rawimage/rawimage.go:97-120 | that leaves exactly one plan for every three sizes |
| RawImage.DiskHasRoomForGpt | internal/rawimage/rawimage.go:97-120 | 34 sectors in front and 33 behind for the GPT (section 5.3 of the UEFI Specification); the VHD footer's precondition holds |
| RawImage.PartitionsAreSound | internal/rawimage/rawimage.go:97-160 | the partition table's entries are disjoint, inside the disk, and each holds its content |
| RawImage.NoOverflow | internal/rawimage/rawimage.go:97-120 | no 64-bit overflow while the three sizes stay below 2^62 together |
| RawImage.RoundUpSectors | internal/rawimage/rawimage.go:269-271 | the least sector count that holds the size |
| RawImage.RoundUpToMib | internal/rawimage/rawimage.go:276-282 | the least MiB boundary at or past the sector |
| RawImage.WriteRootPartition | internal/rawimage/rawimage.go:226-257 | for every pattern of short reads: exactly the source's bytes at the partition's start, nothing outside it touched, success if and only if the reads succeed and it fits |
| ArgSubst.SubstituteArgs | internal/nimbusfile/nimbusfile.go:851-910 | the scanning loop refines the token meaning of a line: literal, doubled dollar, braced and bare references |
| ArgSubst.EscapeRoundTrip | internal/nimbusfile/nimbusfile.go:867-876 | doubling every dollar of any string and substituting returns it, under any values |
| ArgSubst.RenderedMeaning | internal/nimbusfile/nimbusfile.go:851-910 | any mixture of escaped text and braced references substitutes to the text with the values in place |
| ArgSubst.BracedPrefix | internal/nimbusfile/nimbusfile.go:877-890 | a reference contributes its value unscanned, whatever it contains |
| ArgSubst.BareReference | internal/nimbusfile/nimbusfile.go:891-908 | a bare reference is the longest run of letters, digits and underscores, by their character codes, that begins with no digit |
| ArgSubst.SubstitutionMonotone | internal/nimbusfile/nimbusfile.go:851-910 | a successful result is unchanged when more values are added |
| ArgSubst.SubstitutionFailsIff | internal/nimbusfile/nimbusfile.go:851-910 | it fails if and only if a brace is never closed or a reference is unbound |
| ArgSubst.LoneDollarStays | internal/nimbusfile/nimbusfile.go:891-899 | a dollar in front of anything but a name, a brace or a dollar is literal |
| ArgSubst.JoinContinuations | internal/nimbusfile/nimbusfile.go:1110-1132 | the logical lines are the groups of continued physical lines, in order, each numbered by its first one |
| ArgSubst.JoinedIsUnique | internal/nimbusfile/nimbusfile.go:1110-1132 | that description determines the lines and their numbers |
| ArgSubst.LineNumbersIncrease | internal/nimbusfile/nimbusfile.go:1110-1132 | line numbers strictly increase |
| ArgSubst.WithoutContinuations | internal/nimbusfile/nimbusfile.go:1110-1132 | without continuations the lines are the physical ones, numbered from 1 |
| ArgSubst.ContinuesIff | internal/nimbusfile/nimbusfile.go:1118-1121 | a line continues if and only if it is text, a backslash, and blanks or tabs |
| ArgSubst.ContinuedIs | internal/nimbusfile/nimbusfile.go:1118-1121 | such a line contributes its text and one blank |
| ArgSubst.WindowsLinesAgree | internal/nimbusfile/nimbusfile.go:1111 | CR LF and LF line ends, mixed in any way, give the same lines |
| ShellQuote.ShJoin | internal/rootfs/build.go:1376-1382 | a POSIX word reader (sections 2.2.1 and 2.2.2 of the Shell Command Language) gives back exactly argv |
| ShellQuote.JoinedReadsBack | internal/rootfs/build.go:1372-1382 | the same for every list of strings, empty ones and the empty list included |
| ShellQuote.QuotedReads | internal/rootfs/build.go:1372-1374 | a quoted string in front of anything adds exactly itself to the current word |
| ShellQuote.QuotedIsOneWord | internal/rootfs/build.go:1372-1374 | a quoted string is always one word, that string |
| ShellQuote.QuoteInjective | internal/rootfs/build.go:1372-1374 | different strings quote differently |
| ShellQuote.JoinInjective | internal/rootfs/build.go:1376-1382 | different argument lists join differently |
| Zbase32.Encode | internal/compileagent/verify.go:88-103 | the shift register over a wrapping 64-bit accumulator emits the letters of the big-endian bit string in zero-padded groups of five; the wrap-around never shows |
| Zbase32.ShiftIn | internal/compileagent/verify.go:92-94 | shifting a byte in keeps the pending bits whatever the bits above wrapped to |
| Zbase32.EncodeRoundTrip | internal/compileagent/verify.go:88-103 | a decoder recovers every input; the length is the ceiling of 8n/5 |
| Zbase32.DecodeAcceptsOnlyEncodings | internal/compileagent/verify.go:88-103 | a string decodes to data if and only if it is the encoding of data |

## Left out

- PeSections.AppendSection: Go lets a slice be re-sliced into spare capacity, so a header slot past the grown buffer may be accepted there; here it is a panic.
- SignedImages.SignedImagesVerify: stated for images and tables below 4 GiB whose section table starts inside the output; past that the 32-bit fields no longer describe the file (see EmbedKeepsPreimage and EmbedKeepsLayout).
- Uki.UkiSections: stated for well-formed kernels (NT header past the DOS header, section table past the data directories, raw data past the headers), which `parsePELayout` itself does not check.
- SignedImages.SignedImagesVerifyIff: a PE32 image must come unsigned; an old table in an entry the signer never touches may verify for itself.
- Uki.SectionsSurviveIff: an existing Security offset is taken to be past SizeOfHeaders; one inside the headers cuts the section table itself, and what is walked then are bytes of the new certificate table.
- FileTree.RunAncestorsFirst: canonical paths only; a path with ".." components is cleaned lexically only for its parents, so its ancestors differ from its text.
- PiecesCache.Cache.Resolve: one source and so one cache directory; the directory name's hash is not part of the model.
- Rpci.RpciSendOneRaw: the I/O permission, the IN instruction and high-bandwidth RPCI are an abstract host step.
- RawImage.WriteRootPartition: go-diskfs's bounds-checked sub-storage is modelled by one method with its contract.
- ArgSubst.SubstituteArgs: which of the error messages is given is not told apart, only that there is one.
- Supervisor.ServiceScript.Run: the text of the scripts, a failing cd, a RETRIES value that is no integer and the log lines are left out; each life's length, probe answers and exit code are inputs.
- SHA-256, RSA, X.509, PEM, JSON and OpenPGP are functions given as parameters or left out; key parsing is a pair that is there or not.
- Host integers are 64 bits wide; 32-bit hosts are not modelled.
- Host paths are POSIX paths; Windows separators are left out, and so is Unicode white space in the two manifests.
- Crashes are processes killed between file-system steps; power loss and reordering below the file system are left out, and so are concurrent processes on one directory, which the code does not lock against.
- Docker, make, HTTP transport, hypervisor launch code, the FAT, ISO, SquashFS and GPT writers, stage1's boot-media scan, networking text, flag parsing and Nimbusfile directive validation.
