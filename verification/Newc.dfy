/** The "newc" cpio archive (`cpioWriter`, `buildCPIO`) and a reader that inverts it. */
module Newc {
  import opened Bytes
  import opened FileTree

  const MODE_DIR_755 := 0x41ED  // 0o040000 | 0o755
  const MODE_REG := 0x8000  // 0o100000
  const MODE_SYMLINK_777 := 0xA1FF  // 0o120000 | 0o777
  const HEADER_SIZE := 110
  const MAGIC: seq<byte> := [0x30, 0x37, 0x30, 0x37, 0x30, 0x31]  // "070701"
  const TRAILER: seq<byte> := [0x54, 0x52, 0x41, 0x49, 0x4C, 0x45, 0x52, 0x21, 0x21, 0x21]  // "TRAILER!!!"

  // ----- hexadecimal fields

  function HexDigit(d: nat): byte
    requires d < 16
  {
    if d < 10 then 0x30 + d else 0x61 + d - 10
  }

  /** The digits of n without leading zeros, none for zero. */
  function HexDigits(n: nat): seq<byte> {
    if n == 0 then [] else HexDigits(n / 16) + [HexDigit(n % 16)]
  }

  function ZeroDigits(n: nat): (r: seq<byte>)
    ensures |r| == n
  {
    seq(n, _ => 0x30)
  }

  /** Go's %08x: at least eight digits, more when the value needs them. */
  function Hex8(n: nat): seq<byte> {
    var d := HexDigits(n);
    if |d| < 8 then ZeroDigits(8 - |d|) + d else d
  }

  function Header(ino: nat, mode: nat, fileSize: nat, nameSize: nat): seq<byte> {
    MAGIC + Hex8(ino) + Hex8(mode) + Hex8(0) + Hex8(0) + Hex8(1) + Hex8(0) + Hex8(fileSize)
    + Hex8(0) + Hex8(0) + Hex8(0) + Hex8(0) + Hex8(nameSize) + Hex8(0)
  }

  function PadLength(n: nat): nat { if n % 4 == 0 then 0 else 4 - n % 4 }

  // ----- the writer

  /** What one writeEntry call appends. */
  function EntryBytes(ino: nat, name: Path, mode: nat, data: seq<byte>): seq<byte> {
    var header := Header(ino, mode, |data|, |name| + 1);
    header + name + [0] + Zeros(PadLength(|header| + |name| + 1)) + data + Zeros(PadLength(|data|))
  }

  /** `modeReg | perm`: only bit 15 is set by the constant. */
  function OrReg(perm: nat): nat {
    if perm / MODE_REG % 2 == 1 then perm else perm + MODE_REG
  }

  function ModeOf(e: Entry): nat {
    match e.kind
    case Directory => MODE_DIR_755
    case File => OrReg(e.perm)
    case Symlink => MODE_SYMLINK_777
  }

  function Payload(e: Entry): seq<byte> {
    if e.kind == Symlink then e.linkTarget else e.data
  }

  /** The entries of a tree, the first one numbered after ino, and the trailer. */
  function Archive(es: seq<Entry>, ino: nat): seq<byte> {
    if es == [] then EntryBytes(U32(ino + 1), TRAILER, 0, [])
    else EntryBytes(U32(ino + 1), es[0].path, ModeOf(es[0]), Payload(es[0])) + Archive(es[1..], U32(ino + 1))
  }

  class CpioWriter {
    var w: seq<byte>
    var ino: nat

    constructor ()
      ensures w == [] && ino == 1
    {
      w, ino := [], 1;
    }

    method WriteEntry(name: Path, mode: nat, data: seq<byte>)
      modifies this
      ensures ino == U32(old(ino) + 1) && w == old(w) + EntryBytes(ino, name, mode, data)
    {
      hide Header, U32, PadLength;
      ino := U32(ino + 1);
      var header := Header(ino, mode, |data|, |name| + 1);
      w := w + header;
      w := w + name;
      w := w + [0];
      Pad(|header| + |name| + 1);
      w := w + data;
      Pad(|data|);
    }

    method Pad(n: nat)
      modifies `w
      ensures w == old(w) + Zeros(PadLength(n))
    {
      var rem := n % 4;
      if rem != 0 {
        w := w + Zeros(4 - rem);
      } else {
        assert Zeros(0) == [];
      }
    }

    method WriteTrailer()
      modifies this
      ensures ino == U32(old(ino) + 1) && w == old(w) + EntryBytes(ino, TRAILER, 0, [])
    {
      WriteEntry(TRAILER, 0, []);
    }
  }

  method BuildCpio(tree: Tree) returns (bytes: seq<byte>)
    ensures bytes == Archive(tree.entries, 1)
  {
    hide EntryBytes, U32, OrReg;
    var cw := new CpioWriter();
    ghost var all := Archive(tree.entries, 1);
    for i := 0 to |tree.entries|
      invariant fresh(cw) && all == cw.w + Archive(tree.entries[i..], cw.ino)
    {
      var e := tree.entries[i];
      var mode := match e.kind
        case Directory => MODE_DIR_755
        case File => OrReg(e.perm)
        case Symlink => MODE_SYMLINK_777;
      var data := e.data;
      if e.kind == Symlink {
        data := e.linkTarget;
      }
      assert tree.entries[i..][1..] == tree.entries[i + 1..];
      cw.WriteEntry(e.path, mode, data);
    }
    cw.WriteTrailer();
    return cw.w;
  }

  // ----- a reader after the kernel's initramfs unpacker

  /** The remaining fields: ownership, link count, time, device numbers and checksum. */
  datatype Meta = Meta(uid: nat, gid: nat, nlink: nat, mtime: nat, devices: seq<nat>, check: nat)

  datatype Record = Record(ino: nat, mode: nat, name: Path, data: seq<byte>, meta: Meta)

  function HexValue(b: byte): Option<nat> {
    if 0x30 <= b <= 0x39 then Some(b - 0x30)
    else if 0x61 <= b <= 0x66 then Some(b - 0x61 + 10)
    else None
  }

  function ReadHex(s: seq<byte>): Option<nat> {
    if s == [] then Some(0)
    else
      var high :- ReadHex(s[..|s| - 1]);
      var low :- HexValue(s[|s| - 1]);
      Some(16 * high + low)
  }

  function Field(s: seq<byte>, k: nat): Option<nat>
    requires k < 13 && 110 <= |s|
  {
    ReadHex(s[6 + 8 * k..14 + 8 * k])
  }

  function ReadMeta(s: seq<byte>): Option<Meta>
    requires 110 <= |s|
  {
    var uid :- Field(s, 2);
    var gid :- Field(s, 3);
    var nlink :- Field(s, 4);
    var mtime :- Field(s, 5);
    var devMajor :- Field(s, 7);
    var devMinor :- Field(s, 8);
    var rdevMajor :- Field(s, 9);
    var rdevMinor :- Field(s, 10);
    var check :- Field(s, 12);
    Some(Meta(uid, gid, nlink, mtime, [devMajor, devMinor, rdevMajor, rdevMinor], check))
  }

  /** The next multiple of four. */
  function RoundUp4(n: nat): nat { (n + 3) / 4 * 4 }

  /** A 110-byte header, the name with its NUL, and the data, the latter two ending on multiples of four. */
  function ReadRecord(s: seq<byte>): (r: Option<(Record, seq<byte>)>)
    ensures r.Some? ==> |r.value.1| < |s|
  {
    if |s| < 110 || s[..6] != [0x30, 0x37, 0x30, 0x37, 0x30, 0x31] then None
    else
      var ino :- Field(s, 0);
      var mode :- Field(s, 1);
      var fileSize :- Field(s, 6);
      var nameSize :- Field(s, 11);
      var meta :- ReadMeta(s);
      var dataAt := RoundUp4(110 + nameSize);
      var next := dataAt + RoundUp4(fileSize);
      if nameSize == 0 || next > |s| || s[110 + nameSize - 1] != 0 then None
      else Some((Record(ino, mode, s[110..110 + nameSize - 1], s[dataAt..dataAt + fileSize], meta), s[next..]))
  }

  /** The records in front of the one called TRAILER!!!. */
  function ReadArchive(s: seq<byte>): Option<seq<Record>>
    decreases |s|
  {
    var (record, rest) :- ReadRecord(s);
    if record.name == [0x54, 0x52, 0x41, 0x49, 0x4C, 0x45, 0x52, 0x21, 0x21, 0x21] then Some([])
    else
      var more :- ReadArchive(rest);
      Some([record] + more)
  }

  function KindOfMode(mode: nat): Option<Kind> {
    var t := mode / 0x1000 % 0x10;
    if t == 4 then Some(Directory) else if t == 8 then Some(File) else if t == 10 then Some(Symlink) else None
  }

  function PermOfMode(mode: nat): nat { mode % 0x1000 }

  // ----- fields

  function Pow16(k: nat): nat { if k == 0 then 1 else 16 * Pow16(k - 1) }

  lemma {:induction false} HexDigitsSize(n: nat, k: nat)
    ensures |HexDigits(n)| <= k <==> n < Pow16(k)
    decreases k
  {
    if n > 0 {
      if k > 0 {
        HexDigitsSize(n / 16, k - 1);
      }
    } else {
      Pow16Positive(k);
    }
  }

  lemma {:induction false} Pow16Positive(k: nat)
    ensures Pow16(k) > 0
  {
    if k > 0 {
      Pow16Positive(k - 1);
    }
  }

  lemma Pow16Of8()
    ensures Pow16(8) == TWO_32
  {
    assert Pow16(4) == 0x1_0000;
    assert Pow16(8) == 16 * (16 * (16 * (16 * Pow16(4))));
  }

  lemma {:induction false} ReadHexDigits(n: nat)
    ensures ReadHex(HexDigits(n)) == Some(n)
  {
    if n > 0 {
      ReadHexDigits(n / 16);
      var s := HexDigits(n);
      assert s[..|s| - 1] == HexDigits(n / 16);
      assert HexValue(HexDigit(n % 16)) == Some(n % 16);
    }
  }

  lemma {:induction false} ReadHexPadded(zeros: nat, s: seq<byte>)
    ensures ReadHex(ZeroDigits(zeros) + s) == ReadHex(s)
  {
    var all := ZeroDigits(zeros) + s;
    if s == [] {
      ReadHexZeros(zeros);
      assert all == ZeroDigits(zeros);
    } else {
      ReadHexPadded(zeros, s[..|s| - 1]);
      assert all[..|all| - 1] == ZeroDigits(zeros) + s[..|s| - 1];
    }
  }

  lemma {:induction false} ReadHexZeros(n: nat)
    ensures ReadHex(ZeroDigits(n)) == Some(0)
  {
    if n > 0 {
      assert ZeroDigits(n)[..n - 1] == ZeroDigits(n - 1);
      ReadHexZeros(n - 1);
    }
  }

  /** A field is eight digits wide exactly when its value fits 32 bits, and always reads back. */
  lemma Hex8Field(n: nat)
    ensures |Hex8(n)| == 8 <==> n < TWO_32
    ensures ReadHex(Hex8(n)) == Some(n)
  {
    Pow16Of8();
    HexDigitsSize(n, 8);
    ReadHexDigits(n);
    if |HexDigits(n)| < 8 {
      ReadHexPadded(8 - |HexDigits(n)|, HexDigits(n));
    }
  }

  /** The header has the 110 bytes every reader assumes exactly when all four variable fields fit. */
  lemma HeaderWidth(ino: nat, mode: nat, fileSize: nat, nameSize: nat)
    ensures |Header(ino, mode, fileSize, nameSize)| == HEADER_SIZE
       <==> ino < TWO_32 && mode < TWO_32 && fileSize < TWO_32 && nameSize < TWO_32
  {
    hide Hex8;
    Hex8Field(ino);
    Hex8Field(mode);
    Hex8Field(fileSize);
    Hex8Field(nameSize);
    Hex8Field(0);
    Hex8Field(1);
    Hex8AtLeast8(ino);
    Hex8AtLeast8(mode);
    Hex8AtLeast8(fileSize);
    Hex8AtLeast8(nameSize);
  }

  lemma Hex8AtLeast8(n: nat)
    ensures |Hex8(n)| >= 8
  {
  }

  predicate Fits(e: Entry) {
    |e.path| + 1 < TWO_32 && |Payload(e)| < TWO_32 && e.perm < TWO_32
  }

  /** The i-th field of a header of eight-digit fields. */
  lemma HeaderField(header: seq<byte>, rest: seq<byte>, k: nat, value: nat)
    requires |header| == HEADER_SIZE && k < 13 && header[6 + 8 * k..14 + 8 * k] == Hex8(value)
    ensures Field(header + rest, k) == Some(value)
  {
    hide Hex8, ReadHex;
    Hex8Field(value);
    assert (header + rest)[6 + 8 * k..14 + 8 * k] == header[6 + 8 * k..14 + 8 * k];
  }

  /** Thirteen parts of eight bytes behind six. */
  function Glue(head: seq<byte>, parts: seq<seq<byte>>): seq<byte> {
    if parts == [] then head else Glue(head, parts[..|parts| - 1]) + parts[|parts| - 1]
  }

  lemma {:induction false} GluedPart(head: seq<byte>, parts: seq<seq<byte>>, k: nat)
    requires |head| == 6 && k < |parts| && forall i :: 0 <= i < |parts| ==> |parts[i]| == 8
    ensures |Glue(head, parts)| == 6 + 8 * |parts| && Glue(head, parts)[..6] == head
    ensures Glue(head, parts)[6 + 8 * k..14 + 8 * k] == parts[k]
  {
    var front := parts[..|parts| - 1];
    assert forall i :: 0 <= i < |front| ==> front[i] == parts[i];
    if front == [] {
      assert Glue(head, front) == head;
    } else {
      GluedPart(head, front, if k < |front| then k else 0);
    }
  }

  function HeaderParts(ino: nat, mode: nat, fileSize: nat, nameSize: nat): (r: seq<seq<byte>>)
    ensures |r| == 13
  {
    [Hex8(ino), Hex8(mode), Hex8(0), Hex8(0), Hex8(1), Hex8(0), Hex8(fileSize),
     Hex8(0), Hex8(0), Hex8(0), Hex8(0), Hex8(nameSize), Hex8(0)]
  }

  lemma HeaderIsGlued(ino: nat, mode: nat, fileSize: nat, nameSize: nat)
    ensures Header(ino, mode, fileSize, nameSize) == Glue(MAGIC, HeaderParts(ino, mode, fileSize, nameSize))
  {
    hide Hex8;
    var p := HeaderParts(ino, mode, fileSize, nameSize);
    assert p == p[..13];
    GlueOneMore(MAGIC, p, 0);
    GlueOneMore(MAGIC, p, 1);
    GlueOneMore(MAGIC, p, 2);
    GlueOneMore(MAGIC, p, 3);
    GlueOneMore(MAGIC, p, 4);
    GlueOneMore(MAGIC, p, 5);
    GlueOneMore(MAGIC, p, 6);
    GlueOneMore(MAGIC, p, 7);
    GlueOneMore(MAGIC, p, 8);
    GlueOneMore(MAGIC, p, 9);
    GlueOneMore(MAGIC, p, 10);
    GlueOneMore(MAGIC, p, 11);
    GlueOneMore(MAGIC, p, 12);
    assert p[..0] == [];
  }

  lemma GlueOneMore(head: seq<byte>, parts: seq<seq<byte>>, k: nat)
    requires k < |parts|
    ensures Glue(head, parts[..k + 1]) == Glue(head, parts[..k]) + parts[k]
  {
    assert parts[..k + 1][..k] == parts[..k];
  }

  lemma HeaderPart(ino: nat, mode: nat, fileSize: nat, nameSize: nat, rest: seq<byte>, k: nat, value: nat)
    requires ino < TWO_32 && mode < TWO_32 && fileSize < TWO_32 && nameSize < TWO_32 && k < 13
    requires HeaderParts(ino, mode, fileSize, nameSize)[k] == Hex8(value)
    ensures |Header(ino, mode, fileSize, nameSize)| == HEADER_SIZE && Header(ino, mode, fileSize, nameSize)[..6] == MAGIC
    ensures Field(Header(ino, mode, fileSize, nameSize) + rest, k) == Some(value)
  {
    hide Hex8, Field, Header, Glue;
    HeaderIsGlued(ino, mode, fileSize, nameSize);
    PartsAreEight(ino, mode, fileSize, nameSize);
    hide HeaderParts;
    GluedPart(MAGIC, HeaderParts(ino, mode, fileSize, nameSize), k);
    HeaderField(Header(ino, mode, fileSize, nameSize), rest, k, value);
  }

  lemma PartsAreEight(ino: nat, mode: nat, fileSize: nat, nameSize: nat)
    requires ino < TWO_32 && mode < TWO_32 && fileSize < TWO_32 && nameSize < TWO_32
    ensures forall i :: 0 <= i < 13 ==> |HeaderParts(ino, mode, fileSize, nameSize)[i]| == 8
  {
    hide Hex8;
    Hex8Field(ino);
    Hex8Field(mode);
    Hex8Field(fileSize);
    Hex8Field(nameSize);
    Hex8Field(0);
    Hex8Field(1);
  }

  lemma HeaderFields(ino: nat, mode: nat, fileSize: nat, nameSize: nat, rest: seq<byte>)
    requires ino < TWO_32 && mode < TWO_32 && fileSize < TWO_32 && nameSize < TWO_32
    ensures var s := Header(ino, mode, fileSize, nameSize) + rest;
            && HEADER_SIZE <= |s| && s[..6] == MAGIC
            && Field(s, 0) == Some(ino) && Field(s, 1) == Some(mode)
            && Field(s, 6) == Some(fileSize) && Field(s, 11) == Some(nameSize)
            && ReadMeta(s) == Some(Meta(0, 0, 1, 0, [0, 0, 0, 0], 0))
  {
    hide Hex8, Header, Field;
    var h := Header(ino, mode, fileSize, nameSize);
    HeaderPart(ino, mode, fileSize, nameSize, rest, 0, ino);
    HeaderPart(ino, mode, fileSize, nameSize, rest, 1, mode);
    HeaderPart(ino, mode, fileSize, nameSize, rest, 2, 0);
    HeaderPart(ino, mode, fileSize, nameSize, rest, 3, 0);
    HeaderPart(ino, mode, fileSize, nameSize, rest, 4, 1);
    HeaderPart(ino, mode, fileSize, nameSize, rest, 5, 0);
    HeaderPart(ino, mode, fileSize, nameSize, rest, 6, fileSize);
    HeaderPart(ino, mode, fileSize, nameSize, rest, 7, 0);
    HeaderPart(ino, mode, fileSize, nameSize, rest, 8, 0);
    HeaderPart(ino, mode, fileSize, nameSize, rest, 9, 0);
    HeaderPart(ino, mode, fileSize, nameSize, rest, 10, 0);
    HeaderPart(ino, mode, fileSize, nameSize, rest, 11, nameSize);
    HeaderPart(ino, mode, fileSize, nameSize, rest, 12, 0);
    assert (h + rest)[..6] == h[..6];
  }

  // ----- one entry

  lemma PadFills(n: nat)
    ensures n + PadLength(n) == RoundUp4(n) && PadLength(n) < 4
  {
  }

  /** Reading an entry followed by anything gives the entry and that rest. */
  lemma EntryReads(ino: nat, name: Path, mode: nat, data: seq<byte>, rest: seq<byte>)
    requires ino < TWO_32 && mode < TWO_32 && |data| < TWO_32 && |name| + 1 < TWO_32
    ensures ReadRecord(EntryBytes(ino, name, mode, data) + rest)
         == Some((Record(ino, mode, name, data, Meta(0, 0, 1, 0, [0, 0, 0, 0], 0)), rest))
  {
    hide Header, Field, ReadMeta, PadLength, RoundUp4;
    var header := Header(ino, mode, |data|, |name| + 1);
    HeaderWidth(ino, mode, |data|, |name| + 1);
    PadFills(HEADER_SIZE + |name| + 1);
    PadFills(|data|);
    var pad1, pad2 := Zeros(PadLength(HEADER_SIZE + |name| + 1)), Zeros(PadLength(|data|));
    var tail := name + [0] + pad1 + data + pad2 + rest;
    var s := EntryBytes(ino, name, mode, data) + rest;
    assert s == header + tail;
    HeaderFields(ino, mode, |data|, |name| + 1, tail);
    var dataAt := RoundUp4(HEADER_SIZE + |name| + 1);
    assert s[HEADER_SIZE..HEADER_SIZE + |name|] == name;
    assert s[dataAt..dataAt + |data|] == data;
    assert s[dataAt + RoundUp4(|data|)..] == rest;
  }

  /** Every entry is a multiple of four bytes long, so that every entry starts aligned, whatever its sizes. */
  lemma EntryAligned(ino: nat, name: Path, mode: nat, data: seq<byte>)
    ensures |EntryBytes(ino, name, mode, data)| % 4 == 0
  {
    hide Header;
  }

  /** Where the k-th entry of an archive starts. */
  function Offset(es: seq<Entry>, ino: nat, k: nat): nat
    requires k <= |es|
  {
    if k == 0 then 0
    else |EntryBytes(U32(ino + 1), es[0].path, ModeOf(es[0]), Payload(es[0]))| + Offset(es[1..], U32(ino + 1), k - 1)
  }

  lemma {:induction false} OffsetsAligned(es: seq<Entry>, ino: nat, k: nat)
    requires k <= |es|
    ensures Offset(es, ino, k) % 4 == 0
  {
    hide EntryBytes, U32, ModeOf;
    if k > 0 {
      EntryAligned(U32(ino + 1), es[0].path, ModeOf(es[0]), Payload(es[0]));
      OffsetsAligned(es[1..], U32(ino + 1), k - 1);
    }
  }

  // ----- the whole archive

  /** What a reader should see: entries up to the first one that carries the trailer's name. */
  function Records(es: seq<Entry>, ino: nat): seq<Record> {
    if es == [] || es[0].path == TRAILER then []
    else [Record(U32(ino + 1), ModeOf(es[0]), es[0].path, Payload(es[0]), Meta(0, 0, 1, 0, [0, 0, 0, 0], 0))] + Records(es[1..], U32(ino + 1))
  }

  lemma ModeFits(e: Entry)
    requires Fits(e)
    ensures ModeOf(e) < TWO_32
  {
  }

  /** Reading back the archive of any tree whose sizes fit returns exactly its entries, in order. */
  lemma {:induction false} ArchiveReads(es: seq<Entry>, ino: nat)
    requires forall i :: 0 <= i < |es| ==> Fits(es[i])
    ensures ReadArchive(Archive(es, ino)) == Some(Records(es, ino))
  {
    var next := U32(ino + 1);
    if es == [] {
      EntryReads(next, TRAILER, 0, [], []);
      assert EntryBytes(next, TRAILER, 0, []) + [] == EntryBytes(next, TRAILER, 0, []);
    } else {
      ModeFits(es[0]);
      EntryReads(next, es[0].path, ModeOf(es[0]), Payload(es[0]), Archive(es[1..], next));
      if es[0].path != TRAILER {
        ArchiveReads(es[1..], next);
      }
    }
  }

  /** Behind the last entry stands one record called TRAILER!!! without data, and nothing else. */
  lemma {:induction false} ArchiveEnds(es: seq<Entry>, ino: nat)
    ensures Offset(es, ino, |es|) <= |Archive(es, ino)|
    ensures ReadRecord(Archive(es, ino)[Offset(es, ino, |es|)..])
         == Some((Record(U32(ino + 1 + |es|), 0, TRAILER, [], Meta(0, 0, 1, 0, [0, 0, 0, 0], 0)), []))
  {
    hide EntryBytes, ReadRecord, U32;
    var next := U32(ino + 1);
    if es == [] {
      NextBelow(ino);
      EntryReads(next, TRAILER, 0, [], []);
      assert EntryBytes(next, TRAILER, 0, []) + [] == EntryBytes(next, TRAILER, 0, []);
      assert Archive(es, ino)[0..] == Archive(es, ino);
    } else {
      ArchiveEnds(es[1..], next);
      NextInode(ino, |es|);
      var first := EntryBytes(next, es[0].path, ModeOf(es[0]), Payload(es[0]));
      var at := Offset(es[1..], next, |es| - 1);
      assert (first + Archive(es[1..], next))[|first| + at..] == Archive(es[1..], next)[at..];
    }
  }

  lemma NextBelow(ino: nat)
    ensures U32(ino + 1) < TWO_32
  {
  }

  /** All entries come back exactly when none is called TRAILER!!!. */
  lemma {:induction false} AllEntriesReadIff(es: seq<Entry>, ino: nat)
    ensures |Records(es, ino)| == |es| <==> forall i :: 0 <= i < |es| ==> es[i].path != TRAILER
  {
    if es != [] && es[0].path != TRAILER {
      AllEntriesReadIff(es[1..], U32(ino + 1));
      assert forall i :: 0 <= i < |es[1..]| ==> es[1..][i] == es[i + 1];
    }
  }

  /** Each record carries its entry's path, mode and contents, and the inode numbers count up modulo 2^32. */
  lemma {:induction false} RecordAt(es: seq<Entry>, ino: nat, k: nat)
    requires k < |Records(es, ino)|
    ensures |Records(es, ino)| <= |es|
    ensures Records(es, ino)[k] == Record(U32(ino + 1 + k), ModeOf(es[k]), es[k].path, Payload(es[k]), Meta(0, 0, 1, 0, [0, 0, 0, 0], 0))
  {
    if k > 0 {
      RecordAt(es[1..], U32(ino + 1), k - 1);
      NextInode(ino, k);
    } else {
      RecordsShort(es, ino);
    }
  }

  lemma NextInode(ino: nat, k: nat)
    requires k > 0
    ensures U32(U32(ino + 1) + 1 + (k - 1)) == U32(ino + 1 + k)
  {
  }

  lemma {:induction false} RecordsShort(es: seq<Entry>, ino: nat)
    ensures |Records(es, ino)| <= |es|
  {
    if es != [] && es[0].path != TRAILER {
      RecordsShort(es[1..], U32(ino + 1));
    }
  }

  /** Up to 2^32 entries, inode numbers are distinct. */
  lemma InodesDistinct(es: seq<Entry>, i: nat, j: nat)
    requires i < j < |Records(es, 1)| <= TWO_32
    ensures Records(es, 1)[i].ino != Records(es, 1)[j].ino
  {
    RecordAt(es, 1, i);
    RecordAt(es, 1, j);
    DistinctLow32(2 + i, 2 + j);
  }

  lemma DistinctLow32(a: nat, b: nat)
    requires a < b < a + TWO_32
    ensures U32(a) != U32(b)
  {
  }

  /** A file's kind and permission bits are recovered from its mode exactly when the permission is at most 0o7777;
      directories and symlinks always come back as what they are. */
  lemma ModeRecovers(e: Entry)
    ensures e.kind == File ==> (KindOfMode(ModeOf(e)) == Some(File) && PermOfMode(ModeOf(e)) == e.perm <==> e.perm < 0x1000)
    ensures e.kind == Directory ==> KindOfMode(ModeOf(e)) == Some(Directory) && PermOfMode(ModeOf(e)) == 0x1ED
    ensures e.kind == Symlink ==> KindOfMode(ModeOf(e)) == Some(Symlink) && PermOfMode(ModeOf(e)) == 0x1FF
  {
  }

  /** What unpacking a record makes of an entry: a directory with mode 0755 and no data, a file with its permission and
      data, or a link whose data is its target; all owned by root, with one link and no device. */
  ghost predicate Unpacks(r: Record, e: Entry) {
    && r.name == e.path && r.meta.uid == r.meta.gid == 0 && r.meta.nlink == 1 && r.meta.devices == [0, 0, 0, 0]
    && KindOfMode(r.mode) == Some(e.kind)
    && match e.kind
       case Directory => PermOfMode(r.mode) == 0x1ED && r.data == []
       case File => PermOfMode(r.mode) == e.perm && r.data == e.data
       case Symlink => PermOfMode(r.mode) == 0x1FF && r.data == e.linkTarget
  }

  /** Sizes that fit their fields, no entry with the trailer's name, and permissions of twelve bits. */
  ghost predicate Archivable(es: seq<Entry>) {
    forall i :: 0 <= i < |es| ==> Fits(es[i]) && es[i].path != TRAILER && es[i].perm < 0x1000
  }

  /** The end-to-end statement: any sequence of calls on canonical paths, archived and read back, gives one record per
      entry, aligned, uniquely named, parents first, with kind, permission and contents intact. */
  lemma TreeRoundTrip(ops: seq<Op>, k: nat)
    requires Archivable(Run(ops)) && k < |Run(ops)|
    requires forall i :: 0 <= i < |ops| ==> Canonical(CleanPath(ops[i].path))
    ensures var es := Run(ops);
            var read := ReadArchive(Archive(es, 1));
            && read.Some? && |read.value| == |es| && Unpacks(read.value[k], es[k]) && read.value[k].ino == U32(k + 2)
            && (forall j :: 0 <= j < |es| && j != k ==> es[j].path != es[k].path)
            && (forall c :: 0 <= c < |es[k].path| && es[k].path[c] == SLASH ==> es[k].path[..c] in Paths(es[..k]))
            && Offset(es, 1, k) % 4 == 0
  {
    var es := Run(ops);
    EntryUnpacks(ops, k);
    RunUnique(ops);
    RunAncestorsFirst(ops);
    OffsetsAligned(es, 1, k);
  }

  lemma EntryUnpacks(ops: seq<Op>, k: nat)
    requires Archivable(Run(ops)) && k < |Run(ops)|
    ensures var read := ReadArchive(Archive(Run(ops), 1));
            read.Some? && |read.value| == |Run(ops)| && Unpacks(read.value[k], Run(ops)[k]) && read.value[k].ino == U32(k + 2)
  {
    hide ReadArchive, Archive, Records, KindOfMode, PermOfMode, ModeOf, Run;
    var es := Run(ops);
    ArchiveReads(es, 1);
    AllEntriesReadIff(es, 1);
    RecordAt(es, 1, k);
    ModeRecovers(es[k]);
    RunPlain(ops);
  }

  /** What a call at a fresh path asked for. */
  function Requested(op: Op): Entry {
    match op
    case AddDir(path) => Entry(CleanPath(path), Directory, 0, [], [])
    case AddFile(path, perm, data) => Entry(CleanPath(path), File, perm, data, [])
    case AddSymlink(path, target) => Entry(CleanPath(path), Symlink, 0, [], target)
  }

  /** From the call to the unpacked archive: whatever calls come before and after, a directory, file or link added at a
      fresh path is read back as that, at that path, with exactly the data or target given. */
  lemma CallReadsBack(ops: seq<Op>, i: nat)
    requires Archivable(Run(ops)) && i < |ops|
    requires CleanPath(ops[i].path) != [] && CleanPath(ops[i].path) !in Paths(Run(ops[..i]))
    ensures var read := ReadArchive(Archive(Run(ops), 1));
            read.Some? && exists k :: 0 <= k < |read.value| && Unpacks(read.value[k], Requested(ops[i]))
  {
    hide Apply, ReadArchive, Archive, Archivable, Unpacks, CleanPath;
    var before, after := Run(ops[..i]), Run(ops[..i + 1]);
    assert ops[..i + 1][..i] == ops[..i];
    assert after == Apply(before, ops[i]);
    match ops[i] {
      case AddDir(path) => FreshDirRecorded(before, path);
      case AddFile(path, perm, data) => FreshFileRecorded(before, path, perm, data);
      case AddSymlink(path, target) => FreshLinkRecorded(before, path, target);
    }
    RunExtends(ops, i + 1);
    var k := |after| - 1;
    assert Run(ops)[k] == Requested(ops[i]);
    EntryUnpacks(ops, k);
  }
}
