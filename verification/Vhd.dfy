/** The Fixed VHD footer (`vhdFooter`, `vhdCHSGeometry`) after the Virtual Hard Disk Image Format Specification. */
module Vhd {
  import opened Bytes

  const SECTOR_SIZE := 512
  const MAX_SECTORS := 65535 * 16 * 255

  // ----- CHS geometry

  datatype Geometry = Geometry(cylinders: nat, heads: nat, sectorsPerTrack: nat)
  {
    function Sectors(): nat { cylinders * heads * sectorsPerTrack }
  }

  function Clamped(totalSectors: nat): nat { Min(totalSectors, MAX_SECTORS) }

  function Heads17(total: nat): nat {
    var h := (total / 17 + 1023) / 1024;
    if h < 4 then 4 else h
  }

  /** Sectors per track and heads of the three small layouts and the large one. */
  function Shape(total: nat): (nat, nat)
  {
    if total >= 65535 * 16 * 63 then (255, 16)
    else if total / 17 < Heads17(total) * 1024 && Heads17(total) <= 16 then (17, Heads17(total))
    else if total / 31 < 16 * 1024 then (31, 16)
    else (63, 16)
  }

  function GeometryOf(totalSectors: nat): Geometry {
    var total := Clamped(totalSectors);
    var (sectorsPerTrack, heads) := Shape(total);
    if heads == 0 || sectorsPerTrack == 0 then Geometry(0, 0, 0)
    else Geometry(total / sectorsPerTrack / heads, heads, sectorsPerTrack)
  }

  /** The Go function, with the truncations of its return statement written out. */
  method ChsGeometry(total: nat) returns (cylinders: nat, heads: nat, sectorsPerTrack: nat)
    ensures Geometry(cylinders, heads, sectorsPerTrack) == GeometryOf(total)
  {
    hide U8, U16;
    var totalSectors := total;
    if totalSectors > MAX_SECTORS {
      totalSectors := MAX_SECTORS;
    }
    var sectorsPerTrackInt: nat, headsInt: nat, cylTimesHeads: nat;
    if totalSectors >= 65535 * 16 * 63 {
      sectorsPerTrackInt := 255;
      headsInt := 16;
      cylTimesHeads := totalSectors / sectorsPerTrackInt;
    } else {
      sectorsPerTrackInt := 17;
      cylTimesHeads := totalSectors / sectorsPerTrackInt;
      headsInt := (cylTimesHeads + 1023) / 1024;
      if headsInt < 4 {
        headsInt := 4;
      }
      if cylTimesHeads >= headsInt * 1024 || headsInt > 16 {
        sectorsPerTrackInt := 31;
        headsInt := 16;
        cylTimesHeads := totalSectors / sectorsPerTrackInt;
      }
      if cylTimesHeads >= headsInt * 1024 {
        sectorsPerTrackInt := 63;
        headsInt := 16;
        cylTimesHeads := totalSectors / sectorsPerTrackInt;
      }
    }
    Untruncated(total);
    assert totalSectors == Clamped(total) && (sectorsPerTrackInt, headsInt) == Shape(totalSectors);
    cylinders, heads, sectorsPerTrack := U16(cylTimesHeads / headsInt), U8(headsInt), U8(sectorsPerTrackInt);
  }

  /** None of the narrowing conversions of the return statement loses anything. */
  lemma Untruncated(totalSectors: nat)
    ensures var g := GeometryOf(totalSectors); U16(g.cylinders) == g.cylinders && U8(g.heads) == g.heads && U8(g.sectorsPerTrack) == g.sectorsPerTrack
  {
    hide GeometryOf;
    GeometryFits(totalSectors);
  }

  /** Which of the four layouts is chosen, by the number of 17-sector tracks: 17 sectors per track for up to 4095 tracks
      with four heads, and from there up to 16383 tracks with the least number of heads, unless the tracks divide into
      1024 cylinders without a rest; else 31 sectors for fewer than 16384 tracks of those; else 63; 255 from the size on
      at which 65535 cylinders of 16 heads and 63 sectors are full. */
  lemma ShapeIs(totalSectors: nat)
    ensures var g := GeometryOf(totalSectors);
            var tracks := totalSectors / 17;
            if totalSectors >= 66059280 then g.sectorsPerTrack == 255 && g.heads == 16
            else if tracks < 4096 then g.sectorsPerTrack == 17 && g.heads == 4
            else if tracks < 16384 && tracks % 1024 != 0 then g.sectorsPerTrack == 17 && g.heads == tracks / 1024 + 1
            else if totalSectors / 31 < 16384 then g.sectorsPerTrack == 31 && g.heads == 16
            else g.sectorsPerTrack == 63 && g.heads == 16
  {
    var tracks := totalSectors / 17;
    if totalSectors < 66059280 {
      assert Clamped(totalSectors) == totalSectors;
      CeilingIs(tracks);
    }
  }

  lemma CeilingIs(tracks: nat)
    ensures (tracks + 1023) / 1024 == tracks / 1024 + if tracks % 1024 == 0 then 0 else 1
  {
    var q, r := tracks / 1024, tracks % 1024;
    if r > 0 {
      DivModUnique(tracks + 1023, 1024, q + 1, r - 1);
    } else {
      DivModUnique(tracks + 1023, 1024, q, 1023);
    }
  }

  lemma ShapeRange(total: nat)
    requires total <= MAX_SECTORS
    ensures var (s, h) := Shape(total); (s == 17 && 4 <= h <= 16) || ((s == 31 || s == 63 || s == 255) && h == 16)
    ensures var (s, h) := Shape(total); total / s <= 65535 * h + (h - 1)
  {
  }

  lemma DivBound(n: nat, h: nat, q: nat)
    requires h > 0 && n <= q * h + (h - 1)
    ensures n / h <= q
  {
    var p, m := n / h, n % h;
    assert n == p * h + m;
    if p > q {
      MulStep(h, p, q);
    }
  }

  /** For every sector count: 4 to 16 heads, cylinders that fit 16 bits, a capacity that never exceeds the clamped size
      and wastes fewer sectors than one cylinder holds. */
  lemma GeometryFits(totalSectors: nat)
    ensures var g := GeometryOf(totalSectors);
            && g.cylinders <= 65535 && 4 <= g.heads <= 16 && 17 <= g.sectorsPerTrack <= 255
            && g.Sectors() <= Clamped(totalSectors) < g.Sectors() + g.heads * g.sectorsPerTrack
    ensures Clamped(totalSectors) == if totalSectors > 267_382_800 then 267_382_800 else totalSectors
  {
    hide Shape;
    var total := Clamped(totalSectors);
    ShapeRange(total);
    var (s, h) := Shape(total);
    var tracks := total / s;
    DivBound(tracks, h, 65535);
    var cylinders := tracks / h;
    Remainders(total, s, h);
  }

  /** Dividing twice loses less than one whole cylinder. */
  lemma Remainders(total: nat, s: nat, h: nat)
    requires s > 0 && h > 0
    ensures var c := total / s / h; c * h * s <= total < c * h * s + h * s
  {
    var tracks, c := total / s, total / s / h;
    assert total == tracks * s + total % s && tracks == c * h + tracks % h;
    TwoRemainders(total, s, h, tracks, total % s, c * h, tracks % h);
  }

  lemma TwoRemainders(total: nat, s: nat, h: nat, tracks: nat, r: nat, p: nat, q: nat)
    requires total == tracks * s + r && r < s && tracks == p + q && q < h
    ensures p * s <= total < p * s + h * s
  {
    Distribute(p, q, s);
    Distribute(q, 1, s);
    MulLess(q + 1, h, s);
  }

  lemma Distribute(a: nat, b: nat, s: nat)
    ensures (a + b) * s == a * s + b * s
  {
  }

  lemma {:induction false} MulLess(a: nat, b: nat, s: nat)
    requires a <= b
    ensures a * s <= b * s
  {
    if a < b {
      MulStep(s, b, a);
    }
  }

  /** The cylinder count is the largest one whose capacity fits the clamped size. */
  lemma CylindersMaximal(totalSectors: nat, more: nat)
    ensures var g := GeometryOf(totalSectors); more > g.cylinders ==> more * (g.heads * g.sectorsPerTrack) > Clamped(totalSectors)
  {
    hide GeometryOf;
    var g := GeometryOf(totalSectors);
    GeometryFits(totalSectors);
    if more > g.cylinders {
      MulStep(g.heads * g.sectorsPerTrack, more, g.cylinders);
      Associate(g.cylinders, g.heads, g.sectorsPerTrack);
    }
  }

  lemma Associate(a: nat, b: nat, c: nat)
    ensures a * (b * c) == a * b * c
  {
  }

  // ----- the footer

  function Be16(v: nat): (r: seq<byte>)
    ensures |r| == 2
  {
    [v / 0x100 % 0x100, v % 0x100]
  }

  function Be32(v: nat): (r: seq<byte>)
    ensures |r| == 4
  {
    Be16(v / 0x1_0000) + Be16(v)
  }

  function Be64(v: nat): (r: seq<byte>)
    ensures |r| == 8
  {
    Be32(v / TWO_32) + Be32(v)
  }

  function ReadBe(s: seq<byte>): nat {
    if s == [] then 0 else 0x100 * ReadBe(s[..|s| - 1]) + s[|s| - 1]
  }

  const COOKIE: seq<byte> := [0x63, 0x6F, 0x6E, 0x65, 0x63, 0x74, 0x69, 0x78]  // "conectix"
  const CREATOR_APPLICATION: seq<byte> := [0x63, 0x6E, 0x69, 0x6D]  // "cnim"
  const CREATOR_HOST_OS: seq<byte> := [0x57, 0x69, 0x32, 0x6B]  // "Wi2k"
  const NO_DYNAMIC_HEADER := 0xFFFF_FFFF_FFFF_FFFF

  /** The 40 bytes that do not depend on the disk. */
  function Identity(timestamp: nat): (r: seq<byte>)
    ensures |r| == 40
  {
    COOKIE + Be32(2) + Be32(0x0001_0000) + Be64(NO_DYNAMIC_HEADER) + Be32(timestamp)
    + CREATOR_APPLICATION + Be32(0x0001_0000) + CREATOR_HOST_OS
  }

  /** The first 64 bytes: everything in front of the checksum. */
  function Head(diskSize: nat, timestamp: nat): (r: seq<byte>)
    ensures |r| == 64
  {
    var g := GeometryOf(diskSize / SECTOR_SIZE);
    Identity(timestamp) + Be64(diskSize) + Be64(diskSize) + Be16(g.cylinders) + [U8(g.heads), U8(g.sectorsPerTrack)] + Be32(2)
  }

  function Unsummed(diskSize: nat, timestamp: nat, id: seq<byte>): (r: seq<byte>)
    requires |id| == 16
    ensures |r| == 512
  {
    Head(diskSize, timestamp) + Zeros(4) + id + Zeros(428)
  }

  function ByteSum(s: seq<byte>): nat {
    if s == [] then 0 else ByteSum(s[..|s| - 1]) + s[|s| - 1]
  }

  /** One's complement in 32 bits. */
  function Complement32(v: nat): nat { TWO_32 - 1 - U32(v) }

  function Footer(diskSize: nat, timestamp: nat, id: seq<byte>): (r: seq<byte>)
    requires |id| == 16
    ensures |r| == 512
  {
    Head(diskSize, timestamp) + Be32(Complement32(ByteSum(Unsummed(diskSize, timestamp, id)))) + id + Zeros(428)
  }

  /** One field right behind the filled part. */
  method PutField(footer: array<byte>, off: nat, field: seq<byte>)
    requires off + |field| <= footer.Length
    modifies footer
    ensures footer[..off + |field|] == old(footer[..off]) + field
    ensures forall k :: off + |field| <= k < footer.Length ==> footer[k] == old(footer[k])
  {
    CopyOver(footer, off, field);
  }

  method FillHead(footer: array<byte>, diskSize: nat, timestamp: nat)
    requires footer.Length == 512
    modifies footer
    ensures footer[..64] == Head(diskSize, timestamp) && forall k :: 64 <= k < footer.Length ==> footer[k] == old(footer[k])
  {
    hide Be16, Be32, Be64, U8, GeometryOf;
    ghost var g := GeometryOf(diskSize / SECTOR_SIZE);
    var cylinders, heads, sectorsPerTrack := ChsGeometry(diskSize / SECTOR_SIZE);
    FillIdentity(footer, timestamp);
    PutField(footer, 40, Be64(diskSize));
    PutField(footer, 48, Be64(diskSize));
    PutField(footer, 56, Be16(cylinders));
    PutField(footer, 58, [U8(heads)]);
    PutField(footer, 59, [U8(sectorsPerTrack)]);
    PutField(footer, 60, Be32(2));
  }

  method FillIdentity(footer: array<byte>, timestamp: nat)
    requires footer.Length == 512
    modifies footer
    ensures footer[..40] == Identity(timestamp) && forall k :: 40 <= k < footer.Length ==> footer[k] == old(footer[k])
  {
    hide Be32, Be64;
    PutField(footer, 0, COOKIE);
    PutField(footer, 8, Be32(2));
    PutField(footer, 12, Be32(0x0001_0000));
    PutField(footer, 16, Be64(NO_DYNAMIC_HEADER));
    PutField(footer, 24, Be32(timestamp));
    PutField(footer, 28, CREATOR_APPLICATION);
    PutField(footer, 32, Be32(0x0001_0000));
    PutField(footer, 36, CREATOR_HOST_OS);
  }

  method VhdFooter(diskSizeBytes: int, timestamp: nat, id: seq<byte>) returns (r: Option<array<byte>>)
    requires |id| == 16
    ensures r.Some? <==> diskSizeBytes > 0 && diskSizeBytes % SECTOR_SIZE == 0
    ensures r.Some? ==> fresh(r.value) && r.value[..] == Footer(diskSizeBytes, timestamp, id)
  {
    hide Head, Be32;
    if diskSizeBytes <= 0 || diskSizeBytes % SECTOR_SIZE != 0 {
      return None;
    }
    var footer := new byte[512](_ => 0);
    FillHead(footer, diskSizeBytes, timestamp);
    CopyOver(footer, 68, id);
    ghost var plain := Unsummed(diskSizeBytes, timestamp, id);
    assert footer[..] == footer[..64] + footer[64..68] + footer[68..84] + footer[84..];
    assert footer[..] == plain;
    var sum := SumBytes(footer);
    CopyOver(footer, 64, Be32(Complement32(sum)));
    SumFits(plain);
    return Some(footer);
  }

  /** A uint32 sum of all bytes. */
  method SumBytes(footer: array<byte>) returns (sum: nat)
    ensures sum == U32(ByteSum(footer[..]))
  {
    sum := 0;
    for i := 0 to footer.Length
      invariant sum == U32(ByteSum(footer[..i]))
    {
      assert footer[..i + 1][..i] == footer[..i];
      AddByte(ByteSum(footer[..i]), footer[i]);
      sum := U32(sum + footer[i]);
    }
    assert footer[..footer.Length] == footer[..];
  }

  lemma AddByte(s: nat, b: byte)
    ensures U32(U32(s) + b) == U32(s + b)
  {
    var q, r := s / TWO_32, s % TWO_32;
    var p, t := (r + b) / TWO_32, (r + b) % TWO_32;
    DivModUnique(s + b, TWO_32, q + p, t);
  }

  lemma {:induction false} SumBound(s: seq<byte>)
    ensures ByteSum(s) <= 0xFF * |s|
  {
    if s != [] {
      SumBound(s[..|s| - 1]);
    }
  }

  lemma SumFits(s: seq<byte>)
    requires |s| == 512
    ensures U32(U32(ByteSum(s))) == U32(ByteSum(s)) == ByteSum(s)
  {
    SumBound(s);
  }

  lemma {:induction false} SumAppend(a: seq<byte>, b: seq<byte>)
    ensures ByteSum(a + b) == ByteSum(a) + ByteSum(b)
  {
    if b == [] {
      assert a + b == a;
    } else {
      assert (a + b)[..|a + b| - 1] == a + b[..|b| - 1];
      SumAppend(a, b[..|b| - 1]);
    }
  }

  lemma {:induction false} SumZeros(n: nat)
    ensures ByteSum(Zeros(n)) == 0
  {
    if n > 0 {
      assert Zeros(n)[..n - 1] == Zeros(n - 1);
      SumZeros(n - 1);
    }
  }

  /** The stored checksum is the complement of the sum of all other bytes of the footer as it stands, and the sum does not
      overflow 32 bits. */
  lemma ChecksumComplements(diskSize: nat, timestamp: nat, id: seq<byte>)
    requires |id| == 16
    ensures var f := Footer(diskSize, timestamp, id);
            && ByteSum(f[..64] + f[68..]) < TWO_32
            && ReadBe(f[64..68]) == TWO_32 - 1 - ByteSum(f[..64] + f[68..])
  {
    hide Head, Be32;
    var f := Footer(diskSize, timestamp, id);
    var head, tail := Head(diskSize, timestamp), id + Zeros(428);
    var plain := Unsummed(diskSize, timestamp, id);
    assert plain == head + (Zeros(4) + tail);
    SumAppend(head, Zeros(4) + tail);
    SumAppend(Zeros(4), tail);
    SumAppend(head, tail);
    SumZeros(4);
    SumFits(plain);
    assert f[..64] == head && f[68..] == tail;
    var v := Complement32(ByteSum(plain));
    assert f[64..68] == Be32(v);
    Be32Reads(v);
  }

  lemma ReadBe1(b: byte)
    ensures ReadBe([b]) == b
  {
    assert [b][..0] == [];
  }

  lemma BeDigits(high: byte, low: byte)
    ensures ReadBe([high, low]) == 0x100 * (high as int) + low as int
  {
    assert [high, low][..1] == [high];
    ReadBe1(high);
  }

  lemma Be16Reads(v: nat)
    ensures ReadBe(Be16(v)) == U16(v)
  {
    var high, low := v / 0x100, v % 0x100;
    BeDigits(high % 0x100, low);
    DivModUnique(v, 0x1_0000, high / 0x100, 0x100 * (high % 0x100) + low);
  }

  lemma {:induction false} ReadBeAppend(a: seq<byte>, b: seq<byte>)
    requires |b| == 2
    ensures ReadBe(a + b) == 0x1_0000 * ReadBe(a) + ReadBe(b)
  {
    var s := a + b;
    assert s[..|s| - 1] == a + [b[0]] && (a + [b[0]])[..|a|] == a;
    assert b[..1] == [b[0]];
    ReadBe1(b[0]);
  }

  lemma Be32Reads(v: nat)
    ensures v < TWO_32 ==> ReadBe(Be32(v)) == v
  {
    Be16Reads(v / 0x1_0000);
    Be16Reads(v);
    ReadBeAppend(Be16(v / 0x1_0000), Be16(v));
  }

  lemma Be64Reads(v: nat)
    requires v < TWO_32 * TWO_32
    ensures ReadBe(Be64(v)) == v
  {
    hide Be16;
    var high, low := v / TWO_32, v % TWO_32;
    Be32Reads(high);
    Be32Reads(low);
    Be32Low(v);
    assert Be32(v) == Be16(v / 0x1_0000) + Be16(v);
    ReadBeAppend(Be32(high), Be16(v / 0x1_0000));
    ReadBeAppend(Be32(high) + Be16(v / 0x1_0000), Be16(v));
    ReadBeAppend(Be16(v / 0x1_0000), Be16(v));
    assert Be64(v) == Be32(high) + Be16(v / 0x1_0000) + Be16(v);
  }

  lemma Be32Low(v: nat)
    ensures Be32(v) == Be32(v % TWO_32)
  {
    var low, q := v % TWO_32, v / TWO_32;
    assert v == TWO_32 * q + low;
    DivModUnique(v, 0x1_0000, 0x1_0000 * q + low / 0x1_0000, low % 0x1_0000);
    SameLowBytes(v / 0x1_0000, low / 0x1_0000, q);
    SameLowBytes(v, low, 0x1_0000 * q);
  }

  lemma SameLowBytes(a: nat, b: nat, q: nat)
    requires a == 0x1_0000 * q + b
    ensures Be16(a) == Be16(b)
  {
    DivModUnique(a, 0x100, 0x100 * q + b / 0x100, b % 0x100);
    DivModUnique(a / 0x100, 0x100, q + b / 0x100 / 0x100, b / 0x100 % 0x100);
  }

  /** Plain characters, one octet each. */
  predicate IsText(octets: seq<byte>, text: string) {
    |octets| == |text| && forall i :: 0 <= i < |text| ==> octets[i] == U8(text[i] as int)
  }

  /** A reader of the format finds every field where it looks for it: cookie, features, version, no dynamic header, time,
      creator, both sizes, geometry, type and id, and zeros to the end. */
  lemma FooterReads(diskSize: nat, timestamp: nat, id: seq<byte>)
    requires |id| == 16 && diskSize < TWO_32 * TWO_32
    ensures var f := Footer(diskSize, timestamp, id);
            var g := GeometryOf(diskSize / 512);
            && ReadBe(f[40..48]) == ReadBe(f[48..56]) == diskSize
            && ReadBe(f[56..58]) == g.cylinders && f[58] == g.heads && f[59] == g.sectorsPerTrack
            && ReadBe(f[60..64]) == 2 && f[68..84] == id && (forall i :: 84 <= i < 512 ==> f[i] == 0)
    ensures var f := Footer(diskSize, timestamp, id);
            && IsText(f[0..8], "conectix") && ReadBe(f[8..12]) == 2 && ReadBe(f[12..16]) == 0x1_0000
            && (forall i :: 16 <= i < 24 ==> f[i] == 0xFF) && ReadBe(f[24..28]) == U32(timestamp)
            && IsText(f[28..32], "cnim") && ReadBe(f[32..36]) == 0x1_0000 && IsText(f[36..40], "Wi2k")
  {
    hide Be64, Be32, Be16, GeometryOf, ReadBe, U8, U16, U32, Identity, IsText;
    var f := Footer(diskSize, timestamp, id);
    var g := GeometryOf(diskSize / SECTOR_SIZE);
    Be64Reads(diskSize);
    Be32Reads(2);
    Be16Reads(g.cylinders);
    Untruncated(diskSize / SECTOR_SIZE);
    assert f[40..48] == Be64(diskSize) && f[48..56] == Be64(diskSize) && f[56..58] == Be16(g.cylinders) && f[60..64] == Be32(2);
    IdentityReads(timestamp);
    var d := Identity(timestamp);
    assert f[0..8] == d[0..8] && f[8..12] == d[8..12] && f[12..16] == d[12..16] && f[24..28] == d[24..28];
    assert f[28..32] == d[28..32] && f[32..36] == d[32..36] && f[36..40] == d[36..40];
    assert forall i :: 16 <= i < 24 ==> f[i] == d[i];
  }

  lemma IdentityReads(timestamp: nat)
    ensures var d := Identity(timestamp);
            && IsText(d[0..8], "conectix") && ReadBe(d[8..12]) == 2 && ReadBe(d[12..16]) == 0x1_0000
            && (forall i :: 16 <= i < 24 ==> d[i] == 0xFF) && ReadBe(d[24..28]) == U32(timestamp)
            && IsText(d[28..32], "cnim") && ReadBe(d[32..36]) == 0x1_0000 && IsText(d[36..40], "Wi2k")
  {
    TagsAreText();
    NoHeaderIsOnes();
    Be32Reads(2);
    Be32Reads(0x1_0000);
    Be32Low(timestamp);
    Be32Reads(U32(timestamp));
    hide Be64, Be32, ReadBe, U32, IsText;
    var d := Identity(timestamp);
    assert d[0..8] == COOKIE && d[8..12] == Be32(2) && d[12..16] == Be32(0x1_0000) && d[16..24] == Be64(NO_DYNAMIC_HEADER);
    assert d[24..28] == Be32(timestamp) && d[28..32] == CREATOR_APPLICATION && d[32..36] == Be32(0x1_0000) && d[36..40] == CREATOR_HOST_OS;
    assert forall i :: 16 <= i < 24 ==> d[i] == d[16..24][i - 16];
  }

  lemma TagsAreText()
    ensures IsText(COOKIE, "conectix") && IsText(CREATOR_APPLICATION, "cnim") && IsText(CREATOR_HOST_OS, "Wi2k")
  {
  }

  lemma NoHeaderIsOnes()
    ensures forall i :: 0 <= i < 8 ==> Be64(NO_DYNAMIC_HEADER)[i] == 0xFF
  {
    assert Be32(0xFFFF_FFFF) == [0xFF, 0xFF, 0xFF, 0xFF];
    Be32Low(NO_DYNAMIC_HEADER);
  }

  /** A Fixed VHD is the disk's bytes followed by the footer; other disk sizes are refused. */
  method WriteFixedVhd(raw: seq<byte>, timestamp: nat, id: seq<byte>) returns (r: Option<seq<byte>>)
    requires |id| == 16
    ensures r.Some? <==> |raw| > 0 && |raw| % SECTOR_SIZE == 0
    ensures r.Some? ==> |r.value| == |raw| + 512 && r.value[..|raw|] == raw && r.value[|raw|..] == Footer(|raw|, timestamp, id)
  {
    var footer := VhdFooter(|raw|, timestamp, id);
    if footer.None? {
      return None;
    }
    r := Some(raw + footer.value[..]);
  }
}
