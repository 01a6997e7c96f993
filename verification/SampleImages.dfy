/** Small concrete images that show hypotheses can be met and conditions can fail. */
module SampleImages {
  import opened Bytes
  import opened PeLayout
  import opened PeReader

  /** A 512-byte PE32 or PE32+ header without sections, headers and alignment of 512 bytes, sixteen data directories,
      followed by a certificate table of the given size when that is not zero. */
  function SampleImage(plus: bool, table: nat): (r: seq<byte>)
    requires table < 0x100
    ensures |r| == 512 + table
  {
    seq(512 + table, i =>
      if i == 0 then 'M' as int else if i == 1 then 'Z' as int
      else if i == 0x3C then 0x40
      else if i == 0x40 then 'P' as int else if i == 0x41 then 'E' as int
      else if i == 0x54 then (if plus then 240 else 224)
      else if i == 0x58 then 0x0B else if i == 0x59 then (if plus then 0x02 else 0x01)
      else if i == 0x7D then 0x10
      else if i == 0x81 then 0x02
      else if i == 0x95 then 0x02
      else if i == (if plus then 0xC4 else 0xB4) then 0x10
      else if i == 0xE9 && table > 0 then 0x02
      else if i == 0xEC && table > 0 then table
      else 0)
  }

  function SampleLayout(plus: bool): Layout { Layout(0x40, 0, if plus then 240 else 224, plus, 0x1000, 0x200) }

  lemma Le32Bytes(s: seq<byte>, off: nat)
    requires off + 4 <= |s|
    ensures Le32(s, off) == s[off] + 0x100 * (s[off + 1] as int) + 0x1_0000 * (s[off + 2] as int) + 0x100_0000 * (s[off + 3] as int)
  {
  }

  lemma SampleHead(plus: bool, table: nat)
    requires table < 0x100
    ensures var d := SampleImage(plus, table);
            && d[0] == 'M' as int && d[1] == 'Z' as int && Le32(d, 0x3C) == 0x40
            && d[0x40] == 'P' as int && d[0x41] == 'E' as int && d[0x42] == d[0x43] == 0
            && Le16(d, 0x46) == 0 && Le16(d, 0x54) == (if plus then 240 else 224) && Le16(d, 0x58) == (if plus then 0x20B else 0x10B)
            && Le32(d, 0x7C) == 0x1000
  {
    hide Le32;
    var d := SampleImage(plus, table);
    Le32Bytes(d, 0x3C);
    Le32Bytes(d, 0x7C);
  }

  lemma SampleFields(plus: bool, table: nat)
    requires table < 0x100
    ensures var d := SampleImage(plus, table);
            && Le32(d, 0x80) == 0x200 && Le32(d, 0x94) == 0x200
            && Le32(d, if plus then 0xC4 else 0xB4) == 16 && Le32(d, 0xE8) == (if table == 0 then 0 else 512)
            && Le32(d, if plus then 0xE8 else 0xD8) == (if plus && table > 0 then 512 else 0)
  {
    hide Le32;
    var d := SampleImage(plus, table);
    Le32Bytes(d, 0x80);
    Le32Bytes(d, 0x94);
    Le32Bytes(d, if plus then 0xC4 else 0xB4);
    Le32Bytes(d, 0xD8);
    Le32Bytes(d, 0xE8);
  }

  lemma SampleParses(plus: bool, table: nat)
    requires table < 0x100
    ensures var d, l := SampleImage(plus, table), SampleLayout(plus);
            && Parse(d) == Ok(l) && l.SecurityDirEnd() <= |d|
            && SecurityOffset(d, l) == (if table == 0 then 0 else 512)
            && CertificateEntry(d) == Some(if plus then 0xE8 else 0xD8)
            && TableOffset(d, if plus then 0xE8 else 0xD8) == (if plus && table > 0 then 512 else 0)
  {
    hide Le16, Le32, SampleImage;
    SampleHead(plus, table);
    SampleFields(plus, table);
    LayoutOffsets(SampleLayout(plus));
  }

  /** Exactly these images make the parser index out of range: by the format's own reader a header with a known magic,
      whose declared optional header lies in the file, but a file that ends within the first 44 bytes of it. */
  lemma ParsePanicsIff(d: seq<byte>)
    ensures Parse(d) == Panic
       <==> ReadHeaders(d).Some?
            && var h := ReadHeaders(d).value; h.optional + h.optionalSize <= |d| < h.optional + 44
  {
    hide Le16, Le32;
  }

  /** 90 bytes: a header that declares no optional header at all and ends right behind the magic. */
  lemma ShortHeaderPanics()
    ensures Parse(SampleImage(true, 0)[0x54 := 0][..90]) == Panic
  {
    hide Le16, Le32, SampleImage;
    var d := SampleImage(true, 0)[0x54 := 0][..90];
    ShortHeaderFields();
    assert ReadHeaders(d) == Some(Headers(0x58, true, 0));
    ParsePanicsIff(d);
  }

  lemma ShortHeaderFields()
    ensures var d := SampleImage(true, 0)[0x54 := 0][..90];
            && d[0] == 'M' as int && d[1] == 'Z' as int && Le32(d, 0x3C) == 0x40
            && d[0x40] == 'P' as int && d[0x41] == 'E' as int && d[0x42] == d[0x43] == 0
            && Le16(d, 0x54) == 0 && Le16(d, 0x58) == 0x20B
  {
    hide Le32;
    Le32Bytes(SampleImage(true, 0)[0x54 := 0][..90], 0x3C);
  }
}
