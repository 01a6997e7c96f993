/** A reader of PE headers, written from the PE Format specification alone: it shares no offset with the code that
    writes them, only the little-endian fields. */
module PeReader {
  import opened Bytes

  const PE32_MAGIC := 0x10B
  const PE32_PLUS_MAGIC := 0x20B
  const CERTIFICATE_TABLE_INDEX := 4
  const DEBUG_INDEX := 6

  datatype Headers = Headers(optional: nat, plus: bool, optionalSize: nat)
  {
    /** The same in both formats: ImageBase is wider in PE32+, but BaseOfData is gone. */
    function CheckSumAt(): nat { optional + 64 }
    /** The stack and heap sizes in between are 8 bytes wide in PE32+ and 4 in PE32. */
    function DirectoriesAt(): nat { optional + if plus then 112 else 96 }
    function CountAt(): nat { DirectoriesAt() - 4 }
    function EntryAt(index: nat): nat { DirectoriesAt() + 8 * index }
  }

  function ReadHeaders(d: seq<byte>): (r: Option<Headers>)
    ensures r.Some? ==> 24 <= r.value.optional && r.value.optional + 2 <= |d|
  {
    if |d| < 0x40 || d[0] != 'M' as int || d[1] != 'Z' as int then None else
    var nt := Le32(d, 0x3C);
    if nt + 26 > |d| || d[nt] != 'P' as int || d[nt + 1] != 'E' as int || d[nt + 2] != 0 || d[nt + 3] != 0 then None else
    var magic := Le16(d, nt + 24);
    if magic != PE32_MAGIC && magic != PE32_PLUS_MAGIC then None
    else Some(Headers(nt + 24, magic == PE32_PLUS_MAGIC, Le16(d, nt + 20)))
  }

  /** The section table follows the optional header; NumberOfSections is the second field of the file header. */
  function SectionTableOf(h: Headers): nat { h.optional + h.optionalSize }

  function SectionCount(d: seq<byte>, h: Headers): nat
    requires 24 <= h.optional <= |d|
  {
    Le16(d, h.optional - 18)
  }

  /** Where the Certificate Table entry is. A directory is looked at only if NumberOfRvaAndSizes counts it and
      SizeOfOptionalHeader covers it. */
  function CertificateEntry(d: seq<byte>): (r: Option<nat>)
    ensures r.Some? ==> ReadHeaders(d).Some? && r.value == ReadHeaders(d).value.EntryAt(CERTIFICATE_TABLE_INDEX) && r.value + 8 <= |d|
  {
    var h :- ReadHeaders(d);
    var entry := h.EntryAt(CERTIFICATE_TABLE_INDEX);
    if entry + 8 > |d| || entry + 8 > h.optional + h.optionalSize || Le32(d, h.CountAt()) <= CERTIFICATE_TABLE_INDEX then None
    else Some(entry)
  }

  /** The file offset of the certificate table, zero for none. */
  function TableOffset(d: seq<byte>, entry: nat): nat
    requires entry + 8 <= |d|
  {
    Le32(d, entry)
  }

  /** The certificate of the only entry in a table at the very end of the file. */
  function CertificateData(d: seq<byte>, entry: nat): Option<seq<byte>>
    requires entry + 8 <= |d|
  {
    var off, size := TableOffset(d, entry), Le32(d, entry + 4);
    if off < entry + 8 || size < 8 || off + size != |d| then None else
    var table := d[off..];
    var length := Le32(table, 0);
    if length < 8 || (length + 7) / 8 * 8 != size || Le16(table, 4) != 0x0200 || Le16(table, 6) != 0x0002 then None
    else Some(table[8..length])
  }

  /** The bytes the Authenticode hash covers: everything in front of the certificate table except the CheckSum field and
      the Certificate Table entry. */
  function Digested(d: seq<byte>, checkSum: nat, entry: nat, table: nat): seq<byte>
    requires checkSum + 4 <= entry && entry + 8 <= table <= |d|
  {
    d[..checkSum] + d[checkSum + 4..entry] + d[entry + 8..table]
  }
}
