/** The raw disk layout of `rawimage.Write` and the loop that streams the root image into its partition. */
module RawImage {
  import opened Bytes

  const SECTOR_SIZE := 512
  const MIB := 1024 * 1024
  const MIB_SECTORS := MIB / SECTOR_SIZE
  const ESP_START_SECTOR := 2 * MIB_SECTORS
  const ESP_SIZE := 200 * 1024 * 1024
  const ESP_CONTENT_HEADROOM := 16 * 1024 * 1024
  const GPT_OVERHEAD := 3 * 1024 * 1024
  const BUFFER_SIZE := 1024 * 1024

  function RoundUpSectors(size: nat): (n: nat)
    ensures size <= n * SECTOR_SIZE < size + SECTOR_SIZE
  {
    (size + SECTOR_SIZE - 1) / SECTOR_SIZE
  }

  function RoundUpToMib(sector: nat): (n: nat)
    ensures sector <= n < sector + MIB_SECTORS && n % MIB_SECTORS == 0
  {
    var rem := sector % MIB_SECTORS;
    DivModUnique(sector + (MIB_SECTORS - rem), MIB_SECTORS, sector / MIB_SECTORS + 1, 0);
    if rem == 0 then sector else sector + (MIB_SECTORS - rem)
  }

  /** Sector numbers of the two partitions, and the disk size in bytes. */
  datatype Plan = Plan(espSectors: nat, rootStart: nat, rootSectors: nat, diskSize: nat)
  {
    function EspEnd(): int { ESP_START_SECTOR + espSectors - 1 }
    function RootEnd(): int { rootStart + rootSectors - 1 }
    function DiskSectors(): nat { diskSize / SECTOR_SIZE }
  }

  /** What the EFI system partition has to hold: the kernel and initramfs with 16 MiB to spare, and 200 MiB at least. */
  function EspNeed(kernel: nat, initramfs: nat): nat {
    if kernel + initramfs + 16_777_216 > 209_715_200 then kernel + initramfs + 16_777_216 else 209_715_200
  }

  /** Sectors of 512 bytes: each partition has the fewest that hold its content, but at least one; the first starts at
      2 MiB and the second on the next MiB boundary behind it; and the disk is the smallest whole number of MiB with
      3 MiB left over. */
  ghost predicate Planned(p: Plan, kernel: nat, initramfs: nat, root: nat) {
    && EspNeed(kernel, initramfs) <= p.espSectors * 512 < EspNeed(kernel, initramfs) + 512
    && (root > 0 ==> root <= p.rootSectors * 512 < root + 512) && (root == 0 ==> p.rootSectors == 1)
    && p.rootStart % 2048 == 0 && 4096 + p.espSectors <= p.rootStart < 4096 + p.espSectors + 2048
    && p.diskSize % 1_048_576 == 0
    && (p.rootStart + p.rootSectors) * 512 + 3_145_728 <= p.diskSize < (p.rootStart + p.rootSectors) * 512 + 3_145_728 + 1_048_576
  }

  /** That leaves no choice. */
  lemma PlanIsUnique(p: Plan, q: Plan, kernel: nat, initramfs: nat, root: nat)
    requires Planned(p, kernel, initramfs, root) && Planned(q, kernel, initramfs, root)
    ensures p == q
  {
    assert p.espSectors == q.espSectors && p.rootSectors == q.rootSectors;
    SameMultiple(p.rootStart, q.rootStart, 4096 + p.espSectors, 2048);
    SameMultiple(p.diskSize, q.diskSize, (p.rootStart + p.rootSectors) * 512 + 3_145_728, 1_048_576);
  }

  lemma SameMultiple(x: nat, y: nat, low: nat, step: nat)
    requires step > 0 && x % step == 0 && y % step == 0 && low <= x < low + step && low <= y < low + step
    ensures x == y
  {
    var a, b := x / step, y / step;
    assert x == a * step && y == b * step;
    if a > b {
      MulStep(step, a, b);
    } else if b > a {
      MulStep(step, b, a);
    }
  }

  /** The layout arithmetic of `Write`. */
  method PlanDisk(kernel: nat, initramfs: nat, root: nat) returns (p: Plan)
    ensures Planned(p, kernel, initramfs, root)
  {
    hide RoundUpSectors, RoundUpToMib;
    var thisEspSize := ESP_SIZE;
    var content := kernel + initramfs + ESP_CONTENT_HEADROOM;
    if content > thisEspSize {
      thisEspSize := content;
    }
    var espSectors := RoundUpSectors(thisEspSize);
    var rootStart := RoundUpToMib(ESP_START_SECTOR + espSectors);
    var rootSectors := RoundUpSectors(root);
    if rootSectors == 0 {
      rootSectors := 1;
    }
    var diskSize := (rootStart + rootSectors) * SECTOR_SIZE + GPT_OVERHEAD;
    var rem := diskSize % MIB;
    MibRounded(diskSize);
    if rem != 0 {
      diskSize := diskSize + (MIB - rem);
    }
    p := Plan(espSectors, rootStart, rootSectors, diskSize);
  }

  lemma MibRounded(n: nat)
    ensures (n + (MIB - n % MIB)) % MIB == 0
  {
    var q := n / 0x10_0000;
    assert n + (0x10_0000 - n % 0x10_0000) == 0x10_0000 * (q + 1);
  }

  /** GPT wants the header and entry array in the first 34 sectors and 33 more at the end (section 5.3 of the UEFI
      Specification); the VHD footer wants a positive multiple of 512. */
  lemma DiskHasRoomForGpt(p: Plan, kernel: nat, initramfs: nat, root: nat)
    requires Planned(p, kernel, initramfs, root)
    ensures 34 <= 4096 == ESP_START_SECTOR
    ensures p.RootEnd() + 33 < p.DiskSectors()
    ensures p.diskSize > 0 && p.diskSize % SECTOR_SIZE == 0 && p.diskSize == p.DiskSectors() * SECTOR_SIZE
  {
    WholeSectors(p.diskSize);
  }

  lemma WholeSectors(n: nat)
    requires n % 0x10_0000 == 0
    ensures n % 512 == 0 && n == n / 512 * 512
  {
    var m := n / 0x10_0000;
    assert n == 512 * (2048 * m);
  }

  /** The four properties a partition table must have, for every size. */
  lemma PartitionsAreSound(p: Plan, kernel: nat, initramfs: nat, root: nat)
    requires Planned(p, kernel, initramfs, root)
    ensures p.EspEnd() < p.rootStart && p.rootStart <= p.RootEnd() < p.DiskSectors()
    ensures (p.EspEnd() - 4096 + 1) * 512 >= kernel + initramfs + 16_777_216
    ensures (p.RootEnd() - p.rootStart + 1) * 512 >= root
  {
    DiskHasRoomForGpt(p, kernel, initramfs, root);
  }

  /** Nothing overflows Go's int64 as long as the three sizes together stay below 2^62. */
  lemma NoOverflow(p: Plan, kernel: nat, initramfs: nat, root: nat)
    requires Planned(p, kernel, initramfs, root) && kernel + initramfs + root < 0x4000_0000_0000_0000
    ensures p.diskSize < 0x8000_0000_0000_0000
  {
  }

  // ----- streaming the root image

  datatype End = More | Eof | Failed

  /** One Read: how many bytes it delivered, and what it said with them. */
  datatype ReadResult = ReadResult(n: nat, end: End)

  /** io.Reader's contract over a source: never more than the buffer or what is left, io.EOF only at the end, and some
      final answer. Reads may be as short as they like, empty ones included. */
  predicate FollowsReader(left: nat, results: seq<ReadResult>) {
    && results != []
    && results[0].n <= Min(BUFFER_SIZE, left)
    && (match results[0].end
        case More => FollowsReader(left - results[0].n, results[1..])
        case Eof => results[0].n == left
        case Failed => true)
  }

  /** backend.Sub: a write outside the partition is refused and changes nothing. */
  method WriteAt(store: array<byte>, offset: nat, size: nat, chunk: seq<byte>, at: nat) returns (ok: bool)
    requires offset + size <= store.Length
    modifies store
    ensures ok <==> at + |chunk| <= size
    ensures ok ==> store[..] == Patch(old(store[..]), offset + at, chunk)
    ensures !ok ==> store[..] == old(store[..])
  {
    if at + |chunk| > size {
      return false;
    }
    CopyOver(store, offset + at, chunk);
    return true;
  }

  /** Whether the reads up to the end of the source succeed. */
  predicate ReadsSucceed(results: seq<ReadResult>) {
    results != [] && (match results[0].end
                    case More => ReadsSucceed(results[1..])
                    case Eof => true
                    case Failed => false)
  }

  /** Whatever the pattern of short reads: success means the partition begins with exactly the source's bytes; in every
      case nothing outside the partition changes, and nothing past what was written. */
  method WriteRootPartition(store: array<byte>, offset: nat, size: nat, src: seq<byte>, results: seq<ReadResult>) returns (ok: bool)
    requires offset + size <= store.Length && FollowsReader(|src|, results)
    modifies store
    ensures ok ==> |src| <= size && store[offset..offset + |src|] == src
    ensures |src| <= size ==> (ok <==> ReadsSucceed(results))
    ensures forall k :: 0 <= k < store.Length && !(offset <= k < offset + Min(|src|, size)) ==> store[k] == old(store[k])
  {
    hide Patch;
    var written := 0;
    var left := results;
    while true
      invariant 0 <= written <= Min(|src|, size) && FollowsReader(|src| - written, left)
      invariant ReadsSucceed(left) <==> ReadsSucceed(results)
      invariant store[offset..offset + written] == src[..written]
      invariant forall k :: 0 <= k < store.Length && !(offset <= k < offset + written) ==> store[k] == old(store[k])
      decreases |left|
    {
      var n, readErr := left[0].n, left[0].end;
      if n > 0 {
        var chunk := src[written..written + n];
        ghost var before := store[..];
        var fits := WriteAt(store, offset, size, chunk, written);
        if !fits {
          return false;
        }
        WrittenExtends(before, store[..], offset, src, written, n);
        written := written + n;
      }
      if readErr == Eof {
        break;
      }
      if readErr == Failed {
        return false;
      }
      left := left[1..];
    }
    assert src[..written] == src;
    return true;
  }

  lemma WrittenExtends(before: seq<byte>, after: seq<byte>, offset: nat, src: seq<byte>, written: nat, n: nat)
    requires written + n <= |src| && offset + written + n <= |before|
    requires before[offset..offset + written] == src[..written]
    requires after == Patch(before, offset + written, src[written..written + n])
    ensures after[offset..offset + written + n] == src[..written + n]
  {
    var a := after[offset..offset + written + n];
    forall k | 0 <= k < written + n
      ensures a[k] == src[k]
    {
      if k < written {
        assert before[offset..offset + written][k] == src[..written][k];
      }
    }
  }
}
