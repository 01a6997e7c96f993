/** Resolving prebuilt pieces (`Resolve`): a freshly fetched hash manifest decides what is trusted, and a local cache of
    one source only ever saves downloads. Network and hash functions are parameters; every resolve may see another
    source, and saving may stop after any of its renames. */
module PiecesCache {
  import opened Bytes
  import opened PieceManifests

  type Content = string

  const VMLINUZ := "vmlinuz"
  const BUSYBOX := "busybox"
  const BUSYBOX_MANIFEST := "busybox-manifest.tsv"
  const IPTABLES := "iptables"
  const PIECES_JSON := "pieces.json"
  const SUPPLICANT := "wpa_supplicant"
  const HASHES_FILE := "pieces.sha256"
  const SIG_FILE := "pieces.sha256.sig"
  const FIRMWARE_PREFIX := "firmware/"

  datatype Scheme = LocalDir | Http | Https

  datatype Options = Options(scheme: Scheme, allowInsecureHttp: bool, caching: bool, requireVerified: bool, verifyKey: bool)
  {
    predicate IsHttp() { scheme != LocalDir }
  }

  /** What reading one file of the source gives. A failed HTTP read may still hand back the bytes read so far. */
  datatype Fetched = Data(content: Content) | NotFound | Failed(partial: Option<Content>)

  datatype Provenance = Provenance(arch: string, vga: bool, bootProfile: string, wifiFirmware: seq<string>, ethernetFirmware: seq<string>)

  /** SHA-256 in lower-case hex, the JSON decoder, and the signature check under the caller's key. */
  datatype Env = Env(sha: Content -> string, parseJson: Content -> Option<Provenance>, verify: (Content, string) -> bool)

  type Hashes = map<string, string>
  type Files = map<string, Content>

  datatype PieceSet = PieceSet(
    vmlinuz: Content,
    busybox: Content,
    applets: seq<Applet>,
    manifest: Content,
    iptables: Option<Content>,
    supplicant: Option<Content>,
    wifiFirmware: Option<Files>,
    ethernetFirmware: Option<Files>,
    hashesVerified: bool,
    provenance: Option<Provenance>)

  predicate CheckHash(env: Env, hashes: Hashes, name: string, data: Content) {
    name in hashes && env.sha(data) == hashes[name]
  }

  function HasWifiDriver(profile: string): bool { profile == "wifi" || profile == "eth+wifi" }

  // ----- the cache directory of one source

  /** An optional cached file is absent or matches the fresh manifest. */
  predicate AbsentOrChecked(env: Env, files: Files, hashes: Hashes, name: string) {
    name in files ==> CheckHash(env, hashes, name, files[name])
  }

  predicate MandatoryCached(env: Env, files: Files, hashes: Hashes) {
    && VMLINUZ in files && CheckHash(env, hashes, VMLINUZ, files[VMLINUZ])
    && BUSYBOX in files && CheckHash(env, hashes, BUSYBOX, files[BUSYBOX])
    && BUSYBOX_MANIFEST in files && CheckHash(env, hashes, BUSYBOX_MANIFEST, files[BUSYBOX_MANIFEST])
    && Manifest(files[BUSYBOX_MANIFEST]).Some?
  }

  function Loaded(env: Env, files: Files, hashes: Hashes): Option<PieceSet> {
    if MandatoryCached(env, files, hashes) && AbsentOrChecked(env, files, hashes, IPTABLES) && AbsentOrChecked(env, files, hashes, PIECES_JSON)
    then
      Some(PieceSet(files[VMLINUZ], files[BUSYBOX], Manifest(files[BUSYBOX_MANIFEST]).value, files[BUSYBOX_MANIFEST],
                    if IPTABLES in files then Some(files[IPTABLES]) else None,
                    None, None, None, true,
                    if PIECES_JSON in files then env.parseJson(files[PIECES_JSON]) else None))
    else None
  }

  function Tmp(name: string): string { name + ".tmp" }

  /** How far a save got: the order in which the map was iterated, the renames that happened, the temporary file left
      over from an interrupted write, and whether the process died. */
  datatype SavePlan = SavePlan(order: seq<string>, renames: nat, torn: Option<Content>, killed: bool)

  function Renamed(cache: Files, files: Files, order: seq<string>): Files {
    if order == [] then cache
    else
      var before := Renamed(cache, files, order[..|order| - 1]);
      var name := order[|order| - 1];
      if name in files then (before - {Tmp(name)})[name := files[name]] else before
  }

  function AfterSave(cache: Files, files: Files, plan: SavePlan): Files {
    var n := Min(plan.renames, |plan.order|);
    var done := Renamed(cache, files, plan.order[..n]);
    if n < |plan.order| && plan.order[n] in files && plan.torn.Some? then done[Tmp(plan.order[n]) := plan.torn.value] else done
  }

  /** Nothing interrupted the save. */
  predicate Complete(plan: SavePlan, files: Files) {
    |plan.order| <= plan.renames && (forall name :: name in files ==> name in plan.order) && !plan.killed
  }

  // ----- the source

  function ReadPiece(fetch: string -> Fetched, name: string): Option<Content> {
    match fetch(name)
    case Data(c) => Some(c)
    case _ => None
  }

  function ReadOptionalPiece(fetch: string -> Fetched, name: string): Outcome<Option<Content>> {
    match fetch(name)
    case Data(c) => Ok(Some(c))
    case NotFound => Ok(None)
    case Failed(_) => Err
  }

  predicate SignatureFails(env: Env, fetch: string -> Fetched, hashData: Option<Content>) {
    match (hashData, ReadOptionalPiece(fetch, SIG_FILE))
    case (Some(data), Ok(Some(sig))) => !env.verify(data, TrimSpace(sig))
    case _ => true
  }

  /** The fresh hash manifest, or none published, after every check that precedes the cache. */
  function Listing(env: Env, fetch: string -> Fetched, opts: Options): Outcome<Option<Hashes>> {
    if opts.scheme == Http && !opts.allowInsecureHttp then Err else
    match ReadOptionalPiece(fetch, HASHES_FILE)
    case Ok(hashData) =>
      var hashes := if hashData.Some? then HashesOf(HashLines(hashData.value)) else None;
      if hashData.Some? && hashes.None? then Err
      else if hashData.None? && opts.IsHttp() && opts.requireVerified then Err
      else if opts.verifyKey && SignatureFails(env, fetch, hashData) then Err
      else Ok(hashes)
    case _ => Err
  }

  function Firmware(fetch: string -> Fetched, paths: seq<string>): Option<Files> {
    if paths == [] then Some(map[])
    else
      var files :- Firmware(fetch, paths[..|paths| - 1]);
      var path := paths[|paths| - 1];
      var data :- ReadPiece(fetch, FIRMWARE_PREFIX + path);
      Some(files[path := data])
  }

  /** None for an empty list, as the nil map it leaves behind. */
  function FirmwareOf(fetch: string -> Fetched, paths: seq<string>): Outcome<Option<Files>> {
    if paths == [] then Ok(None) else
    match Firmware(fetch, paths)
    case Some(files) => Ok(Some(files))
    case None => Err
  }

  predicate FirmwareChecked(env: Env, hashes: Hashes, files: Option<Files>) {
    files.Some? ==> forall path :: path in files.value ==> CheckHash(env, hashes, FIRMWARE_PREFIX + path, files.value[path])
  }

  predicate OptionalChecked(env: Env, hashes: Hashes, name: string, data: Option<Content>) {
    data.Some? ==> CheckHash(env, hashes, name, data.value)
  }

  /** A full download: the set, and the raw pieces.json it came with. */
  datatype Download = Download(pieces: PieceSet, provData: Option<Content>)

  predicate DownloadChecked(env: Env, hashes: Hashes, d: Download) {
    && CheckHash(env, hashes, VMLINUZ, d.pieces.vmlinuz)
    && CheckHash(env, hashes, BUSYBOX, d.pieces.busybox)
    && CheckHash(env, hashes, BUSYBOX_MANIFEST, d.pieces.manifest)
    && OptionalChecked(env, hashes, IPTABLES, d.pieces.iptables)
    && OptionalChecked(env, hashes, SUPPLICANT, d.pieces.supplicant)
    && FirmwareChecked(env, hashes, d.pieces.wifiFirmware)
    && FirmwareChecked(env, hashes, d.pieces.ethernetFirmware)
    && OptionalChecked(env, hashes, PIECES_JSON, d.provData)
  }

  function ProvenanceOf(env: Env, provData: Option<Content>): Outcome<Option<Provenance>> {
    match provData
    case None => Ok(None)
    case Some(data) => if env.parseJson(data).None? then Err else Ok(env.parseJson(data))
  }

  function Downloaded(env: Env, fetch: string -> Fetched, hashes: Option<Hashes>): Outcome<Download> {
    match (ReadPiece(fetch, VMLINUZ), ReadPiece(fetch, BUSYBOX), ReadPiece(fetch, BUSYBOX_MANIFEST), ReadOptionalPiece(fetch, PIECES_JSON))
    case (Some(vmlinuz), Some(busybox), Some(manifest), Ok(provData)) =>
      (match (Manifest(manifest), ProvenanceOf(env, provData))
       case (Some(applets), Ok(provenance)) =>
         var p := if provenance.Some? then provenance.value else Provenance([], false, [], [], []);
         (match (FirmwareOf(fetch, p.wifiFirmware), FirmwareOf(fetch, p.ethernetFirmware))
          case (Ok(wifi), Ok(ethernet)) =>
            var d := Download(PieceSet(vmlinuz, busybox, applets, manifest, ReadPiece(fetch, IPTABLES),
                                       if HasWifiDriver(p.bootProfile) then ReadPiece(fetch, SUPPLICANT) else None,
                                       wifi, ethernet, hashes.Some?, provenance), provData);
            if hashes.Some? && !DownloadChecked(env, hashes.value, d) then Err else Ok(d)
          case _ => Err)
       case _ => Err)
    case _ => Err
  }

  /** The iptables bytes that get cached: those of a failed download too, as far as they arrived. */
  function IptablesBytes(fetch: string -> Fetched): Option<Content> {
    match fetch(IPTABLES)
    case Data(c) => Some(c)
    case NotFound => None
    case Failed(partial) => partial
  }

  function ToSave(d: Download, fetch: string -> Fetched): Files {
    var files := map[VMLINUZ := d.pieces.vmlinuz, BUSYBOX := d.pieces.busybox, BUSYBOX_MANIFEST := d.pieces.manifest];
    var files1 := if IptablesBytes(fetch).Some? then files[IPTABLES := IptablesBytes(fetch).value] else files;
    if d.provData.Some? then files1[PIECES_JSON := d.provData.value] else files1
  }

  // ----- Resolve

  datatype Result = Served(pieces: PieceSet, hit: bool) | Refused | Killed

  datatype Step = Step(fetch: string -> Fetched, opts: Options, plan: SavePlan)

  function Resolved(env: Env, cache: Files, s: Step): (Result, Files) {
    match Listing(env, s.fetch, s.opts)
    case Ok(hashes) =>
      var useCache := s.opts.IsHttp() && s.opts.caching && hashes.Some?;
      if useCache && Loaded(env, cache, hashes.value).Some? then (Served(Loaded(env, cache, hashes.value).value, true), cache) else
      (match Downloaded(env, s.fetch, hashes)
       case Ok(d) =>
         if !useCache then (Served(d.pieces, false), cache)
         else (if s.plan.killed then Killed else Served(d.pieces, false), AfterSave(cache, ToSave(d, s.fetch), s.plan))
       case _ => (Refused, cache))
    case _ => (Refused, cache)
  }

  // ----- the same, step by step over the cache directory

  class Cache {
    var files: Files

    constructor ()
      ensures files == map[]
    {
      files := map[];
    }

    method LoadFromCache(env: Env, hashes: Hashes) returns (r: Option<PieceSet>)
      ensures r == Loaded(env, files, hashes)
    {
      if VMLINUZ !in files || BUSYBOX !in files || BUSYBOX_MANIFEST !in files {
        return None;
      }
      var vmlinuz, busybox, manifest := files[VMLINUZ], files[BUSYBOX], files[BUSYBOX_MANIFEST];
      if !CheckHash(env, hashes, VMLINUZ, vmlinuz) || !CheckHash(env, hashes, BUSYBOX, busybox)
         || !CheckHash(env, hashes, BUSYBOX_MANIFEST, manifest) {
        return None;
      }
      var applets := ParseManifest(manifest);
      if applets.None? {
        return None;
      }
      var pieces := PieceSet(vmlinuz, busybox, applets.value, manifest, None, None, None, None, true, None);
      if IPTABLES in files {
        if !CheckHash(env, hashes, IPTABLES, files[IPTABLES]) {
          return None;
        }
        pieces := pieces.(iptables := Some(files[IPTABLES]));
      }
      if PIECES_JSON in files {
        if !CheckHash(env, hashes, PIECES_JSON, files[PIECES_JSON]) {
          return None;
        }
        pieces := pieces.(provenance := env.parseJson(files[PIECES_JSON]));
      }
      return Some(pieces);
    }

    method SaveToCache(toSave: Files, plan: SavePlan)
      modifies this
      ensures files == AfterSave(old(files), toSave, plan)
    {
      var n := Min(plan.renames, |plan.order|);
      for i := 0 to n
        invariant files == Renamed(old(files), toSave, plan.order[..i])
      {
        var name := plan.order[i];
        assert plan.order[..i + 1][..i] == plan.order[..i];
        if name in toSave {
          files := files[Tmp(name) := toSave[name]];
          files := (files - {Tmp(name)})[name := toSave[name]];
        }
        assert files == Renamed(old(files), toSave, plan.order[..i + 1]);
      }
      if n < |plan.order| && plan.order[n] in toSave && plan.torn.Some? {
        files := files[Tmp(plan.order[n]) := plan.torn.value];
      }
    }

    method Resolve(env: Env, s: Step) returns (r: Result)
      modifies this
      ensures (r, files) == Resolved(env, old(files), s)
    {
      hide HashesOf, HashLines, Loaded, DownloadChecked, AfterSave, Manifest;
      var hashes := FetchListing(env, s.fetch, s.opts);
      if !hashes.Ok? {
        return Refused;
      }
      var useCache := s.opts.IsHttp() && s.opts.caching && hashes.value.Some?;
      if useCache {
        var cached := LoadFromCache(env, hashes.value.value);
        if cached.Some? {
          return Served(cached.value, true);
        }
      }
      var d := DownloadPieces(env, s.fetch, hashes.value);
      if !d.Ok? {
        return Refused;
      }
      if useCache {
        SaveToCache(ToSave(d.value, s.fetch), s.plan);
        if s.plan.killed {
          return Killed;
        }
      }
      return Served(d.value.pieces, false);
    }
  }

  method FetchListing(env: Env, fetch: string -> Fetched, opts: Options) returns (r: Outcome<Option<Hashes>>)
    ensures r.Ok? <==> Listing(env, fetch, opts).Ok?
    ensures r.Ok? ==> r == Listing(env, fetch, opts)
  {
    hide HashesOf, HashLines, TrimSpace;
    if opts.scheme == Http && !opts.allowInsecureHttp {
      return Err;
    }
    var hashData := ReadOptionalPiece(fetch, HASHES_FILE);
    if !hashData.Ok? {
      return Err;
    }
    var hashes: Option<Hashes> := None;
    if hashData.value.Some? {
      hashes := ParseHashes(hashData.value.value);
      if hashes.None? {
        return Err;
      }
    } else if opts.IsHttp() && opts.requireVerified {
      return Err;
    }
    if opts.verifyKey {
      if hashData.value.None? {
        return Err;
      }
      var sig := ReadOptionalPiece(fetch, SIG_FILE);
      if !sig.Ok? || sig.value.None? {
        return Err;
      }
      if !env.verify(hashData.value.value, TrimSpace(sig.value.value)) {
        return Err;
      }
    }
    return Ok(hashes);
  }

  lemma {:induction false} MissingFirmwareFails(fetch: string -> Fetched, paths: seq<string>, i: nat)
    requires i <= |paths| && Firmware(fetch, paths[..i]).None?
    ensures Firmware(fetch, paths).None?
    decreases |paths| - i
  {
    if i == |paths| {
      assert paths[..i] == paths;
    } else {
      assert paths[..i + 1][..i] == paths[..i];
      MissingFirmwareFails(fetch, paths, i + 1);
    }
  }

  method FetchFirmware(fetch: string -> Fetched, paths: seq<string>) returns (r: Outcome<Option<Files>>)
    ensures r == FirmwareOf(fetch, paths)
  {
    if |paths| == 0 {
      return Ok(None);
    }
    var files: Files := map[];
    for i := 0 to |paths|
      invariant Firmware(fetch, paths[..i]) == Some(files)
    {
      assert paths[..i + 1][..i] == paths[..i];
      var data := ReadPiece(fetch, FIRMWARE_PREFIX + paths[i]);
      if data.None? {
        MissingFirmwareFails(fetch, paths, i + 1);
        return Err;
      }
      files := files[paths[i] := data.value];
    }
    assert paths[..|paths|] == paths;
    return Ok(Some(files));
  }

  method CheckFirmware(env: Env, hashes: Hashes, files: Option<Files>) returns (ok: bool)
    ensures ok == FirmwareChecked(env, hashes, files)
  {
    if files.None? {
      return true;
    }
    var left := files.value.Keys;
    while left != {}
      invariant left <= files.value.Keys
      invariant forall path :: path in files.value && path !in left ==> CheckHash(env, hashes, FIRMWARE_PREFIX + path, files.value[path])
      decreases left
    {
      var path :| path in left;
      if !CheckHash(env, hashes, FIRMWARE_PREFIX + path, files.value[path]) {
        return false;
      }
      left := left - {path};
    }
    return true;
  }

  method DownloadPieces(env: Env, fetch: string -> Fetched, hashes: Option<Hashes>) returns (r: Outcome<Download>)
    ensures r.Ok? <==> Downloaded(env, fetch, hashes).Ok?
    ensures r.Ok? ==> r == Downloaded(env, fetch, hashes)
  {
    hide Manifest, Firmware, FirmwareChecked, CheckHash;
    var vmlinuz, busybox := ReadPiece(fetch, VMLINUZ), ReadPiece(fetch, BUSYBOX);
    var manifest := ReadPiece(fetch, BUSYBOX_MANIFEST);
    if vmlinuz.None? || busybox.None? || manifest.None? {
      return Err;
    }
    var applets := ParseManifest(manifest.value);
    if applets.None? {
      return Err;
    }
    var iptables := ReadPiece(fetch, IPTABLES);
    var provData := ReadOptionalPiece(fetch, PIECES_JSON);
    if !provData.Ok? {
      return Err;
    }
    var provenance: Option<Provenance> := None;
    if provData.value.Some? {
      provenance := env.parseJson(provData.value.value);
      if provenance.None? {
        return Err;
      }
    }
    var supplicant: Option<Content> := None;
    if provenance.Some? && HasWifiDriver(provenance.value.bootProfile) {
      supplicant := ReadPiece(fetch, SUPPLICANT);
    }
    var wifi: Outcome<Option<Files>>, ethernet: Outcome<Option<Files>> := Ok(None), Ok(None);
    if provenance.Some? {
      wifi := FetchFirmware(fetch, provenance.value.wifiFirmware);
      ethernet := FetchFirmware(fetch, provenance.value.ethernetFirmware);
    }
    if !wifi.Ok? || !ethernet.Ok? {
      return Err;
    }
    var d := Download(PieceSet(vmlinuz.value, busybox.value, applets.value, manifest.value, iptables, supplicant,
                               wifi.value, ethernet.value, hashes.Some?, provenance), provData.value);
    if hashes.Some? {
      var ok := CheckDownload(env, hashes.value, d);
      if !ok {
        return Err;
      }
    }
    return Ok(d);
  }

  method CheckDownload(env: Env, hashes: Hashes, d: Download) returns (ok: bool)
    ensures ok == DownloadChecked(env, hashes, d)
  {
    hide FirmwareChecked, CheckHash;
    if !CheckHash(env, hashes, VMLINUZ, d.pieces.vmlinuz) || !CheckHash(env, hashes, BUSYBOX, d.pieces.busybox)
       || !CheckHash(env, hashes, BUSYBOX_MANIFEST, d.pieces.manifest) {
      return false;
    }
    if d.pieces.iptables.Some? && !CheckHash(env, hashes, IPTABLES, d.pieces.iptables.value) {
      return false;
    }
    if d.pieces.supplicant.Some? && !CheckHash(env, hashes, SUPPLICANT, d.pieces.supplicant.value) {
      return false;
    }
    ok := CheckFirmware(env, hashes, d.pieces.wifiFirmware);
    if !ok {
      return;
    }
    ok := CheckFirmware(env, hashes, d.pieces.ethernetFirmware);
    if !ok {
      return;
    }
    return d.provData.None? || CheckHash(env, hashes, PIECES_JSON, d.provData.value);
  }
}
