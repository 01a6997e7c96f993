/** What a resolve may be trusted for, over every run of republishes, resolves and interrupted saves. */
module PiecesTrust {
  import opened Bytes
  import opened PieceManifests
  import opened PiecesCache

  /** The manifest has an entry under this name, and it is the content's hash. */
  ghost predicate Lists(env: Env, hashes: Hashes, name: string, data: Content) {
    name in hashes && hashes[name] == env.sha(data)
  }

  /** Every firmware file is listed under its path below firmware/. */
  ghost predicate ListsFirmware(env: Env, hashes: Hashes, files: Option<Files>) {
    files.Some? ==> forall path :: path in files.value ==> Lists(env, hashes, "firmware/" + path, files.value[path])
  }

  /** Every piece of the set is listed with the hash it has. */
  ghost predicate AllListed(env: Env, hashes: Hashes, p: PieceSet) {
    && Lists(env, hashes, "vmlinuz", p.vmlinuz)
    && Lists(env, hashes, "busybox", p.busybox)
    && Lists(env, hashes, "busybox-manifest.tsv", p.manifest)
    && Manifest(p.manifest) == Some(p.applets)
    && (p.iptables.Some? ==> Lists(env, hashes, "iptables", p.iptables.value))
    && (p.supplicant.Some? ==> Lists(env, hashes, "wpa_supplicant", p.supplicant.value))
    && ListsFirmware(env, hashes, p.wifiFirmware)
    && ListsFirmware(env, hashes, p.ethernetFirmware)
    && (p.provenance.Some? ==> exists data :: Lists(env, hashes, "pieces.json", data) && env.parseJson(data) == p.provenance)
  }

  lemma CheckedIsListed(env: Env, hashes: Hashes)
    ensures forall name, data :: CheckHash(env, hashes, name, data) <==> Lists(env, hashes, name, data)
  {
  }

  /** A cache directory in any state at all: what is served from it is listed by the manifest given. */
  lemma HitIsListed(env: Env, files: Files, hashes: Hashes)
    requires Loaded(env, files, hashes).Some?
    ensures AllListed(env, hashes, Loaded(env, files, hashes).value) && Loaded(env, files, hashes).value.hashesVerified
  {
    CheckedIsListed(env, hashes);
    hide Manifest, CheckHash, Lists;
    var p := Loaded(env, files, hashes).value;
    if PIECES_JSON in files && p.provenance.Some? {
      assert Lists(env, hashes, "pieces.json", files[PIECES_JSON]) && env.parseJson(files[PIECES_JSON]) == p.provenance;
    }
  }

  /** A hit carries each cached file: iptables exactly when it is in the directory, and the provenance that its
      pieces.json decodes to. */
  lemma HitCarriesTheCache(env: Env, files: Files, hashes: Hashes)
    requires Loaded(env, files, hashes).Some?
    ensures "vmlinuz" in files && "busybox" in files && "busybox-manifest.tsv" in files
    ensures var p := Loaded(env, files, hashes).value;
            && p.vmlinuz == files["vmlinuz"] && p.busybox == files["busybox"] && p.manifest == files["busybox-manifest.tsv"]
            && p.iptables == (if "iptables" in files then Some(files["iptables"]) else None)
            && p.provenance == (if "pieces.json" in files then env.parseJson(files["pieces.json"]) else None)
  {
    hide Manifest, CheckHash;
  }

  /** The cache is hit exactly when all it needs is there and listed. */
  lemma LoadedIff(env: Env, files: Files, hashes: Hashes)
    ensures Loaded(env, files, hashes).Some?
       <==> && (forall name :: name in {"vmlinuz", "busybox", "busybox-manifest.tsv"} ==> name in files && Lists(env, hashes, name, files[name]))
            && Manifest(files["busybox-manifest.tsv"]).Some?
            && (forall name :: name in {"iptables", "pieces.json"} && name in files ==> Lists(env, hashes, name, files[name]))
  {
    CheckedIsListed(env, hashes);
    hide Manifest, CheckHash, Lists;
  }

  lemma DownloadIsListed(env: Env, fetch: string -> Fetched, hashes: Hashes)
    requires Downloaded(env, fetch, Some(hashes)).Ok?
    ensures AllListed(env, hashes, Downloaded(env, fetch, Some(hashes)).value.pieces)
  {
    CheckedIsListed(env, hashes);
    hide Manifest, CheckHash, Firmware, Lists;
    var d := Downloaded(env, fetch, Some(hashes)).value;
    if d.pieces.provenance.Some? {
      assert Lists(env, hashes, "pieces.json", d.provData.value) && env.parseJson(d.provData.value) == d.pieces.provenance;
    }
  }

  // ----- what a download carries

  /** Exactly the files of the list, each as served below firmware/; nothing for an empty list. */
  ghost predicate FetchedFirmware(fetch: string -> Fetched, paths: seq<string>, files: Option<Files>) {
    && (files.None? <==> paths == [])
    && (files.Some? ==> (forall path :: path in files.value <==> path in paths)
                        && forall path :: path in files.value ==> fetch("firmware/" + path) == Data(files.value[path]))
  }

  lemma {:induction false} FirmwareFetched(fetch: string -> Fetched, paths: seq<string>)
    ensures Firmware(fetch, paths).Some? <==> forall i :: 0 <= i < |paths| ==> fetch("firmware/" + paths[i]).Data?
    ensures Firmware(fetch, paths).Some? ==>
              (forall path :: path in Firmware(fetch, paths).value <==> path in paths)
              && forall path :: path in Firmware(fetch, paths).value ==> fetch("firmware/" + path) == Data(Firmware(fetch, paths).value[path])
  {
    if paths != [] {
      var front := paths[..|paths| - 1];
      FirmwareFetched(fetch, front);
      assert forall i :: 0 <= i < |front| ==> front[i] == paths[i];
      assert paths == front + [paths[|paths| - 1]];
    }
  }

  /** Where the downloaded set has each piece from: the supplicant only for a Wi-Fi profile, each firmware list in its own
      field, and iptables only if it was served whole. */
  lemma DownloadCarries(env: Env, fetch: string -> Fetched, hashes: Option<Hashes>)
    requires Downloaded(env, fetch, hashes).Ok?
    ensures var p := Downloaded(env, fetch, hashes).value.pieces;
            var provenance := p.provenance;
            && fetch("vmlinuz") == Data(p.vmlinuz) && fetch("busybox") == Data(p.busybox)
            && fetch("busybox-manifest.tsv") == Data(p.manifest) && Manifest(p.manifest) == Some(p.applets)
            && p.iptables == (if fetch("iptables").Data? then Some(fetch("iptables").content) else None)
            && p.supplicant == (if provenance.Some? && provenance.value.bootProfile in {"wifi", "eth+wifi"} && fetch("wpa_supplicant").Data?
                                then Some(fetch("wpa_supplicant").content) else None)
            && FetchedFirmware(fetch, if provenance.Some? then provenance.value.wifiFirmware else [], p.wifiFirmware)
            && FetchedFirmware(fetch, if provenance.Some? then provenance.value.ethernetFirmware else [], p.ethernetFirmware)
            && provenance == (if fetch("pieces.json").Data? then env.parseJson(fetch("pieces.json").content) else None)
  {
    hide Manifest, DownloadChecked, Firmware;
    var p := Downloaded(env, fetch, hashes).value.pieces;
    var profile := if p.provenance.Some? then p.provenance.value else Provenance([], false, [], [], []);
    FirmwareFetched(fetch, profile.wifiFirmware);
    FirmwareFetched(fetch, profile.ethernetFirmware);
  }

  /** The provenance a source serves, if it decodes. */
  function ServedProvenance(env: Env, fetch: string -> Fetched): Option<Provenance> {
    if fetch("pieces.json").Data? then env.parseJson(fetch("pieces.json").content) else None
  }

  function FirmwareListed(env: Env, fetch: string -> Fetched): seq<string> {
    match ServedProvenance(env, fetch)
    case Some(p) => p.wifiFirmware + p.ethernetFirmware
    case None => []
  }

  /** Without a hash manifest a download succeeds exactly when the three mandatory pieces are served, the applet list
      parses, pieces.json is absent or decodes, and every firmware file it lists is served; with one, exactly when in
      addition everything the set carries, and pieces.json, is listed. */
  lemma DownloadSucceedsIff(env: Env, fetch: string -> Fetched, hashes: Hashes)
    ensures Downloaded(env, fetch, None).Ok?
       <==> && fetch("vmlinuz").Data? && fetch("busybox").Data? && fetch("busybox-manifest.tsv").Data?
            && Manifest(fetch("busybox-manifest.tsv").content).Some?
            && (fetch("pieces.json") == NotFound || (fetch("pieces.json").Data? && ServedProvenance(env, fetch).Some?))
            && (forall i :: 0 <= i < |FirmwareListed(env, fetch)| ==> fetch("firmware/" + FirmwareListed(env, fetch)[i]).Data?)
    ensures Downloaded(env, fetch, Some(hashes)).Ok?
       <==> && Downloaded(env, fetch, None).Ok? && AllListed(env, hashes, Downloaded(env, fetch, None).value.pieces)
            && (fetch("pieces.json").Data? ==> Lists(env, hashes, "pieces.json", fetch("pieces.json").content))
  {
    MandatoryServed(env, fetch);
    CheckedIsListed(env, hashes);
    hide Manifest, Firmware, CheckHash, Lists;
    if Downloaded(env, fetch, None).Ok? {
      var d := Downloaded(env, fetch, None).value;
      if fetch("pieces.json").Data? && d.pieces.provenance.Some? && Lists(env, hashes, "pieces.json", fetch("pieces.json").content) {
        assert env.parseJson(fetch("pieces.json").content) == d.pieces.provenance;
      }
    }
  }

  lemma MandatoryServed(env: Env, fetch: string -> Fetched)
    ensures Downloaded(env, fetch, None).Ok?
       <==> && fetch("vmlinuz").Data? && fetch("busybox").Data? && fetch("busybox-manifest.tsv").Data?
            && Manifest(fetch("busybox-manifest.tsv").content).Some?
            && (fetch("pieces.json") == NotFound || (fetch("pieces.json").Data? && ServedProvenance(env, fetch).Some?))
            && (forall i :: 0 <= i < |FirmwareListed(env, fetch)| ==> fetch("firmware/" + FirmwareListed(env, fetch)[i]).Data?)
  {
    hide Manifest, Firmware;
    var p := ServedProvenance(env, fetch);
    var profile := if p.Some? then p.value else Provenance([], false, [], [], []);
    FirmwareFetched(fetch, profile.wifiFirmware);
    FirmwareFetched(fetch, profile.ethernetFirmware);
    BothLists(fetch, profile.wifiFirmware, profile.ethernetFirmware);
    assert FirmwareListed(env, fetch) == profile.wifiFirmware + profile.ethernetFirmware;
  }

  lemma BothLists(fetch: string -> Fetched, a: seq<string>, b: seq<string>)
    ensures (forall i :: 0 <= i < |a + b| ==> fetch("firmware/" + (a + b)[i]).Data?)
       <==> (forall i :: 0 <= i < |a| ==> fetch("firmware/" + a[i]).Data?) && (forall i :: 0 <= i < |b| ==> fetch("firmware/" + b[i]).Data?)
  {
    if forall i :: 0 <= i < |a + b| ==> fetch("firmware/" + (a + b)[i]).Data? {
      assert forall i :: 0 <= i < |a| ==> (a + b)[i] == a[i];
      forall i | 0 <= i < |b|
        ensures fetch("firmware/" + b[i]).Data?
      {
        assert (a + b)[|a| + i] == b[i];
      }
    }
  }

  /** When the fresh manifest is accepted: no plain HTTP unless allowed, readable if published and published if required,
      and signed over its exact bytes if a key is given. */
  lemma ListingSucceedsIff(env: Env, fetch: string -> Fetched, opts: Options)
    ensures Listing(env, fetch, opts).Ok?
       <==> && (opts.scheme == Http ==> opts.allowInsecureHttp)
            && (fetch("pieces.sha256") == NotFound
                || (fetch("pieces.sha256").Data? && HashesOf(HashLines(fetch("pieces.sha256").content)).Some?))
            && (fetch("pieces.sha256") == NotFound ==> !(opts.scheme != LocalDir && opts.requireVerified) && !opts.verifyKey)
            && (!opts.verifyKey
                || (fetch("pieces.sha256.sig").Data? && fetch("pieces.sha256").Data?
                    && env.verify(fetch("pieces.sha256").content, TrimSpace(fetch("pieces.sha256.sig").content))))
    ensures Listing(env, fetch, opts).Ok? ==>
              Listing(env, fetch, opts).value == if fetch("pieces.sha256").Data? then HashesOf(HashLines(fetch("pieces.sha256").content)) else None
  {
    hide HashesOf, HashLines, TrimSpace;
  }

  /** A set with HashesVerified has every piece it carries checked against the manifest fetched in that very resolve,
      whether it came from the cache or the network; without a manifest the set is never called verified nor cached. */
  lemma ServedIsChecked(env: Env, cache: Files, s: Step)
    requires Resolved(env, cache, s).0.Served?
    ensures var Served(p, hit) := Resolved(env, cache, s).0;
            && Listing(env, s.fetch, s.opts).Ok?
            && (p.hashesVerified <==> Listing(env, s.fetch, s.opts).value.Some?)
            && (p.hashesVerified ==> AllListed(env, Listing(env, s.fetch, s.opts).value.value, p))
            && (hit ==> p.hashesVerified && s.opts.IsHttp() && s.opts.caching)
            && (s.opts.IsHttp() && s.opts.requireVerified ==> p.hashesVerified)
            && (s.opts.scheme == Http ==> s.opts.allowInsecureHttp)
  {
    hide Manifest, CheckHash, Loaded, Downloaded, AllListed, HashesOf, HashLines, AfterSave;
    var hashes := Listing(env, s.fetch, s.opts).value;
    if hashes.Some? {
      if Loaded(env, cache, hashes.value).Some? {
        HitIsListed(env, cache, hashes.value);
      }
      if Downloaded(env, s.fetch, hashes).Ok? {
        DownloadIsListed(env, s.fetch, hashes.value);
      }
    }
    DownloadVerifiedIff(env, s.fetch, hashes);
  }

  lemma DownloadVerifiedIff(env: Env, fetch: string -> Fetched, hashes: Option<Hashes>)
    ensures Downloaded(env, fetch, hashes).Ok? ==> Downloaded(env, fetch, hashes).value.pieces.hashesVerified == hashes.Some?
  {
    hide Manifest, Firmware, DownloadChecked;
  }

  /** With a verify key, nothing is served, not even from the cache, unless the manifest fetched now carries a signature
      that verifies over its exact bytes. */
  lemma ServedIsSigned(env: Env, cache: Files, s: Step)
    requires Resolved(env, cache, s).0.Served? && s.opts.verifyKey
    ensures exists data, sig :: s.fetch(HASHES_FILE) == Data(data) && s.fetch(SIG_FILE) == Data(sig) && env.verify(data, TrimSpace(sig))
  {
    hide Loaded, Downloaded, HashesOf, HashLines, AfterSave, TrimSpace;
    assert Listing(env, s.fetch, s.opts).Ok?;
    var data, sig := s.fetch(HASHES_FILE).content, s.fetch(SIG_FILE).content;
  }

  /** When a resolve serves anything: the fresh manifest is accepted, and either the cache is allowed and good or the
      download succeeds and the process outlives its save; and what it then serves. */
  lemma ServesIff(env: Env, cache: Files, s: Step)
    ensures var listing := Listing(env, s.fetch, s.opts);
            var useCache := listing.Ok? && listing.value.Some? && s.opts.scheme != LocalDir && s.opts.caching;
            var hit := useCache && Loaded(env, cache, listing.value.value).Some?;
            var r := Resolved(env, cache, s).0;
            && (r.Served? <==> listing.Ok? && (hit || (Downloaded(env, s.fetch, listing.value).Ok? && !(useCache && s.plan.killed))))
            && (r.Served? ==> r.hit == hit)
            && (r.Served? && hit ==> Some(r.pieces) == Loaded(env, cache, listing.value.value))
            && (r.Served? && !hit ==> r.pieces == Downloaded(env, s.fetch, listing.value).value.pieces)
            && (hit || !useCache ==> Resolved(env, cache, s).1 == cache)
  {
    hide Listing, Loaded, Downloaded, AfterSave;
  }

  // ----- runs

  /** The cache directory after a run of resolves, each against whatever the source published at that moment. */
  ghost function CacheAfter(env: Env, cache: Files, steps: seq<Step>): Files {
    if steps == [] then cache else Resolved(env, CacheAfter(env, cache, steps[..|steps| - 1]), steps[|steps| - 1]).1
  }

  ghost predicate Injective(sha: Content -> string) {
    forall a, b :: sha(a) == sha(b) ==> a == b
  }

  /** A set served from the cache in the middle of any run holds the unique kernel, busybox and manifest bytes the
      manifest of that moment lists; its iptables and provenance are the listed ones or absent, never stale. Nothing is
      asked of the run: the check of a hit against the fresh manifest is enough, whatever the cache holds. */
  lemma RunServesListedBytes(env: Env, cache: Files, steps: seq<Step>, k: nat, hashes: Hashes,
                             kernel: Content, busybox: Content, manifest: Content)
    requires k < |steps| && Injective(env.sha)
    requires var r := Resolved(env, CacheAfter(env, cache, steps[..k]), steps[k]).0; r.Served? && r.hit
    requires Listing(env, steps[k].fetch, steps[k].opts) == Ok(Some(hashes))
    requires Lists(env, hashes, "vmlinuz", kernel) && Lists(env, hashes, "busybox", busybox)
    requires Lists(env, hashes, "busybox-manifest.tsv", manifest)
    ensures var p := Resolved(env, CacheAfter(env, cache, steps[..k]), steps[k]).0.pieces;
            && p.vmlinuz == kernel && p.busybox == busybox && p.manifest == manifest
            && (forall iptables :: Lists(env, hashes, "iptables", iptables) ==> p.iptables == None || p.iptables == Some(iptables))
            && (forall data :: Lists(env, hashes, "pieces.json", data) ==> p.provenance == None || p.provenance == env.parseJson(data))
  {
    hide Resolved, Listing, Lists;
    SameListed(env, hashes);
    ServedIsChecked(env, CacheAfter(env, cache, steps[..k]), steps[k]);
  }

  /** A hit agrees with what a full download against the same source would have given, except that it never carries the
      supplicant or firmware, and carries iptables and provenance only if they were cached. */
  lemma HitAgreesWithDownload(env: Env, cache: Files, fetch: string -> Fetched, hashes: Hashes)
    requires Injective(env.sha) && Loaded(env, cache, hashes).Some? && Downloaded(env, fetch, Some(hashes)).Ok?
    ensures var hit, full := Loaded(env, cache, hashes).value, Downloaded(env, fetch, Some(hashes)).value;
            && hit.vmlinuz == full.pieces.vmlinuz && hit.busybox == full.pieces.busybox
            && hit.manifest == full.pieces.manifest && hit.applets == full.pieces.applets
            && (hit.iptables.Some? && full.pieces.iptables.Some? ==> hit.iptables == full.pieces.iptables)
            && (PIECES_JSON in cache && full.provData.Some? ==> hit.provenance == full.pieces.provenance)
            && hit.supplicant == None && hit.wifiFirmware == None && hit.ethernetFirmware == None
  {
    hide Manifest, Firmware, FirmwareChecked, CheckHash;
    var hit, full := Loaded(env, cache, hashes).value, Downloaded(env, fetch, Some(hashes)).value;
    SameHash(env, hashes, VMLINUZ, hit.vmlinuz, full.pieces.vmlinuz);
    SameHash(env, hashes, BUSYBOX, hit.busybox, full.pieces.busybox);
    SameHash(env, hashes, BUSYBOX_MANIFEST, hit.manifest, full.pieces.manifest);
    if hit.iptables.Some? && full.pieces.iptables.Some? {
      SameHash(env, hashes, IPTABLES, hit.iptables.value, full.pieces.iptables.value);
    }
    if PIECES_JSON in cache && full.provData.Some? {
      SameHash(env, hashes, PIECES_JSON, cache[PIECES_JSON], full.provData.value);
    }
  }

  lemma SameListed(env: Env, hashes: Hashes)
    requires Injective(env.sha)
    ensures forall name, a, b :: Lists(env, hashes, name, a) && Lists(env, hashes, name, b) ==> a == b
  {
  }

  lemma SameHash(env: Env, hashes: Hashes, name: string, a: Content, b: Content)
    requires Injective(env.sha)
    ensures CheckHash(env, hashes, name, a) && CheckHash(env, hashes, name, b) ==> a == b
  {
  }

  // ----- when a save pays off

  lemma {:induction false} RenamedFile(cache: Files, files: Files, order: seq<string>, name: string)
    requires name != Tmp(name)
    requires forall other :: other in files ==> Tmp(other) != name
    ensures name in files && name in order ==> name in Renamed(cache, files, order) && Renamed(cache, files, order)[name] == files[name]
    ensures name !in files ==> (name in Renamed(cache, files, order) <==> name in cache)
    ensures name !in files && name in cache ==> Renamed(cache, files, order)[name] == cache[name]
    ensures var r := Renamed(cache, files, order);
            name in r ==> ((name in cache && r[name] == cache[name]) || (name in files && r[name] == files[name]))
  {
    if order != [] {
      RenamedFile(cache, files, order[..|order| - 1], name);
    }
  }

  /** A completed rename leaves no temporary file of its piece behind. */
  lemma {:induction false} NoTemporaryLeft(cache: Files, files: Files, order: seq<string>, name: string)
    requires name in files && name in order && Tmp(name) != name
    requires forall other :: other in files ==> other != Tmp(name)
    ensures Tmp(name) !in Renamed(cache, files, order)
  {
    var front, last := order[..|order| - 1], order[|order| - 1];
    if name != last {
      assert order == front + [last];
      NoTemporaryLeft(cache, files, front, name);
    }
  }

  /** After a complete save the directory holds each piece under its name and none of their temporary files. */
  lemma CompleteSaveIsTidy(cache: Files, d: Download, fetch: string -> Fetched, plan: SavePlan, name: string)
    requires Complete(plan, ToSave(d, fetch)) && name in ToSave(d, fetch)
    ensures name + ".tmp" !in AfterSave(cache, ToSave(d, fetch), plan)
  {
    var files := ToSave(d, fetch);
    forall other | other in files
      ensures other != Tmp(name)
    {
      PieceNamesAreNotTemporary(d, fetch, other, name);
    }
    assert plan.order[..|plan.order|] == plan.order;
    assert |Tmp(name)| == |name| + 4;
    NoTemporaryLeft(cache, files, plan.order, name);
  }

  lemma PieceNamesAreNotTemporary(d: Download, fetch: string -> Fetched, name: string, other: string)
    requires name in {VMLINUZ, BUSYBOX, BUSYBOX_MANIFEST, IPTABLES, PIECES_JSON} && other in ToSave(d, fetch)
    ensures Tmp(other) != name && Tmp(name) != name
  {
    var t := Tmp(other);
    assert t[|t| - 1] == 'p' && t[|t| - 4] == '.';
    assert |Tmp(name)| == |name| + 4;
  }

  /** A cached optional file survives into the next load only if it matches. */
  ghost predicate NothingStale(env: Env, cache: Files, d: Download, fetch: string -> Fetched, hashes: Hashes) {
    && (IPTABLES !in ToSave(d, fetch) ==> AbsentOrChecked(env, cache, hashes, IPTABLES))
    && (IptablesBytes(fetch).Some? && ReadPiece(fetch, IPTABLES).None? ==> CheckHash(env, hashes, IPTABLES, IptablesBytes(fetch).value))
    && (d.provData.None? ==> AbsentOrChecked(env, cache, hashes, PIECES_JSON))
  }

  /** After a verified download saved without interruption, the next resolve against the same manifest is served from the
      cache, exactly when no iptables or pieces.json is left over that the manifest does not vouch for. */
  lemma SavedIsServedNextTime(env: Env, cache: Files, fetch: string -> Fetched, hashes: Hashes, plan: SavePlan)
    requires Downloaded(env, fetch, Some(hashes)).Ok?
    requires Complete(plan, ToSave(Downloaded(env, fetch, Some(hashes)).value, fetch))
    ensures var d := Downloaded(env, fetch, Some(hashes)).value;
            var after := AfterSave(cache, ToSave(d, fetch), plan);
            Loaded(env, after, hashes).Some? <==> NothingStale(env, cache, d, fetch, hashes)
  {
    hide Manifest, Firmware, FirmwareChecked, CheckHash;
    var d := Downloaded(env, fetch, Some(hashes)).value;
    SavedFiles(env, cache, fetch, hashes, plan);
    SavedContents(env, fetch, hashes);
    CheckedIsListed(env, hashes);
    hide AfterSave;
    DownloadIsListed(env, fetch, hashes);
  }

  /** Two resolves of the same source: after an uninterrupted save, and with nothing stale left over, the second one is a
      hit, changes nothing, and has the same kernel, busybox and applets as the download; the same iptables exactly when
      the source serves one or neither the cache nor a broken-off download has one; and the same provenance exactly when
      the source serves one or no cached pieces.json decodes. */
  lemma SecondResolveAgrees(env: Env, cache: Files, first: Step, second: Step, hashes: Hashes)
    requires first.opts.scheme != LocalDir && first.opts.caching && second.fetch == first.fetch && second.opts == first.opts
    requires Listing(env, first.fetch, first.opts) == Ok(Some(hashes)) && Downloaded(env, first.fetch, Some(hashes)).Ok?
    requires Loaded(env, cache, hashes).None?
    requires Complete(first.plan, ToSave(Downloaded(env, first.fetch, Some(hashes)).value, first.fetch))
    requires NothingStale(env, cache, Downloaded(env, first.fetch, Some(hashes)).value, first.fetch, hashes)
    ensures var (r1, after) := Resolved(env, cache, first);
            var (r2, last) := Resolved(env, after, second);
            && r1.Served? && !r1.hit && r2.Served? && r2.hit && last == after
            && r2.pieces.vmlinuz == r1.pieces.vmlinuz && r2.pieces.busybox == r1.pieces.busybox
            && r2.pieces.manifest == r1.pieces.manifest && r2.pieces.applets == r1.pieces.applets
            && (r2.pieces.iptables == r1.pieces.iptables
                <==> first.fetch("iptables").Data? || ("iptables" !in cache && first.fetch("iptables") in {NotFound, Failed(None)}))
            && (r2.pieces.provenance == r1.pieces.provenance
                <==> first.fetch("pieces.json").Data? || "pieces.json" !in cache || env.parseJson(cache["pieces.json"]).None?)
  {
    hide Manifest, CheckHash, Listing, Downloaded, AfterSave, Loaded, NothingStale, ToSave, Renamed, IptablesBytes;
    var d := Downloaded(env, first.fetch, Some(hashes)).value;
    var after := AfterSave(cache, ToSave(d, first.fetch), first.plan);
    SavedIsServedNextTime(env, cache, first.fetch, hashes, first.plan);
    HitCarriesTheCache(env, after, hashes);
    DownloadCarries(env, first.fetch, Some(hashes));
    HitIsListed(env, after, hashes);
    SavedFiles(env, cache, first.fetch, hashes, first.plan);
    SavedContents(env, first.fetch, hashes);
  }

  /** What a complete save leaves under each name. */
  lemma SavedFiles(env: Env, cache: Files, fetch: string -> Fetched, hashes: Hashes, plan: SavePlan)
    requires Downloaded(env, fetch, Some(hashes)).Ok?
    requires Complete(plan, ToSave(Downloaded(env, fetch, Some(hashes)).value, fetch))
    ensures var files := ToSave(Downloaded(env, fetch, Some(hashes)).value, fetch);
            var after := AfterSave(cache, files, plan);
            forall name :: name in {"vmlinuz", "busybox", "busybox-manifest.tsv", "iptables", "pieces.json"} ==>
              && (name in files ==> name in after && after[name] == files[name])
              && (name !in files ==> (name in after <==> name in cache) && (name in cache ==> after[name] == cache[name]))
  {
    hide Downloaded, ToSave;
    var d := Downloaded(env, fetch, Some(hashes)).value;
    var files := ToSave(d, fetch);
    assert plan.order[..|plan.order|] == plan.order;
    assert AfterSave(cache, files, plan) == Renamed(cache, files, plan.order);
    hide AfterSave, Renamed;
    forall name | name in {VMLINUZ, BUSYBOX, BUSYBOX_MANIFEST, IPTABLES, PIECES_JSON}
      ensures name in files ==> name in Renamed(cache, files, plan.order) && Renamed(cache, files, plan.order)[name] == files[name]
      ensures name !in files ==> (name in Renamed(cache, files, plan.order) <==> name in cache)
                                 && (name in cache ==> Renamed(cache, files, plan.order)[name] == cache[name])
    {
      forall other | other in files
        ensures Tmp(other) != name
      {
        PieceNamesAreNotTemporary(d, fetch, name, other);
      }
      SavesTheKernel(d, fetch);
      PieceNamesAreNotTemporary(d, fetch, name, VMLINUZ);
      RenamedFile(cache, files, plan.order, name);
    }
  }

  lemma SavesTheKernel(d: Download, fetch: string -> Fetched)
    ensures VMLINUZ in ToSave(d, fetch)
  {
  }

  /** What a download puts in the cache. */
  lemma SavedContents(env: Env, fetch: string -> Fetched, hashes: Hashes)
    requires Downloaded(env, fetch, Some(hashes)).Ok?
    ensures var d := Downloaded(env, fetch, Some(hashes)).value;
            var files := ToSave(d, fetch);
            && "vmlinuz" in files && files["vmlinuz"] == d.pieces.vmlinuz && "busybox" in files && files["busybox"] == d.pieces.busybox
            && "busybox-manifest.tsv" in files && files["busybox-manifest.tsv"] == d.pieces.manifest
            && ("iptables" in files <==> fetch("iptables").Data? || fetch("iptables") !in {NotFound, Failed(None)})
            && (fetch("iptables").Data? ==> files["iptables"] == fetch("iptables").content)
            && ("pieces.json" in files <==> fetch("pieces.json").Data?)
            && (fetch("pieces.json").Data? ==> files["pieces.json"] == fetch("pieces.json").content)
  {
    hide Manifest, DownloadChecked, FirmwareOf;
  }

  /** Nothing a resolve does ever removes a cached iptables: once the source stops listing one, no resolve against that
      source is served from the cache again, however many times it downloads and saves everything. */
  lemma {:induction false} DroppedIptablesDefeatsTheCache(env: Env, cache: Files, steps: seq<Step>)
    requires IPTABLES in cache
    requires forall i :: 0 <= i < |steps| ==> NoIptables(env, steps[i])
    ensures IPTABLES in CacheAfter(env, cache, steps)
    ensures forall k :: 0 <= k < |steps| ==> var r := Resolved(env, CacheAfter(env, cache, steps[..k]), steps[k]).0; !(r.Served? && r.hit)
  {
    if steps != [] {
      var front, last := steps[..|steps| - 1], steps[|steps| - 1];
      DroppedIptablesDefeatsTheCache(env, cache, front);
      forall k | 0 <= k < |steps| - 1
        ensures var r := Resolved(env, CacheAfter(env, cache, steps[..k]), steps[k]).0; !(r.Served? && r.hit)
      {
        assert steps[..k] == front[..k] && steps[k] == front[k];
      }
      NoIptablesStep(env, CacheAfter(env, cache, front), last);
    }
  }

  /** The source publishes no iptables, and its manifest lists none. */
  ghost predicate NoIptables(env: Env, s: Step) {
    && s.fetch(IPTABLES) == NotFound
    && (Listing(env, s.fetch, s.opts).Ok? && Listing(env, s.fetch, s.opts).value.Some? ==> IPTABLES !in Listing(env, s.fetch, s.opts).value.value)
  }

  lemma NoIptablesStep(env: Env, cache: Files, s: Step)
    requires IPTABLES in cache && NoIptables(env, s)
    ensures IPTABLES in Resolved(env, cache, s).1
    ensures !(Resolved(env, cache, s).0.Served? && Resolved(env, cache, s).0.hit)
  {
    hide Manifest, HashesOf, HashLines, Downloaded;
    var hashes := Listing(env, s.fetch, s.opts);
    if hashes.Ok? && Downloaded(env, s.fetch, hashes.value).Ok? {
      var d := Downloaded(env, s.fetch, hashes.value).value;
      var files := ToSave(d, s.fetch);
      assert IPTABLES !in files;
      forall other | other in files
        ensures Tmp(other) != IPTABLES
      {
        PieceNamesAreNotTemporary(d, s.fetch, IPTABLES, other);
      }
      PieceNamesAreNotTemporary(d, s.fetch, IPTABLES, VMLINUZ);
      RenamedFile(cache, files, s.plan.order[..Min(s.plan.renames, |s.plan.order|)], IPTABLES);
    }
  }

  /** An interrupted save leaves every piece either as it was or as downloaded, whole. */
  lemma InterruptedSaveIsPerFile(cache: Files, d: Download, fetch: string -> Fetched, plan: SavePlan, name: string)
    requires name in {VMLINUZ, BUSYBOX, BUSYBOX_MANIFEST, IPTABLES, PIECES_JSON}
    ensures var files := ToSave(d, fetch);
            var after := AfterSave(cache, files, plan);
            name in after ==> (name in cache && after[name] == cache[name]) || (name in files && after[name] == files[name])
  {
    var files := ToSave(d, fetch);
    forall other | other in files
      ensures Tmp(other) != name
    {
      PieceNamesAreNotTemporary(d, fetch, name, other);
    }
    PieceNamesAreNotTemporary(d, fetch, name, VMLINUZ);
    RenamedFile(cache, files, plan.order[..Min(plan.renames, |plan.order|)], name);
  }

  /** A read of iptables that breaks off in the middle leaves the set without iptables and still puts what arrived in the
      cache: exactly then do the two disagree. */
  lemma PartialIptablesIsCached(env: Env, fetch: string -> Fetched, hashes: Option<Hashes>)
    requires Downloaded(env, fetch, hashes).Ok?
    ensures var d := Downloaded(env, fetch, hashes).value;
            && (IPTABLES in ToSave(d, fetch) && d.pieces.iptables == None <==> fetch(IPTABLES).Failed? && fetch(IPTABLES).partial.Some?)
            && (IPTABLES in ToSave(d, fetch) && d.pieces.iptables.Some? ==> d.pieces.iptables == Some(ToSave(d, fetch)[IPTABLES]))
            && (d.pieces.iptables.Some? ==> IPTABLES in ToSave(d, fetch))
  {
    hide Manifest, DownloadChecked, FirmwareOf, ProvenanceOf;
  }

  /** At this step the source published a manifest that lists the content under the name, or the content is what arrived
      of an iptables whose download broke off. */
  ghost predicate PublishedAt(env: Env, s: Step, name: string, content: Content) {
    && Listing(env, s.fetch, s.opts).Ok? && Listing(env, s.fetch, s.opts).value.Some?
    && (|| Lists(env, Listing(env, s.fetch, s.opts).value.value, name, content)
        || (name == IPTABLES && s.fetch(IPTABLES) == Failed(Some(content))))
  }

  /** Over any run from an empty cache directory, with republished sources and saves cut anywhere: every cached piece was
      listed by the manifest of some step of the run, except for iptables that broke off. */
  lemma {:induction false} CachedWasPublished(env: Env, steps: seq<Step>, name: string)
    requires name in {VMLINUZ, BUSYBOX, BUSYBOX_MANIFEST, IPTABLES, PIECES_JSON}
    requires name in CacheAfter(env, map[], steps)
    ensures exists k :: 0 <= k < |steps| && PublishedAt(env, steps[k], name, CacheAfter(env, map[], steps)[name])
  {
    hide Resolved, PublishedAt;
    var n := |steps| - 1;
    var before := CacheAfter(env, map[], steps[..n]);
    var content := CacheAfter(env, map[], steps)[name];
    NewlyCached(env, before, steps[n], name);
    if name in before && before[name] == content {
      CachedWasPublished(env, steps[..n], name);
      var k :| 0 <= k < n && PublishedAt(env, steps[..n][k], name, content);
      assert PublishedAt(env, steps[k], name, content);
    }
  }

  lemma NewlyCached(env: Env, cache: Files, s: Step, name: string)
    requires name in {VMLINUZ, BUSYBOX, BUSYBOX_MANIFEST, IPTABLES, PIECES_JSON} && name in Resolved(env, cache, s).1
    ensures var content := Resolved(env, cache, s).1[name];
            (name in cache && cache[name] == content) || PublishedAt(env, s, name, content)
  {
    hide Listing, Downloaded, AfterSave, ToSave, CheckHash, Loaded;
    if Listing(env, s.fetch, s.opts).Ok? {
      var hashes := Listing(env, s.fetch, s.opts).value;
      if Downloaded(env, s.fetch, hashes).Ok? && hashes.Some? {
        var d := Downloaded(env, s.fetch, hashes).value;
        InterruptedSaveIsPerFile(cache, d, s.fetch, s.plan, name);
        if name in ToSave(d, s.fetch) {
          SavedIsPublished(env, s.fetch, hashes.value, name);
        }
      }
    }
  }

  lemma SavedIsPublished(env: Env, fetch: string -> Fetched, hashes: Hashes, name: string)
    requires Downloaded(env, fetch, Some(hashes)).Ok?
    requires name in ToSave(Downloaded(env, fetch, Some(hashes)).value, fetch)
    ensures var content := ToSave(Downloaded(env, fetch, Some(hashes)).value, fetch)[name];
            Lists(env, hashes, name, content) || (name == IPTABLES && fetch(IPTABLES) == Failed(Some(content)))
  {
    CheckedIsListed(env, hashes);
    hide Manifest, CheckHash, FirmwareOf, ProvenanceOf, FirmwareChecked;
  }
}
