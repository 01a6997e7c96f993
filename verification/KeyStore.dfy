/** The Secure Boot signing identity (`LoadOrGenerate`): generated once, never regenerated, over calls that may fail or
    be killed at any file-system step. */
module KeyStore {
  import opened Bytes

  type Content = seq<byte>

  datatype Keypair = Keypair(keyPem: Content, certPem: Content)

  const KEY_PEM_NAME := "secureboot-key.pem"
  const CERT_PEM_NAME := "secureboot-cert.pem"
  const KEY_PERM := 0x180  // 0o600
  const CERT_PERM := 0x1A4  // 0o644

  datatype File = File(content: Content, perm: nat)

  type Files = map<string, File>

  /** What becomes of one system call: it works, it returns an error, or the process is killed in front of its effect. */
  datatype Fate = Works | Fails | Kills

  datatype Exit = Completed | Failed | Died

  /** The fate of each step of one atomicWriteFile, the random suffix of its temporary file, how much of the data a
      failing or interrupted write got out, and whether the clean-up of an error path worked. */
  datatype WritePlan = WritePlan(
    suffix: string, create: Fate, write: Fate, written: nat, sync: Fate, close: Fate, chmod: Fate, rename: Fate, cleaned: bool)

  function TmpName(path: string, suffix: string): string { path + ".tmp-" + suffix }

  /** The deferred os.Remove of an error path. */
  function Cleanup(files: Files, tmp: string, w: WritePlan): Files {
    if w.cleaned then files - {tmp} else files
  }

  /** `atomicWriteFile`; CreateTemp never hands out a name in use. */
  function AtomicWrite(files: Files, path: string, data: Content, perm: nat, w: WritePlan): (Exit, Files) {
    var tmp := TmpName(path, w.suffix);
    if w.create == Kills then (Died, files)
    else if w.create == Fails || tmp in files then (Failed, files) else
    var partial := files[tmp := File(data[..Min(w.written, |data|)], KEY_PERM)];
    if w.write == Kills then (Died, partial)
    else if w.write == Fails then (Failed, Cleanup(partial, tmp, w)) else
    var full := files[tmp := File(data, KEY_PERM)];
    if w.sync == Kills || (w.sync == Works && w.close == Kills) then (Died, full)
    else if w.sync == Fails || w.close == Fails then (Failed, Cleanup(full, tmp, w))
    else if w.chmod == Kills then (Died, full)
    else if w.chmod == Fails then (Failed, Cleanup(full, tmp, w)) else
    var ready := files[tmp := File(data, perm)];
    if w.rename == Kills then (Died, ready)
    else if w.rename == Fails then (Failed, Cleanup(ready, tmp, w))
    else (Completed, (ready - {tmp})[path := File(data, perm)])
  }

  /** One call: its stat and read errors, the pair Generate would make (None when it fails), and its write plans. */
  datatype Call = Call(
    keyStatFails: bool, certStatFails: bool, keyReadFails: bool, certReadFails: bool,
    generate: Option<Keypair>, mkdir: Fate, keyWrite: WritePlan, certWrite: WritePlan, last: Fate)

  datatype Result = Got(kp: Keypair, generated: bool) | Error | Killed

  datatype Loaded = Pair(kp: Keypair) | NoDefault | Unreadable

  /** `LoadDefault`: a missing half is an error, not an invitation to generate. */
  function LoadDefault(files: Files, c: Call): Loaded {
    if KEY_PEM_NAME !in files && !c.keyStatFails && CERT_PEM_NAME !in files && !c.certStatFails then NoDefault
    else if KEY_PEM_NAME !in files || c.keyReadFails then Unreadable
    else if CERT_PEM_NAME !in files || c.certReadFails then Unreadable
    else Pair(Keypair(files[KEY_PEM_NAME].content, files[CERT_PEM_NAME].content))
  }

  function Save(files: Files, kp: Keypair, c: Call): (Exit, Files) {
    if c.mkdir == Kills then (Died, files)
    else if c.mkdir == Fails then (Failed, files) else
    var (exit, files1) := AtomicWrite(files, KEY_PEM_NAME, kp.keyPem, KEY_PERM, c.keyWrite);
    if exit != Completed then (exit, files1)
    else AtomicWrite(files1, CERT_PEM_NAME, kp.certPem, CERT_PERM, c.certWrite)
  }

  function LoadOrGenerate(files: Files, c: Call): (Result, Files) {
    match LoadDefault(files, c)
    case Pair(kp) => (Got(kp, false), files)
    case Unreadable => (Error, files)
    case NoDefault =>
      if c.generate.None? then (Error, files) else
      var (exit, files1) := Save(files, c.generate.value, c);
      match exit
      case Failed => (Error, files1)
      case Died => (Killed, files1)
      case Completed => (if c.last == Kills then Killed else Got(c.generate.value, true), files1)
  }

  // ----- the same, one system call at a time

  class KeyDir {
    var files: Files

    constructor ()
      ensures files == map[]
    {
      files := map[];
    }

    method AtomicWriteFile(path: string, data: Content, perm: nat, w: WritePlan) returns (exit: Exit)
      modifies this
      ensures (exit, files) == AtomicWrite(old(files), path, data, perm, w)
    {
      var tmp := TmpName(path, w.suffix);
      if w.create == Kills {
        return Died;
      }
      if w.create == Fails || tmp in files {
        return Failed;
      }
      files := files[tmp := File([], KEY_PERM)];
      if w.write != Works {
        files := files[tmp := File(data[..Min(w.written, |data|)], KEY_PERM)];
        assert files == old(files)[tmp := File(data[..Min(w.written, |data|)], KEY_PERM)];
        exit := Stop(w.write, tmp, w);
        return;
      }
      files := files[tmp := File(data, KEY_PERM)];
      assert files == old(files)[tmp := File(data, KEY_PERM)];
      if w.sync != Works {
        exit := Stop(w.sync, tmp, w);
        return;
      }
      if w.close != Works {
        exit := Stop(w.close, tmp, w);
        return;
      }
      if w.chmod != Works {
        exit := Stop(w.chmod, tmp, w);
        return;
      }
      files := files[tmp := File(data, perm)];
      assert files == old(files)[tmp := File(data, perm)];
      if w.rename != Works {
        exit := Stop(w.rename, tmp, w);
        return;
      }
      files := (files - {tmp})[path := File(data, perm)];
      return Completed;
    }

    /** A step that did not work: the error path cleans up, a killed process does nothing more. */
    method Stop(fate: Fate, tmp: string, w: WritePlan) returns (exit: Exit)
      requires fate != Works
      modifies this
      ensures exit == if fate == Kills then Died else Failed
      ensures files == if fate == Kills then old(files) else Cleanup(old(files), tmp, w)
    {
      if fate == Kills {
        return Died;
      }
      if w.cleaned {
        files := files - {tmp};
      }
      return Failed;
    }

    method SaveKeypair(kp: Keypair, c: Call) returns (exit: Exit)
      modifies this
      ensures (exit, files) == Save(old(files), kp, c)
    {
      if c.mkdir == Kills {
        return Died;
      }
      if c.mkdir == Fails {
        return Failed;
      }
      exit := AtomicWriteFile(KEY_PEM_NAME, kp.keyPem, KEY_PERM, c.keyWrite);
      if exit != Completed {
        return;
      }
      exit := AtomicWriteFile(CERT_PEM_NAME, kp.certPem, CERT_PERM, c.certWrite);
    }

    method LoadOrGenerateKeypair(c: Call) returns (r: Result)
      modifies this
      ensures (r, files) == LoadOrGenerate(old(files), c)
    {
      var loaded := LoadDefault(files, c);
      if loaded.Pair? {
        return Got(loaded.kp, false);
      }
      if loaded != NoDefault {
        return Error;
      }
      if c.generate.None? {
        return Error;
      }
      var exit := SaveKeypair(c.generate.value, c);
      if exit == Failed {
        return Error;
      } else if exit == Died || c.last == Kills {
        return Killed;
      }
      return Got(c.generate.value, true);
    }
  }

  // ----- one write

  lemma NamesDiffer(path: string, suffix: string)
    requires path == KEY_PEM_NAME || path == CERT_PEM_NAME
    ensures TmpName(path, suffix) != KEY_PEM_NAME && TmpName(path, suffix) != CERT_PEM_NAME && KEY_PEM_NAME != CERT_PEM_NAME
  {
    assert |TmpName(path, suffix)| >= |path| + 5;
    assert |KEY_PEM_NAME| == 18 && |CERT_PEM_NAME| == 19;
  }

  /** The named file changes only when the write completes, and then to all of the data; the other one never does. */
  lemma WriteIsAtomic(files: Files, path: string, other: string, data: Content, perm: nat, w: WritePlan)
    requires (path == KEY_PEM_NAME && other == CERT_PEM_NAME) || (path == CERT_PEM_NAME && other == KEY_PEM_NAME)
    ensures var (exit, after) := AtomicWrite(files, path, data, perm, w);
            && (exit == Completed ==> path in after && after[path] == File(data, perm))
            && (exit != Completed ==> (path in after <==> path in files) && (path in files ==> after[path] == files[path]))
            && (other in after <==> other in files) && (other in files ==> after[other] == files[other])
  {
    NamesDiffer(path, w.suffix);
  }

  // ----- one call

  /** The directory holds nothing, the key of one pair, or that whole pair, with the permissions it was saved with. */
  predicate Holds(files: Files, kp: Keypair) {
    && (KEY_PEM_NAME in files ==> files[KEY_PEM_NAME] == File(kp.keyPem, KEY_PERM))
    && (CERT_PEM_NAME in files ==> KEY_PEM_NAME in files && files[CERT_PEM_NAME] == File(kp.certPem, CERT_PERM))
  }

  predicate Kept(before: Files, after: Files, name: string) {
    name in before ==> name in after && after[name] == before[name]
  }

  /** Whatever goes wrong in a call: files present stay as they are, and what appears belongs to the pair it generated. */
  lemma CallKeepsFiles(files: Files, c: Call)
    ensures var after := LoadOrGenerate(files, c).1;
            && Kept(files, after, KEY_PEM_NAME) && Kept(files, after, CERT_PEM_NAME)
            && ((KEY_PEM_NAME in files || CERT_PEM_NAME in files) ==> after == files)
            && (KEY_PEM_NAME !in files && CERT_PEM_NAME !in files && KEY_PEM_NAME in after ==> c.generate.Some? && Holds(after, c.generate.value))
            && (KEY_PEM_NAME !in after && CERT_PEM_NAME !in files ==> CERT_PEM_NAME !in after)
  {
    hide AtomicWrite;
    if LoadDefault(files, c) == NoDefault && c.generate.Some? {
      SavedFiles(files, c.generate.value, c);
    }
  }

  lemma SavedFiles(files: Files, kp: Keypair, c: Call)
    requires KEY_PEM_NAME !in files && CERT_PEM_NAME !in files
    ensures var (exit, after) := Save(files, kp, c);
            Holds(after, kp) && (exit == Completed ==> KEY_PEM_NAME in after && CERT_PEM_NAME in after)
  {
    hide AtomicWrite;
    var (exit, files1) := AtomicWrite(files, KEY_PEM_NAME, kp.keyPem, KEY_PERM, c.keyWrite);
    WriteIsAtomic(files, KEY_PEM_NAME, CERT_PEM_NAME, kp.keyPem, KEY_PERM, c.keyWrite);
    WriteIsAtomic(files1, CERT_PEM_NAME, KEY_PEM_NAME, kp.certPem, CERT_PERM, c.certWrite);
  }

  /** A successful call returns exactly what the directory holds afterwards. */
  lemma GotIsStored(files: Files, c: Call)
    requires LoadOrGenerate(files, c).0.Got?
    ensures var (r, after) := LoadOrGenerate(files, c);
            && KEY_PEM_NAME in after && CERT_PEM_NAME in after
            && r.kp == Keypair(after[KEY_PEM_NAME].content, after[CERT_PEM_NAME].content)
            && (r.generated <==> KEY_PEM_NAME !in files && CERT_PEM_NAME !in files)
  {
    hide Save;
    if LoadDefault(files, c) == NoDefault {
      SavedFiles(files, c.generate.value, c);
    }
  }

  predicate WriteWorks(files: Files, path: string, w: WritePlan) {
    && w.create == w.write == w.sync == w.close == w.chmod == w.rename == Works
    && TmpName(path, w.suffix) !in files
  }

  /** No system call of this call fails, it is not killed, a key pair can be generated, and the temporary names are
      fresh. */
  predicate Faultless(files: Files, c: Call) {
    && !c.keyStatFails && !c.certStatFails && !c.keyReadFails && !c.certReadFails
    && c.generate.Some? && c.mkdir == c.last == Works
    && WriteWorks(files, KEY_PEM_NAME, c.keyWrite) && WriteWorks(files, CERT_PEM_NAME, c.certWrite)
  }

  predicate Whole(files: Files) { KEY_PEM_NAME in files <==> CERT_PEM_NAME in files }

  /** A faultless call succeeds if and only if the directory holds both files or neither. */
  lemma FaultlessSucceedsIff(files: Files, c: Call)
    requires Faultless(files, c)
    ensures LoadOrGenerate(files, c).0.Got? <==> Whole(files)
    ensures Whole(files) ==> Whole(LoadOrGenerate(files, c).1)
  {
    NamesDiffer(KEY_PEM_NAME, c.keyWrite.suffix);
    NamesDiffer(CERT_PEM_NAME, c.certWrite.suffix);
  }

  /** The call writes the key, then stops or fails before the certificate is in place. */
  predicate CutBetween(files: Files, c: Call) {
    && LoadDefault(files, c) == NoDefault && c.generate.Some? && c.mkdir == Works
    && var (exit, files1) := AtomicWrite(files, KEY_PEM_NAME, c.generate.value.keyPem, KEY_PERM, c.keyWrite);
       && exit == Completed
       && AtomicWrite(files1, CERT_PEM_NAME, c.generate.value.certPem, CERT_PERM, c.certWrite).0 != Completed
  }

  /** The only way for a whole directory to become half: one call cut between the two renames. */
  lemma HalvedIff(files: Files, c: Call)
    requires Whole(files)
    ensures !Whole(LoadOrGenerate(files, c).1) <==> CutBetween(files, c)
  {
    hide AtomicWrite;
    if LoadDefault(files, c) == NoDefault && c.generate.Some? && c.mkdir == Works {
      var kp := c.generate.value;
      var (exit, files1) := AtomicWrite(files, KEY_PEM_NAME, kp.keyPem, KEY_PERM, c.keyWrite);
      WriteIsAtomic(files, KEY_PEM_NAME, CERT_PEM_NAME, kp.keyPem, KEY_PERM, c.keyWrite);
      WriteIsAtomic(files1, CERT_PEM_NAME, KEY_PEM_NAME, kp.certPem, CERT_PERM, c.certWrite);
    }
  }

  // ----- runs

  ghost function FilesAfter(files: Files, calls: seq<Call>): Files {
    if calls == [] then files else LoadOrGenerate(FilesAfter(files, calls[..|calls| - 1]), calls[|calls| - 1]).1
  }

  ghost function ResultOf(files: Files, calls: seq<Call>, k: nat): Result
    requires k < |calls|
  {
    LoadOrGenerate(FilesAfter(files, calls[..k]), calls[k]).0
  }

  lemma OneMore(files: Files, calls: seq<Call>, k: nat)
    requires k < |calls|
    ensures FilesAfter(files, calls[..k + 1]) == LoadOrGenerate(FilesAfter(files, calls[..k]), calls[k]).1
  {
    assert calls[..k + 1][..k] == calls[..k];
  }

  /** A key or certificate file once present never changes, whatever was there to begin with. */
  lemma {:induction false} PresentFilesNeverChange(files: Files, calls: seq<Call>, i: nat, j: nat, name: string)
    requires i <= j <= |calls| && (name == KEY_PEM_NAME || name == CERT_PEM_NAME)
    ensures Kept(FilesAfter(files, calls[..i]), FilesAfter(files, calls[..j]), name)
    decreases j
  {
    hide LoadOrGenerate;
    if i < j {
      PresentFilesNeverChange(files, calls, i, j - 1, name);
      OneMore(files, calls, j - 1);
      CallKeepsFiles(FilesAfter(files, calls[..j - 1]), calls[j - 1]);
    }
  }

  /** In a directory that started without them, both files always come from one and the same Generate call. */
  lemma {:induction false} FilesComeFromOnePair(files: Files, calls: seq<Call>)
    requires KEY_PEM_NAME !in files && CERT_PEM_NAME !in files
    ensures var after := FilesAfter(files, calls);
            && (KEY_PEM_NAME in after ==> exists i :: 0 <= i < |calls| && calls[i].generate.Some? && Holds(after, calls[i].generate.value))
            && (CERT_PEM_NAME in after ==> KEY_PEM_NAME in after)
  {
    hide LoadOrGenerate;
    if calls != [] {
      var front, last := calls[..|calls| - 1], calls[|calls| - 1];
      FilesComeFromOnePair(files, front);
      var before := FilesAfter(files, front);
      CallKeepsFiles(before, last);
      if KEY_PEM_NAME in before {
        var i :| 0 <= i < |front| && front[i].generate.Some? && Holds(before, front[i].generate.value);
        assert calls[i] == front[i];
      } else if KEY_PEM_NAME in FilesAfter(files, calls) {
        assert Holds(FilesAfter(files, calls), calls[|calls| - 1].generate.value);
      }
    }
  }

  /** Every successful return of a run is the same pair, and at most one of them says it was generated. */
  lemma SuccessesAgree(files: Files, calls: seq<Call>, i: nat, j: nat)
    requires i < j < |calls| && ResultOf(files, calls, i).Got? && ResultOf(files, calls, j).Got?
    ensures ResultOf(files, calls, i).kp == ResultOf(files, calls, j).kp
    ensures !ResultOf(files, calls, j).generated
  {
    hide LoadOrGenerate;
    var fi, fj := FilesAfter(files, calls[..i]), FilesAfter(files, calls[..j]);
    GotIsStored(fi, calls[i]);
    GotIsStored(fj, calls[j]);
    OneMore(files, calls, i);
    OneMore(files, calls, j);
    PresentFilesNeverChange(files, calls, i + 1, j, KEY_PEM_NAME);
    PresentFilesNeverChange(files, calls, i + 1, j + 1, KEY_PEM_NAME);
    PresentFilesNeverChange(files, calls, i + 1, j + 1, CERT_PEM_NAME);
  }

  /** A call killed between the two renames leaves a key without a certificate, and no later call ever succeeds:
      the key is never overwritten, and never used. */
  lemma {:induction false} HalfAPairIsNeverRepaired(files: Files, calls: seq<Call>)
    requires (KEY_PEM_NAME in files) != (CERT_PEM_NAME in files)
    ensures FilesAfter(files, calls) == files
    ensures forall k :: 0 <= k < |calls| ==> ResultOf(files, calls, k) == Error
  {
    if calls != [] {
      var front := calls[..|calls| - 1];
      HalfAPairIsNeverRepaired(files, front);
      forall k | 0 <= k < |calls|
        ensures ResultOf(files, calls, k) == Error
      {
        if k < |calls| - 1 {
          assert calls[..k] == front[..k] && ResultOf(files, front, k) == Error;
        }
      }
    }
  }

  /** The i-th call of a run is cut between its two renames. */
  ghost predicate CutAt(files: Files, calls: seq<Call>, i: nat)
    requires i < |calls|
  {
    CutBetween(FilesAfter(files, calls[..i]), calls[i])
  }

  /** Over any run of failing and killed calls that begins with both files or neither, a faultless call succeeds if and
      only if no earlier call was cut between the two renames. */
  lemma FaultlessSucceedsUnlessCut(files: Files, calls: seq<Call>, k: nat)
    requires Whole(files) && k < |calls| && Faultless(FilesAfter(files, calls[..k]), calls[k])
    ensures ResultOf(files, calls, k).Got? <==> !exists i :: 0 <= i < k && CutAt(files, calls, i)
  {
    hide LoadOrGenerate, Faultless, CutAt;
    FaultlessSucceedsIff(FilesAfter(files, calls[..k]), calls[k]);
    HalvedSomewhere(files, calls, k);
  }

  lemma {:induction false} HalvedSomewhere(files: Files, calls: seq<Call>, k: nat)
    requires Whole(files) && k <= |calls|
    ensures !Whole(FilesAfter(files, calls[..k])) <==> exists i :: 0 <= i < k && CutAt(files, calls, i)
  {
    hide LoadOrGenerate, CutBetween;
    if k > 0 {
      HalvedSomewhere(files, calls, k - 1);
      var before := FilesAfter(files, calls[..k - 1]);
      OneMore(files, calls, k - 1);
      assert CutAt(files, calls, k - 1) == CutBetween(before, calls[k - 1]);
      hide FilesAfter, CutAt;
      if Whole(before) {
        HalvedIff(before, calls[k - 1]);
      } else {
        CallKeepsFiles(before, calls[k - 1]);
      }
    }
  }

  /** Over a run of faultless calls every one succeeds, or, from a half pair, none does. */
  lemma {:induction false} FaultlessRun(files: Files, calls: seq<Call>, k: nat)
    requires k < |calls| && forall i :: 0 <= i <= k ==> Faultless(FilesAfter(files, calls[..i]), calls[i])
    ensures ResultOf(files, calls, k).Got? <==> Whole(files)
  {
    hide LoadOrGenerate, Faultless;
    FaultlessSucceedsIff(FilesAfter(files, calls[..k]), calls[k]);
    FaultlessKeepsWhole(files, calls, k);
  }

  lemma {:induction false} FaultlessKeepsWhole(files: Files, calls: seq<Call>, k: nat)
    requires k <= |calls| && forall i :: 0 <= i < k ==> Faultless(FilesAfter(files, calls[..i]), calls[i])
    ensures Whole(FilesAfter(files, calls[..k])) <==> Whole(files)
  {
    hide LoadOrGenerate, Faultless;
    if k > 0 {
      FaultlessKeepsWhole(files, calls, k - 1);
      var before := FilesAfter(files, calls[..k - 1]);
      OneMore(files, calls, k - 1);
      FaultlessSucceedsIff(before, calls[k - 1]);
      CallKeepsFiles(before, calls[k - 1]);
    }
  }

  /** A stat that fails for another reason than absence is no sign that nothing is there: nothing is generated or
      written. */
  lemma StatErrorsNeverGenerate(files: Files, c: Call)
    requires c.keyStatFails || c.certStatFails
    ensures LoadOrGenerate(files, c).1 == files
    ensures LoadOrGenerate(files, c).0.Got? ==> !LoadOrGenerate(files, c).0.generated
  {
    hide Save;
  }

  /** The half pair is reachable: an empty directory and one call killed right after the key's rename. */
  lemma HalfAPairIsReachable(kp: Keypair)
    ensures exists calls :: KEY_PEM_NAME in FilesAfter(map[], calls) && CERT_PEM_NAME !in FilesAfter(map[], calls)
  {
    var ok := WritePlan("1", Works, Works, 0, Works, Works, Works, Works, true);
    var c := Call(false, false, false, false, Some(kp), Works, ok, ok.(create := Kills), Works);
    NamesDiffer(KEY_PEM_NAME, "1");
    WriteIsAtomic(map[], KEY_PEM_NAME, CERT_PEM_NAME, kp.keyPem, KEY_PERM, ok);
    assert [c][..0] == [];
    assert FilesAfter(map[], [c]) == LoadOrGenerate(map[], c).1;
    assert KEY_PEM_NAME in FilesAfter(map[], [c]) && CERT_PEM_NAME !in FilesAfter(map[], [c]);
  }

  /** The private key on disk is readable and writable by its owner and nobody else, in every state of every run. */
  lemma KeyIsNeverReadableByOthers(files: Files, calls: seq<Call>)
    requires KEY_PEM_NAME !in files && CERT_PEM_NAME !in files
    ensures var after := FilesAfter(files, calls);
            "secureboot-key.pem" in after ==> after["secureboot-key.pem"].perm % 0x40 == 0 && after["secureboot-key.pem"].perm == 0x180
  {
    FilesComeFromOnePair(files, calls);
  }

  /** One more file, private or already whole. */
  ghost predicate OneTemporary(files: Files, after: Files, tmp: string, whole: File) {
    tmp !in files && tmp in after && after == files[tmp := after[tmp]] && (after[tmp].perm % 0x40 == 0 || after[tmp] == whole)
  }

  /** A write that completes changes exactly its own file; one that fails and cleans up changes nothing; and whatever a
      dead process leaves is one temporary file, which only its owner can read until all of the data is in it. */
  lemma WriteLeavesNothing(files: Files, path: string, data: Content, perm: nat, w: WritePlan)
    requires TmpName(path, w.suffix) != path
    ensures var (exit, after) := AtomicWrite(files, path, data, perm, w);
            && (exit == Completed ==> after == files[path := File(data, perm)])
            && (exit == Failed && w.cleaned ==> after == files)
            && (exit == Died ==> after == files || OneTemporary(files, after, TmpName(path, w.suffix), File(data, perm)))
  {
    var tmp := TmpName(path, w.suffix);
    var (exit, after) := AtomicWrite(files, path, data, perm, w);
    if exit == Died && after != files {
      assert after == files[tmp := after[tmp]];
    }
  }

  /** A faultless call in an empty directory leaves exactly the generated pair, under the names and permissions a later
      build and other users rely on: the key for its owner, the certificate for everyone to read. */
  lemma GeneratedPair(c: Call)
    requires Faultless(map[], c)
    ensures var kp := c.generate.value;
            LoadOrGenerate(map[], c)
            == (Got(kp, true), map["secureboot-key.pem" := File(kp.keyPem, 0x180), "secureboot-cert.pem" := File(kp.certPem, 0x1A4)])
  {
    var kp := c.generate.value;
    NamesDiffer(KEY_PEM_NAME, c.keyWrite.suffix);
    NamesDiffer(CERT_PEM_NAME, c.certWrite.suffix);
    WriteLeavesNothing(map[], KEY_PEM_NAME, kp.keyPem, KEY_PERM, c.keyWrite);
    var files1 := map[KEY_PEM_NAME := File(kp.keyPem, KEY_PERM)];
    WriteLeavesNothing(files1, CERT_PEM_NAME, kp.certPem, CERT_PERM, c.certWrite);
    assert AtomicWrite(map[], KEY_PEM_NAME, kp.keyPem, KEY_PERM, c.keyWrite) == (Completed, files1);
  }

  /** Generate once: the next faultless call returns the same pair from the files. */
  lemma SecondCallLoads(c: Call, d: Call)
    requires Faultless(map[], c) && Faultless(LoadOrGenerate(map[], c).1, d)
    ensures LoadOrGenerate(LoadOrGenerate(map[], c).1, d) == (Got(c.generate.value, false), LoadOrGenerate(map[], c).1)
  {
    hide AtomicWrite, Save;
    GeneratedPair(c);
  }
}
