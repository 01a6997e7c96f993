/** The initramfs tree (`fileTree`): a list of entries without duplicate paths, in which directories come first. */
module FileTree {
  import opened Bytes
  import opened Strings

  type Path = seq<byte>

  const SLASH: byte := 0x2F
  const DOT: byte := 0x2E

  datatype Kind = Directory | File | Symlink

  datatype Entry = Entry(path: Path, kind: Kind, perm: nat, data: seq<byte>, linkTarget: seq<byte>)

  function DirEntry(path: Path): Entry { Entry(path, Directory, 0, [], []) }

  // ----- path/filepath on a POSIX host

  /** One piece pushed on the lexical stack of filepath.Clean. */
  function PushPiece(stack: seq<Path>, piece: Path, rooted: bool): seq<Path> {
    if piece == [] || piece == [DOT] then stack
    else if piece != [DOT, DOT] then stack + [piece]
    else if stack != [] && stack[|stack| - 1] != [DOT, DOT] then stack[..|stack| - 1]
    else if rooted then stack
    else stack + [piece]
  }

  function CleanStack(pieces: seq<Path>, rooted: bool): seq<Path> {
    if pieces == [] then [] else PushPiece(CleanStack(pieces[..|pieces| - 1], rooted), pieces[|pieces| - 1], rooted)
  }

  function Clean(p: Path): Path {
    if p == [] then [DOT]
    else
      var rooted := p[0] == SLASH;
      var body := Join(CleanStack(Split(p, SLASH), rooted), SLASH);
      if rooted then [SLASH] + body else if body == [] then [DOT] else body
  }

  /** One past the last slash of p, 0 without one. */
  function AfterLastSlash(p: Path): (i: nat)
    ensures i <= |p| && (i > 0 ==> p[i - 1] == SLASH)
    ensures forall k :: i <= k < |p| ==> p[k] != SLASH
  {
    if p == [] then 0 else if p[|p| - 1] == SLASH then |p| else AfterLastSlash(p[..|p| - 1])
  }

  function Dir(p: Path): Path { Clean(p[..AfterLastSlash(p)]) }

  // ----- cleanPath

  function CleanPath(p: Path): (r: Path)
    ensures |r| <= |p| && (r != [] ==> r[0] != SLASH)
  {
    if p != [] && p[0] == SLASH then CleanPath(p[1..])
    else if p == [DOT] then [] else p
  }

  method TrimToCleanPath(path: Path) returns (p: Path)
    ensures p == CleanPath(path)
  {
    p := path;
    while |p| > 0 && p[0] == SLASH
      invariant CleanPath(p) == CleanPath(path)
    {
      p := p[1..];
    }
    if p == [DOT] {
      return [];
    }
  }

  // ----- parents are shorter, whatever the path looks like

  function Weight(pieces: seq<Path>): nat {
    if pieces == [] then 0 else Weight(pieces[..|pieces| - 1]) + |pieces[|pieces| - 1]| + 1
  }

  lemma WeightPush(a: seq<Path>, piece: Path)
    ensures Weight(a + [piece]) == Weight(a) + |piece| + 1
  {
    assert (a + [piece])[..|a|] == a;
  }

  lemma {:induction false} SplitWeight(p: Path)
    ensures Weight(Split(p, SLASH)) == |p| + 1
  {
    if p == [] {
      assert Split(p, SLASH) == [] + [[]];
      WeightPush([], []);
    } else {
      var init := Split(p[..|p| - 1], SLASH);
      SplitWeight(p[..|p| - 1]);
      var c := p[|p| - 1];
      if c == SLASH {
        WeightPush(init, []);
      } else {
        var front, last := init[..|init| - 1], init[|init| - 1];
        assert init == front + [last];
        WeightPush(front, last);
        WeightPush(front, last + [c]);
      }
    }
  }

  lemma {:induction false} CleanStackWeight(pieces: seq<Path>, rooted: bool)
    ensures Weight(CleanStack(pieces, rooted)) <= Weight(pieces)
  {
    hide PushPiece, Weight;
    if pieces != [] {
      var init, piece := pieces[..|pieces| - 1], pieces[|pieces| - 1];
      CleanStackWeight(init, rooted);
      PushWeight(CleanStack(init, rooted), piece, rooted);
      WeightPush(init, piece);
      assert pieces == init + [piece];
    }
  }

  lemma PushWeight(stack: seq<Path>, piece: Path, rooted: bool)
    ensures Weight(PushPiece(stack, piece, rooted)) <= Weight(stack) + |piece| + 1
  {
    WeightPush(stack, piece);
    if stack != [] {
      WeightPush(stack[..|stack| - 1], stack[|stack| - 1]);
      assert stack == stack[..|stack| - 1] + [stack[|stack| - 1]];
    }
  }

  lemma {:induction false} JoinWeight(pieces: seq<Path>)
    ensures |Join(pieces, SLASH)| == if pieces == [] then 0 else Weight(pieces) - 1
  {
    if |pieces| == 1 {
      assert Weight(pieces[..0]) == 0;
    } else if |pieces| > 1 {
      JoinWeight(pieces[..|pieces| - 1]);
    }
  }

  /** The parent of a non-empty relative path is strictly shorter once cleaned, for every byte string:
      this is why `addDir` terminates. */
  lemma ParentIsShorter(p: Path)
    requires p != [] && p[0] != SLASH
    ensures |CleanPath(Dir(p))| < |p|
  {
    var i := AfterLastSlash(p);
    if i == 0 {
      assert p[..i] == [] && Dir(p) == [DOT] && CleanPath([DOT]) == [];
    } else {
      var prefix := p[..i];
      var init := Split(p[..i - 1], SLASH);
      assert prefix[..|prefix| - 1] == p[..i - 1];
      assert Split(prefix, SLASH) == init + [[]];
      assert (init + [[]])[..|init|] == init;
      assert CleanStack(Split(prefix, SLASH), false) == CleanStack(init, false);
      SplitWeight(p[..i - 1]);
      CleanStackWeight(init, false);
      JoinWeight(CleanStack(init, false));
      var body := Join(CleanStack(init, false), SLASH);
      assert |body| <= i - 1;
      assert Clean(prefix) == if body == [] then [DOT] else body;
      assert CleanPath([DOT]) == [];
    }
  }

  // ----- the operations on values

  ghost function Paths(es: seq<Entry>): set<Path> {
    set i | 0 <= i < |es| :: es[i].path
  }

  ghost function WithDir(es: seq<Entry>, path: Path): seq<Entry>
    decreases |CleanPath(path)|
  {
    var p := CleanPath(path);
    if p == [] || p in Paths(es) then es
    else
      ParentIsShorter(p);
      WithDir(es, Dir(p)) + [DirEntry(p)]
  }

  /** A file or symlink: its parent directories, then the entry itself unless the path is taken. */
  ghost function WithLeaf(es: seq<Entry>, e: Entry): seq<Entry> {
    var base := WithDir(es, Dir(e.path));
    if e.path in Paths(base) then base else base + [e]
  }

  datatype Op =
    | AddDir(path: Path)
    | AddFile(path: Path, perm: nat, data: seq<byte>)
    | AddSymlink(path: Path, target: seq<byte>)

  ghost function Apply(es: seq<Entry>, op: Op): seq<Entry> {
    match op
    case AddDir(path) => WithDir(es, path)
    case AddFile(path, perm, data) => WithLeaf(es, Entry(CleanPath(path), File, perm, data, []))
    case AddSymlink(path, target) => WithLeaf(es, Entry(CleanPath(path), Symlink, 0, [], target))
  }

  ghost function Run(ops: seq<Op>): seq<Entry> {
    if ops == [] then [] else Apply(Run(ops[..|ops| - 1]), ops[|ops| - 1])
  }

  // ----- filepath.Clean

  /** The stack of pieces in normal form: nothing empty or ".", and ".." only in front, and not in a rooted path. */
  ghost predicate NormalStack(stack: seq<Path>, rooted: bool) {
    && (forall i :: 0 <= i < |stack| ==> stack[i] != [] && stack[i] != [0x2E])
    && (forall i :: 0 <= i < |stack| && stack[i] == [0x2E, 0x2E] ==> !rooted && forall j :: 0 <= j < i ==> stack[j] == [0x2E, 0x2E])
  }

  lemma {:induction false} CleanIsNormal(pieces: seq<Path>, rooted: bool)
    ensures NormalStack(CleanStack(pieces, rooted), rooted)
  {
    if pieces != [] {
      CleanIsNormal(pieces[..|pieces| - 1], rooted);
    }
  }

  /** A stack in normal form is clean already. */
  lemma {:induction false} NormalIsClean(stack: seq<Path>, rooted: bool)
    requires NormalStack(stack, rooted)
    ensures CleanStack(stack, rooted) == stack
  {
    if stack != [] {
      var front, last := stack[..|stack| - 1], stack[|stack| - 1];
      assert stack == front + [last];
      NormalPush(front, last, rooted);
      hide PushPiece, NormalStack;
      NormalIsClean(front, rooted);
    }
  }

  lemma NormalPush(front: seq<Path>, last: Path, rooted: bool)
    requires NormalStack(front + [last], rooted)
    ensures NormalStack(front, rooted) && PushPiece(front, last, rooted) == front + [last]
  {
    var stack := front + [last];
    assert forall i :: 0 <= i < |front| ==> front[i] == stack[i];
    assert stack[|front|] == last;
  }

  /** A piece and ".." behind it cancel, whatever comes in front; "." and nothing leave the stack alone. */
  lemma PiecesCancel(front: seq<Path>, piece: Path, rooted: bool)
    requires piece != [] && piece != [0x2E] && piece != [0x2E, 0x2E]
    ensures CleanStack(front + [piece] + [[0x2E, 0x2E]], rooted) == CleanStack(front, rooted)
    ensures CleanStack(front + [[0x2E]], rooted) == CleanStack(front + [[]], rooted) == CleanStack(front, rooted)
    ensures CleanStack(front + [piece], rooted) == CleanStack(front, rooted) + [piece]
  {
    var one, two := front + [piece], front + [piece] + [[0x2E, 0x2E]];
    assert one[..|front|] == front && two[..|one|] == one;
    assert (front + [[0x2E]])[..|front|] == front && (front + [[]])[..|front|] == front;
    var stack := CleanStack(front, rooted);
    assert (stack + [piece])[..|stack|] == stack;
  }

  /** ".." with nothing to cancel stays in a relative path and vanishes at the root. */
  lemma ParentOfNothing(rooted: bool)
    ensures CleanStack([[0x2E, 0x2E]], rooted) == if rooted then [] else [[0x2E, 0x2E]]
  {
    assert [[0x2E as byte, 0x2E]][..0] == [];
    assert CleanStack([], rooted) == [];
  }

  // ----- the class

  class Tree {
    var entries: seq<Entry>
    var seen: map<Path, bool>

    /** `seen` is exactly the set of entry paths. */
    ghost predicate Valid()
      reads this
    {
      seen.Keys == Paths(entries) && forall p :: p in seen ==> seen[p]
    }

    predicate Seen(p: Path)
      reads this
    {
      p in seen && seen[p]
    }

    constructor ()
      ensures Valid() && entries == []
    {
      entries, seen := [], map[];
    }

    method AddDir(path: Path)
      requires Valid()
      modifies this
      ensures Valid() && entries == WithDir(old(entries), path)
      decreases |CleanPath(path)|
    {
      var p := TrimToCleanPath(path);
      if p == [] || Seen(p) {
        return;
      }
      ParentIsShorter(p);
      AddDir(Dir(p));
      Append(DirEntry(p));
    }

    method Append(e: Entry)
      requires Valid()
      modifies this
      ensures Valid() && entries == old(entries) + [e]
    {
      PathsAppend(entries, e);
      seen := seen[e.path := true];
      entries := entries + [e];
    }

    method AddFile(path: Path, perm: nat, data: seq<byte>)
      requires Valid()
      modifies this
      ensures Valid() && entries == Apply(old(entries), Op.AddFile(path, perm, data))
    {
      var p := TrimToCleanPath(path);
      AddDir(Dir(p));
      if Seen(p) {
        return;
      }
      Append(Entry(p, File, perm, data, []));
    }

    method AddSymlink(path: Path, target: seq<byte>)
      requires Valid()
      modifies this
      ensures Valid() && entries == Apply(old(entries), Op.AddSymlink(path, target))
    {
      var p := TrimToCleanPath(path);
      AddDir(Dir(p));
      if Seen(p) {
        return;
      }
      Append(Entry(p, Symlink, 0, [], target));
    }
  }

  lemma PathsAppend(es: seq<Entry>, e: Entry)
    ensures Paths(es + [e]) == Paths(es) + {e.path}
  {
    var all := es + [e];
    forall p | p in Paths(es) + {e.path}
      ensures p in Paths(all)
    {
      if p in Paths(es) {
        var i :| 0 <= i < |es| && es[i].path == p;
        assert all[i].path == p;
      } else {
        assert all[|es|].path == p;
      }
    }
  }

  // ----- what every sequence of calls keeps

  ghost predicate UniquePaths(es: seq<Entry>) {
    forall i, j :: 0 <= i < j < |es| ==> es[i].path != es[j].path
  }

  /** Directories added for a path are no longer than it; nothing already there is touched. */
  lemma {:induction false} WithDirExtends(es: seq<Entry>, path: Path)
    ensures es <= WithDir(es, path)
    ensures forall i :: |es| <= i < |WithDir(es, path)| ==> WithDir(es, path)[i].kind == Directory && |WithDir(es, path)[i].path| <= |CleanPath(path)|
    ensures forall i :: |es| <= i < |WithDir(es, path)| ==> WithDir(es, path)[i] == Entry(WithDir(es, path)[i].path, Directory, 0, [], [])
    ensures CleanPath(path) != [] ==> CleanPath(path) in Paths(WithDir(es, path))
    decreases |CleanPath(path)|
  {
    var p := CleanPath(path);
    if p != [] && p !in Paths(es) {
      ParentIsShorter(p);
      WithDirExtends(es, Dir(p));
      PathsAppend(WithDir(es, Dir(p)), DirEntry(p));
    }
  }

  lemma {:induction false} WithDirUnique(es: seq<Entry>, path: Path)
    requires UniquePaths(es)
    ensures UniquePaths(WithDir(es, path))
    decreases |CleanPath(path)|
  {
    var p := CleanPath(path);
    if p != [] && p !in Paths(es) {
      ParentIsShorter(p);
      WithDirUnique(es, Dir(p));
      WithDirExtends(es, Dir(p));
      var base := WithDir(es, Dir(p));
      assert forall i :: 0 <= i < |es| ==> es[i].path in Paths(es);
      assert forall i :: 0 <= i < |base| ==> base[i].path != p;
    }
  }

  /** After any sequence of calls on any paths, no two entries share a path. */
  lemma {:induction false} RunUnique(ops: seq<Op>)
    ensures UniquePaths(Run(ops))
  {
    if ops != [] {
      var es, op := Run(ops[..|ops| - 1]), ops[|ops| - 1];
      RunUnique(ops[..|ops| - 1]);
      ApplyUnique(es, op);
    }
  }

  /** Later calls never disturb earlier entries: the first call for a path decides its contents. */
  lemma ApplyExtends(es: seq<Entry>, op: Op)
    ensures es <= Apply(es, op)
    ensures CleanPath(op.path) != [] ==> CleanPath(op.path) in Paths(Apply(es, op))
    ensures !op.AddDir? ==> CleanPath(op.path) in Paths(Apply(es, op))
  {
    if op.AddDir? {
      WithDirExtends(es, op.path);
    } else {
      var p := CleanPath(op.path);
      var base := WithDir(es, Dir(p));
      WithDirExtends(es, Dir(p));
      PathsAppend(base, if op.AddFile? then Entry(p, File, op.perm, op.data, []) else Entry(p, Symlink, 0, [], op.target));
    }
  }

  /** A file added at a fresh path that is not its own parent is recorded as given, at the very end. */
  lemma FreshFileRecorded(es: seq<Entry>, path: Path, perm: nat, data: seq<byte>)
    requires CleanPath(path) != [] && CleanPath(path) !in Paths(es)
    ensures var r := Apply(es, Op.AddFile(path, perm, data));
            r != [] && r[|r| - 1] == Entry(CleanPath(path), File, perm, data, [])
  {
    var p := CleanPath(path);
    ParentIsShorter(p);
    WithDirExtends(es, Dir(p));
    var base := WithDir(es, Dir(p));
    assert forall i :: 0 <= i < |es| ==> es[i].path in Paths(es);
    assert forall i :: 0 <= i < |base| ==> base[i].path != p;
  }

  /** A link added at a fresh path is recorded with exactly its target, at the very end. */
  lemma FreshLinkRecorded(es: seq<Entry>, path: Path, target: seq<byte>)
    requires CleanPath(path) != [] && CleanPath(path) !in Paths(es)
    ensures var r := Apply(es, Op.AddSymlink(path, target));
            r != [] && r[|r| - 1] == Entry(CleanPath(path), Symlink, 0, [], target)
  {
    var p := CleanPath(path);
    ParentIsShorter(p);
    WithDirExtends(es, Dir(p));
    var base := WithDir(es, Dir(p));
    assert forall i :: 0 <= i < |es| ==> es[i].path in Paths(es);
    assert forall i :: 0 <= i < |base| ==> base[i].path != p;
  }

  /** A directory added at a fresh path is recorded at the very end, behind its missing parents. */
  lemma FreshDirRecorded(es: seq<Entry>, path: Path)
    requires CleanPath(path) != [] && CleanPath(path) !in Paths(es)
    ensures var r := Apply(es, Op.AddDir(path)); r != [] && r[|r| - 1] == Entry(CleanPath(path), Directory, 0, [], [])
  {
  }

  /** Directories and links hold no data of their own. */
  ghost predicate PlainEntries(es: seq<Entry>) {
    forall i :: 0 <= i < |es| && es[i].kind != File ==> es[i].data == []
  }

  lemma {:induction false} RunPlain(ops: seq<Op>)
    ensures PlainEntries(Run(ops))
  {
    if ops != [] {
      var es, op := Run(ops[..|ops| - 1]), ops[|ops| - 1];
      RunPlain(ops[..|ops| - 1]);
      WithDirExtends(es, if op.AddDir? then op.path else Dir(CleanPath(op.path)));
    }
  }

  /** What a call recorded stays where it is. */
  lemma {:induction false} RunExtends(ops: seq<Op>, n: nat)
    requires n <= |ops|
    ensures Run(ops[..n]) <= Run(ops)
  {
    if n == |ops| {
      assert ops[..n] == ops;
    } else {
      var front := ops[..|ops| - 1];
      assert front[..n] == ops[..n];
      RunExtends(front, n);
      ApplyExtends(Run(front), ops[|ops| - 1]);
    }
  }

  // ----- ancestors

  predicate CanonicalPiece(piece: Path) { piece != [] && piece != [DOT] && piece != [DOT, DOT] }

  /** Non-empty, relative, no empty, "." or ".." component. */
  predicate Canonical(p: Path) {
    forall k :: 0 <= k < |Split(p, SLASH)| ==> CanonicalPiece(Split(p, SLASH)[k])
  }

  /** Every proper ancestor of every entry appears earlier. */
  ghost predicate AncestorsFirst(es: seq<Entry>) {
    forall i, k {:trigger es[i].path[k]} :: 0 <= i < |es| && 0 <= k < |es[i].path| && es[i].path[k] == SLASH
      ==> es[i].path[..k] in Paths(es[..i])
  }

  lemma {:induction false} CanonicalStack(pieces: seq<Path>)
    requires forall k :: 0 <= k < |pieces| ==> CanonicalPiece(pieces[k])
    ensures CleanStack(pieces, false) == pieces
  {
    if pieces != [] {
      CanonicalStack(pieces[..|pieces| - 1]);
      assert pieces == pieces[..|pieces| - 1] + [pieces[|pieces| - 1]];
    }
  }

  /** Cutting a path in front of a slash cuts its list of pieces. */
  lemma {:induction false} SplitPrefix(p: Path, k: nat)
    requires k < |p| && p[k] == SLASH
    ensures Split(p[..k], SLASH) <= Split(p, SLASH) && |Split(p[..k], SLASH)| < |Split(p, SLASH)|
    decreases |p|
  {
    var q := p[..|p| - 1];
    if k == |p| - 1 {
      assert p[..k] == q;
    } else {
      assert p[..k] == q[..k];
      SplitPrefix(q, k);
    }
  }

  lemma BadFirstPiece(p: Path)
    requires p == [] || p[0] == SLASH || p == [DOT]
    ensures !CanonicalPiece(Split(p, SLASH)[0])
  {
    assert Split([], SLASH) == [[]];
    if p == [DOT] {
      assert p[..0] == [];
    } else if p != [] {
      SplitPrefix(p, 0);
      assert p[..0] == [];
    }
  }

  lemma CanonicalFirst(p: Path)
    requires Canonical(p)
    ensures p != [] && p[0] != SLASH && CleanPath(p) == p
  {
    if p == [] || p[0] == SLASH || p == [DOT] {
      BadFirstPiece(p);
    }
  }

  /** The parent of a canonical path is its text before the last slash, itself canonical. */
  lemma CanonicalDir(p: Path)
    requires Canonical(p)
    ensures var i := AfterLastSlash(p);
            if i == 0 then Dir(p) == [DOT] else i > 1 && Dir(p) == p[..i - 1] && Canonical(p[..i - 1])
  {
    CanonicalFirst(p);
    var i := AfterLastSlash(p);
    if i == 0 {
      assert p[..i] == [];
    } else {
      var q := p[..i - 1];
      SplitPrefix(p, i - 1);
      CanonicalFirst(q);
      var prefix := p[..i];
      assert prefix[..|prefix| - 1] == q;
      assert Split(prefix, SLASH) == Split(q, SLASH) + [[]];
      assert (Split(q, SLASH) + [[]])[..|Split(q, SLASH)|] == Split(q, SLASH);
      CanonicalStack(Split(q, SLASH));
      JoinSplit(q, SLASH);
    }
  }

  lemma {:induction false} WithDirAncestors(es: seq<Entry>, p: Path)
    requires AncestorsFirst(es) && Canonical(p)
    ensures AncestorsFirst(WithDir(es, p))
    ensures forall k :: 0 <= k < |p| && p[k] == SLASH ==> p[..k] in Paths(WithDir(es, p))
    decreases |CleanPath(p)|
  {
    CanonicalFirst(p);
    if p in Paths(es) {
      AncestorsOf(es, p);
    } else {
      ParentIsShorter(p);
      ParentAncestors(es, p);
      AppendAncestors(WithDir(es, Dir(p)), DirEntry(p));
    }
  }

  /** Entering the parents of a canonical path makes every ancestor of it present. */
  lemma {:induction false} ParentAncestors(es: seq<Entry>, p: Path)
    requires AncestorsFirst(es) && Canonical(p)
    ensures AncestorsFirst(WithDir(es, Dir(p)))
    ensures forall k :: 0 <= k < |p| && p[k] == SLASH ==> p[..k] in Paths(WithDir(es, Dir(p)))
    decreases |CleanPath(p)|, 0
  {
    hide Split, WithDir, Clean, Paths;
    CanonicalFirst(p);
    CanonicalDir(p);
    var i := AfterLastSlash(p);
    if i > 0 {
      var q := p[..i - 1];
      CanonicalFirst(q);
      WithDirAncestors(es, q);
      WithDirExtends(es, q);
      forall k | 0 <= k < |p| && p[k] == SLASH
        ensures p[..k] in Paths(WithDir(es, q))
      {
        if k < i - 1 {
          assert q[k] == SLASH && p[..k] == q[..k];
        }
      }
    } else {
      WithNoDir(es);
    }
  }

  lemma WithNoDir(es: seq<Entry>)
    ensures WithDir(es, [DOT]) == es
  {
    assert CleanPath([DOT]) == [];
  }

  lemma AncestorsOf(es: seq<Entry>, p: Path)
    requires AncestorsFirst(es) && p in Paths(es)
    ensures forall k :: 0 <= k < |p| && p[k] == SLASH ==> p[..k] in Paths(es)
  {
    var i :| 0 <= i < |es| && es[i].path == p;
    forall k | 0 <= k < |p| && p[k] == SLASH
      ensures p[..k] in Paths(es)
    {
      assert es[i].path[k] == SLASH;
      var j :| 0 <= j < |es[..i]| && es[..i][j].path == p[..k];
      assert es[j].path == p[..k];
    }
  }

  lemma AppendAncestors(es: seq<Entry>, e: Entry)
    requires AncestorsFirst(es)
    requires forall k :: 0 <= k < |e.path| && e.path[k] == SLASH ==> e.path[..k] in Paths(es)
    ensures AncestorsFirst(es + [e])
    ensures forall k :: 0 <= k < |e.path| && e.path[k] == SLASH ==> e.path[..k] in Paths(es + [e])
  {
    var all := es + [e];
    PathsAppend(es, e);
    forall i, k | 0 <= i < |all| && 0 <= k < |all[i].path| && all[i].path[k] == SLASH
      ensures all[i].path[..k] in Paths(all[..i])
    {
      if i < |es| {
        assert es[i].path[k] == SLASH && all[..i] == es[..i];
      } else {
        assert all[..i] == es;
      }
    }
  }

  /** For any sequence of calls on canonical paths, with or without leading slashes, every proper ancestor of every
      entry appears earlier in the list. */
  lemma {:induction false} RunAncestorsFirst(ops: seq<Op>)
    requires forall i :: 0 <= i < |ops| ==> Canonical(CleanPath(ops[i].path))
    ensures AncestorsFirst(Run(ops))
  {
    if ops != [] {
      var es, op := Run(ops[..|ops| - 1]), ops[|ops| - 1];
      RunAncestorsFirst(ops[..|ops| - 1]);
      ApplyAncestors(es, op);
    }
  }

  lemma ApplyAncestors(es: seq<Entry>, op: Op)
    requires AncestorsFirst(es) && Canonical(CleanPath(op.path))
    ensures AncestorsFirst(Apply(es, op))
  {
    var p := CleanPath(op.path);
    CanonicalFirst(p);
    if op.AddDir? {
      WithDirAncestors(es, p);
      WithDirOfClean(es, op.path);
    } else {
      ParentAncestors(es, p);
      AppendAncestors(WithDir(es, Dir(p)), if op.AddFile? then Entry(p, File, op.perm, op.data, []) else Entry(p, Symlink, 0, [], op.target));
    }
  }

  lemma WithDirOfClean(es: seq<Entry>, path: Path)
    requires CleanPath(CleanPath(path)) == CleanPath(path)
    ensures WithDir(es, CleanPath(path)) == WithDir(es, path)
  {
  }

  // ----- parents that are directories

  ghost function DirPaths(es: seq<Entry>): set<Path> {
    set i | 0 <= i < |es| && es[i].kind == Directory :: es[i].path
  }

  /** Every proper ancestor of every entry appears earlier, as a directory: what unpacking an archive needs. */
  ghost predicate DirParents(es: seq<Entry>) {
    forall i, k {:trigger es[i].path[k]} :: 0 <= i < |es| && 0 <= k < |es[i].path| && es[i].path[k] == SLASH
      ==> es[i].path[..k] in DirPaths(es[..i])
  }

  /** Whatever sits at a proper ancestor of p is a directory. */
  ghost predicate ClearWay(es: seq<Entry>, p: Path) {
    forall j, k {:trigger es[j], p[k]} :: 0 <= j < |es| && 0 <= k < |p| && p[k] == SLASH && es[j].path == p[..k] ==> es[j].kind == Directory
  }

  /** p or one of its proper ancestors. */
  ghost predicate OnTheWay(q: Path, p: Path) {
    q == p || exists k :: 0 <= k < |p| && p[k] == SLASH && q == p[..k]
  }

  lemma DirPathsArePaths(es: seq<Entry>)
    requires DirParents(es)
    ensures AncestorsFirst(es)
  {
    forall i, k | 0 <= i < |es| && 0 <= k < |es[i].path| && es[i].path[k] == SLASH
      ensures es[i].path[..k] in Paths(es[..i])
    {
      var j :| 0 <= j < |es[..i]| && es[..i][j].kind == Directory && es[..i][j].path == es[i].path[..k];
      assert es[..i][j].path in Paths(es[..i]);
    }
  }

  lemma DirParentsPrefix(es: seq<Entry>, more: seq<Entry>)
    requires es <= more && DirParents(more)
    ensures DirParents(es)
  {
    forall i, k | 0 <= i < |es| && 0 <= k < |es[i].path| && es[i].path[k] == SLASH
      ensures es[i].path[..k] in DirPaths(es[..i])
    {
      assert es[i] == more[i] && es[..i] == more[..i];
      assert more[i].path[k] == SLASH;
    }
  }

  /** An entry with directories for parents has a clear way among entries with unique paths. */
  lemma EntryHasClearWay(es: seq<Entry>, all: seq<Entry>, i: nat)
    requires es <= all && UniquePaths(all) && DirParents(all) && i < |all|
    ensures ClearWay(es, all[i].path)
  {
    var p := all[i].path;
    forall j, k | 0 <= j < |es| && 0 <= k < |p| && p[k] == SLASH && es[j].path == p[..k]
      ensures es[j].kind == Directory
    {
      assert all[i].path[k] == SLASH;
      var m :| 0 <= m < |all[..i]| && all[..i][m].kind == Directory && all[..i][m].path == p[..k];
      assert all[m].path == all[j].path;
      assert m == j;
    }
  }

  /** Directories added for a path lie on the way to it. */
  lemma {:induction false} WithDirOnTheWay(es: seq<Entry>, p: Path)
    requires Canonical(p)
    ensures forall i :: |es| <= i < |WithDir(es, p)| ==> OnTheWay(WithDir(es, p)[i].path, p)
    decreases |p|
  {
    hide Clean, Paths, Split, Canonical;
    CanonicalFirst(p);
    var base := WithDir(es, Dir(p));
    WithDirExtends(es, Dir(p));
    ParentOnTheWay(es, p);
    WithDirSteps(es, p);
  }

  lemma WithDirSteps(es: seq<Entry>, p: Path)
    requires Canonical(p)
    ensures WithDir(es, p) == es || WithDir(es, p) == WithDir(es, Dir(p)) + [DirEntry(p)]
  {
    CanonicalFirst(p);
  }

  lemma {:induction false} ParentOnTheWay(es: seq<Entry>, p: Path)
    requires Canonical(p)
    ensures forall i :: |es| <= i < |WithDir(es, Dir(p))| ==> OnTheWay(WithDir(es, Dir(p))[i].path, p)
    decreases |p|, 0
  {
    hide WithDir, Clean, Paths, Split, Canonical;
    CanonicalDir(p);
    var i := AfterLastSlash(p);
    if i == 0 {
      WithNoDir(es);
    } else {
      var q := p[..i - 1];
      WithDirOnTheWay(es, q);
      forall m | |es| <= m < |WithDir(es, q)|
        ensures OnTheWay(WithDir(es, q)[m].path, p)
      {
        LongerWay(WithDir(es, q)[m].path, p, i - 1);
      }
    }
  }

  lemma LongerWay(q: Path, p: Path, n: nat)
    requires n < |p| && p[n] == SLASH && OnTheWay(q, p[..n])
    ensures OnTheWay(q, p)
  {
    if q != p[..n] {
      var k :| 0 <= k < n && p[..n][k] == SLASH && q == p[..n][..k];
      assert p[k] == SLASH && q == p[..k];
    }
  }

  /** New entries on a clear way, all but the last one directories, keep parents directories. */
  lemma ClearWaySuffices(es: seq<Entry>, all: seq<Entry>, p: Path)
    requires es <= all && DirParents(es) && AncestorsFirst(all) && ClearWay(es, p)
    requires forall i :: |es| <= i < |all| ==> OnTheWay(all[i].path, p) && (i < |all| - 1 ==> all[i].kind == Directory)
    ensures DirParents(all)
  {
    hide Paths;
    forall i, k | 0 <= i < |all| && 0 <= k < |all[i].path| && all[i].path[k] == SLASH
      ensures all[i].path[..k] in DirPaths(all[..i])
    {
      if i < |es| {
        assert es[i].path[k] == SLASH && all[..i] == es[..i];
      } else {
        var q := all[i].path[..k];
        var m := AncestorIndex(all, i, k);
        if m < |es| {
          var k2 := AncestorOnWay(all[i].path, k, p);
          assert es[m].path == p[..k2];
        }
        assert all[..i][m].kind == Directory && all[..i][m].path == q;
      }
    }
  }

  lemma AncestorIndex(es: seq<Entry>, i: nat, k: nat) returns (m: nat)
    requires AncestorsFirst(es) && i < |es| && k < |es[i].path| && es[i].path[k] == SLASH
    ensures m < i && es[m].path == es[i].path[..k]
  {
    assert es[i].path[k] == SLASH;
    m :| 0 <= m < |es[..i]| && es[..i][m].path == es[i].path[..k];
  }

  lemma AncestorOnWay(q: Path, k: nat, p: Path) returns (k2: nat)
    requires OnTheWay(q, p) && k < |q| && q[k] == SLASH
    ensures k2 < |p| && p[k2] == SLASH && q[..k] == p[..k2]
  {
    k2 := k;
  }

  /** For every call: parents stay directories if and only if no file or link sits at a proper ancestor of the path. */
  lemma DirParentsIff(es: seq<Entry>, op: Op)
    requires UniquePaths(es) && DirParents(es) && Canonical(CleanPath(op.path))
    ensures DirParents(Apply(es, op)) <==> ClearWay(es, CleanPath(op.path))
  {
    hide WithDir, Paths, Canonical, Clean, DirParents, UniquePaths, AncestorsFirst, OnTheWay, ClearWay;
    var p := CleanPath(op.path);
    var all := Apply(es, op);
    ApplyExtends(es, op);
    ApplyUnique(es, op);
    ApplyOnTheWay(es, op);
    DirPathsArePaths(es);
    ApplyAncestors(es, op);
    if ClearWay(es, p) {
      ClearWaySuffices(es, all, p);
    }
    if DirParents(all) {
      var i := PresentAt(all, p);
      EntryHasClearWay(es, all, i);
    }
  }

  lemma PresentAt(es: seq<Entry>, p: Path) returns (i: nat)
    requires p in Paths(es)
    ensures i < |es| && es[i].path == p
  {
    i :| 0 <= i < |es| && es[i].path == p;
  }

  lemma ApplyOnTheWay(es: seq<Entry>, op: Op)
    requires Canonical(CleanPath(op.path))
    ensures var all := Apply(es, op);
            es <= all && forall i :: |es| <= i < |all| ==> OnTheWay(all[i].path, CleanPath(op.path)) && (i < |all| - 1 ==> all[i].kind == Directory)
    ensures CleanPath(op.path) in Paths(Apply(es, op))
  {
    hide WithDir, Paths, Canonical, Clean;
    var p := CleanPath(op.path);
    CanonicalFirst(p);
    ApplyExtends(es, op);
    if op.AddDir? {
      WithDirOfClean(es, op.path);
      WithDirOnTheWay(es, p);
      WithDirExtends(es, p);
    } else {
      ParentOnTheWay(es, p);
      WithDirExtends(es, Dir(p));
    }
  }

  lemma ApplyUnique(es: seq<Entry>, op: Op)
    requires UniquePaths(es)
    ensures UniquePaths(Apply(es, op))
  {
    if op.AddDir? {
      WithDirUnique(es, op.path);
    } else {
      var base := WithDir(es, Dir(CleanPath(op.path)));
      WithDirUnique(es, Dir(CleanPath(op.path)));
      assert forall i :: 0 <= i < |base| ==> base[i].path in Paths(base);
    }
  }

  /** The i-th call of a run finds nothing but directories on its way. */
  ghost predicate ClearCall(ops: seq<Op>, i: nat)
    requires i < |ops|
  {
    ClearWay(Run(ops[..i]), CleanPath(ops[i].path))
  }

  /** The condition over whole runs. */
  lemma {:induction false} RunDirParentsIff(ops: seq<Op>)
    requires forall i :: 0 <= i < |ops| ==> Canonical(CleanPath(ops[i].path))
    ensures DirParents(Run(ops)) <==> forall i :: 0 <= i < |ops| ==> ClearCall(ops, i)
  {
    hide DirParents, ClearCall, Canonical, CleanPath, Apply, UniquePaths;
    if ops == [] {
      NoEntries();
    } else {
      var n := |ops| - 1;
      var front := ops[..n];
      RunDirParentsIff(front);
      RunUnique(front);
      StepDirParentsIff(Run(front), ops[n]);
      assert Run(ops) == Apply(Run(front), ops[n]);
      LastCall(ops);
      hide Run;
      forall i | 0 <= i < n
        ensures ClearCall(front, i) == ClearCall(ops, i)
      {
        EarlierCall(ops, n, i);
      }
    }
  }

  lemma LastCall(ops: seq<Op>)
    requires ops != []
    ensures ClearCall(ops, |ops| - 1) == ClearWay(Run(ops[..|ops| - 1]), CleanPath(ops[|ops| - 1].path))
  {
  }

  lemma EarlierCall(ops: seq<Op>, n: nat, i: nat)
    requires i < n <= |ops|
    ensures ClearCall(ops[..n], i) == ClearCall(ops, i)
  {
    assert ops[..n][..i] == ops[..i];
  }

  lemma StepDirParentsIff(es: seq<Entry>, op: Op)
    requires UniquePaths(es) && Canonical(CleanPath(op.path))
    ensures DirParents(Apply(es, op)) <==> DirParents(es) && ClearWay(es, CleanPath(op.path))
  {
    hide DirParents, ClearWay, Canonical, Apply;
    ApplyExtends(es, op);
    if DirParents(Apply(es, op)) {
      DirParentsPrefix(es, Apply(es, op));
    }
    if DirParents(es) {
      DirParentsIff(es, op);
    }
  }

  lemma RunOfTwo(a: Op, b: Op)
    ensures Run([a]) == Apply([], a) && Run([a, b]) == Apply(Apply([], a), b)
  {
    hide Apply;
    assert [a][..0] == [] && [a, b][..1] == [a];
    assert Run([a]) == Apply(Run([]), a) && Run([a, b]) == Apply(Run([a]), b);
  }

  lemma NoEntries()
    ensures DirParents([])
  {
  }

  /** A file "a" and then a file "a/b": the second one ends up below the first. */
  lemma FileServesAsParent(perm: nat, data: seq<byte>)
    ensures var ops := [Op.AddFile([0x61], perm, data), Op.AddFile([0x61, SLASH, 0x62], perm, data)];
            && Canonical(CleanPath(ops[0].path)) && Canonical(CleanPath(ops[1].path))
            && !DirParents(Run(ops)) && Run(ops)[|Run(ops)| - 1] == Entry([0x61, SLASH, 0x62], File, perm, data, [])
  {
    var ops := [Op.AddFile([0x61], perm, data), Op.AddFile([0x61, SLASH, 0x62], perm, data)];
    var es := Apply([], ops[0]);
    SampleSplits();
    hide Split, Clean, WithDir, DirParents, Apply, Run;
    RunOfTwo(ops[0], ops[1]);
    assert ops[..1] == [ops[0]];
    FirstFileBlocks(perm, data);
    assert !ClearCall(ops, 1);
    RunDirParentsIff(ops);
    SecondFileFresh(es, perm, data);
  }

  lemma FirstFileBlocks(perm: nat, data: seq<byte>)
    ensures !ClearWay(Apply([], Op.AddFile([0x61], perm, data)), [0x61, SLASH, 0x62])
  {
    hide Split, Clean, WithDir, Apply;
    var es, ab: Path := Apply([], Op.AddFile([0x61], perm, data)), [0x61, SLASH, 0x62];
    FreshFileRecorded([], [0x61], perm, data);
    assert es[|es| - 1].path == ab[..1] && ab[1] == SLASH;
  }

  lemma SampleSplits()
    ensures Split([0x61], SLASH) == [[0x61]] && Split([0x61, SLASH, 0x62], SLASH) == [[0x61], [0x62]]
  {
    var a, ab: Path := [0x61], [0x61, SLASH, 0x62];
    SplitSingle(a, SLASH);
    SplitAppend(a, [0x62], SLASH);
    assert ab == a + [SLASH] + [0x62];
  }

  lemma SecondFileFresh(es: seq<Entry>, perm: nat, data: seq<byte>)
    requires es == Apply([], Op.AddFile([0x61], perm, data))
    ensures var all := Apply(es, Op.AddFile([0x61, SLASH, 0x62], perm, data));
            all != [] && all[|all| - 1] == Entry([0x61, SLASH, 0x62], File, perm, data, [])
  {
    hide Clean, WithDir, Apply;
    var ab: Path := [0x61, SLASH, 0x62];
    SampleSplits();
    ApplyOnTheWay([], Op.AddFile([0x61], perm, data));
    assert !OnTheWay(ab, [0x61]);
    assert ab !in Paths(es);
    FreshFileRecorded(es, ab, perm, data);
  }

  /** Whatever entry sits at the parent's path is taken as the parent; if it is a file or a link, the new entry's parent
      is no directory. */
  lemma AnyEntryServesAsParent(es: seq<Entry>, i: nat, p: Path, perm: nat, data: seq<byte>)
    requires Canonical(p) && AfterLastSlash(p) > 0 && p !in Paths(es)
    requires i < |es| && es[i].path == Dir(p)
    ensures Apply(es, Op.AddFile(p, perm, data)) == es + [Entry(p, File, perm, data, [])]
    ensures UniquePaths(es) && es[i].kind != Directory ==> !DirParents(Apply(es, Op.AddFile(p, perm, data)))
  {
    CanonicalFirst(p);
    CanonicalDir(p);
    CanonicalFirst(Dir(p));
    assert Dir(p) in Paths(es);
    var all := Apply(es, Op.AddFile(p, perm, data));
    assert p[AfterLastSlash(p) - 1] == SLASH;
    if UniquePaths(es) && DirParents(all) {
      ApplyUnique(es, Op.AddFile(p, perm, data));
      EntryHasClearWay(es, all, |es|);
    }
  }
}
