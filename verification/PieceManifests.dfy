/** The two text files of a pieces source: pieces.sha256 (`parseHashes`) and busybox-manifest.tsv (`parseManifest`).
    A string here is a sequence of bytes, one char each. */
module PieceManifests {
  import opened Bytes
  import opened Strings

  // ----- strings.TrimSpace, strings.Fields and strings.ToLower on ASCII text

  predicate IsSpace(c: char) { c == ' ' || '\t' <= c <= '\r' }

  function TrimLeft(s: string): string {
    if s != [] && IsSpace(s[0]) then TrimLeft(s[1..]) else s
  }

  function TrimRight(s: string): string {
    if s != [] && IsSpace(s[|s| - 1]) then TrimRight(s[..|s| - 1]) else s
  }

  function TrimSpace(s: string): string { TrimRight(TrimLeft(s)) }

  /** The length of the leading run of non-space characters. */
  function WordLength(s: string): (n: nat)
    ensures n <= |s| && (s != [] && !IsSpace(s[0]) ==> n > 0)
  {
    if s == [] || IsSpace(s[0]) then 0 else 1 + WordLength(s[1..])
  }

  function Fields(s: string): seq<string>
    decreases |s|
  {
    if s == [] then []
    else if IsSpace(s[0]) then Fields(s[1..])
    else var n := WordLength(s); [s[..n]] + Fields(s[n..])
  }

  function LowerChar(c: char): char {
    if 'A' <= c <= 'Z' then ((c as int) + 32) as char else c
  }

  function ToLower(s: string): (r: string)
    ensures |r| == |s|
  {
    seq(|s|, i requires 0 <= i < |s| => LowerChar(s[i]))
  }

  // ----- parseHashes

  /** What the lines read so far amount to; a later line for the same file wins. */
  function HashesOf(lines: seq<string>): Option<map<string, string>> {
    if lines == [] then Some(map[])
    else
      var hashes :- HashesOf(lines[..|lines| - 1]);
      var line := TrimSpace(lines[|lines| - 1]);
      if line == [] then Some(hashes)
      else
        var fields := Fields(line);
        if |fields| != 2 then None else Some(hashes[fields[1] := ToLower(fields[0])])
  }

  function HashLines(data: string): seq<string> { Split(TrimSpace(data), '\n') }

  lemma {:induction false} BadLineFails(lines: seq<string>, i: nat)
    requires i <= |lines| && HashesOf(lines[..i]).None?
    ensures HashesOf(lines).None?
    decreases |lines| - i
  {
    if i == |lines| {
      assert lines[..i] == lines;
    } else {
      assert lines[..i + 1][..i] == lines[..i];
      BadLineFails(lines, i + 1);
    }
  }

  method ParseHashes(data: string) returns (r: Option<map<string, string>>)
    ensures r == HashesOf(HashLines(data))
  {
    var lines := Split(TrimSpace(data), '\n');
    var hashes: map<string, string> := map[];
    for i := 0 to |lines|
      invariant HashesOf(lines[..i]) == Some(hashes)
    {
      assert lines[..i + 1][..i] == lines[..i];
      var line := TrimSpace(lines[i]);
      if line == [] {
        continue;
      }
      var fields := Fields(line);
      if |fields| != 2 {
        BadLineFails(lines, i + 1);
        return None;
      }
      hashes := hashes[fields[1] := ToLower(fields[0])];
    }
    assert lines[..|lines|] == lines;
    return Some(hashes);
  }

  // ----- the lines `cnimbus prepare` writes

  datatype HashLine = HashLine(hex: string, name: string)

  predicate Word(s: string) { s != [] && forall i :: 0 <= i < |s| ==> !IsSpace(s[i]) }

  predicate LowerHex(s: string) { Word(s) && forall i :: 0 <= i < |s| ==> '0' <= s[i] <= '9' || 'a' <= s[i] <= 'f' }

  function LineText(l: HashLine): string { l.hex + "  " + l.name }

  function PrintHashes(ls: seq<HashLine>): string {
    if ls == [] then [] else PrintHashes(ls[..|ls| - 1]) + LineText(ls[|ls| - 1]) + "\n"
  }

  function Texts(ls: seq<HashLine>): (r: seq<string>)
    ensures |r| == |ls|
  {
    seq(|ls|, i requires 0 <= i < |ls| => LineText(ls[i]))
  }

  /** The last line for each name. */
  function Meaning(ls: seq<HashLine>): map<string, string> {
    if ls == [] then map[] else Meaning(ls[..|ls| - 1])[ls[|ls| - 1].name := ls[|ls| - 1].hex]
  }

  predicate Printable(l: HashLine) { LowerHex(l.hex) && Word(l.name) }

  lemma {:induction false} PrintIsJoin(ls: seq<HashLine>)
    requires ls != []
    ensures PrintHashes(ls) == Join(Texts(ls), '\n') + "\n"
  {
    var front := ls[..|ls| - 1];
    assert Texts(ls)[..|ls| - 1] == Texts(front);
    if front == [] {
      assert PrintHashes(front) == [];
    } else {
      PrintIsJoin(front);
    }
  }

  lemma {:induction false} WordLengthOf(w: string, rest: string)
    requires forall i :: 0 <= i < |w| ==> !IsSpace(w[i])
    requires rest == [] || IsSpace(rest[0])
    ensures WordLength(w + rest) == |w|
  {
    if w == [] {
      assert w + rest == rest;
    } else {
      assert (w + rest)[1..] == w[1..] + rest;
      WordLengthOf(w[1..], rest);
    }
  }

  lemma LineFields(l: HashLine)
    requires Word(l.hex) && Word(l.name)
    ensures Fields(LineText(l)) == [l.hex, l.name]
  {
    var s := LineText(l);
    WordLengthOf(l.hex, "  " + l.name);
    assert s == l.hex + ("  " + l.name);
    assert s[|l.hex|..] == "  " + l.name;
    assert ("  " + l.name)[1..] == " " + l.name;
    assert (" " + l.name)[1..] == l.name;
    WordLengthOf(l.name, []);
    assert l.name + [] == l.name && l.name[|l.name|..] == [];
    assert Fields(l.name) == [l.name] + Fields([]);
    assert Fields(" " + l.name) == Fields(l.name);
    assert Fields("  " + l.name) == Fields(" " + l.name);
    assert s[..|l.hex|] == l.hex;
  }

  lemma LineTrims(l: HashLine)
    requires Word(l.hex) && Word(l.name)
    ensures LineText(l) != [] && TrimSpace(LineText(l)) == LineText(l) && '\n' !in LineText(l)
  {
    var s := LineText(l);
    assert s[0] == l.hex[0] && s[|s| - 1] == l.name[|l.name| - 1];
    forall i | 0 <= i < |s|
      ensures s[i] != '\n'
    {
      if i < |l.hex| {
        assert s[i] == l.hex[i];
      } else if i >= |l.hex| + 2 {
        assert s[i] == l.name[i - |l.hex| - 2];
      }
    }
  }

  lemma LowerIsLower(s: string)
    requires LowerHex(s)
    ensures ToLower(s) == s
  {
  }

  lemma {:induction false} TextsMean(ls: seq<HashLine>)
    requires forall i :: 0 <= i < |ls| ==> Printable(ls[i])
    ensures HashesOf(Texts(ls)) == Some(Meaning(ls))
  {
    if ls != [] {
      var front, last := ls[..|ls| - 1], ls[|ls| - 1];
      assert Texts(ls)[..|ls| - 1] == Texts(front);
      TextsMean(front);
      LineTrims(last);
      LineFields(last);
      LowerIsLower(last.hex);
    }
  }

  lemma {:induction false} JoinEnds(ls: seq<HashLine>)
    requires ls != [] && forall i :: 0 <= i < |ls| ==> Printable(ls[i])
    ensures var s := Join(Texts(ls), '\n'); s != [] && !IsSpace(s[0]) && !IsSpace(s[|s| - 1])
  {
    var front, last := ls[..|ls| - 1], ls[|ls| - 1];
    assert Texts(ls)[..|ls| - 1] == Texts(front);
    var s := Join(Texts(ls), '\n');
    assert LineText(last)[|LineText(last)| - 1] == last.name[|last.name| - 1];
    if front != [] {
      JoinEnds(front);
      assert s == Join(Texts(front), '\n') + ['\n'] + LineText(last);
    } else {
      assert s == LineText(last);
    }
  }

  lemma TrimNewline(s: string)
    requires s != [] && !IsSpace(s[0]) && !IsSpace(s[|s| - 1])
    ensures TrimSpace(s + "\n") == s
  {
    assert (s + "\n")[..|s|] == s;
    assert TrimRight(s + "\n") == TrimRight(s);
  }

  /** What `cnimbus prepare` prints, one "<hex>  <name>" line per file, parses back to exactly those hashes. */
  lemma PrintedHashesParse(ls: seq<HashLine>)
    requires ls != [] && forall i :: 0 <= i < |ls| ==> Printable(ls[i])
    ensures HashesOf(HashLines(PrintHashes(ls))) == Some(Meaning(ls))
  {
    PrintIsJoin(ls);
    JoinEnds(ls);
    TrimNewline(Join(Texts(ls), '\n'));
    forall i | 0 <= i < |ls|
      ensures '\n' !in Texts(ls)[i]
    {
      LineTrims(ls[i]);
    }
    SplitJoin(Texts(ls), '\n');
    TextsMean(ls);
  }

  // ----- any other text

  /** How many words start in s; before says whether white space precedes it. */
  function WordStarts(s: string, before: bool): nat {
    if s == [] then 0 else (if !IsSpace(s[0]) && before then 1 else 0) + WordStarts(s[1..], IsSpace(s[0]))
  }

  lemma {:induction false} StartsInside(s: string, n: nat)
    requires n <= |s| && (forall i :: 0 <= i < n ==> !IsSpace(s[i])) && (n < |s| ==> IsSpace(s[n]))
    ensures WordStarts(s, false) == WordStarts(s[n..], true)
  {
    if n > 0 {
      StartsInside(s[1..], n - 1);
      assert s[1..][n - 1..] == s[n..];
    } else {
      assert s[0..] == s;
    }
  }

  lemma {:induction false} WordIsRun(s: string)
    ensures var n := WordLength(s); (forall i :: 0 <= i < n ==> !IsSpace(s[i])) && (n < |s| ==> IsSpace(s[n]))
  {
    if s != [] && !IsSpace(s[0]) {
      WordIsRun(s[1..]);
    }
  }

  /** A line has as many fields as words start in it. */
  lemma {:induction false} FieldsAreWords(s: string)
    ensures |Fields(s)| == WordStarts(s, true)
    decreases |s|
  {
    if s != [] {
      if IsSpace(s[0]) {
        FieldsAreWords(s[1..]);
      } else {
        var n := WordLength(s);
        WordIsRun(s);
        StartsInside(s[1..], n - 1);
        assert s[1..][n - 1..] == s[n..];
        FieldsAreWords(s[n..]);
      }
    }
  }

  lemma {:induction false} TrailingSpace(s: string, before: bool)
    requires s != [] && IsSpace(s[|s| - 1])
    ensures WordStarts(s[..|s| - 1], before) == WordStarts(s, before)
  {
    if |s| > 1 {
      assert s[..|s| - 1][1..] == s[1..][..|s| - 2];
      TrailingSpace(s[1..], IsSpace(s[0]));
    }
  }

  lemma {:induction false} TrimRightWords(s: string)
    ensures WordStarts(TrimRight(s), true) == WordStarts(s, true)
  {
    if s != [] && IsSpace(s[|s| - 1]) {
      TrailingSpace(s, true);
      TrimRightWords(s[..|s| - 1]);
    }
  }

  lemma {:induction false} TrimLeftWords(s: string)
    ensures WordStarts(TrimLeft(s), true) == WordStarts(s, true)
    ensures TrimLeft(s) != [] ==> !IsSpace(TrimLeft(s)[0])
  {
    if s != [] && IsSpace(s[0]) {
      TrimLeftWords(s[1..]);
    }
  }

  lemma {:induction false} NoWordsIsBlank(s: string)
    ensures WordStarts(s, true) == 0 <==> TrimSpace(s) == []
  {
    TrimLeftWords(s);
    TrimRightWords(TrimLeft(s));
    var t := TrimLeft(s);
    if t != [] {
      KeepsFirst(t);
      assert TrimRight(t)[0] == t[0];
    }
  }

  lemma {:induction false} KeepsFirst(t: string)
    requires t != [] && !IsSpace(t[0])
    ensures TrimRight(t) != [] && TrimRight(t)[0] == t[0]
  {
    if IsSpace(t[|t| - 1]) {
      KeepsFirst(t[..|t| - 1]);
    }
  }

  /** The listing is refused exactly when some line holds neither no word nor two. */
  lemma {:induction false} HashesFailIff(lines: seq<string>)
    ensures HashesOf(lines).Some? <==> forall i :: 0 <= i < |lines| ==> WordStarts(lines[i], true) in {0, 2}
  {
    if lines != [] {
      var n := |lines| - 1;
      HashesFailIff(lines[..n]);
      assert forall i :: 0 <= i < n ==> lines[..n][i] == lines[i];
      LineWords(lines[n]);
    }
  }

  lemma LineWords(line: string)
    ensures |Fields(TrimSpace(line))| == WordStarts(line, true)
    ensures TrimSpace(line) == [] <==> WordStarts(line, true) == 0
  {
    NoWordsIsBlank(line);
    TrimLeftWords(line);
    TrimRightWords(TrimLeft(line));
    FieldsAreWords(TrimSpace(line));
  }

  /** Hashes are compared in lower case: exactly the letters A to Z change, each by 32. */
  lemma LowerCase(s: string, i: nat)
    requires i < |s|
    ensures |ToLower(s)| == |s|
    ensures ToLower(s)[i] as int == s[i] as int + if 65 <= s[i] as int <= 90 then 32 else 0
  {
  }

  function LoweredMeaning(ls: seq<HashLine>): map<string, string> {
    if ls == [] then map[] else LoweredMeaning(ls[..|ls| - 1])[ls[|ls| - 1].name := ToLower(ls[|ls| - 1].hex)]
  }

  /** Lines of two words, in any case and with blanks around them as a carriage return is one, list each name with its
      last hash in lower case. */
  lemma {:induction false} AnyCaseParses(ls: seq<HashLine>, ends: seq<string>)
    requires |ends| == |ls| && forall i :: 0 <= i < |ls| ==> Word(ls[i].hex) && Word(ls[i].name)
    requires forall i, k :: 0 <= i < |ls| && 0 <= k < |ends[i]| ==> IsSpace(ends[i][k])
    ensures HashesOf(SpacedLines(ls, ends)) == Some(LoweredMeaning(ls))
  {
    if ls != [] {
      var n := |ls| - 1;
      AnyCaseParses(ls[..n], ends[..n]);
      assert SpacedLines(ls, ends)[..n] == SpacedLines(ls[..n], ends[..n]);
      LineTrims(ls[n]);
      LineFields(ls[n]);
      TrimEnd(LineText(ls[n]), ends[n]);
    }
  }

  function SpacedLines(ls: seq<HashLine>, ends: seq<string>): (r: seq<string>)
    requires |ends| == |ls|
    ensures |r| == |ls|
  {
    seq(|ls|, i requires 0 <= i < |ls| => LineText(ls[i]) + ends[i])
  }

  lemma {:induction false} TrimEnd(s: string, end: string)
    requires s != [] && !IsSpace(s[0]) && !IsSpace(s[|s| - 1]) && forall k :: 0 <= k < |end| ==> IsSpace(end[k])
    ensures TrimSpace(s + end) == s
  {
    if end == [] {
      assert s + end == s;
    } else {
      assert (s + end)[..|s + end| - 1] == s + end[..|end| - 1];
      TrimEnd(s, end[..|end| - 1]);
    }
  }

  // ----- parseManifest

  datatype Applet = Applet(path: string, target: string)

  function TrimCarriageReturns(s: string): string {
    if s != [] && s[|s| - 1] == '\r' then TrimCarriageReturns(s[..|s| - 1]) else s
  }

  /** strings.Cut at the first tab. */
  function CutTab(s: string): Option<Applet> {
    if s == [] then None
    else if s[0] == '\t' then Some(Applet([], s[1..]))
    else
      var rest :- CutTab(s[1..]);
      Some(Applet([s[0]] + rest.path, rest.target))
  }

  function AppletsOf(lines: seq<string>): Option<seq<Applet>> {
    if lines == [] then Some([])
    else
      var applets :- AppletsOf(lines[..|lines| - 1]);
      var line := TrimCarriageReturns(lines[|lines| - 1]);
      if line == [] then Some(applets)
      else
        var applet :- CutTab(line);
        Some(applets + [applet])
  }

  function Manifest(data: string): Option<seq<Applet>> { AppletsOf(Split(data, '\n')) }

  lemma {:induction false} BadAppletFails(lines: seq<string>, i: nat)
    requires i <= |lines| && AppletsOf(lines[..i]).None?
    ensures AppletsOf(lines).None?
    decreases |lines| - i
  {
    if i == |lines| {
      assert lines[..i] == lines;
    } else {
      assert lines[..i + 1][..i] == lines[..i];
      BadAppletFails(lines, i + 1);
    }
  }

  method ParseManifest(data: string) returns (r: Option<seq<Applet>>)
    ensures r == Manifest(data)
  {
    var lines := Split(data, '\n');
    var applets := [];
    for i := 0 to |lines|
      invariant AppletsOf(lines[..i]) == Some(applets)
    {
      assert lines[..i + 1][..i] == lines[..i];
      var line := TrimCarriageReturns(lines[i]);
      if line == [] {
        continue;
      }
      var applet := CutTab(line);
      if applet.None? {
        BadAppletFails(lines, i + 1);
        return None;
      }
      applets := applets + [applet.value];
    }
    assert lines[..|lines|] == lines;
    return Some(applets);
  }

  // ----- and the lines it is written with

  predicate PlainApplet(a: Applet) {
    && '\t' !in a.path && '\n' !in a.path && '\n' !in a.target
    && (a.target == [] || a.target[|a.target| - 1] != '\r')
  }

  function AppletText(a: Applet): string { a.path + "\t" + a.target }

  function AppletTexts(applets: seq<Applet>): (r: seq<string>)
    ensures |r| == |applets|
  {
    seq(|applets|, i requires 0 <= i < |applets| => AppletText(applets[i]))
  }

  lemma {:induction false} CutText(path: string, target: string)
    requires '\t' !in path
    ensures CutTab(path + "\t" + target) == Some(Applet(path, target))
  {
    var s := path + "\t" + target;
    if path == [] {
      assert s[1..] == target;
    } else {
      assert s[1..] == path[1..] + "\t" + target;
      CutText(path[1..], target);
      assert path == [path[0]] + path[1..];
    }
  }

  lemma {:induction false} AppletTextsMean(applets: seq<Applet>)
    requires forall i :: 0 <= i < |applets| ==> PlainApplet(applets[i])
    ensures AppletsOf(AppletTexts(applets)) == Some(applets)
  {
    if applets != [] {
      var front, last := applets[..|applets| - 1], applets[|applets| - 1];
      assert AppletTexts(applets)[..|applets| - 1] == AppletTexts(front);
      AppletTextsMean(front);
      var s := AppletText(last);
      assert s[|s| - 1] == if last.target == [] then '\t' else last.target[|last.target| - 1];
      CutText(last.path, last.target);
      assert applets == front + [last];
    }
  }

  /** Applets whose paths hold no tab, written one per newline-terminated line, parse back to exactly that list, in order. */
  lemma ManifestRoundTrip(applets: seq<Applet>)
    requires applets != [] && forall i :: 0 <= i < |applets| ==> PlainApplet(applets[i])
    ensures Manifest(Join(AppletTexts(applets), '\n') + "\n") == Some(applets)
  {
    var text, lines := Join(AppletTexts(applets), '\n'), AppletTexts(applets);
    AppletTextsMean(applets);
    SplitJoin(lines, '\n');
    SplitAppend(text, [], '\n');
    assert text + ['\n'] + [] == text + "\n";
    assert (lines + [[]])[..|lines|] == lines;
  }

  /** The applet list is refused exactly when some line has something on it but no tab. */
  lemma {:induction false} AppletsFailIff(lines: seq<string>)
    ensures AppletsOf(lines).Some?
       <==> forall i :: 0 <= i < |lines| ==> '\t' in lines[i] || forall k :: 0 <= k < |lines[i]| ==> lines[i][k] == '\r'
  {
    if lines != [] {
      var n := |lines| - 1;
      AppletsFailIff(lines[..n]);
      assert forall i :: 0 <= i < n ==> lines[..n][i] == lines[i];
      TrimmedLine(lines[n]);
      CutFailsIff(TrimCarriageReturns(lines[n]));
    }
  }

  lemma {:induction false} TrimmedLine(s: string)
    ensures '\t' in TrimCarriageReturns(s) <==> '\t' in s
    ensures TrimCarriageReturns(s) == [] <==> forall k :: 0 <= k < |s| ==> s[k] == '\r'
  {
    if s != [] && s[|s| - 1] == '\r' {
      TrimmedLine(s[..|s| - 1]);
      assert s == s[..|s| - 1] + ['\r'];
    }
  }

  lemma {:induction false} CutFailsIff(s: string)
    ensures CutTab(s).None? <==> '\t' !in s
  {
    if s != [] && s[0] != '\t' {
      CutFailsIff(s[1..]);
    }
  }

  /** Carriage returns in front of the line ends, and lines of nothing else, do not change an applet list. */
  lemma {:induction false} CarriageReturnsIgnored(lines: seq<string>, ends: seq<string>)
    requires |ends| == |lines| && forall i, k :: 0 <= i < |lines| && 0 <= k < |ends[i]| ==> ends[i][k] == '\r'
    ensures AppletsOf(Ended(lines, ends)) == AppletsOf(lines)
    ensures AppletsOf(lines + [[]]) == AppletsOf(lines)
  {
    assert (lines + [[]])[..|lines|] == lines;
    if lines != [] {
      var n := |lines| - 1;
      CarriageReturnsIgnored(lines[..n], ends[..n]);
      assert Ended(lines, ends)[..n] == Ended(lines[..n], ends[..n]);
      TrimReturns(lines[n], ends[n]);
    }
  }

  function Ended(lines: seq<string>, ends: seq<string>): (r: seq<string>)
    requires |ends| == |lines|
    ensures |r| == |lines|
  {
    seq(|lines|, i requires 0 <= i < |lines| => lines[i] + ends[i])
  }

  lemma {:induction false} TrimReturns(s: string, end: string)
    requires forall k :: 0 <= k < |end| ==> end[k] == '\r'
    ensures TrimCarriageReturns(s + end) == TrimCarriageReturns(s)
  {
    if end == [] {
      assert s + end == s;
    } else {
      assert (s + end)[..|s + end| - 1] == s + end[..|end| - 1];
      TrimReturns(s, end[..|end| - 1]);
    }
  }
}
