/** ARG substitution in a Nimbusfile line (`substituteArgs`), as a refinement of a token-level meaning, and the joining of
    continued lines in front of it (`joinContinuations`). A string is a sequence of bytes, one char each. */
module ArgSubst {
  import opened Bytes
  import opened Strings

  predicate NameStart(c: char) { c == '_' || 'a' <= c <= 'z' || 'A' <= c <= 'Z' }

  predicate NameChar(c: char) { NameStart(c) || '0' <= c <= '9' }

  // ----- what a line means

  datatype Token = Literal(c: char) | Dollar | Reference(name: string)

  /** The index of the first '}'. */
  function ClosingBrace(s: string): (r: Option<nat>)
    ensures r.Some? ==> r.value < |s| && s[r.value] == '}' && '}' !in s[..r.value]
    ensures r.None? ==> '}' !in s
  {
    if s == [] then None
    else if s[0] == '}' then Some(0)
    else
      var k :- ClosingBrace(s[1..]);
      assert s[..k + 1] == [s[0]] + s[1..][..k];
      Some(k + 1)
  }

  function NameLength(s: string): (n: nat)
    ensures n <= |s| && (n < |s| ==> !NameChar(s[n]))
    ensures forall k :: 0 <= k < n ==> NameChar(s[k])
  {
    if s == [] || !NameChar(s[0]) then 0 else 1 + NameLength(s[1..])
  }

  /** The first token and how many characters it takes; None for an unterminated "${". */
  function FirstToken(s: string): (r: Option<(Token, nat)>)
    requires s != []
    ensures r.Some? ==> 0 < r.value.1 <= |s|
  {
    if s[0] != '$' || |s| == 1 then Some((Literal(s[0]), 1))
    else if s[1] == '$' then Some((Dollar, 2))
    else if s[1] == '{' then
      var end :- ClosingBrace(s[2..]);
      Some((Reference(s[2..2 + end]), 2 + end + 1))
    else if !NameStart(s[1]) then Some((Literal('$'), 1))
    else
      var n := NameLength(s[1..]);
      Some((Reference(s[1..1 + n]), 1 + n))
  }

  function Tokens(s: string): Option<seq<Token>>
    decreases |s|
  {
    if s == [] then Some([])
    else
      var (t, n) :- FirstToken(s);
      var rest :- Tokens(s[n..]);
      Some([t] + rest)
  }

  /** A token's text under the ARG values seen so far; None for a name not among them. */
  function TokenText(t: Token, values: map<string, string>): Option<string> {
    match t
    case Literal(c) => Some([c])
    case Dollar => Some("$")
    case Reference(name) => if name in values then Some(values[name]) else None
  }

  function Meaning(ts: seq<Token>, values: map<string, string>): Option<string> {
    if ts == [] then Some([])
    else
      var text :- TokenText(ts[0], values);
      var rest :- Meaning(ts[1..], values);
      Some(text + rest)
  }

  function Substituted(s: string, values: map<string, string>): Option<string> {
    var ts :- Tokens(s);
    Meaning(ts, values)
  }

  // ----- the scanning loop

  function Prefixed(out: string, rest: Option<string>): Option<string> {
    if rest.Some? then Some(out + rest.value) else None
  }

  /** One token off the front of the rest. */
  lemma SubstitutedStep(s: string, values: map<string, string>)
    requires s != []
    ensures Substituted(s, values)
         == match FirstToken(s)
            case None => None
            case Some((t, n)) => (match TokenText(t, values)
                                  case None => None
                                  case Some(text) => Prefixed(text, Substituted(s[n..], values)))
  {
    if FirstToken(s).Some? {
      var (t, n) := FirstToken(s).value;
      var rest := Tokens(s[n..]);
      if rest.Some? {
        assert ([t] + rest.value)[1..] == rest.value;
      }
    }
  }

  lemma PrefixedTwice(a: string, b: string, rest: Option<string>)
    ensures Prefixed(a, Prefixed(b, rest)) == Prefixed(a + b, rest)
  {
    if rest.Some? {
      assert a + (b + rest.value) == (a + b) + rest.value;
    }
  }

  lemma {:induction false} NoDollarNoChange(s: string, values: map<string, string>)
    requires '$' !in s
    ensures Substituted(s, values) == Some(s)
  {
    if s != [] {
      SubstitutedStep(s, values);
      NoDollarNoChange(s[1..], values);
      assert s == [s[0]] + s[1..];
    }
  }

  method SubstituteArgs(rest: string, values: map<string, string>) returns (r: Option<string>)
    ensures r == Substituted(rest, values)
  {
    hide Substituted, FirstToken, Prefixed, ClosingBrace, NameLength, NameChar, NameStart;
    if '$' !in rest {
      NoDollarNoChange(rest, values);
      return Some(rest);
    }
    var out: string := [];
    var i := 0;
    EmptyParts(rest, values);
    assert rest[0..] == rest;
    while i < |rest|
      invariant 0 <= i <= |rest|
      invariant Substituted(rest, values) == Prefixed(out, Substituted(rest[i..], values))
    {
      TokenAt(rest, i);
      TakeToken(out, rest, i, values);
      var c := rest[i];
      if c != '$' || i + 1 >= |rest| {
        out := out + [c];
        i := i + 1;
        continue;
      }
      if rest[i + 1] == '$' {
        out := out + "$";
        i := i + 2;
        continue;
      }
      if rest[i + 1] == '{' {
        var end := ClosingBrace(rest[i + 2..]);
        if end.None? {
          return None;
        }
        var name := rest[i + 2..i + 2 + end.value];
        if name !in values {
          return None;
        }
        out := out + values[name];
        i := i + 2 + end.value + 1;
        continue;
      }
      if !NameStart(rest[i + 1]) {
        out := out + [c];
        i := i + 1;
        continue;
      }
      var j := i + 1;
      while j < |rest| && NameChar(rest[j])
        invariant i + 1 <= j <= |rest|
        invariant forall k :: i + 1 <= k < j ==> NameChar(rest[k])
      {
        j := j + 1;
      }
      NameLengthIs(rest[i + 1..], j - (i + 1));
      var name := rest[i + 1..j];
      if name !in values {
        return None;
      }
      out := out + values[name];
      i := j;
    }
    assert rest[i..] == [];
    EmptyParts(out, values);
    return Some(out);
  }

  /** The first token from offset i on, in terms of offsets in the whole line. */
  lemma TokenAt(s: string, i: nat)
    requires i < |s|
    ensures s[i] != '$' || i + 1 >= |s| ==> FirstToken(s[i..]) == Some((Literal(s[i]), 1))
    ensures s[i] == '$' && i + 1 < |s| && s[i + 1] == '$' ==> FirstToken(s[i..]) == Some((Dollar, 2))
    ensures s[i] == '$' && i + 1 < |s| && s[i + 1] == '{'
        ==> FirstToken(s[i..]) == match ClosingBrace(s[i + 2..])
                                  case None => None
                                  case Some(end) => Some((Reference(s[i + 2..i + 2 + end]), 2 + end + 1))
    ensures s[i] == '$' && i + 1 < |s| && s[i + 1] != '$' && s[i + 1] != '{'
        ==> FirstToken(s[i..]) == if !NameStart(s[i + 1]) then Some((Literal(s[i]), 1))
                                  else var n := NameLength(s[i + 1..]);
                                       Some((Reference(s[i + 1..i + 1 + n]), 1 + n))
  {
    hide ClosingBrace, NameLength, NameChar, NameStart;
    var t := s[i..];
    assert t[1..] == s[i + 1..];
    if |t| > 1 {
      assert t[2..] == s[i + 2..];
      var n := NameLength(s[i + 1..]);
      assert t[1..1 + n] == s[i + 1..i + 1 + n];
      var end := ClosingBrace(s[i + 2..]);
      if end.Some? {
        assert t[2..2 + end.value] == s[i + 2..i + 2 + end.value];
      }
    }
  }

  /** What taking the token at offset i does to the loop's invariant. */
  lemma TakeToken(out: string, rest: string, i: nat, values: map<string, string>)
    requires i < |rest|
    requires Substituted(rest, values) == Prefixed(out, Substituted(rest[i..], values))
    ensures var first := FirstToken(rest[i..]);
            if first.None? || TokenText(first.value.0, values).None? then Substituted(rest, values) == None
            else
              var (t, n) := first.value;
              && i + n <= |rest|
              && Substituted(rest, values) == Prefixed(out + TokenText(t, values).value, Substituted(rest[i + n..], values))
  {
    hide Substituted, FirstToken;
    SubstitutedStep(rest[i..], values);
    var first := FirstToken(rest[i..]);
    if first.Some? && TokenText(first.value.0, values).Some? {
      var (t, n) := first.value;
      assert rest[i..][n..] == rest[i + n..];
      PrefixedTwice(out, TokenText(t, values).value, Substituted(rest[i + n..], values));
    }
  }

  lemma EmptyParts(s: string, values: map<string, string>)
    ensures Substituted([], values) == Some([])
    ensures Prefixed([], Substituted(s, values)) == Substituted(s, values) && Prefixed(s, Some([])) == Some(s)
  {
    var rest := Substituted(s, values);
    if rest.Some? {
      assert [] + rest.value == rest.value;
    }
    assert s + [] == s;
  }

  lemma {:induction false} NameLengthIs(s: string, n: nat)
    requires n <= |s| && (forall k :: 0 <= k < n ==> NameChar(s[k])) && (n < |s| ==> !NameChar(s[n]))
    ensures NameLength(s) == n
  {
    if n > 0 {
      NameLengthIs(s[1..], n - 1);
    }
  }

  // ----- laws

  /** Text with every '$' doubled. */
  function Escaped(s: string): string {
    if s == [] then [] else EscapedChar(s[0]) + Escaped(s[1..])
  }

  function EscapedChar(c: char): string { if c == '$' then "$$" else [c] }

  /** Escaped text in front of anything contributes exactly itself, under any values. */
  lemma {:induction false} EscapedPrefix(s: string, rest: string, values: map<string, string>)
    ensures Substituted(Escaped(s) + rest, values) == Prefixed(s, Substituted(rest, values))
  {
    hide Substituted, EscapedChar, Prefixed;
    if s == [] {
      assert Escaped(s) + rest == rest;
      EmptyParts(rest, values);
    } else {
      var after := Escaped(s[1..]) + rest;
      assert Escaped(s) + rest == EscapedChar(s[0]) + after;
      EscapedCharPrefix(s[0], after, values);
      EscapedPrefix(s[1..], rest, values);
      PrefixedTwice([s[0]], s[1..], Substituted(rest, values));
      assert s == [s[0]] + s[1..];
    }
  }

  lemma EscapedCharPrefix(c: char, after: string, values: map<string, string>)
    ensures Substituted(EscapedChar(c) + after, values) == Prefixed([c], Substituted(after, values))
  {
    hide Substituted, Prefixed;
    var all := EscapedChar(c) + after;
    assert all[|EscapedChar(c)|..] == after;
    SubstitutedStep(all, values);
  }

  /** Doubling every '$' of any string and substituting returns that string, under any values. */
  lemma EscapeRoundTrip(s: string, values: map<string, string>)
    ensures Substituted(Escaped(s), values) == Some(s)
  {
    EscapedPrefix(s, [], values);
    assert Escaped(s) + [] == Escaped(s) && s + [] == s;
  }

  datatype Segment = Text(text: string) | Arg(name: string)

  function Rendered(segments: seq<Segment>): string {
    if segments == [] then []
    else (match segments[0]
          case Text(text) => Escaped(text)
          case Arg(name) => "${" + name + "}") + Rendered(segments[1..])
  }

  function SegmentMeaning(segments: seq<Segment>, values: map<string, string>): Option<string> {
    if segments == [] then Some([])
    else match segments[0]
         case Text(text) => Prefixed(text, SegmentMeaning(segments[1..], values))
         case Arg(name) => if name in values then Prefixed(values[name], SegmentMeaning(segments[1..], values)) else None
  }

  /** A braced reference in front of anything stands for its value, which is not scanned again whatever it contains. */
  lemma BracedPrefix(name: string, rest: string, values: map<string, string>)
    requires '}' !in name
    ensures Substituted("${" + name + "}" + rest, values)
         == if name in values then Prefixed(values[name], Substituted(rest, values)) else None
  {
    hide Substituted;
    var s := "${" + name + "}" + rest;
    assert s[2..] == name + "}" + rest;
    BraceAt(name, rest);
    assert s[2..2 + |name|] == name && s[2 + |name| + 1..] == rest;
    SubstitutedStep(s, values);
  }

  lemma {:induction false} BraceAt(name: string, rest: string)
    requires '}' !in name
    ensures ClosingBrace(name + "}" + rest) == Some(|name|)
  {
    if name != [] {
      assert (name + "}" + rest)[1..] == name[1..] + "}" + rest;
      BraceAt(name[1..], rest);
    }
  }

  /** Any mixture of text and references, the text escaped and the references braced, substitutes to the text with the
      values in place. */
  lemma {:induction false} RenderedMeaning(segments: seq<Segment>, values: map<string, string>)
    requires forall i :: 0 <= i < |segments| && segments[i].Arg? ==> '}' !in segments[i].name
    ensures Substituted(Rendered(segments), values) == SegmentMeaning(segments, values)
  {
    hide Substituted;
    if segments == [] {
      EmptyParts([], values);
    } else {
      RenderedMeaning(segments[1..], values);
      if segments[0].Text? {
        EscapedPrefix(segments[0].text, Rendered(segments[1..]), values);
      } else {
        BracedPrefix(segments[0].name, Rendered(segments[1..]), values);
      }
    }
  }

  /** A successful result stays the same when more ARG values are declared. */
  lemma {:induction false} MeaningMonotone(ts: seq<Token>, values: map<string, string>, more: map<string, string>)
    requires Meaning(ts, values).Some?
    requires forall name :: name in values ==> name in more && more[name] == values[name]
    ensures Meaning(ts, more) == Meaning(ts, values)
  {
    if ts != [] {
      MeaningMonotone(ts[1..], values, more);
    }
  }

  lemma SubstitutionMonotone(s: string, values: map<string, string>, more: map<string, string>)
    requires Substituted(s, values).Some?
    requires forall name :: name in values ==> name in more && more[name] == values[name]
    ensures Substituted(s, more) == Substituted(s, values)
  {
    MeaningMonotone(Tokens(s).value, values, more);
  }

  lemma {:induction false} MeaningFailsIff(ts: seq<Token>, values: map<string, string>)
    ensures Meaning(ts, values).None? <==> exists i :: 0 <= i < |ts| && ts[i].Reference? && ts[i].name !in values
  {
    if ts != [] {
      MeaningFailsIff(ts[1..], values);
      if i :| 0 <= i < |ts| && ts[i].Reference? && ts[i].name !in values {
        if i > 0 {
          assert ts[1..][i - 1] == ts[i];
        }
      }
      if Meaning(ts[1..], values).None? {
        var k :| 0 <= k < |ts[1..]| && ts[1..][k].Reference? && ts[1..][k].name !in values;
        assert ts[k + 1] == ts[1..][k];
      }
    }
  }

  /** Substitution fails exactly when a "${" is never closed or some reference names no declared ARG. */
  lemma SubstitutionFailsIff(s: string, values: map<string, string>)
    ensures Substituted(s, values).None?
       <==> Tokens(s).None? || exists i :: 0 <= i < |Tokens(s).value| && Tokens(s).value[i].Reference? && Tokens(s).value[i].name !in values
  {
    if Tokens(s).Some? {
      MeaningFailsIff(Tokens(s).value, values);
    }
  }

  /** "$5" is no reference: a '$' in front of anything but a name, '{' or '$' stays as it is. */
  lemma LoneDollarStays(c: char, rest: string, values: map<string, string>)
    requires c != '$' && c != '{' && !NameStart(c)
    ensures Substituted("$" + [c] + rest, values) == Prefixed("$" + [c], Substituted(rest, values))
  {
    hide Substituted;
    var s := "$" + [c] + rest;
    assert s[1..] == [c] + rest && ([c] + rest)[1..] == rest;
    SubstitutedStep(s, values);
    SubstitutedStep([c] + rest, values);
    PrefixedTwice("$", [c], Substituted(rest, values));
  }

  /** A bare reference takes the longest run of letters, digits and underscores that does not begin with a digit, and
      stands for its value. */
  lemma BareReference(name: string, rest: string, values: map<string, string>)
    requires name != [] && !(48 <= name[0] as int <= 57) && forall i :: 0 <= i < |name| ==> IsWordChar(name[i])
    requires rest != [] ==> !IsWordChar(rest[0])
    ensures Substituted("$" + name + rest, values)
         == if name in values then Prefixed(values[name], Substituted(rest, values)) else None
  {
    hide Substituted, ClosingBrace;
    var s := "$" + name + rest;
    var n := |name|;
    WordChars(name[0]);
    assert s[1] == name[0] && s[1..] == name + rest;
    forall k | 0 <= k < n
      ensures NameChar((name + rest)[k])
    {
      WordChars(name[k]);
    }
    if rest != [] {
      WordChars(rest[0]);
    }
    NameLengthIs(name + rest, n);
    assert s[1..1 + n] == name && s[1 + n..] == rest;
    SubstitutedStep(s, values);
  }

  /** Underscore, letters and digits, by their character codes. */
  predicate IsWordChar(c: char) {
    c as int == 95 || 65 <= c as int <= 90 || 97 <= c as int <= 122 || 48 <= c as int <= 57
  }

  lemma WordChars(c: char)
    ensures NameChar(c) <==> IsWordChar(c)
    ensures NameStart(c) <==> IsWordChar(c) && !(48 <= c as int <= 57)
    ensures IsWordChar(c) ==> c != '$' && c != '{' && c != '}'
  {
  }

  // ----- joinContinuations

  datatype Logical = Logical(text: string, lineNo: nat)

  function TrimBlanks(s: string): string {
    if s != [] && (s[|s| - 1] == ' ' || s[|s| - 1] == '\t') then TrimBlanks(s[..|s| - 1]) else s
  }

  predicate Continues(line: string) {
    var t := TrimBlanks(line);
    t != [] && t[|t| - 1] == '\\'
  }

  /** A continued line without its backslash, and the blank that replaces the line break. */
  function Continued(line: string): string {
    var t := TrimBlanks(line);
    (if Continues(line) then t[..|t| - 1] else t) + " "
  }

  /** strings.ReplaceAll(src, "\r\n", "\n"). */
  function UnixNewlines(s: string): string {
    if s == [] then []
    else if s[0] == '\r' && |s| > 1 && s[1] == '\n' then "\n" + UnixNewlines(s[2..])
    else [s[0]] + UnixNewlines(s[1..])
  }

  /** The logical line that a group of physical lines makes: all but the last one continued. */
  function Glued(group: seq<string>): string {
    if group == [] then []
    else if |group| == 1 then group[0]
    else Continued(group[0]) + Glued(group[1..])
  }

  function Opened(group: seq<string>): string {
    if group == [] then [] else Opened(group[..|group| - 1]) + Continued(group[|group| - 1])
  }

  method JoinContinuations(src: string) returns (logical: seq<Logical>)
    ensures Joined(Split(UnixNewlines(src), '\n'), logical)
  {
    hide Glued, Opened, JoinedUpTo, Joined, TrimBlanks, Split, UnixNewlines, Continued;
    var physical := Split(UnixNewlines(src), '\n');
    logical := [];
    var acc: string := [];
    var startLine := 0;
    ghost var done := 0;
    NothingJoined(physical);
    for i := 0 to |physical|
      invariant 0 <= done <= i
      invariant forall k :: done <= k < i ==> Continues(physical[k])
      invariant acc == Opened(physical[done..i])
      invariant acc != [] ==> startLine == done + 1
      invariant acc == [] <==> done == i
      invariant JoinedUpTo(physical, logical, done)
    {
      var l := physical[i];
      if acc == [] {
        startLine := i + 1;
      }
      var trimmed := TrimBlanks(l);
      assert physical[done..i] + [l] == physical[done..i + 1];
      if |trimmed| > 0 && trimmed[|trimmed| - 1] == '\\' {
        OpenedExtends(physical[done..i], l);
        acc := acc + (trimmed[..|trimmed| - 1] + " ");
        continue;
      }
      GluedIs(physical[done..i], l);
      JoinedExtends(physical, logical, done, i + 1, Logical(acc + l, startLine));
      logical := logical + [Logical(acc + l, startLine)];
      acc := [];
      done := i + 1;
      assert physical[done..i + 1] == [];
    }
    if acc != [] {
      assert physical[done..|physical|] == physical[done..];
      OpenEnd(physical, logical, done, acc);
      logical := logical + [Logical(acc, startLine)];
    } else {
      AllJoined(physical, logical);
    }
  }

  lemma NothingJoined(physical: seq<string>)
    ensures JoinedUpTo(physical, [], 0) && Opened([]) == []
  {
  }

  lemma AllJoined(physical: seq<string>, logical: seq<Logical>)
    requires JoinedUpTo(physical, logical, |physical|)
    ensures Joined(physical, logical)
  {
  }

  lemma OpenedExtends(group: seq<string>, l: string)
    requires Continues(l)
    ensures Opened(group + [l]) == Opened(group) + Continued(l) != []
    ensures Continued(l) == TrimBlanks(l)[..|TrimBlanks(l)| - 1] + " "
  {
    assert (group + [l])[..|group|] == group;
  }

  /** The logical lines are the groups of physical lines up to n, in order: each starts where the one before ended, is
      numbered by its first physical line, and ends with the first line that does not continue. */
  ghost predicate JoinedUpTo(physical: seq<string>, logical: seq<Logical>, n: nat) {
    if logical == [] then n == 0
    else
      var last := logical[|logical| - 1];
      && 1 <= last.lineNo <= n <= |physical|
      && JoinedUpTo(physical, logical[..|logical| - 1], last.lineNo - 1)
      && (forall k :: last.lineNo - 1 <= k < n - 1 ==> Continues(physical[k]))
      && !Continues(physical[n - 1])
      && last.text == Glued(physical[last.lineNo - 1..n])
  }

  /** All physical lines are used; a backslash on the very last one leaves an open group as the last logical line. */
  ghost predicate Joined(physical: seq<string>, logical: seq<Logical>) {
    || JoinedUpTo(physical, logical, |physical|)
    || (logical != []
        && var last := logical[|logical| - 1];
           && 1 <= last.lineNo <= |physical|
           && JoinedUpTo(physical, logical[..|logical| - 1], last.lineNo - 1)
           && (forall k :: last.lineNo - 1 <= k < |physical| ==> Continues(physical[k]))
           && last.text == Opened(physical[last.lineNo - 1..]))
  }

  lemma JoinedExtends(physical: seq<string>, logical: seq<Logical>, done: nat, n: nat, next: Logical)
    requires JoinedUpTo(physical, logical, done) && done < n <= |physical| && next.lineNo == done + 1
    requires forall k :: done <= k < n - 1 ==> Continues(physical[k])
    requires !Continues(physical[n - 1]) && next.text == Glued(physical[done..n])
    ensures JoinedUpTo(physical, logical + [next], n)
  {
    assert (logical + [next])[..|logical|] == logical;
  }

  lemma OpenEnd(physical: seq<string>, logical: seq<Logical>, done: nat, acc: string)
    requires JoinedUpTo(physical, logical, done) && done < |physical|
    requires forall k :: done <= k < |physical| ==> Continues(physical[k])
    requires acc == Opened(physical[done..])
    ensures Joined(physical, logical + [Logical(acc, done + 1)])
  {
    var all := logical + [Logical(acc, done + 1)];
    assert all[..|all| - 1] == logical;
  }

  lemma {:induction false} GluedIs(group: seq<string>, l: string)
    ensures Glued(group + [l]) == Opened(group) + l
  {
    if group == [] {
      assert group + [l] == [l];
    } else {
      var g := group + [l];
      assert g[1..] == group[1..] + [l];
      GluedIs(group[1..], l);
      OpenedFront(group);
    }
  }

  lemma {:induction false} OpenedFront(group: seq<string>)
    requires group != []
    ensures Opened(group) == Continued(group[0]) + Opened(group[1..])
  {
    hide Continues, Continued;
    if |group| > 1 {
      var front := group[..|group| - 1];
      OpenedFront(front);
      var last := Continued(group[|group| - 1]);
      assert Opened(group[1..]) == Opened(front[1..]) + last by {
        assert group[1..][..|group| - 2] == front[1..];
      }
      assert Opened(group) == Opened(front) + last;
      hide Opened;
    } else {
      assert group[..0] == [] && group[1..] == [];
    }
  }

  /** Where the last group starts is determined: right after the last line that does not continue. */
  lemma LastStartIs(physical: seq<string>, a: seq<Logical>, m: nat, b: seq<Logical>, k: nat, n: nat)
    requires JoinedUpTo(physical, a, m) && JoinedUpTo(physical, b, k) && m < n <= |physical| && k < n
    requires forall j :: m <= j < n - 1 ==> Continues(physical[j])
    requires forall j :: k <= j < n - 1 ==> Continues(physical[j])
    ensures m == k
  {
    hide Continues, Glued;
    assert m == 0 || !Continues(physical[m - 1]);
    assert k == 0 || !Continues(physical[k - 1]);
  }

  lemma {:induction false} UpToIsUnique(physical: seq<string>, a: seq<Logical>, b: seq<Logical>, n: nat)
    requires JoinedUpTo(physical, a, n) && JoinedUpTo(physical, b, n)
    ensures a == b
    decreases |a|
  {
    hide Continues, Glued;
    if n > 0 {
      var x, y := a[|a| - 1], b[|b| - 1];
      LastStartIs(physical, a[..|a| - 1], x.lineNo - 1, b[..|b| - 1], y.lineNo - 1, n);
      UpToIsUnique(physical, a[..|a| - 1], b[..|b| - 1], x.lineNo - 1);
      assert a == a[..|a| - 1] + [x] && b == b[..|b| - 1] + [y];
    }
  }

  /** last is the final logical line, closed or open, and front what comes in front of it. */
  ghost predicate LastIs(physical: seq<string>, front: seq<Logical>, last: Logical)
    requires physical != []
  {
    && 1 <= last.lineNo <= |physical| && JoinedUpTo(physical, front, last.lineNo - 1)
    && (forall k :: last.lineNo - 1 <= k < |physical| - 1 ==> Continues(physical[k]))
    && last.text == LastText(physical, last.lineNo - 1)
  }

  function LastText(physical: seq<string>, start: nat): string
    requires start < |physical|
  {
    if Continues(physical[|physical| - 1]) then Opened(physical[start..]) else Glued(physical[start..])
  }

  lemma LastGroup(physical: seq<string>, a: seq<Logical>)
    requires physical != [] && Joined(physical, a)
    ensures a != [] && LastIs(physical, a[..|a| - 1], a[|a| - 1])
  {
    hide Continues, Opened, Glued;
    var last := a[|a| - 1];
    assert physical[last.lineNo - 1..|physical|] == physical[last.lineNo - 1..];
  }

  lemma SameLast(physical: seq<string>, fa: seq<Logical>, x: Logical, fb: seq<Logical>, y: Logical)
    requires physical != [] && LastIs(physical, fa, x) && LastIs(physical, fb, y)
    ensures fa == fb && x == y
  {
    hide Continues, JoinedUpTo, LastText;
    LastStartIs(physical, fa, x.lineNo - 1, fb, y.lineNo - 1, |physical|);
    UpToIsUnique(physical, fa, fb, x.lineNo - 1);
  }

  /** The physical lines determine the logical lines and their numbers. */
  lemma JoinedIsUnique(physical: seq<string>, a: seq<Logical>, b: seq<Logical>)
    requires physical != [] && Joined(physical, a) && Joined(physical, b)
    ensures a == b
  {
    hide Joined, LastIs;
    LastGroup(physical, a);
    LastGroup(physical, b);
    SameLast(physical, a[..|a| - 1], a[|a| - 1], b[..|b| - 1], b[|b| - 1]);
    assert a == a[..|a| - 1] + [a[|a| - 1]] && b == b[..|b| - 1] + [b[|b| - 1]];
  }

  /** Line numbers strictly increase. */
  lemma {:induction false} LineNumbersIncrease(physical: seq<string>, logical: seq<Logical>, n: nat, i: nat, j: nat)
    requires JoinedUpTo(physical, logical, n) && i < j < |logical|
    ensures logical[i].lineNo < logical[j].lineNo <= n
    decreases |logical|
  {
    var front := logical[..|logical| - 1];
    var last := logical[|logical| - 1];
    if j < |logical| - 1 {
      LineNumbersIncrease(physical, front, last.lineNo - 1, i, j);
    } else {
      LineNumberBound(physical, front, last.lineNo - 1, i);
    }
  }

  lemma {:induction false} LineNumberBound(physical: seq<string>, logical: seq<Logical>, n: nat, i: nat)
    requires JoinedUpTo(physical, logical, n) && i < |logical|
    ensures logical[i].lineNo <= n
    decreases |logical|
  {
    if i < |logical| - 1 {
      LineNumberBound(physical, logical[..|logical| - 1], logical[|logical| - 1].lineNo - 1, i);
    }
  }

  lemma LastAlone(physical: seq<string>, logical: seq<Logical>, n: nat)
    requires JoinedUpTo(physical, logical, n)
    requires forall k :: 0 <= k < |physical| ==> !Continues(physical[k])
    ensures if logical == [] then n == 0
            else && 0 < n <= |physical| && JoinedUpTo(physical, logical[..|logical| - 1], n - 1)
                 && logical[|logical| - 1] == Logical(physical[n - 1], n)
  {
    hide Continues, Glued;
    if logical == [] {
      return;
    }
    var last := logical[|logical| - 1];
    var first := physical[last.lineNo - 1];
    assert last.lineNo == n || Continues(first);
    assert physical[n - 1..n] == [] + [physical[n - 1]];
    GluedIs([], physical[n - 1]);
    NothingJoined(physical);
  }

  /** A file without continuations is its own list of lines. */
  lemma {:induction false} WithoutContinuations(physical: seq<string>, logical: seq<Logical>, n: nat)
    requires JoinedUpTo(physical, logical, n) && forall k :: 0 <= k < |physical| ==> !Continues(physical[k])
    ensures |logical| == n <= |physical| && forall k :: 0 <= k < n ==> logical[k] == Logical(physical[k], k + 1)
    decreases |logical|
  {
    hide Continues, JoinedUpTo;
    LastAlone(physical, logical, n);
    if logical != [] {
      WithoutContinuations(physical, logical[..|logical| - 1], n - 1);
    }
  }

  /** A line continues exactly when it is some text, a backslash, and blanks or tabs; what it contributes is the text and
      one blank. */
  lemma ContinuesIff(line: string)
    ensures Continues(line) <==> exists n: nat :: BackslashAt(line, n)
  {
    TrimIsPrefix(line);
    var t := TrimBlanks(line);
    if Continues(line) {
      assert BackslashAt(line, |t| - 1);
    }
    if n: nat :| BackslashAt(line, n) {
      TrimStops(line, n + 1);
    }
  }

  lemma ContinuedIs(line: string, n: nat)
    requires BackslashAt(line, n)
    ensures Continues(line) && Continued(line) == line[..n] + " "
  {
    TrimStops(line, n + 1);
  }

  predicate BackslashAt(line: string, n: nat) {
    n < |line| && line[n] as int == 92 && forall k :: n < k < |line| ==> line[k] as int == 32 || line[k] as int == 9
  }

  lemma {:induction false} TrimIsPrefix(s: string)
    ensures TrimBlanks(s) <= s && forall k :: |TrimBlanks(s)| <= k < |s| ==> s[k] as int == 32 || s[k] as int == 9
  {
    if s != [] && (s[|s| - 1] == ' ' || s[|s| - 1] == '\t') {
      TrimIsPrefix(s[..|s| - 1]);
    }
  }

  lemma {:induction false} TrimStops(s: string, n: nat)
    requires 0 < n <= |s| && s[n - 1] as int == 92 && forall k :: n <= k < |s| ==> s[k] as int == 32 || s[k] as int == 9
    ensures TrimBlanks(s) == s[..n]
  {
    if n < |s| {
      TrimStops(s[..|s| - 1], n);
      assert s[..|s| - 1][..n] == s[..n];
    } else {
      assert s[..n] == s;
    }
  }

  /** Lines without line ends or carriage returns of their own split alike, whether they end in CR LF or LF. */
  lemma {:induction false} WindowsLinesAgree(lines: seq<string>, ends: seq<bool>)
    requires |ends| == |lines| && forall i :: 0 <= i < |lines| ==> '\n' !in lines[i] && '\r' !in lines[i]
    ensures UnixNewlines(EndedText(lines, ends)) == EndedText(lines, seq(|lines|, _ => false))
    ensures Split(UnixNewlines(EndedText(lines, ends)), '\n') == lines + [[]]
  {
    UnixText(lines, ends);
    SplitText(lines);
  }

  /** Each line with its end, CR LF where ends says so. */
  function EndedText(lines: seq<string>, ends: seq<bool>): string
    requires |ends| == |lines|
  {
    if lines == [] then [] else lines[0] + (if ends[0] then "\r\n" else "\n") + EndedText(lines[1..], ends[1..])
  }

  lemma {:induction false} UnixText(lines: seq<string>, ends: seq<bool>)
    requires |ends| == |lines| && forall i :: 0 <= i < |lines| ==> '\n' !in lines[i] && '\r' !in lines[i]
    ensures UnixNewlines(EndedText(lines, ends)) == EndedText(lines, seq(|lines|, _ => false))
  {
    if lines != [] {
      var plain := seq(|lines|, _ => false);
      UnixText(lines[1..], ends[1..]);
      assert plain[1..] == seq(|lines| - 1, _ => false);
      var rest := EndedText(lines[1..], ends[1..]);
      var end := if ends[0] then "\r\n" else "\n";
      assert EndedText(lines, ends) == lines[0] + (end + rest);
      KeepsPlain(lines[0], end + rest);
      assert (end + rest)[|end|..] == rest && (end + rest)[0] == end[0];
      assert UnixNewlines(end + rest) == "\n" + UnixNewlines(rest);
    }
  }

  lemma {:induction false} KeepsPlain(line: string, rest: string)
    requires '\r' !in line
    ensures UnixNewlines(line + rest) == line + UnixNewlines(rest)
  {
    if line == [] {
      assert line + rest == rest;
    } else {
      assert (line + rest)[1..] == line[1..] + rest;
      KeepsPlain(line[1..], rest);
    }
  }

  lemma {:induction false} SplitText(lines: seq<string>)
    requires forall i :: 0 <= i < |lines| ==> '\n' !in lines[i]
    ensures Split(EndedText(lines, seq(|lines|, _ => false)), '\n') == lines + [[]]
  {
    var all := lines + [[]];
    TextIsJoin(lines);
    SplitJoin(all, '\n');
  }

  lemma {:induction false} TextIsJoin(lines: seq<string>)
    ensures EndedText(lines, seq(|lines|, _ => false)) == Join(lines + [[]], '\n')
  {
    if lines == [] {
      assert lines + [[]] == [[]];
    } else {
      TextIsJoin(lines[1..]);
      assert seq(|lines|, _ => false)[1..] == seq(|lines| - 1, _ => false);
      assert lines + [[]] == [lines[0]] + (lines[1..] + [[]]);
      JoinFront(lines[0], lines[1..] + [[]]);
    }
  }

  lemma {:induction false} JoinFront(first: string, rest: seq<string>)
    requires rest != []
    ensures Join([first] + rest, '\n') == first + "\n" + Join(rest, '\n')
  {
    var all := [first] + rest;
    if |rest| == 1 {
      assert all[..1] == [first];
    } else {
      var front := rest[..|rest| - 1];
      assert all[..|all| - 1] == [first] + front;
      JoinFront(first, front);
    }
  }
}
