/** Quoting words for /bin/sh (`shQuote`, `shJoin`), against a reader that splits a line into words by sections 2.2.1 and
    2.2.2 of the POSIX Shell Command Language. */
module ShellQuote {
  import opened Bytes
  import opened Strings

  // ----- the printer

  /** strings.ReplaceAll(s, "'", `'\''`). */
  function ReplaceQuotes(s: string): string {
    if s == [] then [] else Replacement(s[0]) + ReplaceQuotes(s[1..])
  }

  function Replacement(c: char): string { if c == '\'' then "'\\''" else [c] }

  function ShQuote(s: string): string { "'" + ReplaceQuotes(s) + "'" }

  function Quoted(argv: seq<string>): (r: seq<string>)
    ensures |r| == |argv|
  {
    seq(|argv|, i requires 0 <= i < |argv| => ShQuote(argv[i]))
  }

  method ShJoin(argv: seq<string>) returns (line: string)
    ensures ReadWords(line) == Some(argv)
    ensures line == Join(Quoted(argv), ' ')
  {
    var quoted := [];
    for i := 0 to |argv|
      invariant quoted == Quoted(argv[..i])
    {
      quoted := quoted + [ShQuote(argv[i])];
    }
    assert argv[..|argv|] == argv;
    line := Join(quoted, ' ');
    JoinedReadsBack(argv);
  }

  // ----- the shell's reading

  /** Where the reader stands: between words, in a word outside quotes, after a backslash there, or inside single
      quotes. */
  datatype Mode = Between | Plain | Escaping | InQuotes

  /** Characters with a meaning to the shell outside quotes that the reader does not follow: expansions, operators,
      patterns, comments, double quotes and line ends. */
  predicate Special(c: char) { c in "|&;<>()$`\"*?[]#~=%!{}\n" }

  /** The words of s, continuing a reader in the given mode with the characters of its unfinished word. None if the line
      needs a rule the reader does not have, or ends inside quotes or after a backslash. */
  function Read(s: string, mode: Mode, word: string): Option<seq<string>>
    decreases |s|
  {
    if s == [] then
      if mode.Between? then Some([]) else if mode.Plain? then Some([word]) else None
    else if mode.InQuotes? then
      if s[0] == '\'' then Read(s[1..], Plain, word) else Read(s[1..], InQuotes, word + [s[0]])
    else if mode.Escaping? then
      if s[0] == '\n' then None else Read(s[1..], Plain, word + [s[0]])
    else if s[0] == '\'' then Read(s[1..], InQuotes, word)
    else if s[0] == '\\' then Read(s[1..], Escaping, word)
    else if Special(s[0]) then None
    else if s[0] != ' ' && s[0] != '\t' then Read(s[1..], Plain, word + [s[0]])
    else if mode.Between? then Read(s[1..], Between, word)
    else
      var more :- Read(s[1..], Between, []);
      Some([word] + more)
  }

  function ReadWords(s: string): Option<seq<string>> { Read(s, Between, []) }

  // ----- the round trip

  /** Replaced text inside quotes adds exactly the original to the word and leaves the reader inside quotes. */
  lemma {:induction false} ReplacedInside(s: string, rest: string, word: string)
    ensures Read(ReplaceQuotes(s) + rest, InQuotes, word) == Read(rest, InQuotes, word + s)
  {
    hide Read, Replacement;
    if s == [] {
      assert ReplaceQuotes(s) + rest == rest && word + s == word;
    } else {
      var after := ReplaceQuotes(s[1..]) + rest;
      assert ReplaceQuotes(s) + rest == Replacement(s[0]) + after;
      OneInside(s[0], after, word);
      ReplacedInside(s[1..], rest, word + [s[0]]);
      assert word + s == word + [s[0]] + s[1..];
    }
  }

  lemma OneInside(c: char, after: string, word: string)
    ensures Read(Replacement(c) + after, InQuotes, word) == Read(after, InQuotes, word + [c])
  {
    if c == '\'' {
      EscapedQuote(after, word);
    } else {
      assert ([c] + after)[1..] == after;
    }
  }

  /** `'\''` inside quotes: out of the quotes, an escaped quote, and in again. */
  lemma EscapedQuote(after: string, word: string)
    ensures Read("'\\''" + after, InQuotes, word) == Read(after, InQuotes, word + "'")
  {
    var s := "'\\''" + after;
    var s1 := s[1..];
    var s2 := s1[1..];
    assert s1[0] == '\\' && s2[0] == '\'' && s2[1..] == "'" + after && ("'" + after)[1..] == after;
    assert Read(s1, Plain, word) == Read(s2, Escaping, word);
    assert Read("'" + after, Plain, word + "'") == Read(after, InQuotes, word + "'");
  }

  /** A quoted string at the start of a word, or glued to one, adds exactly itself; the reader ends outside quotes in the
      same word. */
  lemma QuotedReads(s: string, rest: string, mode: Mode, word: string)
    requires mode.Between? || mode.Plain?
    ensures Read(ShQuote(s) + rest, mode, word) == Read(rest, Plain, word + s)
  {
    var all := ShQuote(s) + rest;
    assert all[1..] == ReplaceQuotes(s) + ("'" + rest);
    ReplacedInside(s, "'" + rest, word);
    assert ("'" + rest)[1..] == rest;
  }

  lemma BlankEndsWord(rest: string, word: string, words: seq<string>)
    requires Read(rest, Between, []) == Some(words)
    ensures Read(" " + rest, Plain, word) == Some([word] + words)
  {
    assert (" " + rest)[1..] == rest;
    assert !Special(' ');
  }

  /** A blank and a quoted string after a word: the word ends, and another one follows. */
  lemma {:induction false} QuotedList(word: string, argv: seq<string>)
    ensures Read(Tail(argv), Plain, word) == Some([word] + argv)
    decreases |argv|
  {
    if argv == [] {
      assert [word] + argv == [word];
    } else {
      var tail := Tail(argv);
      var rest := ShQuote(argv[0]) + Tail(argv[1..]);
      assert tail == " " + rest;
      QuotedReads(argv[0], Tail(argv[1..]), Between, []);
      QuotedList(argv[0], argv[1..]);
      assert [] + argv[0] == argv[0] && [argv[0]] + argv[1..] == argv;
      BlankEndsWord(rest, word, argv);
    }
  }

  /** The line after its first word. */
  function Tail(argv: seq<string>): string {
    if argv == [] then [] else " " + ShQuote(argv[0]) + Tail(argv[1..])
  }

  lemma {:induction false} TailAppend(argv: seq<string>, last: string)
    ensures Tail(argv + [last]) == Tail(argv) + " " + ShQuote(last)
  {
    if argv != [] {
      assert (argv + [last])[1..] == argv[1..] + [last];
      TailAppend(argv[1..], last);
    } else {
      assert argv + [last] == [last];
    }
  }

  lemma {:induction false} JoinIsTail(argv: seq<string>)
    requires argv != []
    ensures Join(Quoted(argv), ' ') == ShQuote(argv[0]) + Tail(argv[1..])
  {
    var q := Quoted(argv);
    if |argv| > 1 {
      var n := |argv| - 1;
      assert q[..n] == Quoted(argv[..n]);
      JoinIsTail(argv[..n]);
      assert argv[..n][1..] + [argv[n]] == argv[1..];
      TailAppend(argv[..n][1..], argv[n]);
    }
  }

  /** The joined line reads back as the list it was made of, whatever the strings hold: none, blanks, quotes, backslashes,
      line ends or nothing at all. */
  lemma JoinedReadsBack(argv: seq<string>)
    ensures ReadWords(Join(Quoted(argv), ' ')) == Some(argv)
  {
    if argv != [] {
      JoinIsTail(argv);
      QuotedReads(argv[0], Tail(argv[1..]), Between, []);
      QuotedList(argv[0], argv[1..]);
      assert [] + argv[0] == argv[0] && [argv[0]] + argv[1..] == argv;
    }
  }

  /** One quoted string is one word, that string. */
  lemma QuotedIsOneWord(s: string)
    ensures ReadWords(ShQuote(s)) == Some([s])
  {
    QuotedReads(s, [], Between, []);
    assert ShQuote(s) + [] == ShQuote(s) && [] + s == s;
  }

  lemma QuoteInjective(s: string, t: string)
    requires ShQuote(s) == ShQuote(t)
    ensures s == t
  {
    QuotedIsOneWord(s);
    QuotedIsOneWord(t);
    assert [s][0] == [t][0];
  }

  /** Different argument lists never make the same line. */
  lemma JoinInjective(a: seq<string>, b: seq<string>)
    requires Join(Quoted(a), ' ') == Join(Quoted(b), ' ')
    ensures a == b
  {
    JoinedReadsBack(a);
    JoinedReadsBack(b);
  }
}
