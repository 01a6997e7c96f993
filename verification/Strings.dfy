/** Splitting sequences at a separator and joining them again, as strings.Split and strings.Join do. */
module Strings {

  /** The pieces between separators; n separators give n + 1 pieces. */
  function Split<T(==)>(s: seq<T>, sep: T): (r: seq<seq<T>>)
    ensures r != []
  {
    if s == [] then [[]]
    else
      var init := Split(s[..|s| - 1], sep);
      var c := s[|s| - 1];
      if c == sep then init + [[]] else init[..|init| - 1] + [init[|init| - 1] + [c]]
  }

  function Join<T>(pieces: seq<seq<T>>, sep: T): seq<T> {
    if pieces == [] then []
    else if |pieces| == 1 then pieces[0]
    else Join(pieces[..|pieces| - 1], sep) + [sep] + pieces[|pieces| - 1]
  }

  lemma {:induction false} JoinSplit<T>(s: seq<T>, sep: T)
    ensures Join(Split(s, sep), sep) == s
  {
    if s != [] {
      var init := Split(s[..|s| - 1], sep);
      JoinSplit(s[..|s| - 1], sep);
      var c := s[|s| - 1];
      if c == sep {
        assert (init + [[]])[..|init|] == init;
      } else {
        var front, last := init[..|init| - 1], init[|init| - 1];
        var r := front + [last + [c]];
        assert r[..|r| - 1] == front;
      }
      assert s == s[..|s| - 1] + [c];
    }
  }

  /** A separator-free piece after a separator is the last piece. */
  lemma {:induction false} SplitAppend<T>(s: seq<T>, piece: seq<T>, sep: T)
    requires sep !in piece
    ensures Split(s + [sep] + piece, sep) == Split(s, sep) + [piece]
  {
    var all := s + [sep] + piece;
    if piece == [] {
      assert all[..|all| - 1] == s;
    } else {
      var front, c := piece[..|piece| - 1], piece[|piece| - 1];
      assert all[..|all| - 1] == s + [sep] + front;
      SplitAppend(s, front, sep);
      var init := Split(s, sep) + [front];
      assert init[..|init| - 1] == Split(s, sep);
      assert piece == front + [c];
    }
  }

  lemma {:induction false} SplitSingle<T>(piece: seq<T>, sep: T)
    requires sep !in piece
    ensures Split(piece, sep) == [piece]
  {
    if piece != [] {
      var front, c := piece[..|piece| - 1], piece[|piece| - 1];
      SplitSingle(front, sep);
      assert [front][..0] == [];
      assert piece == front + [c];
    }
  }

  lemma {:induction false} SplitJoin<T>(pieces: seq<seq<T>>, sep: T)
    requires pieces != [] && forall i :: 0 <= i < |pieces| ==> sep !in pieces[i]
    ensures Split(Join(pieces, sep), sep) == pieces
  {
    var front, last := pieces[..|pieces| - 1], pieces[|pieces| - 1];
    if front == [] {
      SplitSingle(last, sep);
      assert pieces == [last];
    } else {
      SplitJoin(front, sep);
      assert Join(pieces, sep) == Join(front, sep) + [sep] + last;
      hide Split, Join;
      SplitAppend(Join(front, sep), last, sep);
      assert pieces == front + [last];
    }
  }
}
