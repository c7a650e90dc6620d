/** `str.split(sep)` with an explicit one-character separator, and taking its last piece. */
module Text {

  /**
   * `s.split(sep)`: the pieces between the separators, in order. There is
   * always one more piece than there are separators, and pieces may be empty.
   */
  function SplitOn(s: string, sep: char): (r: seq<string>)
    ensures |r| >= 1
    ensures forall i | 0 <= i < |r| :: sep !in r[i]
    ensures sep !in s ==> r == [s]
    ensures sep in s ==> |r| >= 2
    decreases |s|
  {
    if s == [] then [""]
    else
      var rest := SplitOn(s[1..], sep);
      if s[0] == sep then [""] + rest
      else assert [s[0]] + s[1..] == s; [[s[0]] + rest[0]] + rest[1..]
  }

  /** `sep.join(pieces)`. */
  function JoinWith(pieces: seq<string>, sep: char): string
    decreases |pieces|
  {
    if pieces == [] then ""
    else if |pieces| == 1 then pieces[0]
    else pieces[0] + [sep] + JoinWith(pieces[1..], sep)
  }

  /** Joining the pieces back with the separator gives the original string. */
  lemma {:induction false} JoinSplit(s: string, sep: char)
    ensures JoinWith(SplitOn(s, sep), sep) == s
    decreases |s|
  {
    if s != [] {
      var rest := SplitOn(s[1..], sep);
      JoinSplit(s[1..], sep);
      if s[0] != sep && |rest| > 1 {
        assert ([[s[0]] + rest[0]] + rest[1..])[1..] == rest[1..];
      }
    }
  }

  /** A separator-free piece followed by a separator splits off as the first piece. */
  lemma {:induction false} SplitAfterPiece(p: string, sep: char, t: string)
    requires sep !in p
    ensures SplitOn(p + [sep] + t, sep) == [p] + SplitOn(t, sep)
    decreases |p|
  {
    var s := p + [sep] + t;
    if p == [] {
      assert s[1..] == t;
    } else {
      assert s[1..] == p[1..] + [sep] + t;
      SplitAfterPiece(p[1..], sep, t);
      assert [p[0]] + p[1..] == p;
    }
  }

  /** Splitting a join of separator-free pieces gives the pieces back. */
  lemma {:induction false} SplitJoin(pieces: seq<string>, sep: char)
    requires |pieces| >= 1
    requires forall i | 0 <= i < |pieces| :: sep !in pieces[i]
    ensures SplitOn(JoinWith(pieces, sep), sep) == pieces
    decreases |pieces|
  {
    if |pieces| > 1 {
      SplitJoin(pieces[1..], sep);
      SplitAfterPiece(pieces[0], sep, JoinWith(pieces[1..], sep));
      assert [pieces[0]] + pieces[1..] == pieces;
    }
  }

  /** `s.split(sep)[-1]`. */
  function LastPiece(s: string, sep: char): (r: string)
    ensures sep !in r
  {
    var pieces := SplitOn(s, sep);
    pieces[|pieces| - 1]
  }

  /**
   * The last piece is the text after the last separator: a suffix of `s`
   * free of separators, which is either all of `s` (when `s` holds no
   * separator) or comes right after a separator.
   */
  lemma {:induction false} LastPieceIsTail(s: string, sep: char)
    ensures var r := LastPiece(s, sep);
            |r| <= |s| && r == s[|s| - |r|..] && sep !in r
            && (if sep in s then |r| < |s| && s[|s| - |r| - 1] == sep else r == s)
    decreases |s|
  {
    if s != [] {
      LastPieceIsTail(s[1..], sep);
      var rest := SplitOn(s[1..], sep);
      var r' := rest[|rest| - 1];
      assert sep in s <==> s[0] == sep || sep in s[1..];
      if s[0] == sep {
        assert LastPiece(s, sep) == r';
        assert s[1..][|s| - 1 - |r'|..] == s[|s| - |r'|..];
      } else if sep in s[1..] {
        assert LastPiece(s, sep) == r';
        assert s[1..][|s| - 1 - |r'|..] == s[|s| - |r'|..];
        assert s[1..][|s| - 1 - |r'| - 1] == s[|s| - |r'| - 1];
      } else {
        assert rest == [s[1..]];
        assert LastPiece(s, sep) == s;
      }
    }
  }
}
