/**
 * Numbers as the reader produces them. No arithmetic is done on them: a float
 * is identified by the literal it was parsed from, and `Zero` is the integer 0
 * that `extract_matrix` pre-fills its grid with.
 */
module Numbers {
  import opened Wrappers

  datatype Num = Zero | Float(literal: string)

  predicate IsDigit(c: char)
  {
    '0' <= c <= '9'
  }

  /** The ASCII whitespace `float()` strips from both ends of its argument. */
  predicate IsWhitespace(c: char)
  {
    c == ' ' || c == '\t' || c == '\n' || c == '\r' || c == 11 as char || c == 12 as char
  }

  function StripLeft(s: string): (r: string)
    ensures |r| <= |s| && (r == [] || !IsWhitespace(r[0]))
  {
    if s != [] && IsWhitespace(s[0]) then StripLeft(s[1..]) else s
  }

  function StripRight(s: string): (r: string)
    ensures |r| <= |s| && (r == [] || !IsWhitespace(r[|r| - 1]))
  {
    if s != [] && IsWhitespace(s[|s| - 1]) then StripRight(s[..|s| - 1]) else s
  }

  function LowerChar(c: char): char
  {
    if 'A' <= c <= 'Z' then (c as int + 32) as char else c
  }

  /**
   * The states of a scanner for
   * `[sign] (digits [. [digits]] | . digits) [(e|E) [sign] digits]` and for
   * `[sign] (inf | infinity | nan)` in any case: what has been read so far.
   */
  datatype ScanState =
    | Start      // nothing
    | Signed     // a sign
    | Whole      // digits before any point
    | Dot        // a point with no digit before it
    | Fraction   // a point after digits, or digits after a point
    | Exp        // the exponent letter
    | ExpSigned  // the exponent's sign
    | ExpDigits  // digits of the exponent
    | Inf(k: nat) // the first k letters of "infinity"
    | Nan(k: nat) // the first k letters of "nan"

  function InfinityLetter(k: nat): char
    requires k < 8
  {
    if k == 0 then 'i' else if k == 1 then 'n' else if k == 2 then 'f' else if k == 3 then 'i'
    else if k == 4 then 'n' else if k == 5 then 'i' else if k == 6 then 't' else 'y'
  }

  function NanLetter(k: nat): char
    requires k < 3
  {
    if k == 1 then 'a' else 'n'
  }

  function Next(st: ScanState, c: char): Option<ScanState>
  {
    match st
    case Start =>
      if c == '+' || c == '-' then Some(Signed) else if IsDigit(c) then Some(Whole) else if c == '.' then Some(Dot)
      else if LowerChar(c) == 'i' then Some(Inf(1)) else if LowerChar(c) == 'n' then Some(Nan(1)) else None
    case Signed =>
      if IsDigit(c) then Some(Whole) else if c == '.' then Some(Dot)
      else if LowerChar(c) == 'i' then Some(Inf(1)) else if LowerChar(c) == 'n' then Some(Nan(1)) else None
    case Whole =>
      if IsDigit(c) then Some(Whole) else if c == '.' then Some(Fraction) else if c == 'e' || c == 'E' then Some(Exp) else None
    case Dot =>
      if IsDigit(c) then Some(Fraction) else None
    case Fraction =>
      if IsDigit(c) then Some(Fraction) else if c == 'e' || c == 'E' then Some(Exp) else None
    case Exp =>
      if c == '+' || c == '-' then Some(ExpSigned) else if IsDigit(c) then Some(ExpDigits) else None
    case ExpSigned =>
      if IsDigit(c) then Some(ExpDigits) else None
    case ExpDigits =>
      if IsDigit(c) then Some(ExpDigits) else None
    case Inf(k) =>
      if k < 8 && LowerChar(c) == InfinityLetter(k) then Some(Inf(k + 1)) else None
    case Nan(k) =>
      if k < 3 && LowerChar(c) == NanLetter(k) then Some(Nan(k + 1)) else None
  }

  predicate Accepting(st: ScanState)
  {
    st == Whole || st == Fraction || st == ExpDigits || st == Inf(3) || st == Inf(8) || st == Nan(3)
  }

  predicate Scan(s: string, st: ScanState)
    decreases |s|
  {
    if s == [] then Accepting(st)
    else
      var next := Next(st, s[0]);
      next.Some? && Scan(s[1..], next.value)
  }

  /** The strings Python 2's `float(str)` accepts: surrounding whitespace is ignored. */
  predicate IsFloatLiteral(s: string)
    ensures IsFloatLiteral(s) ==> exists i | 0 <= i < |s| :: !IsWhitespace(s[i])
  {
    var t := StripRight(StripLeft(s));
    StripBothInfix(s);
    Scan(t, Start)
  }

  /** What is left after stripping is a slice of `s` that starts and ends with non-whitespace. */
  lemma StripBothInfix(s: string)
    ensures var t := StripRight(StripLeft(s));
            t == [] || exists a | 0 <= a <= |s| - |t| :: s[a..a + |t|] == t && !IsWhitespace(s[a])
  {
    StripLeftSuffix(s);
    StripRightPrefix(StripLeft(s));
    var l := StripLeft(s);
    var t := StripRight(l);
    if t != [] {
      var a := |s| - |l|;
      assert s[a..a + |t|] == l[..|t|] == t;
      assert s[a] == t[0];
    }
  }

  lemma {:induction false} StripLeftSuffix(s: string)
    ensures StripLeft(s) == s[|s| - |StripLeft(s)|..]
  {
    if s != [] && IsWhitespace(s[0]) {
      StripLeftSuffix(s[1..]);
    }
  }

  lemma {:induction false} StripRightPrefix(s: string)
    ensures StripRight(s) == s[..|StripRight(s)|]
  {
    if s != [] && IsWhitespace(s[|s| - 1]) {
      StripRightPrefix(s[..|s| - 1]);
    }
  }

  predicate Blank(w: string)
  {
    forall i | 0 <= i < |w| :: IsWhitespace(w[i])
  }

  lemma {:induction false} StripLeftBlank(w: string, s: string)
    requires Blank(w)
    ensures StripLeft(w + s) == StripLeft(s)
  {
    if w != [] {
      assert (w + s)[0] == w[0] && IsWhitespace(w[0]);
      assert (w + s)[1..] == w[1..] + s;
      assert Blank(w[1..]) by {
        forall i | 0 <= i < |w| - 1 ensures IsWhitespace(w[1..][i]) {
          assert w[1..][i] == w[i + 1];
        }
      }
      StripLeftBlank(w[1..], s);
    } else {
      assert w + s == s;
    }
  }

  lemma {:induction false} StripLeftAppend(s: string, w: string)
    requires Blank(w)
    ensures StripLeft(s + w) == if StripLeft(s) == [] then [] else StripLeft(s) + w
  {
    if s == [] {
      assert s + w == w + s;
      StripLeftBlank(w, s);
    } else {
      assert (s + w)[0] == s[0];
      if IsWhitespace(s[0]) {
        assert (s + w)[1..] == s[1..] + w;
        StripLeftAppend(s[1..], w);
      }
    }
  }

  lemma {:induction false} StripRightBlank(s: string, w: string)
    requires Blank(w)
    ensures StripRight(s + w) == StripRight(s)
    decreases |w|
  {
    if w != [] {
      var w' := w[..|w| - 1];
      assert (s + w)[|s + w| - 1] == w[|w| - 1] && IsWhitespace(w[|w| - 1]);
      assert (s + w)[..|s + w| - 1] == s + w';
      assert Blank(w') by {
        forall i | 0 <= i < |w'| ensures IsWhitespace(w'[i]) {
          assert w'[i] == w[i];
        }
      }
      StripRightBlank(s, w');
    } else {
      assert s + w == s;
    }
  }

  /** `float(' 1.5\n') == float('1.5')`: whitespace padding on either side changes nothing. */
  lemma FloatLiteralPadded(w: string, s: string, w': string)
    requires Blank(w) && Blank(w')
    ensures IsFloatLiteral(w + s + w') <==> IsFloatLiteral(s)
  {
    assert w + s + w' == w + (s + w');
    StripLeftBlank(w, s + w');
    StripLeftAppend(s, w');
    if StripLeft(s) != [] {
      StripRightBlank(StripLeft(s), w');
    }
  }

  /** A literal Python 2's `float()` accepts: sign, digits, point, fraction and signed exponent. */
  lemma FloatLiteralAccepted()
    ensures IsFloatLiteral("-1.5e3")
  {
  }

  predicate Digits(d: string)
  {
    forall i | 0 <= i < |d| :: IsDigit(d[i])
  }

  /** After a digit, more digits keep the scanner in the accepting `Whole` state. */
  lemma {:induction false} ScanDigits(d: string)
    requires Digits(d)
    ensures Scan(d, Whole)
    decreases |d|
  {
    if d != [] {
      assert Digits(d[1..]) by {
        forall i | 0 <= i < |d| - 1 ensures IsDigit(d[1..][i]) {
          assert d[1..][i] == d[i + 1];
        }
      }
      ScanDigits(d[1..]);
    }
  }

  /** `float('12')`, `float('+7')`, `float('-007')`: every non-empty digit string, optionally signed, is a literal. */
  lemma SignedDigitsLiteral(sign: string, d: string)
    requires sign == "" || sign == "+" || sign == "-"
    requires d != [] && Digits(d)
    ensures IsFloatLiteral(sign + d)
  {
    var s := sign + d;
    assert s[0] == if sign == "" then d[0] else sign[0];
    assert s[|s| - 1] == d[|d| - 1];
    assert StripLeft(s) == s;
    assert StripRight(s) == s;
    ScanDigits(d[1..]) by {
      forall i | 0 <= i < |d| - 1 ensures IsDigit(d[1..][i]) {
        assert d[1..][i] == d[i + 1];
      }
    }
    if sign == "" {
      assert Next(Start, s[0]) == Some(Whole);
      assert s[1..] == d[1..];
    } else {
      assert Next(Start, s[0]) == Some(Signed);
      assert s[1..] == d;
      assert Next(Signed, d[0]) == Some(Whole);
    }
  }

  /** Strings Python 2's `float()` rejects: blank, a decimal comma, an exponent with no digits. */
  lemma FloatLiteralsRejected()
    ensures !IsFloatLiteral(" ") && !IsFloatLiteral("1,5") && !IsFloatLiteral("1e")
  {
  }

  /** `float(x)` of an attribute value that may be missing (None). */
  function ParseNum(a: Option<string>): (r: Outcome<Num>)
    ensures r.Ok? <==> a.Some? && IsFloatLiteral(a.value)
    ensures r.Ok? ==> r.value == Float(a.value)
    ensures r.Err? ==> r.error == NotANumber(a)
  {
    match a
    case None => Err(NotANumber(None))
    case Some(s) => if IsFloatLiteral(s) then Ok(Float(s)) else Err(NotANumber(a))
  }

  /** `[float(x) for x in xs]`: every item parsed, in order; the first bad item raises. */
  function ParseList(xs: seq<string>): (r: Outcome<seq<Num>>)
    ensures r.Ok? <==> forall i | 0 <= i < |xs| :: IsFloatLiteral(xs[i])
    ensures r.Ok? ==> |r.value| == |xs| && forall i | 0 <= i < |xs| :: r.value[i] == Float(xs[i])
    ensures r.Err? ==> r.error.NotANumber?
  {
    if xs == [] then Ok([])
    else
      var head :- ParseNum(Some(xs[0]));
      var tail :- ParseList(xs[1..]);
      Ok([head] + tail)
  }
}
