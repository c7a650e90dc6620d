/**
 * The JSON text helpers: the replacement function `json_reformat_lists`
 * applies to each list it matches, which puts a multi-line run of list items
 * on one line, and `_byteify`, which turns the unicode strings of a decoded
 * JSON value into byte strings.
 */
module JsonUtils {

  // ---------------------------------------------------------------- newline_replace

  /** The characters Python 2's `str.split()` treats as whitespace. */
  predicate IsSpace(c: char)
  {
    c == ' ' || c == '\t' || c == '\n' || c == '\r' || c == '\U{000B}' || c == '\U{000C}'
  }

  predicate SpaceFree(s: string)
  {
    forall i | 0 <= i < |s| :: !IsSpace(s[i])
  }

  /** `s.replace("\n", "")`. */
  function RemoveNewlines(s: string): (r: string)
    ensures '\n' !in r
    decreases |s|
  {
    if s == [] then ""
    else if s[0] == '\n' then RemoveNewlines(s[1..])
    else [s[0]] + RemoveNewlines(s[1..])
  }

  /** The characters of `s` that are not whitespace, in order. */
  function Squash(s: string): (r: string)
    ensures SpaceFree(r)
    decreases |s|
  {
    if s == [] then ""
    else if IsSpace(s[0]) then Squash(s[1..])
    else [s[0]] + Squash(s[1..])
  }

  /** The longest prefix of `s` without whitespace. */
  function WordPrefix(s: string): (w: string)
    ensures |w| <= |s| && w == s[..|w|] && SpaceFree(w)
    ensures |w| < |s| ==> IsSpace(s[|w|])
    ensures s != [] && !IsSpace(s[0]) ==> |w| > 0
    decreases |s|
  {
    if s == [] || IsSpace(s[0]) then ""
    else [s[0]] + WordPrefix(s[1..])
  }

  /** `s.split()`: the maximal runs of non-whitespace characters, in order. */
  function Words(s: string): (ws: seq<string>)
    ensures forall i | 0 <= i < |ws| :: |ws[i]| > 0 && SpaceFree(ws[i])
    decreases |s|
  {
    if s == [] then []
    else if IsSpace(s[0]) then Words(s[1..])
    else
      var w := WordPrefix(s);
      [w] + Words(s[|w|..])
  }

  /** `"".join([" " + segment for segment in ws])`. */
  function Spaced(ws: seq<string>): string
    decreases |ws|
  {
    if ws == [] then "" else " " + ws[0] + Spaced(ws[1..])
  }

  /** The collapsed part of the replacement: newlines removed, then one space before each token. */
  function Collapse(s: string): string
  {
    Spaced(Words(RemoveNewlines(s)))
  }

  /** `newline_replace` on a match with groups `g1` and `g2`. */
  function NewlineReplace(g1: string, g2: string): (r: string)
    ensures |g1| <= |r| && r[..|g1|] == g1 && r[|g1|..] == Collapse(g2)
  {
    g1 + Collapse(g2)
  }

  /**
   * Text on one line with single spaces: no newline, and every whitespace
   * character is a space that starts the text or follows a non-space, and
   * is followed by a non-space (so no two whitespace characters are
   * adjacent and the text does not end in whitespace).
   */
  predicate OneLine(t: string)
  {
    '\n' !in t
    && (forall i | 0 <= i < |t| :: IsSpace(t[i]) ==> t[i] == ' ' && i + 1 < |t| && !IsSpace(t[i + 1]))
    && (t != [] ==> t[0] == ' ')
  }

  /** Spacing out whitespace-free tokens gives one line with single spaces. */
  lemma {:induction false} SpacedOneLine(ws: seq<string>)
    requires forall i | 0 <= i < |ws| :: |ws[i]| > 0 && SpaceFree(ws[i])
    ensures OneLine(Spaced(ws))
    decreases |ws|
  {
    if ws != [] {
      var rest := Spaced(ws[1..]);
      SpacedOneLine(ws[1..]);
      var t := " " + ws[0] + rest;
      forall i | 0 <= i < |t|
        ensures IsSpace(t[i]) ==> t[i] == ' ' && i + 1 < |t| && !IsSpace(t[i + 1])
      {
        if i == 0 {
          assert t[1] == ws[0][0];
        } else if i <= |ws[0]| {
          assert t[i] == ws[0][i - 1];
        } else {
          assert t[i] == rest[i - 1 - |ws[0]|];
        }
      }
      assert forall i | 0 <= i < |t| :: t[i] != '\n' by {
        forall i | 0 <= i < |t| ensures t[i] != '\n' {
          if 0 < i <= |ws[0]| {
            assert t[i] == ws[0][i - 1];
          } else if i > |ws[0]| {
            assert t[i] == rest[i - 1 - |ws[0]|];
          }
        }
      }
    }
  }

  /** The collapsed part of `newline_replace` is one line with single spaces. */
  lemma CollapseOneLine(s: string)
    ensures OneLine(Collapse(s))
  {
    SpacedOneLine(Words(RemoveNewlines(s)));
  }

  lemma {:induction false} SquashConcat(a: string, b: string)
    ensures Squash(a + b) == Squash(a) + Squash(b)
    decreases |a|
  {
    if a != [] {
      assert (a + b)[0] == a[0] && (a + b)[1..] == a[1..] + b;
      SquashConcat(a[1..], b);
    } else {
      assert a + b == b;
    }
  }

  lemma {:induction false} SquashSpaceFree(w: string)
    requires SpaceFree(w)
    ensures Squash(w) == w
    decreases |w|
  {
    if w != [] {
      SquashSpaceFree(w[1..]);
      assert [w[0]] + w[1..] == w;
    }
  }

  /** Removing newlines keeps every non-whitespace character, in order. */
  lemma {:induction false} SquashRemoveNewlines(s: string)
    ensures Squash(RemoveNewlines(s)) == Squash(s)
    decreases |s|
  {
    if s != [] {
      SquashRemoveNewlines(s[1..]);
    }
  }

  /** The tokens of `s`, concatenated, are the non-whitespace characters of `s`. */
  lemma {:induction false} WordsSquash(s: string)
    ensures Squash(Spaced(Words(s))) == Squash(s)
    decreases |s|
  {
    if s != [] && !IsSpace(s[0]) {
      var w := WordPrefix(s);
      var rest := s[|w|..];
      WordsSquash(rest);
      assert s == w + rest;
      SquashConcat(w, rest);
      SquashSpaceFree(w);
      assert Spaced(Words(s)) == " " + w + Spaced(Words(rest));
      SquashConcat(" " + w, Spaced(Words(rest)));
      SquashConcat(" ", w);
    } else if s != [] {
      WordsSquash(s[1..]);
    }
  }

  /**
   * `newline_replace` keeps the tokens: with the whitespace deleted, the
   * collapsed part and the second group hold the same characters in the
   * same order, and the collapsed part splits into the same tokens.
   */
  lemma CollapseKeepsTokens(s: string)
    ensures Squash(Collapse(s)) == Squash(s)
    ensures Words(Collapse(s)) == Words(RemoveNewlines(s))
  {
    WordsSquash(RemoveNewlines(s));
    SquashRemoveNewlines(s);
    WordsSpaced(Words(RemoveNewlines(s)));
  }

  /** A token followed by nothing or by whitespace is split off whole. */
  lemma {:induction false} WordPrefixOf(w: string, rest: string)
    requires SpaceFree(w)
    requires rest == [] || IsSpace(rest[0])
    ensures WordPrefix(w + rest) == w
    decreases |w|
  {
    if w != [] {
      assert (w + rest)[1..] == w[1..] + rest;
      WordPrefixOf(w[1..], rest);
      assert [w[0]] + w[1..] == w;
    } else {
      assert w + rest == rest;
    }
  }

  /** A space, then a token, then nothing or whitespace: the token is the first one split off. */
  lemma WordsCons(w: string, rest: string)
    requires |w| > 0 && SpaceFree(w)
    requires rest == [] || IsSpace(rest[0])
    ensures Words(" " + w + rest) == [w] + Words(rest)
  {
    var t := w + rest;
    assert (" " + w + rest)[1..] == t;
    WordPrefixOf(w, rest);
    assert t[|w|..] == rest;
  }

  /** Splitting spaced-out tokens gives the tokens back. */
  lemma {:induction false} WordsSpaced(ws: seq<string>)
    requires forall i | 0 <= i < |ws| :: |ws[i]| > 0 && SpaceFree(ws[i])
    ensures Words(Spaced(ws)) == ws
    decreases |ws|
  {
    if ws != [] {
      var rest := Spaced(ws[1..]);
      WordsSpaced(ws[1..]);
      assert rest == [] || IsSpace(rest[0]);
      WordsCons(ws[0], rest);
    }
  }

  /** Spaced-out tokens hold no newline, so removing newlines leaves them as they are. */
  lemma {:induction false} RemoveNewlinesOneLine(t: string)
    requires '\n' !in t
    ensures RemoveNewlines(t) == t
    decreases |t|
  {
    if t != [] {
      RemoveNewlinesOneLine(t[1..]);
      assert [t[0]] + t[1..] == t;
    }
  }

  /** Collapsing an already collapsed run changes nothing. */
  lemma CollapseIdempotent(s: string)
    ensures Collapse(Collapse(s)) == Collapse(s)
  {
    var ws := Words(RemoveNewlines(s));
    SpacedOneLine(ws);
    RemoveNewlinesOneLine(Spaced(ws));
    WordsSpaced(ws);
  }

  /** `newline_replace` applied to its own output, with the same first group, gives it back. */
  lemma NewlineReplaceIdempotent(g1: string, g2: string)
    ensures NewlineReplace(g1, NewlineReplace(g1, g2)[|g1|..]) == NewlineReplace(g1, g2)
  {
    CollapseIdempotent(g2);
  }

  // ---------------------------------------------------------------- _byteify

  /**
   * A value `json.load` produces. Byte strings keep the characters they
   * encode: the model does not spell out UTF-8, so encoding is a change of
   * tag from `Unicode` to `Bytes`. A dict is its entries in iteration order.
   */
  datatype Json =
    | Null
    | Bool(b: bool)
    | Number(literal: string)
    | Unicode(text: string)
    | Bytes(text: string)
    | List(items: seq<Json>)
    | Dict(entries: seq<(Json, Json)>)

  predicate DistinctKeys(entries: seq<(Json, Json)>)
  {
    forall i, j | 0 <= i < j < |entries| :: entries[i].0 != entries[j].0
  }

  function KeysOf(entries: seq<(Json, Json)>): set<Json>
  {
    set i | 0 <= i < |entries| :: entries[i].0
  }

  /** `d[k] = v` on a dict given by its entries: an existing key keeps its place and takes the new value. */
  function Insert(entries: seq<(Json, Json)>, k: Json, v: Json): (r: seq<(Json, Json)>)
    ensures KeysOf(r) == KeysOf(entries) + {k}
    ensures DistinctKeys(entries) ==> DistinctKeys(r)
    ensures k !in KeysOf(entries) ==> r == entries + [(k, v)]
    decreases |entries|
  {
    if entries == [] then
      KeysOfCons((k, v), []);
      assert [(k, v)] + [] == [(k, v)];
      [(k, v)]
    else
      KeysOfCons(entries[0], entries[1..]);
      assert [entries[0]] + entries[1..] == entries;
      if entries[0].0 == k then
        KeysOfCons((k, v), entries[1..]);
        [(k, v)] + entries[1..]
      else
        var rest := Insert(entries[1..], k, v);
        KeysOfCons(entries[0], rest);
        [entries[0]] + rest
  }

  lemma KeysOfCons(e: (Json, Json), rest: seq<(Json, Json)>)
    ensures KeysOf([e] + rest) == {e.0} + KeysOf(rest)
  {
    var l := [e] + rest;
    forall x
      ensures x in KeysOf(l) <==> x in {e.0} + KeysOf(rest)
    {
      if x in KeysOf(l) {
        var i :| 0 <= i < |l| && l[i].0 == x;
        if i > 0 {
          assert rest[i - 1].0 == x;
        }
      }
      if x in KeysOf(rest) {
        var i :| 0 <= i < |rest| && rest[i].0 == x;
        assert l[i + 1].0 == x;
      }
      if x == e.0 {
        assert l[0].0 == x;
      }
    }
  }

  /** The dict a dict comprehension builds from its key-value pairs, later pairs overwriting earlier ones. */
  function DictOf(pairs: seq<(Json, Json)>): (r: seq<(Json, Json)>)
    ensures DistinctKeys(r) && KeysOf(r) == KeysOf(pairs)
    decreases |pairs|
  {
    if pairs == [] then []
    else
      var front := pairs[..|pairs| - 1];
      var last := pairs[|pairs| - 1];
      assert KeysOf(pairs) == KeysOf(front) + {last.0} by {
        assert forall i | 0 <= i < |front| :: pairs[i] == front[i];
      }
      Insert(DictOf(front), last.0, last.1)
  }

  /** Pairs whose keys are already distinct make a dict holding exactly those pairs, in order. */
  lemma {:induction false} DictOfDistinct(pairs: seq<(Json, Json)>)
    requires DistinctKeys(pairs)
    ensures DictOf(pairs) == pairs
    decreases |pairs|
  {
    if pairs != [] {
      var front := pairs[..|pairs| - 1];
      var last := pairs[|pairs| - 1];
      DictOfDistinct(front);
      assert front + [last] == pairs;
    }
  }

  /** A value with no unicode string outside a dict: what `_byteify(x, ignore_dicts=True)` returns. */
  predicate Plain(x: Json)
    decreases x
  {
    match x
    case Unicode(_) => false
    case List(items) => forall i | 0 <= i < |items| :: Plain(items[i])
    case _ => true
  }

  /**
   * `_byteify(data, ignore_dicts)`: a unicode string is encoded, a list has
   * each item byteified with `ignore_dicts=True`, a dict (unless
   * `ignore_dicts`) is rebuilt from its byteified keys and values, and
   * anything else is returned as it is.
   */
  function Byteify(data: Json, ignoreDicts: bool): (r: Json)
    ensures ignoreDicts || !data.Dict? ==> Plain(r)
    ensures data.Dict? && !ignoreDicts ==>
              r.Dict? && DistinctKeys(r.entries)
              && forall i | 0 <= i < |r.entries| :: Plain(r.entries[i].0) && Plain(r.entries[i].1)
    decreases data, 1
  {
    match data
    case Unicode(s) => Bytes(s)
    case List(items) => List(seq(|items|, i requires 0 <= i < |items| => Byteify(items[i], true)))
    case Dict(entries) =>
      if ignoreDicts then data
      else
        var pairs := ByteifyPairs(data, entries);
        var r := DictOf(pairs);
        assert forall j | 0 <= j < |r| :: Plain(r[j].0) && Plain(r[j].1) by {
          forall j | 0 <= j < |r| ensures Plain(r[j].0) && Plain(r[j].1) {
            DictOfFrom(pairs, r[j].0, r[j].1);
          }
        }
        Dict(r)
    case _ => data
  }

  /** The key-value pairs of the dict comprehension, each side byteified with `ignore_dicts=True`. */
  function ByteifyPairs(data: Json, entries: seq<(Json, Json)>): (pairs: seq<(Json, Json)>)
    requires data == Dict(entries)
    ensures |pairs| == |entries|
    ensures forall i | 0 <= i < |pairs| :: Plain(pairs[i].0) && Plain(pairs[i].1)
    decreases data, 0
  {
    seq(|entries|, i requires 0 <= i < |entries| => (Byteify(entries[i].0, true), Byteify(entries[i].1, true)))
  }

  /** What `d[k] = v` leaves in a dict with distinct keys: the new pair, and the old pairs under other keys. */
  lemma {:induction false} InsertFrom(entries: seq<(Json, Json)>, k: Json, v: Json, k': Json, v': Json)
    requires DistinctKeys(entries) && (k', v') in Insert(entries, k, v)
    ensures (k', v') == (k, v) || ((k', v') in entries && k' != k)
    decreases |entries|
  {
    if entries != [] {
      if entries[0].0 == k {
        if (k', v') != (k, v) {
          var i :| 0 <= i < |entries| - 1 && entries[1..][i] == (k', v');
          assert entries[i + 1] == (k', v');
        }
      } else if (k', v') != entries[0] {
        InsertFrom(entries[1..], k, v, k', v');
      }
    }
  }

  /**
   * The dict comprehension keeps, for each key, the value of the last pair
   * with that key: every entry is a pair that no later pair overwrites.
   */
  lemma {:induction false} DictOfLast(pairs: seq<(Json, Json)>, k: Json, v: Json) returns (i: nat)
    requires (k, v) in DictOf(pairs)
    ensures i < |pairs| && pairs[i] == (k, v) && LastWith(pairs, k, i)
    decreases |pairs|
  {
    assert pairs != [];
    var front := pairs[..|pairs| - 1];
    var last := pairs[|pairs| - 1];
    assert pairs == front + [last];
    InsertFrom(DictOf(front), last.0, last.1, k, v);
    if (k, v) == (last.0, last.1) {
      i := |pairs| - 1;
    } else {
      i := DictOfLast(front, k, v);
      LastWithSnoc(front, last, k, i);
    }
  }

  /** No pair after the `i`th has key `k`. */
  predicate LastWith<K(==), V>(pairs: seq<(K, V)>, k: K, i: nat)
  {
    forall j | i < j < |pairs| :: pairs[j].0 != k
  }

  lemma LastWithSnoc<K, V>(front: seq<(K, V)>, last: (K, V), k: K, i: nat)
    requires i < |front| && LastWith(front, k, i) && last.0 != k
    ensures LastWith(front + [last], k, i)
  {
    var pairs := front + [last];
    forall j | i < j < |pairs|
      ensures pairs[j].0 != k
    {
      if j < |front| {
        assert pairs[j] == front[j];
      }
    }
  }

  /** Every entry of a built dict is one of the pairs it was built from. */
  lemma DictOfFrom(pairs: seq<(Json, Json)>, k: Json, v: Json)
    requires (k, v) in DictOf(pairs)
    ensures (k, v) in pairs
  {
    var i := DictOfLast(pairs, k, v);
  }

  /** `_byteify` leaves a value as it is exactly when it holds no unicode string outside a dict. */
  lemma {:induction false} ByteifyFixes(x: Json)
    ensures Byteify(x, true) == x <==> Plain(x)
    decreases x
  {
    match x
    case List(items) =>
      forall i | 0 <= i < |items| {
        ByteifyFixes(items[i]);
      }
      if Plain(x) {
        assert Byteify(x, true).items == items;
      } else {
        var i :| 0 <= i < |items| && !Plain(items[i]);
        assert Byteify(x, true).items[i] != items[i];
      }
    case _ =>
  }

  /** Byteifying twice is byteifying once. */
  lemma ByteifyIdempotent(x: Json, ignoreDicts: bool)
    ensures Byteify(Byteify(x, ignoreDicts), ignoreDicts) == Byteify(x, ignoreDicts)
  {
    var y := Byteify(x, ignoreDicts);
    if x.Dict? && !ignoreDicts {
      var r := y.entries;
      var pairs := ByteifyPairs(y, r);
      forall i | 0 <= i < |r|
        ensures pairs[i] == r[i]
      {
        ByteifyFixes(r[i].0);
        ByteifyFixes(r[i].1);
      }
      assert pairs == r;
      DictOfDistinct(r);
    } else {
      ByteifyFixes(y);
      if y.List? {
        assert Byteify(y, ignoreDicts) == Byteify(y, true);
      }
    }
  }

  /** A list keeps its length and order, each item byteified with `ignore_dicts=True`. */
  lemma ByteifyList(items: seq<Json>, ignoreDicts: bool)
    ensures Byteify(List(items), ignoreDicts).List?
    ensures |Byteify(List(items), ignoreDicts).items| == |items|
    ensures forall i | 0 <= i < |items| :: Byteify(List(items), ignoreDicts).items[i] == Byteify(items[i], true)
  {
  }

  /** The keys of a dict rebuilt by `_byteify` are the byteified keys of the original. */
  lemma ByteifyDictKeys(entries: seq<(Json, Json)>)
    ensures KeysOf(Byteify(Dict(entries), false).entries) == (set i | 0 <= i < |entries| :: Byteify(entries[i].0, true))
  {
    var pairs := ByteifyPairs(Dict(entries), entries);
    forall k | k in KeysOf(pairs)
      ensures k in (set i | 0 <= i < |entries| :: Byteify(entries[i].0, true))
    {
      var i :| 0 <= i < |pairs| && pairs[i].0 == k;
      assert Byteify(entries[i].0, true) == k;
    }
    forall i | 0 <= i < |entries|
      ensures Byteify(entries[i].0, true) in KeysOf(pairs)
    {
      assert pairs[i].0 == Byteify(entries[i].0, true);
    }
  }

  /**
   * The value a dict rebuilt by `_byteify` holds under a key is the
   * byteified value of the last entry whose key byteifies to that key.
   */
  lemma ByteifyDictLast(entries: seq<(Json, Json)>, k: Json, v: Json)
    requires (k, v) in Byteify(Dict(entries), false).entries
    ensures exists i | 0 <= i < |entries| ::
              Byteify(entries[i].0, true) == k && Byteify(entries[i].1, true) == v
              && forall j | i < j < |entries| :: Byteify(entries[j].0, true) != k
  {
    var pairs := ByteifyPairs(Dict(entries), entries);
    var i := DictOfLast(pairs, k, v);
    assert pairs[i] == (Byteify(entries[i].0, true), Byteify(entries[i].1, true));
    forall j | i < j < |entries|
      ensures Byteify(entries[j].0, true) != k
    {
      assert pairs[j].0 == Byteify(entries[j].0, true);
    }
  }

  /** A dict whose keys byteify to distinct keys keeps every entry, in order. */
  lemma ByteifyDictDistinct(entries: seq<(Json, Json)>)
    requires forall i, j | 0 <= i < j < |entries| :: Byteify(entries[i].0, true) != Byteify(entries[j].0, true)
    ensures var r := Byteify(Dict(entries), false).entries;
            |r| == |entries|
            && forall i | 0 <= i < |entries| :: r[i] == (Byteify(entries[i].0, true), Byteify(entries[i].1, true))
  {
    var pairs := ByteifyPairs(Dict(entries), entries);
    assert DistinctKeys(pairs);
    DictOfDistinct(pairs);
  }

  /** No byte string outside a dict: what `json.load` produces, all its strings being unicode. */
  predicate Decoded(x: Json)
    decreases x
  {
    match x
    case Bytes(_) => false
    case List(items) => forall i | 0 <= i < |items| :: Decoded(items[i])
    case _ => true
  }

  /** The inverse of the encoding, outside dicts: each byte string back to the unicode string it encodes. */
  function Decode(x: Json): (r: Json)
    decreases x
  {
    match x
    case Bytes(s) => Unicode(s)
    case List(items) => List(seq(|items|, i requires 0 <= i < |items| => Decode(items[i])))
    case _ => x
  }

  /** Decoding a byteified value gives back the unicode value it came from. */
  lemma {:induction false} DecodeByteify(x: Json)
    requires Decoded(x)
    ensures Decode(Byteify(x, true)) == x
    decreases x
  {
    match x
    case List(items) =>
      forall i | 0 <= i < |items| {
        DecodeByteify(items[i]);
      }
      assert Decode(Byteify(x, true)).items == items;
    case _ =>
  }

  /** So `_byteify` never maps two decoded values to the same value. */
  lemma ByteifyInjective(x: Json, y: Json)
    requires Decoded(x) && Decoded(y) && Byteify(x, true) == Byteify(y, true)
    ensures x == y
  {
    DecodeByteify(x);
    DecodeByteify(y);
  }

  /** A decoded dict with distinct keys keeps its size when byteified. */
  lemma ByteifyDictSize(entries: seq<(Json, Json)>)
    requires DistinctKeys(entries) && forall i | 0 <= i < |entries| :: Decoded(entries[i].0)
    ensures |Byteify(Dict(entries), false).entries| == |entries|
  {
    forall i, j | 0 <= i < j < |entries|
      ensures Byteify(entries[i].0, true) != Byteify(entries[j].0, true)
    {
      if Byteify(entries[i].0, true) == Byteify(entries[j].0, true) {
        ByteifyInjective(entries[i].0, entries[j].0);
      }
    }
    ByteifyDictDistinct(entries);
  }
}
