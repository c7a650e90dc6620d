/**
 * The lookup dicts the passes fill while walking a document: a loop
 * `for e in es: table[key(e)] = val(e)` (later elements overwrite earlier
 * ones), or, for the optional metric data, the same loop guarded by
 * `if val(e) is not None`.
 */
module Tables {
  import opened Wrappers

  /** The keys such a loop writes. */
  function KeySet<T, K>(es: seq<T>, key: T -> K): set<K>
    decreases |es|
  {
    if es == [] then {} else KeySet(es[..|es| - 1], key) + {key(es[|es| - 1])}
  }

  lemma {:induction false} KeySetMember<T, K>(es: seq<T>, key: T -> K, k: K)
    ensures k in KeySet(es, key) <==> exists i | 0 <= i < |es| :: key(es[i]) == k
    decreases |es|
  {
    if es != [] {
      var n := |es| - 1;
      KeySetMember(es[..n], key, k);
      assert forall i | 0 <= i < n :: es[..n][i] == es[i];
    }
  }

  /** Parallel sequences whose keys agree position by position have the same key set. */
  lemma {:induction false} KeySetTransfer<T, U, K>(es: seq<T>, key: T -> K, fs: seq<U>, key2: U -> K)
    requires |es| == |fs| && forall j | 0 <= j < |es| :: key(es[j]) == key2(fs[j])
    ensures KeySet(es, key) == KeySet(fs, key2)
    decreases |es|
  {
    if es != [] {
      var n := |es| - 1;
      KeySetTransfer(es[..n], key, fs[..n], key2);
    }
  }

  /** The dict `for e in es: t[key(e)] = val(e)` leaves behind. */
  function TableBy<T, K, V>(es: seq<T>, key: T -> K, val: T -> V): (t: map<K, V>)
    ensures t.Keys == KeySet(es, key)
    decreases |es|
  {
    if es == [] then map[]
    else
      var last := es[|es| - 1];
      TableBy(es[..|es| - 1], key, val)[key(last) := val(last)]
  }

  /** `i` is the position of the last element of `es` whose key is `k`. */
  predicate IsLast<T, K(==)>(es: seq<T>, key: T -> K, k: K, i: int)
  {
    0 <= i < |es| && key(es[i]) == k && forall j | i < j < |es| :: key(es[j]) != k
  }

  lemma LastUnique<T, K>(es: seq<T>, key: T -> K, k: K, i: int, j: int)
    requires IsLast(es, key, k, i) && IsLast(es, key, k, j)
    ensures i == j
  {
  }

  /** Being last with a key carries over to a parallel sequence whose keys agree position by position. */
  lemma IsLastTransfer<T, U, K>(es: seq<T>, key: T -> K, fs: seq<U>, key2: U -> K, k: K, i: int)
    requires |es| == |fs| && forall j | 0 <= j < |es| :: key(es[j]) == key2(fs[j])
    ensures IsLast(es, key, k, i) <==> IsLast(fs, key2, k, i)
  {
  }

  /** Every entry of the dict was written by the last element carrying its key. */
  lemma {:induction false} TableByLast<T, K, V>(es: seq<T>, key: T -> K, val: T -> V, k: K)
    requires k in TableBy(es, key, val)
    ensures exists i :: IsLast(es, key, k, i) && TableBy(es, key, val)[k] == val(es[i])
    decreases |es|
  {
    var n := |es| - 1;
    var front := es[..n];
    assert TableBy(es, key, val) == TableBy(front, key, val)[key(es[n]) := val(es[n])];
    if key(es[n]) == k {
      assert IsLast(es, key, k, n);
    } else {
      TableByLast(front, key, val, k);
      var i :| IsLast(front, key, k, i) && TableBy(front, key, val)[k] == val(front[i]);
      assert front[i] == es[i];
      assert IsLast(es, key, k, i);
    }
  }

  /** Some element is last with each key the loop wrote. */
  lemma LastOf<T, K>(es: seq<T>, key: T -> K, k: K) returns (i: int)
    requires k in KeySet(es, key)
    ensures IsLast(es, key, k, i)
  {
    TableByLast(es, key, key, k);
    i :| IsLast(es, key, k, i);
  }

  /** The entry for `k` is the value of the last element with key `k`. */
  lemma TableAtLast<T, K, V>(es: seq<T>, key: T -> K, val: T -> V, k: K, i: int)
    requires IsLast(es, key, k, i)
    ensures k in TableBy(es, key, val) && TableBy(es, key, val)[k] == val(es[i])
  {
    KeySetMember(es, key, k);
    TableByLast(es, key, val, k);
    var j :| IsLast(es, key, k, j) && TableBy(es, key, val)[k] == val(es[j]);
    LastUnique(es, key, k, i, j);
  }

  /** The dict `for e in es: if val(e) is not None: t[key(e)] = val(e)` leaves behind. */
  function OptTableBy<T, K, V>(es: seq<T>, key: T -> K, val: T -> Option<V>): (t: map<K, V>)
    ensures t.Keys <= KeySet(es, key)
    decreases |es|
  {
    if es == [] then map[]
    else
      var last := es[|es| - 1];
      var t := OptTableBy(es[..|es| - 1], key, val);
      if val(last).Some? then t[key(last) := val(last).value] else t
  }

  /** `i` is the position of the last element with key `k` that carries a value. */
  predicate IsLastSome<T, K(==), V>(es: seq<T>, key: T -> K, val: T -> Option<V>, k: K, i: int)
  {
    0 <= i < |es| && key(es[i]) == k && val(es[i]).Some?
    && forall j | i < j < |es| :: !(key(es[j]) == k && val(es[j]).Some?)
  }

  /**
   * A key is in the dict iff some element with that key carries a value, and
   * then the entry is the value of the last such element: elements without a
   * value neither add nor overwrite an entry.
   */
  lemma {:induction false} OptTableByLast<T, K, V>(es: seq<T>, key: T -> K, val: T -> Option<V>, k: K)
    ensures k in OptTableBy(es, key, val) <==> exists i | 0 <= i < |es| :: key(es[i]) == k && val(es[i]).Some?
    ensures k in OptTableBy(es, key, val) ==>
              exists i :: IsLastSome(es, key, val, k, i) && Some(OptTableBy(es, key, val)[k]) == val(es[i])
    decreases |es|
  {
    if es != [] {
      var n := |es| - 1;
      var front := es[..n];
      OptTableByLast(front, key, val, k);
      assert forall i | 0 <= i < n :: front[i] == es[i];
      if key(es[n]) == k && val(es[n]).Some? {
        assert IsLastSome(es, key, val, k, n);
      } else if k in OptTableBy(front, key, val) {
        var i :| IsLastSome(front, key, val, k, i) && Some(OptTableBy(front, key, val)[k]) == val(front[i]);
        assert IsLastSome(es, key, val, k, i);
      }
    }
  }

  /** Being last with a value carries over to a parallel sequence whose keys and value presence agree. */
  lemma IsLastSomeTransfer<T, U, K, V, W>(es: seq<T>, key: T -> K, val: T -> Option<V>,
                                          fs: seq<U>, key2: U -> K, val2: U -> Option<W>, k: K, i: int)
    requires |es| == |fs|
    requires forall j | 0 <= j < |es| :: key(es[j]) == key2(fs[j]) && (val(es[j]).Some? <==> val2(fs[j]).Some?)
    ensures IsLastSome(es, key, val, k, i) <==> IsLastSome(fs, key2, val2, k, i)
  {
  }

  /** `t.get(k, None)`. */
  function GetOrNone<K, V>(t: map<K, V>, k: K): (r: Option<V>)
    ensures r.Some? <==> k in t
    ensures r.Some? ==> r.value == t[k]
  {
    if k in t then Some(t[k]) else None
  }

  /**
   * `t.get(k, None)` on a dict filled only with present values: None exactly
   * when no element with key `k` carried a value, else the last value carried.
   */
  lemma GetOptTable<T, K, V>(es: seq<T>, key: T -> K, val: T -> Option<V>, k: K)
    ensures GetOrNone(OptTableBy(es, key, val), k).None? <==> forall i | 0 <= i < |es| && key(es[i]) == k :: val(es[i]).None?
    ensures GetOrNone(OptTableBy(es, key, val), k).Some? ==>
              exists i :: IsLastSome(es, key, val, k, i) && GetOrNone(OptTableBy(es, key, val), k) == val(es[i])
  {
    OptTableByLast(es, key, val, k);
  }

  /**
   * A loop that computes `f(e)` for each element in turn and stops at the
   * first exception: the results in order, or the first failure.
   */
  function Collect<T, U>(es: seq<T>, f: T -> Outcome<U>): (r: Outcome<seq<U>>)
    ensures r.Ok? <==> forall i | 0 <= i < |es| :: f(es[i]).Ok?
    ensures r.Ok? ==> |r.value| == |es| && forall i | 0 <= i < |es| :: f(es[i]) == Ok(r.value[i])
    ensures r.Err? ==> exists i | 0 <= i < |es| :: f(es[i]).Err? && r.error == f(es[i]).error
                                                   && forall j | 0 <= j < i :: f(es[j]).Ok?
    decreases |es|
  {
    if es == [] then Ok([])
    else
      assert forall i | 0 <= i < |es| - 1 :: es[..|es| - 1][i] == es[i];
      var front :- Collect(es[..|es| - 1], f);
      var last :- f(es[|es| - 1]);
      Ok(front + [last])
  }

  /** One more iteration of a `table[key(e)] = val(e)` loop. */
  lemma TableBySnoc<T, K, V>(es: seq<T>, e: T, key: T -> K, val: T -> V)
    ensures TableBy(es + [e], key, val) == TableBy(es, key, val)[key(e) := val(e)]
  {
    assert (es + [e])[..|es|] == es;
  }

  /** One more iteration of the guarded loop. */
  lemma OptTableBySnoc<T, K, V>(es: seq<T>, e: T, key: T -> K, val: T -> Option<V>)
    ensures OptTableBy(es + [e], key, val)
            == if val(e).Some? then OptTableBy(es, key, val)[key(e) := val(e).value] else OptTableBy(es, key, val)
  {
    assert (es + [e])[..|es|] == es;
  }

  /** One more successful iteration of a loop that stops at the first exception. */
  lemma CollectStep<T, U>(es: seq<T>, f: T -> Outcome<U>, i: nat)
    requires i < |es| && Collect(es[..i], f).Ok? && f(es[i]).Ok?
    ensures Collect(es[..i + 1], f) == Ok(Collect(es[..i], f).value + [f(es[i]).value])
  {
    assert es[..i + 1][..i] == es[..i];
  }

  /** The first failing iteration decides the exception of the whole loop. */
  lemma CollectFirstErr<T, U>(es: seq<T>, f: T -> Outcome<U>, i: nat)
    requires i < |es| && Collect(es[..i], f).Ok? && f(es[i]).Err?
    ensures Collect(es, f) == Err(f(es[i]).error)
  {
    assert forall j | 0 <= j < i :: es[..i][j] == es[j];
  }

  /** Element `x` makes the guarded loop over `f`'s results write key `k`. */
  predicate Yields<T, U, K(==), V>(f: T -> Outcome<U>, key: U -> K, val: U -> Option<V>, x: T, k: K)
  {
    f(x).Ok? && key(f(x).value) == k && val(f(x).value).Some?
  }

  /**
   * The guarded loop over the results of a loop that did not raise: a key is
   * written iff some element yields it, and its entry comes from the last one.
   */
  lemma CollectOptTable<T, U, K, V>(xs: seq<T>, f: T -> Outcome<U>, key: U -> K, val: U -> Option<V>, k: K)
    requires Collect(xs, f).Ok?
    ensures k in OptTableBy(Collect(xs, f).value, key, val) <==> exists i | 0 <= i < |xs| :: Yields(f, key, val, xs[i], k)
    ensures k in OptTableBy(Collect(xs, f).value, key, val) ==>
              exists i | 0 <= i < |xs| ::
                Yields(f, key, val, xs[i], k) && (forall j | i < j < |xs| :: !Yields(f, key, val, xs[j], k))
                && Some(OptTableBy(Collect(xs, f).value, key, val)[k]) == val(f(xs[i]).value)
  {
    var us := Collect(xs, f).value;
    OptTableByLast(us, key, val, k);
    if k in OptTableBy(us, key, val) {
      var i :| IsLastSome(us, key, val, k, i) && Some(OptTableBy(us, key, val)[k]) == val(us[i]);
      assert Yields(f, key, val, xs[i], k);
    }
  }

  /** Visiting one more pending element keeps the visited and the pending elements a partition of `all`. */
  lemma MoveOne<T>(all: set<T>, todo: set<T>, done: set<T>, x: T)
    requires todo <= all && done == all - todo && x in todo
    ensures todo - {x} <= all && done + {x} == all - (todo - {x})
  {
  }
}
