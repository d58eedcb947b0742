/** Insertion-ordered dictionaries, as Python's `dict` and `defaultdict`, and
    the per-key fold every reflection assembler performs over catalog rows:
    each row names the key it updates (or none, when the row is skipped), and
    the new value of that key depends only on its old value and the row. */
module OrderedMaps {
  import opened Wrappers

  /** The keys in insertion order. */
  function Keys<K, V>(m: seq<(K, V)>): (ks: seq<K>)
    ensures |ks| == |m| && forall i :: 0 <= i < |m| ==> ks[i] == m[i].0
  {
    seq(|m|, i requires 0 <= i < |m| => m[i].0)
  }

  predicate DistinctKeys<K(==), V>(m: seq<(K, V)>) {
    forall i, j :: 0 <= i < j < |m| ==> m[i].0 != m[j].0
  }

  /** `d.get(k)`. */
  function Get<K(==), V>(m: seq<(K, V)>, k: K): (r: Option<V>)
    ensures r.Some? <==> k in Keys(m)
    ensures r.Some? ==> exists i :: 0 <= i < |m| && m[i] == (k, r.value)
  {
    if |m| == 0 then None
    else if m[0].0 == k then Some(m[0].1)
    else
      assert Keys(m) == [m[0].0] + Keys(m[1..]);
      var r := Get(m[1..], k);
      assert r.Some? ==> exists i :: 0 <= i < |m[1..]| && m[1..][i] == (k, r.value);
      assert r.Some? ==> exists i :: 1 <= i < |m| && m[i] == (k, r.value);
      r
  }

  /** With distinct keys, the entry at a position is what `get` finds. */
  lemma {:induction false} GetAt<K, V>(m: seq<(K, V)>, i: int)
    requires DistinctKeys(m) && 0 <= i < |m|
    ensures Get(m, m[i].0) == Some(m[i].1)
  {
    if i > 0 {
      assert m[0].0 != m[i].0;
      assert m[1..][i - 1] == m[i];
      GetAt(m[1..], i - 1);
    }
  }

  /** `d[k] = v`: a present key keeps its place, a new key goes last. */
  function Put<K(==), V>(m: seq<(K, V)>, k: K, v: V): (r: seq<(K, V)>)
    ensures Keys(r) == if k in Keys(m) then Keys(m) else Keys(m) + [k]
  {
    if |m| == 0 then [(k, v)]
    else
      KeysCons(m[0], m[1..]);
      assert [m[0]] + m[1..] == m;
      if m[0].0 == k then
        KeysCons((k, v), m[1..]);
        [(k, v)] + m[1..]
      else
        var rest := Put(m[1..], k, v);
        KeysCons(m[0], rest);
        [m[0]] + rest
  }

  lemma KeysCons<K, V>(x: (K, V), m: seq<(K, V)>)
    ensures Keys([x] + m) == [x.0] + Keys(m)
  {
  }

  /** After `d[k] = v`, `k` maps to `v` and every other key to what it did. */
  lemma {:induction false} PutGet<K, V>(m: seq<(K, V)>, k: K, v: V, j: K)
    ensures Get(Put(m, k, v), j) == if j == k then Some(v) else Get(m, j)
  {
    if |m| > 0 && m[0].0 != k {
      PutGet(m[1..], k, v, j);
    }
  }

  /** `d[k] = v` keeps the keys distinct. */
  lemma PutDistinct<K, V>(m: seq<(K, V)>, k: K, v: V)
    requires DistinctKeys(m)
    ensures DistinctKeys(Put(m, k, v))
  {
    var r := Put(m, k, v);
    assert Keys(r) == if k in Keys(m) then Keys(m) else Keys(m) + [k];
    forall i, j | 0 <= i < j < |r| ensures r[i].0 != r[j].0 {
      assert Keys(r)[i] == r[i].0 && Keys(r)[j] == r[j].0;
      if j == |m| {
        assert k !in Keys(m);
        assert Keys(m)[i] == m[i].0;
      } else {
        assert Keys(m)[i] == m[i].0 && Keys(m)[j] == m[j].0;
      }
    }
  }

  // ---------------------------------------------------------------------------
  // The per-key fold

  /** Runs over the rows in order; a row with key `Some(k)` replaces the value
      of `k` with `step(old value, row)`. */
  function FoldBy<K(==), R, V>(m: seq<(K, V)>, rows: seq<R>, key: R -> Option<K>,
                               step: (Option<V>, R) -> V): (r: seq<(K, V)>)
    ensures |Keys(m)| <= |Keys(r)| && Keys(r)[..|Keys(m)|] == Keys(m)
    decreases |rows|
  {
    if |rows| == 0 then m
    else
      var next := FoldStep(m, rows[0], key, step);
      var r := FoldBy(next, rows[1..], key, step);
      assert Keys(r)[..|Keys(m)|] == Keys(r)[..|Keys(next)|][..|Keys(m)|];
      r
  }

  /** The update one row makes. */
  function FoldStep<K(==), R, V>(m: seq<(K, V)>, row: R, key: R -> Option<K>,
                                 step: (Option<V>, R) -> V): (r: seq<(K, V)>)
    ensures |Keys(m)| <= |Keys(r)| && Keys(r)[..|Keys(m)|] == Keys(m)
  {
    match key(row)
    case None => m
    case Some(k) => Put(m, k, step(Get(m, k), row))
  }

  /** A single row with a key makes a dictionary of one entry. */
  lemma FoldBySingle<K, R, V>(row: R, key: R -> Option<K>, step: (Option<V>, R) -> V)
    requires key(row).Some?
    ensures FoldBy([], [row], key, step) == [(key(row).value, step(None, row))]
  {
    assert [row][1..] == [];
    assert FoldStep([], row, key, step) == Put([], key(row).value, step(None, row));
  }

  /** The fold keeps the keys distinct. */
  lemma {:induction false} FoldByDistinct<K, R, V>(m: seq<(K, V)>, rows: seq<R>, key: R -> Option<K>,
                                                   step: (Option<V>, R) -> V)
    requires DistinctKeys(m)
    ensures DistinctKeys(FoldBy(m, rows, key, step))
    decreases |rows|
  {
    if |rows| > 0 {
      if key(rows[0]).Some? {
        var k := key(rows[0]).value;
        PutDistinct(m, k, step(Get(m, k), rows[0]));
      }
      FoldByDistinct(FoldStep(m, rows[0], key, step), rows[1..], key, step);
    }
  }

  /** The keys after the fold are the old keys and the keys the rows name. */
  lemma {:induction false} FoldByKeys<K, R, V>(m: seq<(K, V)>, rows: seq<R>, key: R -> Option<K>,
                                               step: (Option<V>, R) -> V, k: K)
    ensures k in Keys(FoldBy(m, rows, key, step)) <==> k in Keys(m) || Names(rows, key, k)
    decreases |rows|
  {
    if |rows| > 0 {
      var next := FoldStep(m, rows[0], key, step);
      FoldByKeys(next, rows[1..], key, step, k);
      assert k in Keys(next) <==> k in Keys(m) || key(rows[0]) == Some(k);
      NamesCons(rows, key, k);
    }
  }

  /** Some row names the key `k`. */
  predicate Names<R, K(==)>(rows: seq<R>, key: R -> Option<K>, k: K) {
    exists i :: 0 <= i < |rows| && key(rows[i]) == Some(k)
  }

  lemma NamesCons<R, K>(rows: seq<R>, key: R -> Option<K>, k: K)
    requires |rows| > 0
    ensures Names(rows, key, k) <==> key(rows[0]) == Some(k) || Names(rows[1..], key, k)
  {
    if Names(rows, key, k) {
      var i :| 0 <= i < |rows| && key(rows[i]) == Some(k);
      if i > 0 {
        assert key(rows[1..][i - 1]) == Some(k);
      }
    }
    if Names(rows[1..], key, k) {
      var i :| 0 <= i < |rows[1..]| && key(rows[1..][i]) == Some(k);
      assert key(rows[i + 1]) == Some(k);
    }
  }

  /** The reference order of a fold's keys: the keys already present, then
      every key the rows name, at the row that names it first. */
  function FirstKeys<K(==), R>(ks: seq<K>, rows: seq<R>, key: R -> Option<K>): seq<K>
    decreases |rows|
  {
    if |rows| == 0 then ks
    else
      var next := match key(rows[0])
                  case None => ks
                  case Some(k) => if k in ks then ks else ks + [k];
      FirstKeys(next, rows[1..], key)
  }

  /** The fold's keys come in first-row order. */
  lemma {:induction false} FoldByKeyOrder<K, R, V>(m: seq<(K, V)>, rows: seq<R>, key: R -> Option<K>,
                                                   step: (Option<V>, R) -> V)
    ensures Keys(FoldBy(m, rows, key, step)) == FirstKeys(Keys(m), rows, key)
    decreases |rows|
  {
    if |rows| > 0 {
      FoldByKeyOrder(FoldStep(m, rows[0], key, step), rows[1..], key, step);
    }
  }

  /** Each key of the first-row order is named by some row and appears once;
      every key some row names is there. */
  lemma {:induction false} FirstKeysNames<K, R>(ks: seq<K>, rows: seq<R>, key: R -> Option<K>, k: K)
    ensures k in FirstKeys(ks, rows, key) <==> k in ks || Names(rows, key, k)
    decreases |rows|
  {
    if |rows| > 0 {
      var next := match key(rows[0])
                  case None => ks
                  case Some(j) => if j in ks then ks else ks + [j];
      FirstKeysNames(next, rows[1..], key, k);
      NamesCons(rows, key, k);
    }
  }

  /** No key of the first-row order appears twice. */
  lemma {:induction false} FirstKeysDistinct<K, R>(ks: seq<K>, rows: seq<R>, key: R -> Option<K>)
    requires forall a, b :: 0 <= a < b < |ks| ==> ks[a] != ks[b]
    ensures var r := FirstKeys(ks, rows, key);
            forall a, b :: 0 <= a < b < |r| ==> r[a] != r[b]
    decreases |rows|
  {
    if |rows| > 0 {
      var next := match key(rows[0])
                  case None => ks
                  case Some(j) => if j in ks then ks else ks + [j];
      forall a, b | 0 <= a < b < |next| ensures next[a] != next[b] {
        if b == |ks| {
          assert next[a] == ks[a] && next[b] !in ks;
        }
      }
      FirstKeysDistinct(next, rows[1..], key);
      var r := FirstKeys(ks, rows, key);
      assert r == FirstKeys(next, rows[1..], key);
      forall a, b | 0 <= a < b < |r| ensures r[a] != r[b] {
      }
    }
  }

  /** Rows that name the same keys, position by position, give the same order. */
  lemma {:induction false} FirstKeysAlike<K, R, S>(ks: seq<K>, rows: seq<R>, key: R -> Option<K>,
                                                   others: seq<S>, otherKey: S -> Option<K>)
    requires |rows| == |others| && forall j :: 0 <= j < |rows| ==> key(rows[j]) == otherKey(others[j])
    ensures FirstKeys(ks, rows, key) == FirstKeys(ks, others, otherKey)
    decreases |rows|
  {
    if |rows| > 0 {
      var next := match key(rows[0])
                  case None => ks
                  case Some(j) => if j in ks then ks else ks + [j];
      assert forall j :: 0 <= j < |rows[1..]| ==> rows[1..][j] == rows[j + 1] && others[1..][j] == others[j + 1];
      FirstKeysAlike(next, rows[1..], key, others[1..], otherKey);
    }
  }

  /** Every key some row names, each exactly once. */
  ghost predicate OncePerNamedKey<K(!new), R>(names: seq<K>, rows: seq<R>, key: R -> Option<K>) {
    (forall a, b :: 0 <= a < b < |names| ==> names[a] != names[b])
    && (forall n :: n in names <==> Names(rows, key, n))
  }

  lemma FirstKeysSpec<K(!new), R>(rows: seq<R>, key: R -> Option<K>)
    ensures OncePerNamedKey(FirstKeys([], rows, key), rows, key)
  {
    FirstKeysDistinct([], rows, key);
    forall n ensures n in FirstKeys([], rows, key) <==> Names(rows, key, n) {
      FirstKeysNames([], rows, key, n);
    }
  }

  /** The fold from nothing, entry by entry: the keys in first-row order, each
      with the fold of exactly its own rows. */
  lemma FoldByEntries<K, R, V>(rows: seq<R>, key: R -> Option<K>, step: (Option<V>, R) -> V)
    ensures var m := FoldBy([], rows, key, step);
            var names := FirstKeys([], rows, key);
            |m| == |names|
            && forall p :: 0 <= p < |names| ==>
                 m[p].0 == names[p] && |Select(rows, key, names[p])| > 0
                 && FoldAll(None, Select(rows, key, names[p]), step) == Some(m[p].1)
  {
    var m := FoldBy([], rows, key, step);
    FoldByKeyOrder([], rows, key, step);
    assert Keys<K, V>([]) == [];
    FoldByDistinct([], rows, key, step);
    forall p | 0 <= p < |m|
      ensures |Select(rows, key, m[p].0)| > 0 && FoldAll(None, Select(rows, key, m[p].0), step) == Some(m[p].1)
    {
      GetAt(m, p);
      FoldByGet([], rows, key, step, m[p].0);
      FoldKeySelect(None, rows, key, m[p].0, step);
    }
  }

  /** A row that names no key changes nothing. */
  lemma {:induction false} FoldBySkip<K, R, V>(m: seq<(K, V)>, a: seq<R>, row: R, b: seq<R>, key: R -> Option<K>,
                                               step: (Option<V>, R) -> V)
    requires key(row).None?
    ensures FoldBy(m, a + [row] + b, key, step) == FoldBy(m, a + b, key, step)
    decreases |a|
  {
    if |a| == 0 {
      assert (a + [row] + b)[1..] == a + b;
    } else {
      assert (a + [row] + b)[0] == (a + b)[0];
      assert (a + [row] + b)[1..] == a[1..] + [row] + b;
      assert (a + b)[1..] == a[1..] + b;
      FoldBySkip(FoldStep(m, a[0], key, step), a[1..], row, b, key, step);
    }
  }

  /** The reference: the value one key ends with, folding only the rows of that key. */
  function FoldKey<K(==), R, V>(v: Option<V>, rows: seq<R>, key: R -> Option<K>, k: K,
                                step: (Option<V>, R) -> V): Option<V>
    decreases |rows|
  {
    if |rows| == 0 then v
    else FoldKey(if key(rows[0]) == Some(k) then Some(step(v, rows[0])) else v, rows[1..], key, k, step)
  }

  /** The value of every key after the whole fold is the fold of its own rows. */
  lemma {:induction false} FoldByGet<K, R, V>(m: seq<(K, V)>, rows: seq<R>, key: R -> Option<K>,
                                                  step: (Option<V>, R) -> V, k: K)
    ensures Get(FoldBy(m, rows, key, step), k) == FoldKey(Get(m, k), rows, key, k, step)
    decreases |rows|
  {
    if |rows| > 0 {
      var next := FoldStep(m, rows[0], key, step);
      if key(rows[0]).Some? {
        var j := key(rows[0]).value;
        PutGet(m, j, step(Get(m, j), rows[0]), k);
      }
      FoldByGet(next, rows[1..], key, step, k);
    }
  }

  /** A key no row names keeps its old value. */
  lemma {:induction false} FoldKeyUntouched<K, R, V>(v: Option<V>, rows: seq<R>, key: R -> Option<K>, k: K,
                                                         step: (Option<V>, R) -> V)
    requires forall i :: 0 <= i < |rows| ==> key(rows[i]) != Some(k)
    ensures FoldKey(v, rows, key, k, step) == v
    decreases |rows|
  {
    if |rows| > 0 {
      assert key(rows[0]) != Some(k);
      FoldKeyUntouched(v, rows[1..], key, k, step);
    }
  }

  // ---------------------------------------------------------------------------
  // One key's fold as a plain fold over that key's rows

  /** The rows whose key is `k`, in order. */
  function Select<K(==), R>(rows: seq<R>, key: R -> Option<K>, k: K): (sel: seq<R>)
    ensures |sel| <= |rows|
    ensures forall j :: 0 <= j < |sel| ==> key(sel[j]) == Some(k)
    decreases |rows|
  {
    if |rows| == 0 then []
    else (if key(rows[0]) == Some(k) then [rows[0]] else []) + Select(rows[1..], key, k)
  }

  /** Some row has key `k` exactly when the selection is not empty. */
  lemma {:induction false} SelectNames<K, R>(rows: seq<R>, key: R -> Option<K>, k: K)
    ensures |Select(rows, key, k)| > 0 <==> Names(rows, key, k)
    decreases |rows|
  {
    if |rows| > 0 {
      SelectNames(rows[1..], key, k);
      NamesCons(rows, key, k);
    }
  }

  /** A left fold; None until the first row. */
  function FoldAll<R, V>(v: Option<V>, rows: seq<R>, step: (Option<V>, R) -> V): Option<V>
    decreases |rows|
  {
    if |rows| == 0 then v else FoldAll(Some(step(v, rows[0])), rows[1..], step)
  }

  lemma {:induction false} FoldKeySelect<K, R, V>(v: Option<V>, rows: seq<R>, key: R -> Option<K>, k: K,
                                                  step: (Option<V>, R) -> V)
    ensures FoldKey(v, rows, key, k, step) == FoldAll(v, Select(rows, key, k), step)
    decreases |rows|
  {
    if |rows| > 0 {
      var rest := Select(rows[1..], key, k);
      if key(rows[0]) == Some(k) {
        assert Select(rows, key, k) == [rows[0]] + rest;
        assert ([rows[0]] + rest)[1..] == rest;
        FoldKeySelect(Some(step(v, rows[0])), rows[1..], key, k, step);
      } else {
        assert Select(rows, key, k) == rest;
        FoldKeySelect(v, rows[1..], key, k, step);
      }
    }
  }

  /** Folding one more row at the end is one more step. */
  lemma {:induction false} FoldAllSnoc<R, V>(v: Option<V>, rows: seq<R>, row: R, step: (Option<V>, R) -> V)
    ensures FoldAll(v, rows + [row], step) == Some(step(FoldAll(v, rows, step), row))
    decreases |rows|
  {
    if |rows| > 0 {
      assert (rows + [row])[1..] == rows[1..] + [row];
      FoldAllSnoc(Some(step(v, rows[0])), rows[1..], row, step);
    }
  }

  /** Selecting from rows that end with one more row. */
  lemma {:induction false} SelectSnoc<K, R>(rows: seq<R>, row: R, key: R -> Option<K>, k: K)
    ensures Select(rows + [row], key, k) == Select(rows, key, k) + (if key(row) == Some(k) then [row] else [])
    decreases |rows|
  {
    if |rows| == 0 {
      assert Select([row], key, k) == (if key(row) == Some(k) then [row] else []) + Select([row][1..], key, k);
    } else {
      assert (rows + [row])[1..] == rows[1..] + [row];
      SelectSnoc(rows[1..], row, key, k);
    }
  }

  /** The step of a dictionary of dictionaries: `outer[k1][key(row)] = step(...)`. */
  function NestStep<K(==), R, V>(key: R -> Option<K>, step: (Option<V>, R) -> V): (Option<seq<(K, V)>>, R) -> seq<(K, V)> {
    (prior: Option<seq<(K, V)>>, row: R) => FoldStep(prior.GetOr([]), row, key, step)
  }

  /** Folding the nested step over rows folds the inner dictionary over them. */
  lemma {:induction false} FoldAllNest<K, R, V>(v: Option<seq<(K, V)>>, rows: seq<R>, key: R -> Option<K>,
                                                step: (Option<V>, R) -> V)
    ensures FoldAll(v, rows, NestStep(key, step))
            == if |rows| == 0 then v else Some(FoldBy(v.GetOr([]), rows, key, step))
    decreases |rows|
  {
    if |rows| > 0 {
      var next := FoldStep(v.GetOr([]), rows[0], key, step);
      assert NestStep(key, step)(v, rows[0]) == next;
      FoldAllNest(Some(next), rows[1..], key, step);
    }
  }

  // ---------------------------------------------------------------------------
  // Grouping: `d[key(row)].append(val(row))` on a `defaultdict(list)`

  function AppendStep<R, V>(val: R -> V): (Option<seq<V>>, R) -> seq<V> {
    (prior: Option<seq<V>>, row: R) => prior.GetOr([]) + [val(row)]
  }

  /** The reference: the values of the rows whose key is `k`, in row order. */
  function ValuesOf<K(==), R, V>(rows: seq<R>, key: R -> Option<K>, val: R -> V, k: K): (vs: seq<V>)
    ensures |vs| <= |rows|
    decreases |rows|
  {
    if |rows| == 0 then []
    else (if key(rows[0]) == Some(k) then [val(rows[0])] else []) + ValuesOf(rows[1..], key, val, k)
  }

  /** A key has values exactly when some row names it. */
  lemma {:induction false} ValuesOfEmpty<K, R, V>(rows: seq<R>, key: R -> Option<K>, val: R -> V, k: K)
    ensures ValuesOf(rows, key, val, k) == [] <==> forall i :: 0 <= i < |rows| ==> key(rows[i]) != Some(k)
    decreases |rows|
  {
    if |rows| > 0 {
      ValuesOfEmpty(rows[1..], key, val, k);
      if forall i :: 0 <= i < |rows[1..]| ==> key(rows[1..][i]) != Some(k) {
        assert forall i :: 1 <= i < |rows| ==> key(rows[i]) == key(rows[1..][i - 1]);
      } else {
        var i :| 0 <= i < |rows[1..]| && key(rows[1..][i]) == Some(k);
        assert key(rows[i + 1]) == Some(k);
      }
    }
  }

  /** Appending the rows of a key one by one collects its values in order. */
  lemma {:induction false} FoldKeyAppend<K, R, V>(acc: Option<seq<V>>, rows: seq<R>, key: R -> Option<K>,
                                                  val: R -> V, k: K)
    ensures FoldKey(acc, rows, key, k, AppendStep(val))
            == if acc.None? && ValuesOf(rows, key, val, k) == [] then None
               else Some(acc.GetOr([]) + ValuesOf(rows, key, val, k))
    decreases |rows|
  {
    if |rows| == 0 {
      assert acc.GetOr([]) + [] == acc.GetOr([]);
    } else if key(rows[0]) == Some(k) {
      var next := AppendHit(acc, rows, key, val, k);
      FoldKeyAppend(next, rows[1..], key, val, k);
      assert acc.GetOr([]) + ValuesOf(rows, key, val, k) == next.value + ValuesOf(rows[1..], key, val, k);
    } else {
      AppendMiss(acc, rows, key, val, k);
      FoldKeyAppend(acc, rows[1..], key, val, k);
    }
  }

  /** One row of the key: the fold goes on from the extended list. */
  lemma AppendHit<K, R, V>(acc: Option<seq<V>>, rows: seq<R>, key: R -> Option<K>, val: R -> V, k: K)
    returns (next: Option<seq<V>>)
    requires |rows| > 0 && key(rows[0]) == Some(k)
    ensures next == Some(acc.GetOr([]) + [val(rows[0])])
    ensures FoldKey(acc, rows, key, k, AppendStep(val)) == FoldKey(next, rows[1..], key, k, AppendStep(val))
    ensures ValuesOf(rows, key, val, k) == [val(rows[0])] + ValuesOf(rows[1..], key, val, k)
  {
    next := Some(acc.GetOr([]) + [val(rows[0])]);
    assert AppendStep(val)(acc, rows[0]) == next.value;
  }

  /** A row of another key leaves the fold and the values alone. */
  lemma AppendMiss<K, R, V>(acc: Option<seq<V>>, rows: seq<R>, key: R -> Option<K>, val: R -> V, k: K)
    requires |rows| > 0 && key(rows[0]) != Some(k)
    ensures FoldKey(acc, rows, key, k, AppendStep(val)) == FoldKey(acc, rows[1..], key, k, AppendStep(val))
    ensures ValuesOf(rows, key, val, k) == ValuesOf(rows[1..], key, val, k)
  {
  }

  /** `defaultdict(list)` filled by appending: a key is present exactly when
      some row names it, and holds the values of its rows in row order. */
  function Group<K(==), R, V>(rows: seq<R>, key: R -> Option<K>, val: R -> V): (m: seq<(K, seq<V>)>)
    ensures DistinctKeys(m)
  {
    FoldByDistinct([], rows, key, AppendStep(val));
    FoldBy([], rows, key, AppendStep(val))
  }

  lemma GroupGet<K, R, V>(rows: seq<R>, key: R -> Option<K>, val: R -> V, k: K)
    ensures Get(Group(rows, key, val), k)
            == if ValuesOf(rows, key, val, k) == [] then None else Some(ValuesOf(rows, key, val, k))
  {
    FoldByGet([], rows, key, AppendStep(val), k);
    FoldKeyAppend(None, rows, key, val, k);
    assert [] + ValuesOf(rows, key, val, k) == ValuesOf(rows, key, val, k);
  }

  // ---------------------------------------------------------------------------
  // `dict(pairs)`: later pairs overwrite earlier ones

  function PairKey<K, V>(): ((K, V)) -> Option<K> {
    (p: (K, V)) => Some(p.0)
  }

  function Overwrite<K, V>(): (Option<V>, (K, V)) -> V {
    (prior: Option<V>, p: (K, V)) => p.1
  }

  /** A dictionary built by assigning the pairs in order. */
  function DictOf<K(==), V>(pairs: seq<(K, V)>): (m: seq<(K, V)>)
    ensures DistinctKeys(m)
  {
    FoldByDistinct([], pairs, PairKey(), Overwrite());
    FoldBy([], pairs, PairKey(), Overwrite())
  }

  /** The reference: the value of the last pair with key `k`. */
  function LastOf<K(==), V>(pairs: seq<(K, V)>, k: K): Option<V>
    decreases |pairs|
  {
    if |pairs| == 0 then None
    else if pairs[|pairs| - 1].0 == k then Some(pairs[|pairs| - 1].1)
    else LastOf(pairs[..|pairs| - 1], k)
  }

  lemma {:induction false} OverwriteLast<K, V>(pairs: seq<(K, V)>, k: K)
    ensures FoldAll(None, Select(pairs, PairKey(), k), Overwrite()) == LastOf(pairs, k)
    decreases |pairs|
  {
    if |pairs| > 0 {
      var init := pairs[..|pairs| - 1];
      var last := pairs[|pairs| - 1];
      assert pairs == init + [last];
      SelectSnoc(init, last, PairKey(), k);
      OverwriteLast(init, k);
      assert PairKey<K, V>()(last) == Some(last.0);
      if last.0 == k {
        FoldAllSnoc(None, Select(init, PairKey(), k), last, Overwrite());
      } else {
        assert Select(pairs, PairKey(), k) == Select(init, PairKey(), k) + [];
        assert Select(init, PairKey(), k) + [] == Select(init, PairKey(), k);
      }
    }
  }

  /** Looking a key up in `dict(pairs)` finds its last pair. */
  lemma DictOfGet<K, V>(pairs: seq<(K, V)>, k: K)
    ensures Get(DictOf(pairs), k) == LastOf(pairs, k)
  {
    FoldByGet([], pairs, PairKey(), Overwrite(), k);
    FoldKeySelect(None, pairs, PairKey(), k, Overwrite());
    OverwriteLast(pairs, k);
  }

  /** The last pair of a key is one of the pairs. */
  lemma {:induction false} LastOfMember<K, V>(pairs: seq<(K, V)>, k: K)
    requires LastOf(pairs, k).Some?
    ensures (k, LastOf(pairs, k).value) in pairs
    decreases |pairs|
  {
    var init := pairs[..|pairs| - 1];
    if pairs[|pairs| - 1].0 != k {
      LastOfMember(init, k);
      assert pairs == init + [pairs[|pairs| - 1]];
    }
  }

  /** Every entry of `dict(pairs)` is a pair: the last one of its key. */
  lemma DictOfEntry<K, V>(pairs: seq<(K, V)>, i: int)
    requires 0 <= i < |DictOf(pairs)|
    ensures DictOf(pairs)[i] in pairs
  {
    var m := DictOf(pairs);
    GetAt(m, i);
    DictOfGet(pairs, m[i].0);
    LastOfMember(pairs, m[i].0);
  }

  /** A key has a last pair exactly when some pair has it. */
  lemma {:induction false} LastOfPresent<K, V>(pairs: seq<(K, V)>, k: K)
    ensures LastOf(pairs, k).Some? <==> exists i :: 0 <= i < |pairs| && pairs[i].0 == k
    decreases |pairs|
  {
    if |pairs| > 0 {
      var init := pairs[..|pairs| - 1];
      LastOfPresent(init, k);
      assert forall i :: 0 <= i < |init| ==> init[i] == pairs[i];
      if exists i :: 0 <= i < |pairs| && pairs[i].0 == k {
        var i :| 0 <= i < |pairs| && pairs[i].0 == k;
        if i < |init| {
          assert init[i].0 == k;
        }
      }
    }
  }

  // ---------------------------------------------------------------------------
  // The output of a multi-object reflection call

  /** `((schema, normalize_name(obj)), d[key] if key in d else default())`
      for every object of `all_objects`, in that order. */
  function Emit<V>(schema: Option<string>, allObjects: seq<string>, normalize: string -> string,
                   m: seq<(string, V)>, default: V): (out: seq<((Option<string>, string), V)>)
    ensures |out| == |allObjects|
    ensures forall i :: 0 <= i < |allObjects| ==>
              out[i].0 == (schema, normalize(allObjects[i]))
              && out[i].1 == Get(m, normalize(allObjects[i])).GetOr(default)
  {
    seq(|allObjects|, i requires 0 <= i < |allObjects| =>
      ((schema, normalize(allObjects[i])), Get(m, normalize(allObjects[i])).GetOr(default)))
  }

  /** `list(d.values())`. */
  function Values<K, V>(m: seq<(K, V)>): (vs: seq<V>)
    ensures |vs| == |m| && forall i :: 0 <= i < |m| ==> vs[i] == m[i].1
  {
    seq(|m|, i requires 0 <= i < |m| => m[i].1)
  }

  /** A dictionary of dictionaries with each inner dictionary replaced by its values. */
  function InnerValues<K(==), J, V>(m: seq<(K, seq<(J, V)>)>): (r: seq<(K, seq<V>)>)
    ensures |r| == |m| && forall i :: 0 <= i < |m| ==> r[i] == (m[i].0, Values(m[i].1))
    decreases |m|
  {
    if |m| == 0 then [] else [(m[0].0, Values(m[0].1))] + InnerValues(m[1..])
  }

  lemma {:induction false} GetInnerValues<K, J, V>(m: seq<(K, seq<(J, V)>)>, k: K)
    ensures Get(InnerValues(m), k) == if Get(m, k).Some? then Some(Values(Get(m, k).value)) else None
    decreases |m|
  {
    if |m| > 0 && m[0].0 != k {
      assert InnerValues(m)[1..] == InnerValues(m[1..]);
      GetInnerValues(m[1..], k);
    }
  }

  /** A key of the dictionary paired with the schema, for the `.items()` views. */
  function WithSchema<V>(schema: Option<string>, m: seq<(string, V)>): (out: seq<((Option<string>, string), V)>)
    ensures |out| == |m|
    ensures forall i :: 0 <= i < |m| ==> out[i] == ((schema, m[i].0), m[i].1)
  {
    seq(|m|, i requires 0 <= i < |m| => ((schema, m[i].0), m[i].1))
  }
  /** `{(schema, k): v for k, v in pairs}.items()`: every assigned key once,
      under the schema, with its last value. */
  lemma WithSchemaDict<V>(schema: Option<string>, pairs: seq<(string, V)>)
    ensures var out := WithSchema(schema, DictOf(pairs));
            (forall i :: 0 <= i < |out| ==> out[i].0.0 == schema && LastOf(pairs, out[i].0.1) == Some(out[i].1))
            && (forall a, b :: 0 <= a < b < |out| ==> out[a].0 != out[b].0)
            && (forall k :: LastOf(pairs, k).Some? <==> exists i :: 0 <= i < |out| && out[i].0.1 == k)
  {
    var m := DictOf(pairs);
    var out := WithSchema(schema, m);
    forall i | 0 <= i < |out| ensures LastOf(pairs, out[i].0.1) == Some(out[i].1) {
      GetAt(m, i);
      DictOfGet(pairs, m[i].0);
    }
    forall k ensures LastOf(pairs, k).Some? <==> exists i :: 0 <= i < |out| && out[i].0.1 == k {
      DictOfGet(pairs, k);
      if LastOf(pairs, k).Some? {
        var i :| 0 <= i < |m| && m[i] == (k, Get(m, k).value);
        assert out[i].0.1 == k;
      }
    }
  }

}
