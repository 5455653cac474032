/**
 * The relational primitives the pipeline's dataframe library provides, stated over
 * key sequences: the groups of a `groupby` (distinct keys in order of first
 * appearance) and the row pairing of a left `merge`. Row order inside cudf's hash
 * group-by and hash join is unspecified; here it follows the left input.
 */
module Relational {
  import opened Wrappers

  /** No key occurs twice. */
  predicate Unique<K(==)>(ks: seq<K>) {
    forall a, b :: 0 <= a < |ks| && 0 <= b < |ks| && ks[a] == ks[b] ==> a == b
  }

  /** The group keys of a `groupby` over rows with keys `ks`: each key once, in order of first appearance. */
  function Distinct<K(==)>(ks: seq<K>): (ds: seq<K>)
    ensures Unique(ds)
    ensures forall i :: 0 <= i < |ds| ==> ds[i] in ks
    ensures forall i :: 0 <= i < |ks| ==> ks[i] in ds
    ensures |ds| <= |ks|
  {
    if ks == [] then []
    else
      var init := ks[..|ks| - 1];
      assert ks == init + [ks[|ks| - 1]];
      var ds' := Distinct(init);
      if ks[|ks| - 1] in ds' then ds' else ds' + [ks[|ks| - 1]]
  }

  /** The first position of `k` in `rk`, if any. */
  function IndexOf<K(==)>(k: K, rk: seq<K>): (r: Option<nat>)
    ensures r.None? <==> k !in rk
    ensures r.Some? ==> r.value < |rk| && rk[r.value] == k
    ensures r.Some? ==> forall j :: 0 <= j < r.value ==> rk[j] != k
  {
    if rk == [] then None
    else if rk[0] == k then Some(0)
    else
      match IndexOf(k, rk[1..])
      case None => None
      case Some(j) => Some(j + 1)
  }

  /** One output row of a left join: the left row it comes from and the matched right row, if any. */
  datatype Pair = Pair(left: nat, right: Option<nat>)

  /** The pairs (i, j) for every right row j whose key is `k`, in right order. */
  function MatchPairs<K(==)>(i: nat, k: K, rk: seq<K>): (ps: seq<Pair>)
    ensures forall p :: p in ps <==> p.left == i && p.right.Some? && p.right.value < |rk| && rk[p.right.value] == k
    ensures ps == [] <==> k !in rk
  {
    if rk == [] then []
    else
      assert rk == rk[..|rk| - 1] + [rk[|rk| - 1]];
      MatchPairs(i, k, rk[..|rk| - 1]) + (if rk[|rk| - 1] == k then [Pair(i, Some(|rk| - 1))] else [])
  }

  /** The output rows a left join makes of left row i with key k: one per match, or one unmatched row. */
  function RowPairs<K(==)>(i: nat, k: K, rk: seq<K>): (ps: seq<Pair>)
    ensures k !in rk ==> ps == [Pair(i, None)]
    ensures k in rk ==> forall p :: p in ps <==> p.left == i && p.right.Some? && p.right.value < |rk| && rk[p.right.value] == k
  {
    var ms := MatchPairs(i, k, rk);
    if ms == [] then [Pair(i, None)] else ms
  }

  /**
   * The rows of `left.merge(right, how='left')` when the left rows have keys `lk` and
   * the right rows keys `rk`: every left row once per matching right row, and once with
   * no partner when nothing matches.
   */
  function JoinPairs<K(==)>(lk: seq<K>, rk: seq<K>): (ps: seq<Pair>)
    ensures forall p :: p in ps ==> p.left < |lk|
    ensures forall p :: p in ps && p.right.Some? ==> p.right.value < |rk| && rk[p.right.value] == lk[p.left]
    ensures forall p :: p in ps && p.right.None? ==> lk[p.left] !in rk
  {
    if lk == [] then []
    else
      var init := lk[..|lk| - 1];
      var ps' := JoinPairs(init, rk);
      assert forall i :: 0 <= i < |init| ==> init[i] == lk[i];
      ps' + RowPairs(|lk| - 1, lk[|lk| - 1], rk)
  }

  /** A left join drops no left row and no match: every matching pair and every unmatched left row is in the output. */
  lemma {:induction false} JoinPairsComplete<K>(lk: seq<K>, rk: seq<K>)
    ensures forall i, j :: 0 <= i < |lk| && 0 <= j < |rk| && rk[j] == lk[i] ==> Pair(i, Some(j)) in JoinPairs(lk, rk)
    ensures forall i :: 0 <= i < |lk| && lk[i] !in rk ==> Pair(i, None) in JoinPairs(lk, rk)
  {
    if lk != [] {
      var n := |lk| - 1;
      var init := lk[..n];
      JoinPairsComplete(init, rk);
      var ps, ps', rp := JoinPairs(lk, rk), JoinPairs(init, rk), RowPairs(n, lk[n], rk);
      assert ps == ps' + rp;
      forall i, j | 0 <= i < |lk| && 0 <= j < |rk| && rk[j] == lk[i]
        ensures Pair(i, Some(j)) in ps
      {
        if i < n {
          assert init[i] == lk[i];
          assert Pair(i, Some(j)) in ps';
        } else {
          assert Pair(i, Some(j)) in rp;
        }
      }
      forall i | 0 <= i < |lk| && lk[i] !in rk
        ensures Pair(i, None) in ps
      {
        if i < n {
          assert init[i] == lk[i];
          assert Pair(i, None) in ps';
        } else {
          assert Pair(i, None) in rp;
        }
      }
    }
  }

  /** Under unique right keys a key has at most one match, found by `IndexOf`. */
  lemma {:induction false} RowPairsUnique<K>(i: nat, k: K, rk: seq<K>)
    requires Unique(rk)
    ensures RowPairs(i, k, rk) == [Pair(i, IndexOf(k, rk))]
  {
    if rk == [] {
    } else {
      var n := |rk| - 1;
      var init := rk[..n];
      assert forall j :: 0 <= j < n ==> init[j] == rk[j];
      RowPairsUnique(i, k, init);
      if rk[n] == k {
        assert k !in init;
        assert MatchPairs(i, k, init) == [];
        assert IndexOf(k, rk) == Some(n);
      } else {
        assert MatchPairs(i, k, rk) == MatchPairs(i, k, init);
        if k in init {
          assert IndexOf(k, rk) == IndexOf(k, init);
        } else {
          assert k !in rk;
        }
      }
    }
  }

  /**
   * A left join against unique right keys neither drops nor duplicates left rows: the
   * output has one row per left row, in left order, paired with the sole match if any.
   */
  lemma {:induction false} JoinPairsOneToOne<K>(lk: seq<K>, rk: seq<K>)
    requires Unique(rk)
    ensures |JoinPairs(lk, rk)| == |lk|
    ensures forall i :: 0 <= i < |lk| ==> JoinPairs(lk, rk)[i] == Pair(i, IndexOf(lk[i], rk))
  {
    if lk != [] {
      var n := |lk| - 1;
      var init := lk[..n];
      JoinPairsOneToOne(init, rk);
      RowPairsUnique(n, lk[n], rk);
      var ps := JoinPairs(lk, rk);
      assert ps == JoinPairs(init, rk) + [Pair(n, IndexOf(lk[n], rk))];
      forall i | 0 <= i < |lk| ensures ps[i] == Pair(i, IndexOf(lk[i], rk)) {
        if i < n {
          assert init[i] == lk[i];
        }
      }
    }
  }

  /** Appending keys that the first part does not contain keeps a key sequence unique. */
  lemma UniqueAppend<K>(a: seq<K>, b: seq<K>)
    requires Unique(a) && Unique(b)
    requires forall i, j :: 0 <= i < |a| && 0 <= j < |b| ==> a[i] != b[j]
    ensures Unique(a + b)
  {
    var c := a + b;
    forall i, j | 0 <= i < |c| && 0 <= j < |c| && c[i] == c[j]
      ensures i == j
    {
      if i < |a| && j < |a| {
        assert a[i] == a[j];
      } else if i >= |a| && j >= |a| {
        assert b[i - |a|] == b[j - |a|];
      }
    }
  }

  /** In a sequence of unique keys every key is found at its own position. */
  lemma IndexOfUnique<K>(ks: seq<K>, i: nat)
    requires Unique(ks) && i < |ks|
    ensures IndexOf(ks[i], ks) == Some(i)
  {
  }
}
