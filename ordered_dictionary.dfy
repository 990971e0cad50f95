/**
 * A .NET `Dictionary<string, V>` that only ever receives `Add` calls, modelled
 * as the sequence of its entries in insertion order (the order its `foreach`
 * enumerates them in when nothing has been removed), together with the
 * "first one wins" fill that both tree walks perform.
 */
module OrderedDictionary {
  import opened Wrappers

  /** The keys of `d`, in insertion order. */
  function Keys<V>(d: seq<(string, V)>): (r: seq<string>)
    ensures |r| == |d| && forall i :: 0 <= i < |d| ==> r[i] == d[i].0
  {
    seq(|d|, i requires 0 <= i < |d| => d[i].0)
  }

  lemma KeysAppend<V>(a: seq<(string, V)>, b: seq<(string, V)>)
    ensures Keys(a + b) == Keys(a) + Keys(b)
  {
  }

  /** `Dictionary.ContainsKey`. */
  predicate ContainsKey<V>(d: seq<(string, V)>, k: string)
  {
    k in Keys(d)
  }

  /** What `Dictionary` guarantees of its own entries: no key occurs twice. */
  predicate DistinctKeys<V>(d: seq<(string, V)>)
  {
    forall i, j :: 0 <= i < j < |d| ==> d[i].0 != d[j].0
  }

  /**
   * Lookup by key: the value of the first entry with key `k`. On a dictionary
   * with distinct keys this is the indexer `d[k]`, and `None` is the
   * `KeyNotFoundException` case.
   */
  function Get<V>(d: seq<(string, V)>, k: string): (r: Option<V>)
    ensures r.None? <==> !ContainsKey(d, k)
    ensures r.Some? ==> exists i :: 0 <= i < |d| && d[i] == (k, r.value)
                                   && forall j :: 0 <= j < i ==> d[j].0 != k
  {
    if d == [] then None
    else if d[0].0 == k then Some(d[0].1)
    else
      var r := Get(d[1..], k);
      assert Keys(d) == [d[0].0] + Keys(d[1..]);
      assert r.Some? ==> exists i :: 1 <= i < |d| && d[i] == (k, r.value)
                                   && forall j :: 0 <= j < i ==> d[j].0 != k by {
        if r.Some? {
          var i :| 0 <= i < |d[1..]| && d[1..][i] == (k, r.value) && forall j :: 0 <= j < i ==> d[1..][j].0 != k;
          FirstEntryShift(d, k, r.value, i);
        }
      }
      r
  }

  /** The first entry with key `k` in the tail, one index further, is the first in `d` when `d[0]` has another key. */
  lemma FirstEntryShift<V>(d: seq<(string, V)>, k: string, v: V, i: nat)
    requires 0 < |d| && d[0].0 != k && i < |d| - 1
    requires d[1..][i] == (k, v) && forall j :: 0 <= j < i ==> d[1..][j].0 != k
    ensures d[i + 1] == (k, v) && forall j :: 0 <= j < i + 1 ==> d[j].0 != k
  {
    forall j | 0 < j < i + 1 ensures d[j].0 != k {
      assert d[j] == d[1..][j - 1];
    }
  }

  /** In a dictionary with distinct keys, the entry at position `i` is what a lookup of its key finds. */
  lemma {:induction false} GetDistinct<V>(d: seq<(string, V)>, i: nat)
    requires DistinctKeys(d) && i < |d|
    ensures Get(d, d[i].0) == Some(d[i].1)
  {
    if i > 0 {
      assert d[0].0 != d[i].0;
      GetDistinct(d[1..], i - 1);
    }
  }

  /**
   * The dictionary after visiting the candidates `c` in order starting from
   * `d`: a candidate whose key is already present is skipped (and reported),
   * any other one is added at the end.
   */
  function FirstWins<V>(d: seq<(string, V)>, c: seq<(string, V)>): seq<(string, V)>
    decreases |c|
  {
    if c == [] then d
    else if ContainsKey(d, c[0].0) then FirstWins(d, c[1..])
    else FirstWins(d + [c[0]], c[1..])
  }

  /** The keys the same visit reports as duplicates, one report per skipped candidate, in order. */
  function Duplicates<V>(d: seq<(string, V)>, c: seq<(string, V)>): seq<string>
    decreases |c|
  {
    if c == [] then []
    else if ContainsKey(d, c[0].0) then [c[0].0] + Duplicates(d, c[1..])
    else Duplicates(d + [c[0]], c[1..])
  }

  /** Visiting `a + b` is visiting `a` and then visiting `b` from where `a` left off. */
  lemma {:induction false} FirstWinsAppend<V>(d: seq<(string, V)>, a: seq<(string, V)>, b: seq<(string, V)>)
    ensures FirstWins(d, a + b) == FirstWins(FirstWins(d, a), b)
    ensures Duplicates(d, a + b) == Duplicates(d, a) + Duplicates(FirstWins(d, a), b)
    decreases |a|
  {
    if a == [] {
      assert a + b == b;
    } else {
      assert (a + b)[0] == a[0];
      assert (a + b)[1..] == a[1..] + b;
      if ContainsKey(d, a[0].0) {
        FirstWinsAppend(d, a[1..], b);
      } else {
        FirstWinsAppend(d + [a[0]], a[1..], b);
      }
    }
  }

  /** The dictionary only grows: every entry present before is still there, unchanged and in place. */
  lemma {:induction false} FirstWinsGrows<V>(d: seq<(string, V)>, c: seq<(string, V)>)
    ensures |d| <= |FirstWins(d, c)| && FirstWins(d, c)[..|d|] == d
    decreases |c|
  {
    if c != [] {
      if ContainsKey(d, c[0].0) {
        FirstWinsGrows(d, c[1..]);
      } else {
        FirstWinsGrows(d + [c[0]], c[1..]);
        assert (d + [c[0]])[..|d|] == d;
      }
    }
  }

  /** Keys stay distinct, as `Dictionary.Add` demands. */
  lemma {:induction false} FirstWinsDistinct<V>(d: seq<(string, V)>, c: seq<(string, V)>)
    requires DistinctKeys(d)
    ensures DistinctKeys(FirstWins(d, c))
    decreases |c|
  {
    if c != [] {
      if ContainsKey(d, c[0].0) {
        FirstWinsDistinct(d, c[1..]);
      } else {
        var d' := d + [c[0]];
        assert forall i :: 0 <= i < |d| ==> d[i].0 != c[0].0 by {
          forall i | 0 <= i < |d| ensures d[i].0 != c[0].0 {
            assert Keys(d)[i] == d[i].0;
          }
        }
        assert DistinctKeys(d');
        FirstWinsDistinct(d', c[1..]);
      }
    }
  }

  /** A key ends up in the dictionary exactly when it was there before or some candidate carries it. */
  lemma {:induction false} FirstWinsContains<V>(d: seq<(string, V)>, c: seq<(string, V)>, k: string)
    ensures ContainsKey(FirstWins(d, c), k) <==> ContainsKey(d, k) || ContainsKey(c, k)
    decreases |c|
  {
    if c != [] {
      assert Keys(c) == [c[0].0] + Keys(c[1..]);
      if ContainsKey(d, c[0].0) {
        FirstWinsContains(d, c[1..], k);
      } else {
        KeysAppend(d, [c[0]]);
        assert Keys([c[0]]) == [c[0].0];
        FirstWinsContains(d + [c[0]], c[1..], k);
      }
    }
  }

  /**
   * First one wins: a lookup in the filled dictionary answers what it answered
   * before, and for a new key, the value of the FIRST candidate carrying it.
   */
  lemma {:induction false} FirstWinsGet<V>(d: seq<(string, V)>, c: seq<(string, V)>, k: string)
    ensures Get(FirstWins(d, c), k) == if ContainsKey(d, k) then Get(d, k) else Get(c, k)
    decreases |c|
  {
    if c != [] {
      if ContainsKey(d, c[0].0) {
        FirstWinsGet(d, c[1..], k);
      } else {
        var d' := d + [c[0]];
        GetAppend(d, [c[0]], k);
        FirstWinsGet(d', c[1..], k);
        KeysAppend(d, [c[0]]);
      }
    }
  }

  lemma {:induction false} GetAppend<V>(a: seq<(string, V)>, b: seq<(string, V)>, k: string)
    ensures Get(a + b, k) == if ContainsKey(a, k) then Get(a, k) else Get(b, k)
  {
    if a == [] {
      assert a + b == b;
    } else {
      assert (a + b)[0] == a[0];
      assert (a + b)[1..] == a[1..] + b;
      assert Keys(a) == [a[0].0] + Keys(a[1..]);
      GetAppend(a[1..], b, k);
    }
  }

  /** Every candidate is either added or reported, exactly once. */
  lemma {:induction false} FirstWinsCount<V>(d: seq<(string, V)>, c: seq<(string, V)>)
    ensures |FirstWins(d, c)| + |Duplicates(d, c)| == |d| + |c|
    decreases |c|
  {
    if c != [] {
      if ContainsKey(d, c[0].0) {
        FirstWinsCount(d, c[1..]);
      } else {
        FirstWinsCount(d + [c[0]], c[1..]);
      }
    }
  }

  /**
   * The reports for one key: every candidate carrying it except the one that
   * was added (all of them when the key was already present beforehand).
   */
  lemma {:induction false} DuplicatesPerKey<V>(d: seq<(string, V)>, c: seq<(string, V)>, k: string)
    ensures multiset(Duplicates(d, c))[k] ==
      if ContainsKey(d, k) || multiset(Keys(c))[k] == 0 then multiset(Keys(c))[k]
      else multiset(Keys(c))[k] - 1
    decreases |c|
  {
    if c != [] {
      assert Keys(c) == [c[0].0] + Keys(c[1..]);
      assert multiset(Keys(c)) == multiset{c[0].0} + multiset(Keys(c[1..]));
      if ContainsKey(d, c[0].0) {
        DuplicatesPerKey(d, c[1..], k);
      } else {
        KeysAppend(d, [c[0]]);
        assert Keys([c[0]]) == [c[0].0];
        DuplicatesPerKey(d + [c[0]], c[1..], k);
      }
    }
  }

  /**
   * Nothing is reported exactly when the candidates' keys are pairwise
   * distinct and new; then every candidate becomes an entry.
   */
  lemma {:induction false} NoDuplicatesIff<V>(d: seq<(string, V)>, c: seq<(string, V)>)
    ensures Duplicates(d, c) == [] <==> DistinctKeys(c) && forall i :: 0 <= i < |c| ==> !ContainsKey(d, c[i].0)
    ensures Duplicates(d, c) == [] ==> |FirstWins(d, c)| == |d| + |c|
    decreases |c|
  {
    FirstWinsCount(d, c);
    if c != [] {
      if ContainsKey(d, c[0].0) {
        NoDuplicatesIff(d, c[1..]);
      } else {
        var d' := d + [c[0]];
        KeysAppend(d, [c[0]]);
        NoDuplicatesIff(d', c[1..]);
        var allNew := forall i :: 0 <= i < |c| ==> !ContainsKey(d, c[i].0);
        if DistinctKeys(c) && allNew {
          forall i | 0 <= i < |c[1..]| ensures !ContainsKey(d', c[1..][i].0) {
            assert c[1..][i] == c[i + 1];
            assert c[0].0 != c[i + 1].0;
          }
        }
        if Duplicates(d', c[1..]) == [] {
          forall i, j | 0 <= i < j < |c| ensures c[i].0 != c[j].0 {
            if i == 0 {
              assert c[j] == c[1..][j - 1];
              assert Keys(d')[|d|] == c[0].0;
            } else {
              assert c[i] == c[1..][i - 1] && c[j] == c[1..][j - 1];
            }
          }
          forall i | 0 <= i < |c| ensures !ContainsKey(d, c[i].0) {
            if i > 0 { assert c[i] == c[1..][i - 1]; }
          }
        }
      }
    }
  }

  /** The same dictionary with every value mapped through `f`; keys and order are kept. */
  function MapValues<V, W>(d: seq<(string, V)>, f: V -> W): (r: seq<(string, W)>)
    ensures |r| == |d| && forall i :: 0 <= i < |d| ==> r[i] == (d[i].0, f(d[i].1))
  {
    seq(|d|, i requires 0 <= i < |d| => (d[i].0, f(d[i].1)))
  }

  /** The fill looks only at keys, so it commutes with mapping the values. */
  lemma {:induction false} FirstWinsMapValues<V, W>(d: seq<(string, V)>, c: seq<(string, V)>, f: V -> W)
    ensures FirstWins(MapValues(d, f), MapValues(c, f)) == MapValues(FirstWins(d, c), f)
    ensures Duplicates(MapValues(d, f), MapValues(c, f)) == Duplicates(d, c)
    decreases |c|
  {
    var md, mc := MapValues(d, f), MapValues(c, f);
    assert Keys(md) == Keys(d);
    if c != [] {
      assert mc[0] == (c[0].0, f(c[0].1));
      assert mc[1..] == MapValues(c[1..], f);
      if ContainsKey(d, c[0].0) {
        FirstWinsMapValues(d, c[1..], f);
      } else {
        assert md + [mc[0]] == MapValues(d + [c[0]], f);
        FirstWinsMapValues(d + [c[0]], c[1..], f);
      }
    }
  }
}
