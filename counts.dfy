/**
 * The `BTreeMap<i64, usize>` of bucket counts, as a Dafny map together with
 * the two things the aggregator reads from it: its entries in ascending key
 * order and the sum of its counts.
 */
module Counts {

  /** `*buckets.entry(key).or_insert(0) += 1`. */
  function Increment(m: map<int, nat>, key: int): (r: map<int, nat>)
    ensures r.Keys == m.Keys + {key}
    ensures r[key] == (if key in m then m[key] else 0) + 1
    ensures forall k | k in m && k != key :: r[k] == m[k]
  {
    m[key := (if key in m then m[key] else 0) + 1]
  }

  ghost predicate IsMin(k: int, s: set<int>)
  {
    k in s && forall x | x in s :: k <= x
  }

  lemma NonEmptyHasElement(s: set<int>)
    requires s != {}
    ensures exists y :: y in s
  {
    if forall y :: y !in s {
      assert false;
    }
  }

  lemma {:induction false} MinExists(s: set<int>)
    requires s != {}
    ensures exists k :: IsMin(k, s)
    decreases |s|
  {
    NonEmptyHasElement(s);
    var y :| y in s;
    if s == {y} {
      assert IsMin(y, s);
    } else {
      MinExists(s - {y});
      var k :| IsMin(k, s - {y});
      var m := if y < k then y else k;
      forall x | x in s ensures m <= x {
        if x != y {
          assert x in s - {y};
        }
      }
      assert IsMin(m, s);
    }
  }

  /** The least key of a non-empty key set: where a `BTreeMap` iteration starts. */
  function MinKey(s: set<int>): (k: int)
    requires s != {}
    ensures k in s && forall x | x in s :: k <= x
  {
    MinExists(s);
    var k :| k in s && forall x | x in s :: k <= x;
    k
  }

  /** The keys in ascending order, the order a `BTreeMap` iterates in. */
  function SortedKeys(s: set<int>): (r: seq<int>)
    ensures |r| == |s|
    ensures forall i | 0 <= i < |r| :: r[i] in s
    ensures forall k | k in s :: k in r
    ensures forall i, j | 0 <= i < j < |r| :: r[i] < r[j]
    decreases |s|
  {
    if s == {} then []
    else
      var k := MinKey(s);
      var rest := SortedKeys(s - {k});
      SortedCons(k, s, rest);
      [k] + rest
  }

  /** Putting the least key in front of the sorted other keys sorts them all. */
  lemma SortedCons(k: int, s: set<int>, rest: seq<int>)
    requires k in s && forall x | x in s :: k <= x
    requires |rest| == |s - {k}|
    requires forall i | 0 <= i < |rest| :: rest[i] in s - {k}
    requires forall x | x in s - {k} :: x in rest
    requires forall i, j | 0 <= i < j < |rest| :: rest[i] < rest[j]
    ensures |[k] + rest| == |s|
    ensures forall i | 0 <= i < |[k] + rest| :: ([k] + rest)[i] in s
    ensures forall x | x in s :: x in [k] + rest
    ensures forall i, j | 0 <= i < j < |[k] + rest| :: ([k] + rest)[i] < ([k] + rest)[j]
  {
    var r := [k] + rest;
    forall i | 0 <= i < |r| ensures r[i] in s {
      if i > 0 {
        assert r[i] == rest[i - 1];
      }
    }
    forall x | x in s ensures x in r {
      if x != k {
        assert x in s - {k};
      }
    }
    forall i, j | 0 <= i < j < |r| ensures r[i] < r[j] {
      assert r[j] == rest[j - 1] && r[j] in s - {k};
      if i > 0 {
        assert r[i] == rest[i - 1];
      }
    }
  }

  /** `buckets.values().sum()`, summed in key order. */
  function Total(m: map<int, nat>): nat
    decreases |m|
  {
    if m == map[] then 0
    else
      var k := MinKey(m.Keys);
      assert (m - {k}).Keys == m.Keys - {k};
      m[k] + Total(m - {k})
  }

  /** The total does not depend on the order the counts are summed in. */
  lemma {:induction false} TotalRemove(m: map<int, nat>, k: int)
    requires k in m
    ensures Total(m) == m[k] + Total(m - {k})
    decreases |m|
  {
    var least := MinKey(m.Keys);
    if k != least {
      assert (m - {least}).Keys == m.Keys - {least};
      TotalRemove(m - {least}, k);
      var m' := m - {k};
      assert m'.Keys == m.Keys - {k};
      assert least in m'.Keys;
      var least' := MinKey(m'.Keys);
      assert least' in m.Keys;
      assert least <= least' && least' <= least;
      assert m' - {least} == m - {least} - {k};
    }
  }

  /** Counting one more instant adds exactly one to the total. */
  lemma TotalIncrement(m: map<int, nat>, key: int)
    ensures Total(Increment(m, key)) == Total(m) + 1
  {
    var r := Increment(m, key);
    TotalRemove(r, key);
    assert r - {key} == m - {key};
    if key in m {
      TotalRemove(m, key);
    } else {
      assert m - {key} == m;
    }
  }

  /** The map that counting every key of `ks` in turn produces, starting from nothing. */
  function Tally(ks: seq<int>): (m: map<int, nat>)
    ensures m.Keys == set k | k in ks
    ensures forall k | k in m :: m[k] == multiset(ks)[k]
  {
    if ks == [] then map[]
    else
      var init := ks[..|ks| - 1];
      assert ks == init + [ks[|ks| - 1]];
      Increment(Tally(init), ks[|ks| - 1])
  }

  /** Counting one more key is one `Increment` of the counts so far. */
  lemma TallySnoc(ks: seq<int>, k: int)
    ensures Tally(ks + [k]) == Increment(Tally(ks), k)
  {
    assert (ks + [k])[..|ks|] == ks;
  }

  /** Every key counted adds one to the total. */
  lemma {:induction false} TallyTotal(ks: seq<int>)
    ensures Total(Tally(ks)) == |ks|
  {
    if ks != [] {
      var init := ks[..|ks| - 1];
      TallyTotal(init);
      TotalIncrement(Tally(init), ks[|ks| - 1]);
    }
  }

  /** The counts depend only on how often each key occurs, not on the order. */
  lemma TallyPermutation(ks1: seq<int>, ks2: seq<int>)
    requires multiset(ks1) == multiset(ks2)
    ensures Tally(ks1) == Tally(ks2)
  {
    var m1, m2 := Tally(ks1), Tally(ks2);
    forall k ensures k in m1 <==> k in m2 {
      assert k in ks1 <==> k in multiset(ks1);
      assert k in ks2 <==> k in multiset(ks2);
    }
  }

  /** The entry for each key of `ks`, in the order of `ks`. */
  function Entries(ks: seq<int>, m: map<int, nat>): (r: seq<(int, nat)>)
    requires forall i | 0 <= i < |ks| :: ks[i] in m
    ensures |r| == |ks|
    ensures forall i | 0 <= i < |r| :: r[i].0 == ks[i] && r[i].1 == m[ks[i]]
  {
    if ks == [] then [] else [(ks[0], m[ks[0]])] + Entries(ks[1..], m)
  }

  /** `get_buckets`: every (key, count) pair, in strictly ascending key order. */
  function BucketList(m: map<int, nat>): (r: seq<(int, nat)>)
    ensures |r| == |m|
    ensures forall i | 0 <= i < |r| :: r[i].0 in m && r[i].1 == m[r[i].0]
    ensures forall k | k in m :: exists i | 0 <= i < |r| :: r[i].0 == k
    ensures forall i, j | 0 <= i < j < |r| :: r[i].0 < r[j].0
  {
    var ks := SortedKeys(m.Keys);
    var r := Entries(ks, m);
    EntriesOfSortedKeys(m, ks, r);
    r
  }

  lemma EntriesOfSortedKeys(m: map<int, nat>, ks: seq<int>, r: seq<(int, nat)>)
    requires |ks| == |m.Keys|
    requires forall i | 0 <= i < |ks| :: ks[i] in m
    requires forall k | k in m :: k in ks
    requires forall i, j | 0 <= i < j < |ks| :: ks[i] < ks[j]
    requires |r| == |ks|
    requires forall i | 0 <= i < |r| :: r[i].0 == ks[i] && r[i].1 == m[ks[i]]
    ensures |r| == |m|
    ensures forall i | 0 <= i < |r| :: r[i].0 in m && r[i].1 == m[r[i].0]
    ensures forall k | k in m :: exists i | 0 <= i < |r| :: r[i].0 == k
    ensures forall i, j | 0 <= i < j < |r| :: r[i].0 < r[j].0
  {
    assert |m.Keys| == |m|;
    forall k | k in m ensures exists i | 0 <= i < |r| :: r[i].0 == k {
      var i :| 0 <= i < |ks| && ks[i] == k;
      assert r[i].0 == k;
    }
  }

  /** The entries listed for a tally: each distinct key once, with how often it occurs. */
  lemma BucketListOfTally(ks: seq<int>)
    ensures |BucketList(Tally(ks))| == |set k | k in ks|
    ensures forall e | e in BucketList(Tally(ks)) :: e.0 in ks && e.1 == multiset(ks)[e.0]
    ensures forall k | k in ks :: exists e | e in BucketList(Tally(ks)) :: e.0 == k
  {
    var m := Tally(ks);
    var r := BucketList(m);
    forall k | k in ks ensures exists e | e in r :: e.0 == k {
      assert k in m;
      var i :| 0 <= i < |r| && r[i].0 == k;
      assert r[i] in r;
    }
  }
}
