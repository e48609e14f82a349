/**
 The scheduler registry (website/src/algorithms/index.ts): an object from
 key to scheduler, built from an object literal whose keys are the
 schedulers' names, with a listing and a lookup that falls back to the
 default scheduler.
 */
module Registry {
  import opened Wrappers
  import opened Types
  import DefaultAlgorithm

  /** The registry's entries in insertion order, as `Object.entries` lists them. */
  type Entries = seq<(string, Scheduler)>

  /** One row of `listAlgorithms()`. */
  datatype AlgorithmInfo = AlgorithmInfo(key: string, name: string, description: Option<string>)

  /** No key occurs twice, as in any JavaScript object. */
  ghost predicate DistinctKeys(e: Entries) {
    forall i, j :: 0 <= i < j < |e| ==> e[i].0 != e[j].0
  }

  /** `obj[key]`: the value stored under `key`, if any. */
  function Find(e: Entries, key: string): (r: Option<Scheduler>)
    ensures r.None? <==> forall i :: 0 <= i < |e| ==> e[i].0 != key
    ensures r.Some? ==> exists i :: 0 <= i < |e| && e[i] == (key, r.value)
  {
    if |e| == 0 then None
    else if e[0].0 == key then Some(e[0].1)
    else
      var r := Find(e[1..], key);
      assert r.Some? ==> exists i :: 0 <= i < |e[1..]| && e[1..][i] == (key, r.value);
      assert forall i :: 1 <= i < |e| ==> e[i] == e[1..][i - 1];
      r
  }

  /** In an object without repeated keys, each entry is what its key finds. */
  lemma {:induction false} FindEntry(e: Entries, i: nat)
    requires DistinctKeys(e) && i < |e|
    ensures Find(e, e[i].0) == Some(e[i].1)
  {
    if i > 0 {
      assert e[0].0 != e[i].0;
      FindEntry(e[1..], i - 1);
    }
  }

  /** `obj[key] = value`: an existing key keeps its place and takes the new
      value; a new key goes at the end. */
  function Put(e: Entries, key: string, s: Scheduler): (r: Entries)
    ensures |r| == |e| || |r| == |e| + 1
  {
    if |e| == 0 then [(key, s)]
    else if e[0].0 == key then [(key, s)] + e[1..]
    else [e[0]] + Put(e[1..], key, s)
  }

  /** After `Put`, the key finds the new value. */
  lemma {:induction false} PutFindSame(e: Entries, key: string, s: Scheduler)
    ensures Find(Put(e, key, s), key) == Some(s)
  {
    if |e| > 0 && e[0].0 != key {
      PutFindSame(e[1..], key, s);
      assert Put(e, key, s)[1..] == Put(e[1..], key, s);
    }
  }

  /** After `Put`, every other key finds what it found before. */
  lemma {:induction false} PutFindOther(e: Entries, key: string, s: Scheduler, other: string)
    requires other != key
    ensures Find(Put(e, key, s), other) == Find(e, other)
  {
    if |e| > 0 {
      if e[0].0 != key {
        PutFindOther(e[1..], key, s, other);
        assert Put(e, key, s)[1..] == Put(e[1..], key, s);
      } else {
        assert Put(e, key, s)[1..] == e[1..];
      }
    }
  }

  /** `Put` keeps the keys distinct. */
  lemma {:induction false} PutDistinct(e: Entries, key: string, s: Scheduler)
    requires DistinctKeys(e)
    ensures DistinctKeys(Put(e, key, s))
  {
    if |e| > 0 && e[0].0 != key {
      PutDistinct(e[1..], key, s);
      var t := Put(e[1..], key, s);
      var r := [e[0]] + t;
      assert Put(e, key, s) == r;
      assert r[1..] == t;
      PutKeys(e[1..], key, s);
      forall i, j | 0 <= i < j < |r| ensures r[i].0 != r[j].0 {
        if i == 0 {
          assert r[j] == t[j - 1];
          if t[j - 1].0 != key {
            var m :| 0 <= m < |e[1..]| && e[1..][m].0 == t[j - 1].0;
            assert e[m + 1].0 == t[j - 1].0;
          }
        }
      }
    } else if |e| > 0 {
      var r := Put(e, key, s);
      assert r[1..] == e[1..];
      forall i, j | 0 <= i < j < |r| ensures r[i].0 != r[j].0 {
        assert r[j] == e[j];
        if i > 0 { assert r[i] == e[i]; }
      }
    }
  }

  /** Every key after `Put` is the new key or one that was already there. */
  lemma {:induction false} PutKeys(e: Entries, key: string, s: Scheduler)
    ensures forall j :: 0 <= j < |Put(e, key, s)| ==>
      Put(e, key, s)[j].0 == key || exists m :: 0 <= m < |e| && e[m].0 == Put(e, key, s)[j].0
  {
    if |e| > 0 && e[0].0 != key {
      PutKeys(e[1..], key, s);
      var t := Put(e[1..], key, s);
      var r := [e[0]] + t;
      assert Put(e, key, s) == r;
      forall j | 0 <= j < |r| && r[j].0 != key ensures exists m :: 0 <= m < |e| && e[m].0 == r[j].0 {
        if j == 0 {
          assert e[0].0 == r[0].0;
        } else {
          assert r[j] == t[j - 1];
          var m :| 0 <= m < |e[1..]| && e[1..][m].0 == t[j - 1].0;
          assert e[m + 1].0 == r[j].0;
        }
      }
    } else if |e| > 0 {
      var r := Put(e, key, s);
      forall j | 0 <= j < |r| && r[j].0 != key ensures exists m :: 0 <= m < |e| && e[m].0 == r[j].0 {
        assert e[j].0 == r[j].0;
      }
    }
  }

  /** The object literal `{ [s1.name]: s1, [s2.name]: s2, … }`: each scheduler is
      stored under its own name, a repeated name overwriting the earlier value. */
  function Build(ss: seq<Scheduler>): (e: Entries)
    ensures |e| <= |ss|
  {
    if |ss| == 0 then []
    else
      var n := |ss| - 1;
      Put(Build(ss[..n]), ss[n].name, ss[n])
  }

  /** A built registry never repeats a key. */
  lemma {:induction false} BuildDistinct(ss: seq<Scheduler>)
    ensures DistinctKeys(Build(ss))
  {
    if |ss| > 0 {
      var n := |ss| - 1;
      BuildDistinct(ss[..n]);
      PutDistinct(Build(ss[..n]), ss[n].name, ss[n]);
    }
  }

  /** Each scheduler is stored under its own name: the name finds the last
      scheduler that carries it. */
  lemma {:induction false} BuildFind(ss: seq<Scheduler>, i: nat)
    requires i < |ss|
    requires forall j :: i < j < |ss| ==> ss[j].name != ss[i].name
    ensures Find(Build(ss), ss[i].name) == Some(ss[i])
  {
    var n := |ss| - 1;
    var prev := Build(ss[..n]);
    assert Build(ss) == Put(prev, ss[n].name, ss[n]);
    if i == n {
      PutFindSame(prev, ss[n].name, ss[n]);
    } else {
      PutFindOther(prev, ss[n].name, ss[n], ss[i].name);
      assert ss[..n][i] == ss[i];
      assert forall j :: i < j < n ==> ss[..n][j] == ss[j];
      BuildFind(ss[..n], i);
    }
  }

  /** The registry of the application: only the default scheduler. */
  function Algorithms(): (e: Entries)
    ensures DistinctKeys(e)
    ensures Find(e, DefaultAlgorithm.DefaultScheduler.name) == Some(DefaultAlgorithm.DefaultScheduler)
    ensures forall key :: key != "default" ==> Find(e, key).None?
  {
    var e := Build([DefaultAlgorithm.DefaultScheduler]);
    assert e == [("default", DefaultAlgorithm.DefaultScheduler)];
    e
  }

  /** `listAlgorithms()`: one row per registry entry, in entry order, copying
      the key, the scheduler's name and its description. */
  function ListAlgorithms(e: Entries): (rows: seq<AlgorithmInfo>)
    ensures |rows| == |e|
    ensures forall i :: 0 <= i < |e| ==>
      rows[i] == AlgorithmInfo(e[i].0, e[i].1.name, e[i].1.description)
  {
    if |e| == 0 then [] else [Info(e[0])] + ListAlgorithms(e[1..])
  }

  function Info(entry: (string, Scheduler)): AlgorithmInfo {
    AlgorithmInfo(entry.0, entry.1.name, entry.1.description)
  }

  /** `getAlgorithm(key)`: a missing or empty key, or one the registry does not
      hold, yields the default scheduler. */
  function GetAlgorithm(e: Entries, key: Option<string>): (s: Scheduler)
    ensures key.None? || key == Some("") ==> s == DefaultAlgorithm.DefaultScheduler
    ensures key.Some? && key.value != "" && Find(e, key.value).None? ==> s == DefaultAlgorithm.DefaultScheduler
    ensures key.Some? && key.value != "" && Find(e, key.value).Some? ==> s == Find(e, key.value).value
  {
    if key.None? || key.value == "" then DefaultAlgorithm.DefaultScheduler
    else
      match Find(e, key.value)
      case Some(s) => s
      case None => DefaultAlgorithm.DefaultScheduler
  }

  /** A scheduler registered under a non-empty name comes back from
      `getAlgorithm` of that name (when no later scheduler reuses it). */
  lemma GetRegistered(ss: seq<Scheduler>, i: nat)
    requires i < |ss| && ss[i].name != ""
    requires forall j :: i < j < |ss| ==> ss[j].name != ss[i].name
    ensures GetAlgorithm(Build(ss), Some(ss[i].name)) == ss[i]
  {
    BuildFind(ss, i);
  }

  /** Every listed key leads back, through `getAlgorithm`, to the scheduler
      the listing describes. */
  lemma ListedKeysResolve(ss: seq<Scheduler>, i: nat)
    requires i < |Build(ss)| && Build(ss)[i].0 != ""
    ensures var row := ListAlgorithms(Build(ss))[i];
      var s := GetAlgorithm(Build(ss), Some(row.key));
      s.name == row.name && s.description == row.description
  {
    var e := Build(ss);
    BuildDistinct(ss);
    FindEntry(e, i);
  }

  /** The application lists exactly one algorithm, `default`. */
  lemma ListingOfApplication()
    ensures ListAlgorithms(Algorithms()) ==
      [AlgorithmInfo("default", "default", Some("Simple SM-2-like: due-first, then new"))]
  {
    assert Algorithms() == [("default", DefaultAlgorithm.DefaultScheduler)];
  }

  /** In the application every key but `default` falls back to the default
      scheduler, and `default` finds it too. */
  lemma ApplicationAlwaysDefault(key: Option<string>)
    ensures GetAlgorithm(Algorithms(), key) == DefaultAlgorithm.DefaultScheduler
  {
    assert Algorithms() == [("default", DefaultAlgorithm.DefaultScheduler)];
  }
}
