/** `check_for_updates` (vb-signups.py:46-53) as a pure function: it returns
    the records the loop announces, in announcement order, instead of
    printing them. */
module Updates {
  import opened Leagues

  /** The names occurring in a list of records. */
  function Names(data: seq<League>): set<string>
  {
    set i | 0 <= i < |data| :: data[i].name
  }

  /** No name occurs twice. */
  predicate DistinctNames(data: seq<League>)
  {
    forall a, b :: 0 <= a < b < |data| ==> data[a].name != data[b].name
  }

  predicate DistinctKeys(ks: seq<string>)
  {
    forall a, b :: 0 <= a < b < |ks| ==> ks[a] != ks[b]
  }

  /** Position of the first record carrying name `n`. */
  ghost function FirstPos(data: seq<League>, n: string): (i: nat)
    requires n in Names(data)
    ensures i < |data| && data[i].name == n
    ensures forall j :: 0 <= j < i ==> data[j].name != n
  {
    if data[0].name == n then 0
    else
      assert n in Names(data[1..]) by {
        var k :| 0 <= k < |data| && data[k].name == n;
        assert data[1..][k - 1].name == n;
      }
      1 + FirstPos(data[1..], n)
  }

  /** Position of the last record carrying name `n`. */
  ghost function LastPos(data: seq<League>, n: string): (i: nat)
    requires n in Names(data)
    ensures i < |data| && data[i].name == n
    ensures forall j :: i < j < |data| ==> data[j].name != n
  {
    var last := |data| - 1;
    if data[last].name == n then last
    else
      assert n in Names(data[..last]) by {
        var k :| 0 <= k < |data| && data[k].name == n;
        assert data[..last][k].name == n;
      }
      LastPos(data[..last], n)
  }

  /** Any index with the first-occurrence property is `FirstPos`. */
  lemma FirstPosUnique(data: seq<League>, n: string, i: nat)
    requires i < |data| && data[i].name == n
    requires forall j :: 0 <= j < i ==> data[j].name != n
    ensures n in Names(data) && FirstPos(data, n) == i
  {
    assert data[i].name in Names(data);
  }

  /** `{league["name"]: league for league in data}`: built left to right,
      so a later record with a name replaces an earlier one. */
  function Index(data: seq<League>): (m: map<string, League>)
    ensures m.Keys == Names(data)
    ensures forall n :: n in m ==> m[n].name == n && m[n] in data
  {
    if |data| == 0 then map[]
    else
      var last := |data| - 1;
      assert Names(data) == Names(data[..last]) + {data[last].name} by {
        forall n | n in Names(data) ensures n in Names(data[..last]) + {data[last].name} {
          var k :| 0 <= k < |data| && data[k].name == n;
          if k < last { assert data[..last][k].name == n; }
        }
        forall n | n in Names(data[..last]) ensures n in Names(data) {
          var k :| 0 <= k < last && data[..last][k].name == n;
          assert data[k].name == n;
        }
      }
      Index(data[..last])[data[last].name := data[last]]
  }

  /** The iteration order of that dict: a name takes its place when first
      inserted, and re-assigning an existing key keeps its place. */
  function KeyOrder(data: seq<League>): (ks: seq<string>)
    ensures forall k :: k in ks <==> k in Names(data)
  {
    if |data| == 0 then []
    else
      var last := |data| - 1;
      var prev := KeyOrder(data[..last]);
      assert Names(data) == Names(data[..last]) + {data[last].name} by {
        assert Index(data).Keys == Index(data[..last]).Keys + {data[last].name};
      }
      if data[last].name in prev then prev else prev + [data[last].name]
  }

  /** The dict maps every name to the LAST record carrying it. */
  lemma {:induction false} IndexHoldsLast(data: seq<League>, n: string)
    requires n in Names(data)
    ensures Index(data)[n] == data[LastPos(data, n)]
  {
    var last := |data| - 1;
    if data[last].name != n {
      assert n in Index(data[..last]);
      IndexHoldsLast(data[..last], n);
    }
  }

  /** The dict's keys are distinct and ordered by first occurrence. */
  lemma {:induction false} KeyOrderByFirstOccurrence(data: seq<League>)
    ensures DistinctKeys(KeyOrder(data))
    ensures forall a, b :: 0 <= a < b < |KeyOrder(data)| ==>
              FirstPos(data, KeyOrder(data)[a]) < FirstPos(data, KeyOrder(data)[b])
  {
    if |data| > 0 {
      var last := |data| - 1;
      var init := data[..last];
      var prev := KeyOrder(init);
      KeyOrderByFirstOccurrence(init);
      forall k | k in prev
        ensures FirstPos(data, k) == FirstPos(init, k)
      {
        var i := FirstPos(init, k);
        FirstPosUnique(data, k, i);
      }
      var n := data[last].name;
      if n !in prev {
        assert n !in Names(init);
        FirstPosUnique(data, n, last);
        var ks := KeyOrder(data);
        assert ks == prev + [n];
        forall a, b | 0 <= a < b < |ks|
          ensures FirstPos(data, ks[a]) < FirstPos(data, ks[b])
        {
          if b == |prev| {
            assert ks[a] == prev[a];
            assert FirstPos(data, ks[a]) == FirstPos(init, prev[a]);
          } else {
            assert ks[a] == prev[a] && ks[b] == prev[b];
          }
        }
      }
    }
  }

  /** The condition of vb-signups.py:52 for the name `n`. */
  predicate Announces(n: string, previous: map<string, League>, status: string)
  {
    n !in previous || previous[n].status == status
  }

  /** The loop `for league_name, league in new_leagues.items()`, over the
      remaining keys `ks`. */
  function AnnounceFrom(ks: seq<string>, current: map<string, League>, previous: map<string, League>, status: string): (r: seq<League>)
    requires forall k :: k in ks ==> k in current
    requires forall k :: k in current ==> current[k].name == k
    ensures |r| <= |ks|
    ensures forall i :: 0 <= i < |r| ==>
              r[i].name in ks && r[i] == current[r[i].name] && Announces(r[i].name, previous, status)
  {
    if |ks| == 0 then []
    else
      var rest := AnnounceFrom(ks[1..], current, previous, status);
      if Announces(ks[0], previous, status) then [current[ks[0]]] + rest else rest
  }

  /** `check_for_updates(new_data, old_data)`: the records announced as
      open, in announcement order. */
  function CheckForUpdates(newData: seq<League>, oldData: seq<League>, status: string): (r: seq<League>)
    ensures |r| <= |newData|
    ensures DistinctNames(r)
    ensures forall i :: 0 <= i < |r| ==> r[i] in newData
  {
    var ks, cur, prev := KeyOrder(newData), Index(newData), Index(oldData);
    KeyOrderByFirstOccurrence(newData);
    AnnounceFromSpec(ks, cur, prev, status);
    KeyOrderLength(newData);
    AnnounceFrom(ks, cur, prev, status)
  }

  /** The dict has no more keys than the list has records. */
  lemma {:induction false} KeyOrderLength(data: seq<League>)
    ensures |KeyOrder(data)| <= |data|
  {
    if |data| > 0 {
      KeyOrderLength(data[..|data| - 1]);
    }
  }

  /** The loop over `ks` emits a record for every key that passes the
      test, and no name twice when the keys are distinct. */
  lemma {:induction false} AnnounceFromSpec(ks: seq<string>, current: map<string, League>, previous: map<string, League>, status: string)
    requires forall k :: k in ks ==> k in current
    requires forall k :: k in current ==> current[k].name == k
    ensures forall k :: k in ks && Announces(k, previous, status) ==> k in Names(AnnounceFrom(ks, current, previous, status))
    ensures DistinctKeys(ks) ==> DistinctNames(AnnounceFrom(ks, current, previous, status))
  {
    if |ks| > 0 {
      var r := AnnounceFrom(ks, current, previous, status);
      var rest := AnnounceFrom(ks[1..], current, previous, status);
      AnnounceFromSpec(ks[1..], current, previous, status);
      forall k | k in ks && Announces(k, previous, status)
        ensures k in Names(r)
      {
        if k == ks[0] {
          assert r[0].name == k;
        } else {
          assert k in ks[1..];
          var j :| 0 <= j < |rest| && rest[j].name == k;
          assert r[|r| - |rest| + j] == rest[j];
        }
      }
      if DistinctKeys(ks) {
        assert DistinctKeys(ks[1..]) by {
          forall a, b | 0 <= a < b < |ks[1..]| ensures ks[1..][a] != ks[1..][b] {
            assert ks[1..][a] == ks[a + 1] && ks[1..][b] == ks[b + 1];
          }
        }
        forall i | 0 <= i < |rest| ensures rest[i].name != ks[0] {
          assert rest[i].name in ks[1..];
        }
      }
    }
  }

  lemma RankedTail(ks: seq<string>, rank: map<string, int>)
    requires |ks| > 0
    requires forall k :: k in ks ==> k in rank
    requires forall a, b :: 0 <= a < b < |ks| ==> rank[ks[a]] < rank[ks[b]]
    ensures forall a, b :: 0 <= a < b < |ks[1..]| ==> rank[ks[1..][a]] < rank[ks[1..][b]]
  {
    var tail := ks[1..];
    forall a, b | 0 <= a < b < |tail| ensures rank[tail[a]] < rank[tail[b]] {
      assert tail[a] == ks[a + 1] && tail[b] == ks[b + 1];
    }
  }

  /** The first key ranks below every record emitted for the later keys. */
  lemma HeadRanksFirst(ks: seq<string>, rank: map<string, int>, current: map<string, League>, previous: map<string, League>, status: string)
    requires |ks| > 0
    requires forall k :: k in ks ==> k in current && k in rank
    requires forall k :: k in current ==> current[k].name == k
    requires forall a, b :: 0 <= a < b < |ks| ==> rank[ks[a]] < rank[ks[b]]
    ensures forall j :: 0 <= j < |AnnounceFrom(ks[1..], current, previous, status)| ==>
              rank[ks[0]] < rank[AnnounceFrom(ks[1..], current, previous, status)[j].name]
  {
    var tail := ks[1..];
    var rest := AnnounceFrom(tail, current, previous, status);
    forall j | 0 <= j < |rest| ensures rank[ks[0]] < rank[rest[j].name] {
      var b :| 0 <= b < |tail| && tail[b] == rest[j].name;
      assert ks[b + 1] == rest[j].name;
    }
  }

  /** Prepending a record that ranks below every record of an ordered list
      keeps the list ordered. */
  lemma ConsRanked(x: League, rest: seq<League>, rank: map<string, int>)
    requires x.name in rank
    requires forall j :: 0 <= j < |rest| ==> rest[j].name in rank && rank[x.name] < rank[rest[j].name]
    requires forall i, j :: 0 <= i < j < |rest| ==> rank[rest[i].name] < rank[rest[j].name]
    ensures forall i :: 0 <= i < |[x] + rest| ==> ([x] + rest)[i].name in rank
    ensures forall i, j :: 0 <= i < j < |[x] + rest| ==> rank[([x] + rest)[i].name] < rank[([x] + rest)[j].name]
  {
    var r := [x] + rest;
    forall i, j | 0 <= i < j < |r| ensures rank[r[i].name] < rank[r[j].name] {
      assert r[j] == rest[j - 1];
      if i > 0 {
        assert r[i] == rest[i - 1];
      }
    }
  }

  /** The loop keeps the order of its keys: if the keys strictly increase
      in `rank`, so do the names of the records announced. */
  lemma {:induction false} AnnounceFromOrdered(ks: seq<string>, rank: map<string, int>, current: map<string, League>, previous: map<string, League>, status: string)
    requires forall k :: k in ks ==> k in current && k in rank
    requires forall k :: k in current ==> current[k].name == k
    requires forall a, b :: 0 <= a < b < |ks| ==> rank[ks[a]] < rank[ks[b]]
    ensures forall i :: 0 <= i < |AnnounceFrom(ks, current, previous, status)| ==>
              AnnounceFrom(ks, current, previous, status)[i].name in rank
    ensures forall i, j :: 0 <= i < j < |AnnounceFrom(ks, current, previous, status)| ==>
              rank[AnnounceFrom(ks, current, previous, status)[i].name]
                < rank[AnnounceFrom(ks, current, previous, status)[j].name]
  {
    if |ks| > 0 {
      var r := AnnounceFrom(ks, current, previous, status);
      var tail := ks[1..];
      var rest := AnnounceFrom(tail, current, previous, status);
      RankedTail(ks, rank);
      AnnounceFromOrdered(tail, rank, current, previous, status);
      if Announces(ks[0], previous, status) {
        HeadRanksFirst(ks, rank, current, previous, status);
        assert r == [current[ks[0]]] + rest;
        ConsRanked(current[ks[0]], rest, rank);
      }
    }
  }

  /** A name is announced exactly when it occurs in the new data and either
      is absent from the old data or the LAST old record carrying it has the
      target status (the old record's status, not the new one's). */
  lemma CheckForUpdatesAnnouncesExactly(newData: seq<League>, oldData: seq<League>, status: string, n: string)
    ensures n in Names(CheckForUpdates(newData, oldData, status)) <==>
              n in Names(newData) && (n !in Names(oldData) || oldData[LastPos(oldData, n)].status == status)
  {
    var ks, cur, prev := KeyOrder(newData), Index(newData), Index(oldData);
    var r := CheckForUpdates(newData, oldData, status);
    AnnounceFromSpec(ks, cur, prev, status);
    if n in Names(oldData) {
      IndexHoldsLast(oldData, n);
    }
    if n in Names(r) {
      var i :| 0 <= i < |r| && r[i].name == n;
      assert n in ks;
    }
  }

  /** No name is announced twice, and the record announced for a name is
      the last record of the new data carrying it. */
  lemma CheckForUpdatesRecords(newData: seq<League>, oldData: seq<League>, status: string)
    ensures DistinctNames(CheckForUpdates(newData, oldData, status))
    ensures forall i :: 0 <= i < |CheckForUpdates(newData, oldData, status)| ==>
              var l := CheckForUpdates(newData, oldData, status)[i];
              l.name in Names(newData) && l == newData[LastPos(newData, l.name)]
  {
    var ks, cur, prev := KeyOrder(newData), Index(newData), Index(oldData);
    var r := CheckForUpdates(newData, oldData, status);
    KeyOrderByFirstOccurrence(newData);
    AnnounceFromSpec(ks, cur, prev, status);
    forall i | 0 <= i < |r|
      ensures r[i].name in Names(newData) && r[i] == newData[LastPos(newData, r[i].name)]
    {
      IndexHoldsLast(newData, r[i].name);
    }
  }

  /** Announcements follow the order in which names first occur in the new data. */
  lemma CheckForUpdatesOrder(newData: seq<League>, oldData: seq<League>, status: string)
    ensures forall i :: 0 <= i < |CheckForUpdates(newData, oldData, status)| ==>
              CheckForUpdates(newData, oldData, status)[i].name in Names(newData)
    ensures forall i, j :: 0 <= i < j < |CheckForUpdates(newData, oldData, status)| ==>
              FirstPos(newData, CheckForUpdates(newData, oldData, status)[i].name)
                < FirstPos(newData, CheckForUpdates(newData, oldData, status)[j].name)
  {
    var ks, cur, prev := KeyOrder(newData), Index(newData), Index(oldData);
    var r := CheckForUpdates(newData, oldData, status);
    var rank := map n | n in Names(newData) :: FirstPos(newData, n);
    KeyOrderByFirstOccurrence(newData);
    AnnounceFromOrdered(ks, rank, cur, prev, status);
  }

  /** With no stored results every name of the new data is announced. */
  lemma CheckForUpdatesEmptyPrevious(newData: seq<League>, status: string)
    ensures Names(CheckForUpdates(newData, [], status)) == Names(newData)
  {
    forall n ensures n in Names(CheckForUpdates(newData, [], status)) <==> n in Names(newData) {
      CheckForUpdatesAnnouncesExactly(newData, [], status, n);
    }
  }

  /** A league stored with the target status is announced again next to a
      league that is new. */
  lemma ReannouncedWhileOpen(a: League, b: League, status: string)
    requires a.name != b.name && a.status == status
    ensures CheckForUpdates([a, b], [a], status) == [a, b]
  {
    assert [a, b][..1] == [a] && [a][..0] == [];
    assert KeyOrder([a]) == [a.name];
    var ks := KeyOrder([a, b]);
    assert ks == [a.name, b.name];
    var cur, prev := Index([a, b]), Index([a]);
    assert prev == map[a.name := a];
    assert cur[a.name] == a && cur[b.name] == b;
    assert ks[1..] == [b.name] && ks[1..][1..] == [];
    assert AnnounceFrom(ks[1..], cur, prev, status) == [b];
  }

  /** A league stored with another status is not announced again. */
  lemma NotReannouncedOtherwise(a: League, status: string)
    requires a.status != status
    ensures CheckForUpdates([a], [a], status) == []
  {
    assert [a][..0] == [];
    assert KeyOrder([a][..0]) == [];
    var ks := KeyOrder([a]);
    assert ks == [a.name] && ks[1..] == [];
    var idx := Index([a]);
    assert idx == map[a.name := a];
    assert !Announces(a.name, idx, status);
    assert AnnounceFrom(ks, idx, idx, status) == AnnounceFrom(ks[1..], idx, idx, status);
  }

  /** A single league with nothing stored is announced. */
  lemma SingleLeagueAnnounced(a: League, status: string)
    ensures CheckForUpdates([a], [], status) == [a]
  {
    assert [a][..0] == [];
    assert KeyOrder([a][..0]) == [];
    var ks := KeyOrder([a]);
    assert ks == [a.name] && ks[1..] == [];
    var cur, prev := Index([a]), Index([]);
    assert cur == map[a.name := a] && prev == map[];
    assert Announces(a.name, prev, status);
    assert AnnounceFrom(ks, cur, prev, status) == [cur[a.name]] + AnnounceFrom(ks[1..], cur, prev, status);
  }
}
