/** One run of `main` (vb-signups.py:65-79) as a transition on the result
    store: fetch, refine, filter, compare with the stored results, announce,
    save. */
module Cycle {
  import opened Wrappers
  import opened Leagues
  import Calendar
  import Updates
  import Fetch

  /** The module-level settings of vb-signups.py:10-15 that the logic reads.
      `day` is `DAY`, which the source lower-cases once where it defines it;
      the filter compares with it as it stands. */
  datatype Config = Config(
    retryAttempts: nat,
    retryDelay: nat,
    playLevel: string,
    day: string,
    status: string)

  function LowerChar(c: char): char
  {
    if 'A' <= c <= 'Z' then (c as int - 'A' as int + 'a' as int) as char else c
  }

  /** `str.lower()` restricted to ASCII letters. */
  function AsciiLower(s: string): (r: string)
    ensures |r| == |s|
    ensures forall i :: 0 <= i < |s| ==> !('A' <= r[i] <= 'Z')
    ensures forall i :: 0 <= i < |s| && 'A' <= s[i] <= 'Z' ==> r[i] as int == s[i] as int + 32
    ensures forall i :: 0 <= i < |s| && !('A' <= s[i] <= 'Z') ==> r[i] == s[i]
  {
    if |s| == 0 then [] else [LowerChar(s[0])] + AsciiLower(s[1..])
  }

  /** Lower-casing twice is lower-casing once, and a string with no
      upper-case letter is its own lower-case form. */
  lemma {:induction false} AsciiLowerFixesLowerCase(s: string)
    requires forall i :: 0 <= i < |s| ==> !('A' <= s[i] <= 'Z')
    ensures AsciiLower(s) == s
  {
    if |s| > 0 {
      AsciiLowerFixesLowerCase(s[1..]);
    }
  }

  /** The settings as shipped: three attempts, a five-second base delay,
      level "Recreational", day `"friday".lower()`, status "sign_up". */
  function ShippedConfig(): Config
  {
    Config(3, 5, "Recreational", AsciiLower("friday"), "sign_up")
  }

  /** As shipped, the filter keeps Friday leagues. */
  lemma ShippedDayIsFriday()
    ensures ShippedConfig().day == "friday"
    ensures "friday" in Calendar.WeekdayNames
  {
    AsciiLowerFixesLowerCase("friday");
  }

  datatype Outcome = FetchFailed | RefineFailed | Completed

  /** The store after the run and the records announced during it. */
  datatype CycleResult = CycleResult(store: seq<League>, announced: seq<League>, outcome: Outcome)

  /** `main` after `fetch_league_data` has returned `fetched` (the rows of
      `data.rows`, or None): on None it returns at once; a start date that
      does not parse raises out of the refinement before anything is
      announced or saved; otherwise the filtered list is compared with the
      stored one and then saved over it. */
  function Transition(cfg: Config, store: seq<League>, fetched: Option<seq<League>>): (r: CycleResult)
    ensures r.outcome == FetchFailed <==> fetched.None?
    ensures r.outcome == RefineFailed <==>
              fetched.Some? && exists i :: 0 <= i < |fetched.value| && Calendar.DayOfWeek(fetched.value[i].startDate).None?
    ensures r.outcome != Completed ==> r.store == store && r.announced == []
    ensures r.outcome == Completed ==> r.announced == Updates.CheckForUpdates(r.store, store, cfg.status)
    ensures r.outcome == Completed ==> forall l :: l in r.store ==> Matches(l, cfg.day, cfg.playLevel)
    ensures r.outcome == Completed ==>
              && fetched.Some? && RefineAll(fetched.value).Some?
              && r.store == FilterLeagues(RefineAll(fetched.value).value, cfg.day, cfg.playLevel)
  {
    match fetched
    case None => CycleResult(store, [], FetchFailed)
    case Some(rows) =>
      match RefineAll(rows)
      case None => CycleResult(store, [], RefineFailed)
      case Some(data) =>
        var filtered := FilterLeagues(data, cfg.day, cfg.playLevel);
        CycleResult(filtered, Updates.CheckForUpdates(filtered, store, cfg.status), Completed)
  }

  /** After a completed run a record is in the store exactly when it
      matches the filter and is the refinement of a fetched row, whatever
      the store held before. */
  lemma {:induction false} TransitionStoresFiltered(cfg: Config, store: seq<League>, rows: seq<League>, l: League)
    requires RefineAll(rows).Some?
    ensures Transition(cfg, store, Some(rows)).outcome == Completed
    ensures l in Transition(cfg, store, Some(rows)).store <==>
              Matches(l, cfg.day, cfg.playLevel) && exists i :: 0 <= i < |rows| && RefineLeague(rows[i]) == Some(l)
  {
    var data := RefineAll(rows).value;
    FilterMembership(data, cfg.day, cfg.playLevel, l);
    if l in data {
      var i :| 0 <= i < |data| && data[i] == l;
      assert RefineLeague(rows[i]) == Some(l);
    }
  }

  /** Saving replaces the store: the previous contents never reach the new store. */
  lemma TransitionReplacesStore(cfg: Config, store1: seq<League>, store2: seq<League>, fetched: Option<seq<League>>)
    requires fetched.Some? && RefineAll(fetched.value).Some?
    ensures Transition(cfg, store1, fetched).outcome == Completed
    ensures Transition(cfg, store2, fetched).outcome == Completed
    ensures Transition(cfg, store1, fetched).store == Transition(cfg, store2, fetched).store
  {
  }

  /** Running again on the same data leaves the store as it is, and
      re-announces every stored league whose status is the target status. */
  lemma RepeatedRun(cfg: Config, store: seq<League>, fetched: Option<seq<League>>, n: string)
    requires fetched.Some? && RefineAll(fetched.value).Some?
    ensures var s := Transition(cfg, store, fetched).store;
            var again := Transition(cfg, s, fetched);
            && again.store == s
            && (n in Updates.Names(again.announced) <==>
                  n in Updates.Names(s) && s[Updates.LastPos(s, n)].status == cfg.status)
  {
    var s := Transition(cfg, store, fetched).store;
    Updates.CheckForUpdatesAnnouncesExactly(s, s, cfg.status, n);
  }

  /** `main()`: fetch with retries, then the transition. `respond(k)` is
      the outcome of request `k`. */
  method RunMain(cfg: Config, store: seq<League>, respond: nat -> Fetch.Response<seq<League>>)
    returns (r: CycleResult, sleeps: seq<nat>)
    ensures (forall k :: 0 <= k < cfg.retryAttempts ==> respond(k).Failed?) <==> r.outcome == FetchFailed
    ensures r.outcome == FetchFailed ==> r.store == store && r.announced == []
    ensures r.outcome == FetchFailed ==> sleeps == Fetch.Schedule(cfg.retryDelay, cfg.retryAttempts)
    ensures r.outcome != FetchFailed ==>
              exists k :: 0 <= k < cfg.retryAttempts && respond(k).Ok?
                && (forall j :: 0 <= j < k ==> respond(j).Failed?)
                && r == Transition(cfg, store, Some(respond(k).body))
                && sleeps == Fetch.Schedule(cfg.retryDelay, k)
  {
    var fetched, requests;
    fetched, requests, sleeps := Fetch.FetchLeagueData(respond, cfg.retryAttempts, cfg.retryDelay);
    r := Transition(cfg, store, fetched);
    if fetched.None? {
      assert forall k :: 0 <= k < |sleeps| ==> sleeps[k] == Fetch.Schedule(cfg.retryDelay, cfg.retryAttempts)[k] by {
        Fetch.ScheduleDelays(cfg.retryDelay, cfg.retryAttempts);
      }
    } else {
      var k := requests - 1;
      assert respond(k).Ok? && fetched == Some(respond(k).body);
      assert forall j :: 0 <= j < k ==> respond(j).Failed?;
      assert sleeps == Fetch.Schedule(cfg.retryDelay, k) by {
        Fetch.ScheduleDelays(cfg.retryDelay, k);
      }
    }
  }

  lemma RefineSingle(l: League, refined: League)
    requires RefineLeague(l) == Some(refined)
    ensures RefineAll([l]) == Some([refined])
  {
    var r := RefineAll([l]);
    assert [l][0] == l;
    assert r.Some?;
    assert RefineLeague([l][0]) == Some(r.value[0]);
    assert r.value == [refined];
  }

  /** A Monday league with three of six teams, at the wanted level, and an
      empty store: that league is announced with three open slots, and the
      store then holds it with weekday "monday". */
  lemma MondayScenario(l: League)
    requires l.startDate == "2024-01-01" && l.teams == 3 && l.teamSize == 6
    requires l.playLevel == "Recreational"
    ensures var cfg := Config(3, 5, "Recreational", "monday", "sign_up");
            var r := Transition(cfg, [], Some([l]));
            && r.outcome == Completed
            && |r.announced| == 1 && r.announced[0].name == l.name
            && r.announced[0].derived == Some(Derived("monday", false, 3))
            && r.store == r.announced
  {
    var cfg := Config(3, 5, "Recreational", "monday", "sign_up");
    Calendar.NewYear2024IsMonday();
    var refined := l.(derived := Some(Derived("monday", false, 3)));
    assert RefineLeague(l) == Some(refined);
    RefineSingle(l, refined);
    assert FilterLeagues([refined], "monday", "Recreational") == [refined] by {
      assert [refined][1..] == [];
    }
    Updates.SingleLeagueAnnounced(refined, cfg.status);
  }
}
