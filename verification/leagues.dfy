/** League records, `refine_league` (vb-signups.py:59-63) and the
    day/level filter of `main` (vb-signups.py:70-72). */
module Leagues {
  import opened Wrappers
  import Calendar

  /** The fields `refine_league` writes into a record. */
  datatype Derived = Derived(dayOfWeek: string, isFull: bool, openSlots: int)

  /** One league record as the API returns it (`derived` is None) or as
      `refine_league` leaves it and the result store keeps it. `sportId`
      stands for the nested `sport.id`. */
  datatype League = League(
    name: string,
    startDate: string,
    teams: int,
    teamSize: int,
    playLevel: string,
    status: string,
    id: int,
    sportId: int,
    derived: Option<Derived>)

  /** `refine_league(league)`: add the weekday of the start date, whether the
      league is full and how many team slots remain. None where
      `day_of_week` raises on the start date. */
  function RefineLeague(l: League): (r: Option<League>)
    ensures r.Some? <==> Calendar.DayOfWeek(l.startDate).Some?
    ensures r.Some? ==> r.value.(derived := l.derived) == l
    ensures r.Some? ==> r.value.derived.Some?
    ensures r.Some? ==> r.value.derived.value.dayOfWeek in Calendar.WeekdayNames
    ensures r.Some? ==> Calendar.DayOfWeek(l.startDate) == Some(r.value.derived.value.dayOfWeek)
    ensures r.Some? ==> r.value.derived.value.openSlots + l.teams == l.teamSize
    ensures r.Some? ==> (r.value.derived.value.isFull <==> r.value.derived.value.openSlots <= 0)
  {
    match Calendar.DayOfWeek(l.startDate)
    case None => None
    case Some(day) =>
      Some(l.(derived := Some(Derived(day, l.teams >= l.teamSize, l.teamSize - l.teams))))
  }

  /** The list comprehension `[refine_league(league) for league in rows]`:
      every row refined in order, or None as soon as one start date fails,
      the exception aborting the whole comprehension. */
  function RefineAll(rows: seq<League>): (r: Option<seq<League>>)
    ensures r.Some? <==> forall i :: 0 <= i < |rows| ==> RefineLeague(rows[i]).Some?
    ensures r.Some? ==> |r.value| == |rows|
    ensures r.Some? ==> forall i :: 0 <= i < |rows| ==> RefineLeague(rows[i]) == Some(r.value[i])
  {
    if |rows| == 0 then Some([])
    else
      match RefineLeague(rows[0])
      case None => None
      case Some(head) =>
        match RefineAll(rows[1..])
        case None => None
        case Some(tail) => Some([head] + tail)
  }

  /** The filter condition of vb-signups.py:72: exact, case-sensitive string
      equality on both the weekday and the play level. */
  predicate Matches(l: League, day: string, level: string)
  {
    l.derived.Some? && l.derived.value.dayOfWeek == day && l.playLevel == level
  }

  /** `[league for league in data if league['day_of_week'] == DAY and
      league["play_level"] == PLAY_LEVEL]`. */
  function FilterLeagues(data: seq<League>, day: string, level: string): (r: seq<League>)
    ensures |r| <= |data|
    ensures forall l :: l in r ==> Matches(l, day, level)
    ensures forall l :: multiset(r)[l] == if Matches(l, day, level) then multiset(data)[l] else 0
  {
    if |data| == 0 then []
    else
      var rest := FilterLeagues(data[1..], day, level);
      assert data == [data[0]] + data[1..];
      if Matches(data[0], day, level) then [data[0]] + rest else rest
  }

  /** The filter keeps the input order: filtering a concatenation is the
      concatenation of the filtered parts. */
  lemma {:induction false} FilterConcat(a: seq<League>, b: seq<League>, day: string, level: string)
    ensures FilterLeagues(a + b, day, level) == FilterLeagues(a, day, level) + FilterLeagues(b, day, level)
  {
    if |a| > 0 {
      assert (a + b)[1..] == a[1..] + b;
      FilterConcat(a[1..], b, day, level);
    } else {
      assert a + b == b;
    }
  }

  /** Filtering the filtered list changes nothing. */
  lemma {:induction false} FilterIdempotent(data: seq<League>, day: string, level: string)
    ensures FilterLeagues(FilterLeagues(data, day, level), day, level) == FilterLeagues(data, day, level)
  {
    if |data| > 0 {
      FilterIdempotent(data[1..], day, level);
    }
  }

  /** A record is kept exactly when it is in the input and matches. */
  lemma FilterMembership(data: seq<League>, day: string, level: string, l: League)
    ensures l in FilterLeagues(data, day, level) <==> l in data && Matches(l, day, level)
  {
    var r := FilterLeagues(data, day, level);
    assert l in r <==> multiset(r)[l] > 0;
    assert l in data <==> multiset(data)[l] > 0;
  }
}
