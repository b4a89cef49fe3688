/** The trace query: a narrow window first (around a hint, or the last two days), and the
    retention-deep one only when the narrow result may be cut off. Times are microseconds. */
module TraceFetcher {
  import opened Wrappers

  const SECOND := 1_000_000
  const HOUR := 3600 * SECOND
  const DAY := 24 * HOUR
  const FAST_DAYS := 2
  const STRADDLE_GUARD := 6 * HOUR
  const HINT_BEFORE := 2 * DAY
  const HINT_AFTER := 1 * DAY

  // The widest spacing of one trace's entries at which no window edge can hide one: the guard
  // less what whole-second truncation takes off a ceiling.
  const SAFE_GAP := STRADDLE_GUARD - SECOND + 2

  datatype Entry = Entry(
    trace: string,
    listed: bool,    // its event kind is one of the six the filter names
    ts: int,
    readable: bool   // its timestamp parses; it then reads back as `ts`
  )

  // The instants at which one call reads the wall clock.
  datatype Clock = Clock(horizon: int, fast: int, guard: int, wide: int)

  predicate Ticks(c: Clock) {
    c.horizon <= c.fast <= c.guard <= c.wide
  }

  function Truncate(t: int): (r: int)
    ensures r <= t < r + SECOND && r % SECOND == 0
  {
    t - t % SECOND
  }

  predicate Hex32(id: string) {
    |id| == 32 && forall i :: 0 <= i < 32 ==> '0' <= id[i] <= '9' || 'a' <= id[i] <= 'f'
  }

  predicate Selected(e: Entry, trace: string, floor: int, ceiling: Option<int>) {
    e.trace == trace && e.listed && floor <= e.ts && (ceiling.Some? ==> e.ts <= ceiling.value)
  }

  function Matching(log: seq<Entry>, trace: string, floor: int, ceiling: Option<int>): seq<Entry> {
    if log == [] then []
    else if Selected(log[0], trace, floor, ceiling) then [log[0]] + Matching(log[1..], trace, floor, ceiling)
    else Matching(log[1..], trace, floor, ceiling)
  }

  function Take(es: seq<Entry>, limit: nat): seq<Entry> {
    if |es| <= limit then es else es[..limit]
  }

  /** The log is kept newest first, so a limited answer holds the newest matches. */
  function Query(log: seq<Entry>, trace: string, floor: int, ceiling: Option<int>, limit: nat): seq<Entry> {
    Take(Matching(log, trace, floor, ceiling), limit)
  }

  function WideQuery(log: seq<Entry>, trace: string, now: int, lookbackDays: int, limit: nat): seq<Entry> {
    Query(log, trace, Truncate(now - lookbackDays * DAY), None, limit)
  }

  predicate StraddlesFastFloor(es: seq<Entry>, now: int) {
    exists i :: 0 <= i < |es| && (!es[i].readable || es[i].ts <= now - FAST_DAYS * DAY + STRADDLE_GUARD)
  }

  predicate StraddlesHintWindow(es: seq<Entry>, floor: int, ceiling: int) {
    exists i :: 0 <= i < |es| &&
      (!es[i].readable || es[i].ts <= floor + STRADDLE_GUARD || es[i].ts >= ceiling - STRADDLE_GUARD)
  }

  // What came back, and the clock reading whose window it answers for.
  datatype Fetched = Fetched(entries: seq<Entry>, at: int)

  function HintedQuery(log: seq<Entry>, trace: string, around: int, limit: nat): seq<Entry> {
    Query(log, trace, Truncate(around - HINT_BEFORE), Some(Truncate(around + HINT_AFTER)), limit)
  }

  predicate HintUsable(around: int, lookbackDays: int, now: int) {
    FAST_DAYS < lookbackDays && now - lookbackDays * DAY <= around - HINT_BEFORE
  }

  function FetchHinted(log: seq<Entry>, trace: string, around: int, lookbackDays: int, limit: nat, clock: Clock)
    : Option<Fetched>
  {
    if !HintUsable(around, lookbackDays, clock.horizon) then None
    else
      var entries := HintedQuery(log, trace, around, limit);
      if entries == [] || !StraddlesHintWindow(entries, around - HINT_BEFORE, around + HINT_AFTER)
      then Some(Fetched(entries, clock.horizon))
      else Some(Fetched(WideQuery(log, trace, clock.wide, lookbackDays, limit), clock.wide))
  }

  function Fetch(log: seq<Entry>, trace: string, around: Option<int>, lookbackDays: int, limit: nat, clock: Clock)
    : Fetched
  {
    if !Hex32(trace) then Fetched([], clock.horizon)
    else
      var hinted := if around.Some? then FetchHinted(log, trace, around.value, lookbackDays, limit, clock) else None;
      if hinted.Some? then hinted.value
      else
        var fastDays := if FAST_DAYS <= lookbackDays then FAST_DAYS else lookbackDays;
        var entries := Query(log, trace, Truncate(clock.fast - fastDays * DAY), None, limit);
        if lookbackDays <= fastDays then Fetched(entries, clock.fast)
        else if entries != [] && !StraddlesFastFloor(entries, clock.guard) then Fetched(entries, clock.fast)
        else Fetched(WideQuery(log, trace, clock.wide, lookbackDays, limit), clock.wide)
  }

  // ----- The fast form refines the retention-deep one -------------------------------------

  ghost predicate NewestFirst(es: seq<Entry>) {
    forall i, j :: 0 <= i < j < |es| ==> es[i].ts >= es[j].ts
  }

  function WholeTrace(log: seq<Entry>, trace: string): seq<Entry> {
    if log == [] then []
    else if log[0].trace == trace && log[0].listed then [log[0]] + WholeTrace(log[1..], trace)
    else WholeTrace(log[1..], trace)
  }

  /** Neighbouring entries of the trace, anywhere in the log, are at most `gap` apart. */
  ghost predicate Spaced(log: seq<Entry>, trace: string, gap: int) {
    var es := WholeTrace(log, trace);
    forall i :: 1 <= i < |es| ==> es[i - 1].ts - es[i].ts <= gap
  }

  lemma {:induction false} WholeTraceSorted(log: seq<Entry>, trace: string)
    requires NewestFirst(log)
    ensures NewestFirst(WholeTrace(log, trace))
    ensures WholeTrace(log, trace) != [] ==> log != [] && WholeTrace(log, trace)[0].ts <= log[0].ts
  {
    if log != [] {
      WholeTraceSorted(log[1..], trace);
      var rest := WholeTrace(log[1..], trace);
      assert rest != [] ==> rest[0].ts <= log[1..][0].ts <= log[0].ts;
    }
  }

  /** In entries kept newest first, `es[a..b]` are exactly the ones inside the window. */
  ghost predicate Window(es: seq<Entry>, floor: int, ceiling: Option<int>, a: nat, b: nat) {
    && a <= b <= |es|
    && (forall i :: 0 <= i < a ==> ceiling.Some? && es[i].ts > ceiling.value)
    && (forall i :: a <= i < b ==> es[i].ts >= floor && (ceiling.Some? ==> es[i].ts <= ceiling.value))
    && (forall i :: b <= i < |es| ==> es[i].ts < floor)
  }

  lemma WindowOfCons(e: Entry, rest: seq<Entry>, floor: int, ceiling: Option<int>, a: nat, b: nat)
    requires NewestFirst([e] + rest) && Window(rest, floor, ceiling, a, b)
    requires ceiling.Some? ==> floor <= ceiling.value + 1
    ensures ceiling.Some? && ceiling.value < e.ts ==> Window([e] + rest, floor, ceiling, a + 1, b + 1)
    ensures floor <= e.ts && (ceiling.Some? ==> e.ts <= ceiling.value) ==>
              a == 0 && Window([e] + rest, floor, ceiling, 0, b + 1)
    ensures e.ts < floor ==> a == b == 0 && Window([e] + rest, floor, ceiling, 0, 0)
  {
    var es := [e] + rest;
    assert forall i :: 1 <= i < |es| ==> es[i] == rest[i - 1];
    forall i | 0 <= i < |rest| ensures rest[i].ts <= e.ts {
      assert es[0].ts >= es[i + 1].ts;
    }
    if ceiling.Some? && ceiling.value < e.ts {
      WindowMoves(e, rest, es, floor, ceiling, a, b);
    } else if floor <= e.ts {
      WindowGrows(e, rest, es, floor, ceiling, a, b);
    } else {
      WindowStaysEmpty(e, rest, es, floor, ceiling, a, b);
    }
  }

  lemma WindowMoves(e: Entry, rest: seq<Entry>, es: seq<Entry>, floor: int, ceiling: Option<int>, a: nat, b: nat)
    requires es == [e] + rest && Window(rest, floor, ceiling, a, b)
    requires ceiling.Some? && ceiling.value < e.ts
    ensures Window(es, floor, ceiling, a + 1, b + 1)
  {
    assert forall i :: 1 <= i < |es| ==> es[i] == rest[i - 1];
  }

  lemma WindowGrows(e: Entry, rest: seq<Entry>, es: seq<Entry>, floor: int, ceiling: Option<int>, a: nat, b: nat)
    requires es == [e] + rest && Window(rest, floor, ceiling, a, b)
    requires forall i :: 0 <= i < |rest| ==> rest[i].ts <= e.ts
    requires floor <= e.ts && (ceiling.Some? ==> e.ts <= ceiling.value)
    ensures a == 0 && Window(es, floor, ceiling, 0, b + 1)
  {
    assert forall i :: 1 <= i < |es| ==> es[i] == rest[i - 1];
    if rest != [] {
      assert rest[0].ts <= e.ts;
    }
  }

  lemma WindowStaysEmpty(e: Entry, rest: seq<Entry>, es: seq<Entry>, floor: int, ceiling: Option<int>, a: nat, b: nat)
    requires es == [e] + rest && Window(rest, floor, ceiling, a, b)
    requires forall i :: 0 <= i < |rest| ==> rest[i].ts <= e.ts
    requires e.ts < floor && (ceiling.Some? ==> floor <= ceiling.value + 1)
    ensures a == b == 0 && Window(es, floor, ceiling, 0, 0)
  {
    assert forall i :: 1 <= i < |es| ==> es[i] == rest[i - 1];
    if rest != [] {
      assert rest[0].ts <= e.ts;
    }
  }

  /** A window over the log is a run of consecutive entries of the whole trace. */
  lemma {:induction false} QueryIsWindow(log: seq<Entry>, trace: string, floor: int, ceiling: Option<int>)
    returns (a: nat, b: nat)
    requires NewestFirst(log)
    requires ceiling.Some? ==> floor <= ceiling.value + 1
    ensures Window(WholeTrace(log, trace), floor, ceiling, a, b)
    ensures Matching(log, trace, floor, ceiling) == WholeTrace(log, trace)[a..b]
  {
    if log == [] {
      a, b := 0, 0;
    } else {
      a, b := QueryIsWindow(log[1..], trace, floor, ceiling);
      var e, rest := log[0], WholeTrace(log[1..], trace);
      if e.trace == trace && e.listed {
        WholeTraceSorted(log, trace);
        WindowOfCons(e, rest, floor, ceiling, a, b);
        if e.ts < floor {
          assert rest[0..0] == ([e] + rest)[0..0];
        } else if ceiling.Some? && ceiling.value < e.ts {
          assert ([e] + rest)[a + 1..b + 1] == rest[a..b];
          a, b := a + 1, b + 1;
        } else {
          assert ([e] + rest)[0..b + 1] == [e] + rest[0..b];
          b := b + 1;
        }
      }
    }
  }

  // ----- No window edge hides an entry ----------------------------------------------------

  /** A result that keeps clear of its floor is complete below: reaching down to any lower
      floor changes nothing. */
  lemma ClearOfFloor(es: seq<Entry>, floor: int, lower: int, edge: int, limit: nat, b: nat, b': nat)
    requires NewestFirst(es) && forall i :: 1 <= i < |es| ==> es[i - 1].ts - es[i].ts <= SAFE_GAP
    requires lower <= floor <= edge && limit >= 1
    requires Window(es, lower, None, 0, b')
    requires 0 < b <= |es| && (forall i :: 0 <= i < b ==> es[i].ts >= floor) && forall i :: b <= i < |es| ==> es[i].ts < floor
    requires forall i :: 0 <= i < b && i < limit ==> es[i].ts > edge + STRADDLE_GUARD
    ensures Take(es[0..b], limit) == Take(es[0..b'], limit)
  {
    assert b' < |es| ==> es[b'].ts < lower;
    assert b <= b';
    assert b < |es| ==> es[b].ts < floor && es[b - 1].ts - es[b].ts <= SAFE_GAP;
    if b <= limit {
      assert es[b - 1].ts > edge + STRADDLE_GUARD;
      assert b == |es|;
    } else {
      assert es[0..b][..limit] == es[..limit] == es[0..b'][..limit];
    }
  }

  lemma FastIsWide(log: seq<Entry>, trace: string, lookbackDays: int, limit: nat, now: int, later: int)
    requires NewestFirst(log) && Spaced(log, trace, SAFE_GAP) && limit >= 1
    requires now <= later && FAST_DAYS < lookbackDays
    requires var fast := Query(log, trace, Truncate(now - FAST_DAYS * DAY), None, limit);
             fast != [] && !StraddlesFastFloor(fast, later)
    ensures Query(log, trace, Truncate(now - FAST_DAYS * DAY), None, limit) ==
            WideQuery(log, trace, now, lookbackDays, limit)
  {
    var es := WholeTrace(log, trace);
    WholeTraceSorted(log, trace);
    var floor, lower := Truncate(now - FAST_DAYS * DAY), Truncate(now - lookbackDays * DAY);
    var a, b := QueryIsWindow(log, trace, floor, None);
    var a', b' := QueryIsWindow(log, trace, lower, None);
    TruncateMonotone(now - lookbackDays * DAY, now - FAST_DAYS * DAY);
    var shown := Take(es[0..b], limit);
    forall i | 0 <= i < b && i < limit ensures es[i].ts > later - FAST_DAYS * DAY + STRADDLE_GUARD {
      assert shown[i] == es[i];
    }
    ClearOfFloor(es, floor, lower, later - FAST_DAYS * DAY, limit, b, b');
  }

  /** With anything of the trace above the queried ceiling, the newest entry below it falls
      into the guard band. */
  lemma AboveMeansStraddling(es: seq<Entry>, floor: int, high: int, a: nat, b: nat)
    requires forall i :: 1 <= i < |es| ==> es[i - 1].ts - es[i].ts <= SAFE_GAP
    requires Window(es, floor, Some(Truncate(high)), a, b) && 0 < a < b
    ensures es[a].ts >= high - STRADDLE_GUARD
  {
    assert es[a - 1].ts > Truncate(high) > high - SECOND;
  }

  lemma HintedIsWide(log: seq<Entry>, trace: string, around: int, lookbackDays: int, limit: nat, now: int)
    requires NewestFirst(log) && Spaced(log, trace, SAFE_GAP) && limit >= 1
    requires HintUsable(around, lookbackDays, now)
    requires var hinted := HintedQuery(log, trace, around, limit);
             hinted != [] && !StraddlesHintWindow(hinted, around - HINT_BEFORE, around + HINT_AFTER)
    ensures HintedQuery(log, trace, around, limit) == WideQuery(log, trace, now, lookbackDays, limit)
  {
    var es := WholeTrace(log, trace);
    WholeTraceSorted(log, trace);
    var low, high := around - HINT_BEFORE, around + HINT_AFTER;
    var a, b := QueryIsWindow(log, trace, Truncate(low), Some(Truncate(high)));
    var a', b' := QueryIsWindow(log, trace, Truncate(now - lookbackDays * DAY), None);
    ShownIsClear(es, a, b, limit, low, high);
    if a > 0 { AboveMeansStraddling(es, Truncate(low), high, a, b); }
    TruncateMonotone(now - lookbackDays * DAY, low);
    ClearOfFloor(es, Truncate(low), Truncate(now - lookbackDays * DAY), low, limit, b, b');
  }

  lemma TruncateMonotone(s: int, t: int)
    requires s <= t
    ensures Truncate(s) <= Truncate(t)
  {
  }

  lemma ShownIsClear(es: seq<Entry>, a: nat, b: nat, limit: nat, low: int, high: int)
    requires a <= b <= |es| && !StraddlesHintWindow(Take(es[a..b], limit), low, high)
    ensures forall i :: a <= i < b && i - a < limit ==> low + STRADDLE_GUARD < es[i].ts < high - STRADDLE_GUARD
  {
    var shown := Take(es[a..b], limit);
    forall i | a <= i < b && i - a < limit
      ensures low + STRADDLE_GUARD < es[i].ts < high - STRADDLE_GUARD
    {
      assert shown[i - a] == es[i];
    }
  }

  /** Every call returns exactly the newest `limit` entries of the retention-deep window at one
      of its own clock readings, except in one case: a usable hint whose window is empty while
      the deep window is not. */
  lemma FetchRefinesWideQuery(log: seq<Entry>, trace: string, around: Option<int>, lookbackDays: int,
                              limit: nat, clock: Clock)
    requires NewestFirst(log) && Spaced(log, trace, SAFE_GAP) && limit >= 1 && Ticks(clock)
    requires |trace| == 32 && forall i :: 0 <= i < 32 ==> '0' <= trace[i] <= '9' || 'a' <= trace[i] <= 'f'
    ensures var got := Fetch(log, trace, around, lookbackDays, limit, clock);
            && clock.horizon <= got.at <= clock.wide
            && (got.entries == WideQuery(log, trace, got.at, lookbackDays, limit) <==>
                !(&& around.Some? && HintUsable(around.value, lookbackDays, clock.horizon)
                  && HintedQuery(log, trace, around.value, limit) == []
                  && WideQuery(log, trace, clock.horizon, lookbackDays, limit) != []))
  {
    if around.Some? && HintUsable(around.value, lookbackDays, clock.horizon) {
      var hinted := HintedQuery(log, trace, around.value, limit);
      if hinted != [] && !StraddlesHintWindow(hinted, around.value - HINT_BEFORE, around.value + HINT_AFTER) {
        HintedIsWide(log, trace, around.value, lookbackDays, limit, clock.horizon);
      }
    } else if FAST_DAYS < lookbackDays {
      var fast := Query(log, trace, Truncate(clock.fast - FAST_DAYS * DAY), None, limit);
      if fast != [] && !StraddlesFastFloor(fast, clock.guard) {
        FastIsWide(log, trace, lookbackDays, limit, clock.fast, clock.guard);
      }
    }
  }

  /** The deep query: the newest entries of the trace, at most `limit` of them, and none left out that
      is younger than the lookback in days, counted back from now and rounded down to a second. */
  lemma WideQueryReads(log: seq<Entry>, trace: string, now: int, lookbackDays: int, limit: nat)
    requires NewestFirst(log)
    ensures var got, all := WideQuery(log, trace, now, lookbackDays, limit), WholeTrace(log, trace);
            && got <= all && |got| <= limit
            && exists floor ::
                 && floor % 1_000_000 == 0 && floor <= now - lookbackDays * 86_400_000_000 < floor + 1_000_000
                 && (forall i :: 0 <= i < |got| ==> got[i].ts >= floor)
                 && (|got| < limit && |got| < |all| ==> all[|got|].ts < floor)
  {
    var floor := Truncate(now - lookbackDays * DAY);
    assert DAY == 86_400_000_000;
    var a, b := QueryIsWindow(log, trace, floor, None);
    NothingAbove(WholeTrace(log, trace), floor, a, b);
  }

  lemma NothingAbove(es: seq<Entry>, floor: int, a: nat, b: nat)
    requires Window(es, floor, None, a, b)
    ensures a == 0
  {
    var highest := if es != [] then es[0].ts else 0;
  }

  /** One microsecond more and the guard no longer covers the truncated ceiling: the newer of
      two entries sits just above the queried ceiling, the older one just clear of the guard
      band, and the hinted call serves the older one alone. */
  lemma WiderGapLosesAnEntry(trace: string)
    requires Hex32(trace)
    ensures var around := 10 * DAY + SECOND - 1;
            var newer := Entry(trace, true, 11 * DAY + 1, true);
            var older := Entry(trace, true, 11 * DAY + SECOND - 1 - STRADDLE_GUARD - 1, true);
            var clock := Clock(12 * DAY, 12 * DAY, 12 * DAY, 12 * DAY);
            var log := [newer, older];
            && NewestFirst(log) && Spaced(log, trace, SAFE_GAP + 1)
            && Fetch(log, trace, Some(around), 400, 500, clock).entries == [older]
            && WideQuery(log, trace, 12 * DAY, 400, 500) == [newer, older]
  {
    var newer := Entry(trace, true, 11 * DAY + 1, true);
    var older := Entry(trace, true, 11 * DAY + SECOND - 1 - STRADDLE_GUARD - 1, true);
    var log := [newer, older];
    var around := 10 * DAY + SECOND - 1;
    assert log[1..] == [older] && [older][1..] == [];
    assert WholeTrace([older], trace) == [older];
    assert WholeTrace(log, trace) == [newer, older];
    var floor, ceiling := Truncate(around - HINT_BEFORE), Truncate(around + HINT_AFTER);
    assert ceiling == 11 * DAY && floor == 8 * DAY;
    assert Matching([older], trace, floor, Some(ceiling)) == [older];
    assert HintedQuery(log, trace, around, 500) == [older];
    var deep := Truncate(12 * DAY - 400 * DAY);
    assert Matching([older], trace, deep, None) == [older];
    assert Matching(log, trace, deep, None) == [newer] + [older];
  }

  /** For an id that is not 32 hexadecimal digits nothing is ever returned, and no query is made: the
      answer does not depend on the log. */
  lemma OtherIdsFindNothing(log: seq<Entry>, other: seq<Entry>, trace: string, around: Option<int>, lookbackDays: int,
                            limit: nat, clock: Clock)
    requires |trace| != 32 || exists i :: 0 <= i < 32 && !('0' <= trace[i] <= '9' || 'a' <= trace[i] <= 'f')
    ensures Fetch(log, trace, around, lookbackDays, limit, clock).entries == []
    ensures Fetch(log, trace, around, lookbackDays, limit, clock) == Fetch(other, trace, around, lookbackDays, limit, clock)
  {
  }
}
