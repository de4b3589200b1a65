/** The running clock of Time.cpp: seconds counted from a 32-bit millisecond counter that wraps every 49.7 days, the
    synchronisation with an outside source, and the cache behind the field getters. */
module Clock {
  import opened Calendar
  import opened TimeLib

  datatype TimeStatus = TimeNotSet | TimeNeedsSync | TimeSet

  // The value of an unsigned 32-bit variable that is assigned x.
  function Wrap(x: int): (w: nat)
    ensures w < 0x1_0000_0000
  {
    x % 0x1_0000_0000
  }

  lemma WrapOfSum(x: int, k: int)
    ensures Wrap(Wrap(x) + k) == Wrap(x + k)
  {
    AddWrapped(x, k);
  }

  lemma WrapOfSmall(x: nat)
    requires x < 0x1_0000_0000
    ensures Wrap(x) == x
  {
  }

  // Unsigned subtraction gives the time between two readings across a wraparound.
  lemma WrapOfDifference(now: nat, before: nat)
    ensures Wrap(Wrap(now) - Wrap(before)) == Wrap(now - before)
  {
    AddWrapped(now, -(before % 0x1_0000_0000));
    var q := before / 0x1_0000_0000;
    assert now - before % 0x1_0000_0000 == now - before + 0x1_0000_0000 * q;
    WholeTurns(now - before, q);
  }

  lemma WholeTurns(x: int, q: int)
    ensures (x + 0x1_0000_0000 * q) % 0x1_0000_0000 == x % 0x1_0000_0000
  {
  }

  // A counter that is behind by lag, read again a little later and found at least a second behind: no whole turn of
  // the counter has ended in between, and counting the second brings it closer.
  lemma CountingGainsOnTime(before: nat, after: nat)
    requires before <= after < before + 1000 && Wrap(after) >= 1000
    ensures after >= 1000 && Wrap(after - 1000) < Wrap(before)
    ensures after - 1000 - Wrap(after - 1000) == before - Wrap(before)
  {
    var q := after / 0x1_0000_0000;
    InTurn(after, q);
    hide Wrap;
    InTurn(after - 1000, q);
    InTurn(before, q);
  }

  lemma InTurn(x: int, q: int)
    requires 0x1_0000_0000 * q <= x < 0x1_0000_0000 * (q + 1)
    ensures Wrap(x) == x - 0x1_0000_0000 * q
  {
    WholeTurns(x - 0x1_0000_0000 * q, q);
  }

  // The seconds in a number of milliseconds.
  function WholeSeconds(ms: int): int { ms / 1000 }

  lemma OneSecondMore(ms: int)
    requires ms % 1000 == 0
    ensures WholeSeconds(ms + 1000) == WholeSeconds(ms) + 1 && (ms + 1000) % 1000 == 0
  {
  }

  lemma NoSecondMore(counted: int, passed: int)
    requires counted % 1000 == 0 && counted <= passed < counted + 1000
    ensures WholeSeconds(passed) == WholeSeconds(counted)
  {
  }

  class SystemClock {
    var sysTime: nat
    var prevMillis: nat
    var nextSyncTime: nat
    var syncInterval: nat
    var status: TimeStatus
    var hasProvider: bool

    // The hardware: milliseconds since it was switched on. The library sees them only modulo 2^32, through Millis.
    var uptime: nat

    // The moment up to which whole seconds have been counted, and the moment and value of the last setting.
    ghost var counted: nat
    ghost var origin: nat
    ghost var base: int

    ghost predicate Valid()
      reads this
    {
      && origin <= counted <= uptime && (counted - origin) % 1000 == 0
      && prevMillis == Wrap(counted) && syncInterval < 0x1_0000_0000
      && sysTime == Wrap(base + WholeSeconds(counted - origin))
    }

    // So many milliseconds is the count behind.
    ghost function Lag(): int
      reads this
    {
      uptime - counted
    }

    // The static initialisers of the file.
    constructor ()
      ensures Valid() && sysTime == 0 && nextSyncTime == 0 && syncInterval == 300 && status == TimeNotSet && !hasProvider
      ensures uptime == 0 && base == 0 && origin == 0
    {
      sysTime, prevMillis, nextSyncTime, syncInterval, status, hasProvider := 0, 0, 0, 300, TimeNotSet, false;
      uptime, counted, origin, base := 0, 0, 0, 0;
    }

    // A reading of the wrapping counter; less than a second passes between two of them inside one call.
    method Millis() returns (ms: nat)
      modifies this`uptime
      ensures old(uptime) <= uptime < old(uptime) + 1000 && ms == Wrap(uptime)
    {
      var passed: nat :| passed < 1000;
      uptime := uptime + passed;
      ms := Wrap(uptime);
    }

    // The loop of lines 252 to 259. However late the call comes, it ends and leaves less than a second by the counter;
    // and no second is lost as long as the counter has not wrapped a whole time in between.
    method CountSeconds()
      requires Valid()
      modifies this`uptime, this`sysTime, this`prevMillis, this`counted
      ensures Valid() && uptime >= old(uptime) && counted >= old(counted)
      ensures Wrap(Lag()) < 1000
      ensures old(Lag()) <= 0x1_0000_0000 - 1000 ==> Lag() < 1000
      ensures Lag() >= old(Lag()) - Wrap(old(Lag()))
    {
      hide Wrap, WholeSeconds;
      ghost var turns := Lag() - Wrap(Lag());
      if Lag() <= 0x1_0000_0000 - 1000 {
        WrapOfSmall(Lag());
      }
      while true
        invariant Valid() && uptime >= old(uptime) && counted >= old(counted)
        invariant Lag() - Wrap(Lag()) == turns
        invariant old(Lag()) <= 0x1_0000_0000 - 1000 ==> Lag() <= 0x1_0000_0000 - 1000
        decreases Wrap(Lag())
      {
        ghost var lag := Lag();
        var ms := Millis();
        WrapOfDifference(uptime, counted);
        if Wrap(ms - prevMillis) < 1000 {
          Settled(lag, Lag());
          break;
        }
        CountingGainsOnTime(lag, Lag());
        OneSecondMore(counted - origin);
        WrapOfSum(base + WholeSeconds(counted - origin), 1);
        WrapOfSum(counted, 1000);
        sysTime := Wrap(sysTime + 1);
        prevMillis := Wrap(prevMillis + 1000);
        counted := counted + 1000;
      }
    }

    static lemma Settled(before: nat, after: nat)
      requires before <= after < before + 1000 && Wrap(after) < 1000
      ensures after >= before - Wrap(before)
      ensures before <= 0x1_0000_0000 - 1000 ==> after < 1000
    {
    }

    // What the clock is meant to show: the value it was last set to, and the whole seconds since then.
    ghost function TrueTime(): int
      requires origin <= uptime
      reads this
    {
      Wrap(base + WholeSeconds(uptime - origin))
    }

    // The outside source of time; it answers 0 when it has none to give.
    method AskProvider() returns (answer: nat)
      ensures answer < 0x1_0000_0000
    {
      answer :| 0 <= answer < 0x1_0000_0000;
    }

    // now(): counts, and asks the provider when a synchronisation is due.
    method Now() returns (t: nat, ghost tick: nat, ghost asked: bool, ghost answer: nat)
      requires Valid()
      modifies this`uptime, this`sysTime, this`prevMillis, this`counted, this`origin, this`base, this`nextSyncTime, this`status
      ensures Valid() && t == sysTime && uptime >= old(uptime)
      ensures old(Lag()) <= 0x1_0000_0000 - 1000 ==> Lag() < 1000 && t == TrueTime()
      ensures asked <==> hasProvider && old(nextSyncTime) <= tick
      ensures !asked || answer == 0 ==> t == tick && base == old(base) && origin == old(origin)
      ensures !asked ==> nextSyncTime == old(nextSyncTime) && status == old(status)
      ensures asked && answer == 0 ==>
                && nextSyncTime == Wrap(t + syncInterval)
                && status == if old(status) == TimeNotSet then TimeNotSet else TimeNeedsSync
      ensures asked && answer != 0 ==>
                t == answer && base == answer && status == TimeSet && nextSyncTime == Wrap(answer + syncInterval)
    {
      hide Wrap, WholeSeconds;
      CountSeconds();
      tick, asked, answer := sysTime, false, 0;
      if nextSyncTime <= sysTime {
        if hasProvider {
          var got := AskProvider();
          asked, answer := true, got;
          if got != 0 {
            SetTime(got);
          } else {
            nextSyncTime := Wrap(sysTime + syncInterval);
            status := if status == TimeNotSet then TimeNotSet else TimeNeedsSync;
          }
        }
      }
      t := sysTime;
      if Lag() < 1000 {
        NoSecondMore(counted - origin, uptime - origin);
      }
    }

    method SetTime(t: nat)
      requires Valid() && t < 0x1_0000_0000
      modifies this`uptime, this`sysTime, this`prevMillis, this`counted, this`origin, this`base, this`nextSyncTime, this`status
      ensures Valid() && uptime >= old(uptime) && Lag() == 0
      ensures sysTime == base == t && origin == uptime && status == TimeSet
      ensures nextSyncTime == Wrap(t + syncInterval)
    {
      sysTime := t;
      nextSyncTime := Wrap(t + syncInterval);
      status := TimeSet;
      prevMillis := Millis();
      counted, origin, base := uptime, uptime, t;
    }

    method AdjustTime(adjustment: int)
      requires Valid()
      modifies this`sysTime, this`base
      ensures Valid() && base == old(base) + adjustment && sysTime == Wrap(old(sysTime) + adjustment)
    {
      WrapOfSum(base + WholeSeconds(counted - origin), adjustment);
      sysTime := Wrap(sysTime + adjustment);
      base := base + adjustment;
    }

    method SetSyncInterval(interval: nat)
      requires Valid() && interval < 0x1_0000_0000
      modifies this`syncInterval, this`nextSyncTime
      ensures Valid() && syncInterval == interval && nextSyncTime == Wrap(sysTime + interval)
    {
      syncInterval := interval;
      nextSyncTime := Wrap(sysTime + syncInterval);
    }

    // Installing a provider asks it at once, unless the 32-bit seconds wrap while the call counts them. tick is the count
    // at that moment.
    method SetSyncProvider() returns (ghost tick: nat, ghost asked: bool, ghost answer: nat)
      requires Valid()
      modifies this
      ensures Valid() && hasProvider && syncInterval == old(syncInterval)
      ensures asked <==> old(sysTime) <= tick
      ensures asked && answer != 0 ==> base == sysTime == answer && status == TimeSet && nextSyncTime == Wrap(answer + syncInterval)
      ensures asked && answer == 0 ==> sysTime == tick && nextSyncTime == Wrap(tick + syncInterval)
      ensures !asked ==> sysTime == tick && nextSyncTime == old(sysTime) && status == old(status)
      ensures old(Lag()) <= 0x1_0000_0000 - 1000 ==> Lag() < 1000 && sysTime == TrueTime()
    {
      hasProvider := true;
      nextSyncTime := sysTime;
      var t: nat;
      t, tick, asked, answer := Now();
    }
  }

  // ---- the cache behind the getters ------------------------------------------------------------------------------

  datatype Cache = Cache(tm: TmElements, cacheTime: nat)

  // Static storage starts with all fields zero and cacheTime zero.
  const COLD := Cache(TmElements(0, 0, 0, 0, 0, 0, 0), 0)

  // refreshCache(t), the first step of every getter.
  function Refreshed(c: Cache, t: nat): Cache
  {
    if t != c.cacheTime then Cache(Broken(t), t) else c
  }

  function AfterQueries(c: Cache, queries: seq<nat>): Cache
  {
    if queries == [] then c
    else Refreshed(AfterQueries(c, queries[..|queries| - 1]), queries[|queries| - 1])
  }

  class TimeCache {
    var cache: Cache
    ghost var queries: seq<nat>

    ghost predicate Valid()
      reads this
    {
      cache == AfterQueries(COLD, queries)
    }

    constructor ()
      ensures Valid() && queries == []
    {
      cache, queries := COLD, [];
    }

    // Afterwards the cache is right for t, or still cold and t is 0.
    method RefreshCache(t: nat)
      requires Valid() && t < 0x1_0000_0000
      modifies this
      ensures Valid() && queries == old(queries) + [t] && cache == Refreshed(old(cache), t)
      ensures cache == if t == 0 && !WarmedUp(old(queries)) then COLD else Cache(Broken(t), t)
    {
      hide Broken, WarmedUp;
      GettersRightExactlyOnceWarm(queries, t);
      if t != cache.cacheTime {
        var tm := BreakTime(t);
        cache := Cache(tm, t);
      }
      queries := queries + [t];
      assert queries[..|queries| - 1] == old(queries);
    }

    // The cold cache has the year and the hour of time 0, though not its day, month and weekday.
    method Year(t: nat) returns (year: nat)
      requires Valid() && t < 0x1_0000_0000
      modifies this
      ensures Valid() && queries == old(queries) + [t]
      ensures year == DateOf(t / SECS_PER_DAY).y
    {
      hide WarmedUp, DateOf, Refreshed, AfterQueries, Broken;
      RefreshCache(t);
      TimeZero();
      YearIn(t);
      year := cache.tm.Year + 1970;
    }

    method HourFormat12(t: nat) returns (hour: nat)
      requires Valid() && t < 0x1_0000_0000
      modifies this
      ensures Valid() && queries == old(queries) + [t]
      ensures 1 <= hour <= 12 && hour % 12 == HourOf(t) % 12
    {
      hide WarmedUp, DateOf, Refreshed, AfterQueries, HourOf;
      RefreshCache(t);
      HourIn(t);
      HourOfZero();
      if cache.tm.Hour == 0 {
        hour := 12;
      } else if cache.tm.Hour > 12 {
        hour := cache.tm.Hour - 12;
      } else {
        hour := cache.tm.Hour;
      }
    }
  }

  // The hour of the day of a moment.
  function HourOf(t: nat): (h: nat)
    ensures h < 24
  {
    t / 3600 % 24
  }

  lemma HourIn(t: nat)
    ensures Broken(t).Hour == HourOf(t)
  {
    hide DateOf, BrokenDown, Weekday;
  }

  lemma HourOfZero()
    ensures HourOf(0) == 0
  {
  }

  lemma YearIn(t: nat)
    ensures Broken(t).Year + 1970 == DateOf(t / SECS_PER_DAY).y
  {
    hide DateOf;
  }

  lemma TimeZero()
    ensures DateOf(0 / SECS_PER_DAY).y == 1970
  {
    hide DateOf, DaysBeforeYear;
    EpochIs1970();
    SameDaySameDate(1970, 1, 1, DateOf(0).y, DateOf(0).m, DateOf(0).d);
  }

  ghost predicate WarmedUp(queries: seq<nat>)
  {
    exists i :: 0 <= i < |queries| && queries[i] != 0
  }

  // The cold cache passes for a break-down of time 0, which it is not: after any queries, the getters see the right
  // fields of a time t exactly when t is not 0 or some earlier query was for another time than 0.
  lemma {:induction false} GettersRightExactlyOnceWarm(queries: seq<nat>, t: nat)
    ensures Refreshed(AfterQueries(COLD, queries), t) == Cache(Broken(t), t) <==> t != 0 || WarmedUp(queries)
    ensures WarmedUp(queries) ==> AfterQueries(COLD, queries).tm == Broken(AfterQueries(COLD, queries).cacheTime)
    ensures !WarmedUp(queries) ==> AfterQueries(COLD, queries) == COLD
  {
    hide Broken;
    if t == 0 {
      DayIsNeverZero(t);
    }
    if queries != [] {
      var before, last := queries[..|queries| - 1], queries[|queries| - 1];
      DayIsNeverZero(last);
      GettersRightExactlyOnceWarm(before, last);
      WarmedUpStep(queries);
      hide WarmedUp;
    }
  }

  lemma DayIsNeverZero(t: nat)
    ensures Broken(t).Day != 0
  {
  }

  lemma WarmedUpStep(queries: seq<nat>)
    requires queries != []
    ensures WarmedUp(queries) <==> WarmedUp(queries[..|queries| - 1]) || queries[|queries| - 1] != 0
  {
    if i :| 0 <= i < |queries| - 1 && queries[i] != 0 {
      assert queries[..|queries| - 1][i] != 0;
    }
  }
}
