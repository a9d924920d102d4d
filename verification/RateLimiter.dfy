/**
 The fixed-window rate limiter. One counter per key (a hash of the request path and the client
 address). The counter opens a window with the first call and counts every call, refused or not,
 until a call arrives `period` or more after the window opened.
 */
module RateLimiter {
  import opened Common

  type Key = u64

  datatype ClientCacheEntry = ClientCacheEntry(start: int, count: nat)

  type Cache = map<Key, ClientCacheEntry>

  datatype Event =
    | Call(key: Key, now: int, period: int, maxCalls: int)
    | Forget(key: Key)  // the cache drops an entry on its own
    | Clear

  function Lookup(cache: Cache, key: Key): Option<ClientCacheEntry> {
    if key in cache then Some(cache[key]) else None
  }

  predicate InWindow(e: Option<ClientCacheEntry>, now: int, period: int) {
    e.Some? && now - e.value.start < period
  }

  function Touch(e: Option<ClientCacheEntry>, now: int, period: int): ClientCacheEntry {
    if InWindow(e, now, period) then e.value.(count := e.value.count + 1)
    else ClientCacheEntry(now, 1)
  }

  predicate Limited(e: Option<ClientCacheEntry>, now: int, period: int, maxCalls: int) {
    InWindow(e, now, period) && e.value.count + 1 > maxCalls
  }

  function Next(cache: Cache, ev: Event): Cache {
    match ev
    case Call(key, now, period, _) => cache[key := Touch(Lookup(cache, key), now, period)]
    case Forget(key) => cache - {key}
    case Clear => map[]
  }

  class Limiter {
    var cache: Cache

    constructor ()
      ensures cache == map[]
    {
      cache := map[];
    }

    method IsRateLimited(key: Key, now: int, period: int, maxCalls: int) returns (limited: bool)
      modifies this
      ensures cache == Next(old(cache), Call(key, now, period, maxCalls))
      ensures limited == Limited(Lookup(old(cache), key), now, period, maxCalls)
    {
      if key !in cache {
        cache := cache[key := ClientCacheEntry(now, 1)];
        return false;
      }
      var e := cache[key];
      if now - e.start < period {
        e := e.(count := e.count + 1);
        cache := cache[key := e];
        if e.count > maxCalls {
          return true;
        }
        return false;
      }
      e := ClientCacheEntry(now, 1);
      cache := cache[key := e];
      return false;
    }

    method ClearAll()
      modifies this
      ensures cache == Next(old(cache), Clear)
    {
      cache := map[];
    }
  }

  // ---------- Runs ----------

  function After(run: seq<Event>): Cache {
    if run == [] then map[] else Next(After(Front(run)), Last(run))
  }

  /** The last step of a run is a call on `key`, at a time in [lo, hi), that the limiter lets through. */
  predicate LastAdmitted(run: seq<Event>, key: Key, lo: int, hi: int)
    requires run != []
  {
    var ev := Last(run);
    ev.Call? && ev.key == key && lo <= ev.now < hi &&
    !Limited(Lookup(After(Front(run)), key), ev.now, ev.period, ev.maxCalls)
  }

  /** How many calls on `key` with a time in [lo, hi) were let through. */
  function Admitted(run: seq<Event>, key: Key, lo: int, hi: int): nat {
    if run == [] then 0
    else Admitted(Front(run), key, lo, hi) + if LastAdmitted(run, key, lo, hi) then 1 else 0
  }

  /** How many calls on `key` a run holds, refused ones included. */
  function Calls(run: seq<Event>, key: Key): nat {
    if run == [] then 0
    else Calls(Front(run), key) + if Last(run).Call? && Last(run).key == key then 1 else 0
  }

  /** The entry of `key` is never dropped, and its route keeps one rate profile. */
  predicate Steady(run: seq<Event>, key: Key, period: int, maxCalls: int) {
    forall i :: 0 <= i < |run| ==>
      match run[i]
      case Call(k, _, p, m) => k == key ==> p == period && m == maxCalls
      case Forget(k) => k != key
      case Clear => false
  }

  predicate Clocked(run: seq<Event>) {
    forall i, j :: 0 <= i < j < |run| && run[i].Call? && run[j].Call? ==> run[i].now <= run[j].now
  }

  /**
   The induction behind the bound. With S the start of the current window and `cur` the calls it
   has let through: nothing was let through at S + period or later, at most `cur - 1` after S,
   and at most `maxCalls - 1 + cur` after S - period.
   */
  lemma {:induction false} WindowInvariant(run: seq<Event>, key: Key, period: int, maxCalls: int, lo: int)
    requires period > 0 && Clocked(run) && Steady(run, key, period, maxCalls)
    ensures Admitted(run, key, lo, lo + period) <= 2 * Max(1, maxCalls) - 1
    ensures key !in After(run) ==> Admitted(run, key, lo, lo + period) == 0
    ensures key in After(run) ==>
      var e := After(run)[key];
      var cur := if e.count <= Max(1, maxCalls) then e.count else Max(1, maxCalls);
      && e.count >= 1
      && (exists i :: 0 <= i < |run| && run[i].Call? && run[i].key == key && run[i].now == e.start)
      && (lo >= e.start + period ==> Admitted(run, key, lo, lo + period) == 0)
      && (lo > e.start ==> Admitted(run, key, lo, lo + period) <= cur - 1)
      && (lo > e.start - period ==> Admitted(run, key, lo, lo + period) <= Max(1, maxCalls) - 1 + cur)
  {
    if run != [] {
      var before := Front(run);
      WindowInvariant(before, key, period, maxCalls, lo);
      var ev := Last(run);
      if ev.Call? && ev.key == key && key in After(before) {
        var i :| 0 <= i < |before| && before[i].Call? && before[i].key == key &&
                 before[i].now == After(before)[key].start;
        assert run[i] == before[i] && run[i].now <= ev.now;
      }
      if key in After(run) {
        var e := After(run)[key];
        if ev.Call? && ev.key == key && e.start == ev.now {
          assert run[|run| - 1].now == e.start;
        } else {
          var i :| 0 <= i < |before| && before[i].Call? && before[i].key == key && before[i].now == e.start;
          assert run[i] == before[i];
        }
      }
    }
  }

  /** No interval as long as the period, wherever it starts, holds more than 2 * maxCalls - 1 admitted calls. */
  lemma SlidingBound(run: seq<Event>, key: Key, period: int, maxCalls: int, lo: int)
    requires period > 0 && Clocked(run) && Steady(run, key, period, maxCalls)
    ensures Admitted(run, key, lo, lo + period) <= 2 * Max(1, maxCalls) - 1
  {
    WindowInvariant(run, key, period, maxCalls, lo);
  }

  /** Position `n` of the run is a call on `key` that opens a window. */
  predicate Opens(run: seq<Event>, n: nat, key: Key)
    requires n < |run|
  {
    run[n].Call? && run[n].key == key &&
    !InWindow(Lookup(After(run[..n]), key), run[n].now, run[n].period)
  }

  /**
   While calls stay within one period of the window's opening, the window does not move - refused
   calls do not extend it - and its counter is the number of calls since the opening. So the call
   numbered c in the window passes exactly when c = 1 or c <= maxCalls.
   */
  lemma {:induction false} WindowAdmitsExactlyTheFirst(run: seq<Event>, n: nat, key: Key, period: int, maxCalls: int)
    requires n < |run| && Opens(run, n, key)
    requires period > 0 && Steady(run, key, period, maxCalls)
    requires forall j :: n <= j < |run| && run[j].Call? && run[j].key == key ==>
      run[j].now - run[n].now < period
    ensures key in After(run)
    ensures After(run)[key] == ClientCacheEntry(run[n].now, Calls(run[n..], key))
    ensures Last(run).Call? && Last(run).key == key ==>
      (LastAdmitted(run, key, Last(run).now, Last(run).now + 1) <==>
       Calls(run[n..], key) == 1 || Calls(run[n..], key) <= maxCalls)
  {
    var before := Front(run);
    FrontOfSuffix(run, n);
    if n == |run| - 1 {
      assert before == run[..n];
      assert Calls([], key) == 0;
    } else {
      assert before[..n] == run[..n];
      WindowAdmitsExactlyTheFirst(before, n, key, period, maxCalls);
      CallsIsPositive(before, n, key);
    }
  }

  lemma {:induction false} CallsIsPositive(run: seq<Event>, n: nat, key: Key)
    requires n < |run| && run[n].Call? && run[n].key == key
    ensures Calls(run[n..], key) >= 1
  {
    FrontOfSuffix(run, n);
    if n < |run| - 1 {
      CallsIsPositive(Front(run), n, key);
    }
  }

  /** A call on one key leaves the entries of all other keys alone, so keys are limited independently. */
  lemma {:induction false} KeysAreIndependent(run: seq<Event>, key: Key, ev: Event, lo: int, hi: int)
    requires match ev case Call(k, _, _, _) => k != key case Forget(k) => k != key case Clear => false
    ensures Lookup(After(run + [ev]), key) == Lookup(After(run), key)
    ensures Admitted(run + [ev], key, lo, hi) == Admitted(run, key, lo, hi)
  {
    assert Front(run + [ev]) == run;
  }

  // ---------- The bound is tight ----------

  /** `n` calls on `key`, all at the same time. */
  function Burst(key: Key, now: int, n: nat, period: int, maxCalls: int): seq<Event> {
    seq(n, _ => Call(key, now, period, maxCalls))
  }

  lemma {:induction false} BurstInWindow(run: seq<Event>, key: Key, now: int, n: nat, period: int, maxCalls: int, lo: int, hi: int)
    requires key in After(run) && InWindow(Lookup(After(run), key), now, period)
    requires After(run)[key].count + n <= maxCalls && lo <= now < hi
    ensures var run' := run + Burst(key, now, n, period, maxCalls);
      && key in After(run')
      && After(run')[key] == ClientCacheEntry(After(run)[key].start, After(run)[key].count + n)
      && Admitted(run', key, lo, hi) == Admitted(run, key, lo, hi) + n
  {
    var run' := run + Burst(key, now, n, period, maxCalls);
    if n == 0 {
      assert run' == run;
    } else {
      BurstInWindow(run, key, now, n - 1, period, maxCalls, lo, hi);
      assert Front(run') == run + Burst(key, now, n - 1, period, maxCalls);
    }
  }

  /** `maxCalls` calls that fill a window: one at time 0 and the rest in its last instant. */
  lemma FillWindow(key: Key, period: int, maxCalls: int) returns (run: seq<Event>)
    requires period >= 2 && maxCalls >= 1
    ensures run == [Call(key, 0, period, maxCalls)] + Burst(key, period - 1, maxCalls - 1, period, maxCalls)
    ensures key in After(run) && After(run)[key].start == 0
    ensures Admitted(run, key, period - 1, 2 * period - 1) == maxCalls - 1
  {
    var first := [Call(key, 0, period, maxCalls)];
    assert Front(first) == [];
    run := first + Burst(key, period - 1, maxCalls - 1, period, maxCalls);
    assert After(first) == map[key := ClientCacheEntry(0, 1)];
    assert Admitted(first, key, period - 1, 2 * period - 1) == 0;
    BurstInWindow(first, key, period - 1, maxCalls - 1, period, maxCalls, period - 1, 2 * period - 1);
  }

  /** For every limit there is a run with 2 * maxCalls - 1 admitted calls inside one period. */
  lemma BoundIsReached(key: Key, period: int, maxCalls: int) returns (run: seq<Event>)
    requires period >= 2 && maxCalls >= 1
    ensures Clocked(run) && Steady(run, key, period, maxCalls)
    ensures Admitted(run, key, period - 1, 2 * period - 1) == 2 * maxCalls - 1
  {
    var filled := FillWindow(key, period, maxCalls);
    var next := Call(key, period, period, maxCalls);
    var reopened := filled + [next];
    FrontOfAppend(filled, next);
    assert After(reopened)[key] == ClientCacheEntry(period, 1);
    run := reopened + Burst(key, period, maxCalls - 1, period, maxCalls);
    BurstInWindow(reopened, key, period, maxCalls - 1, period, maxCalls, period - 1, 2 * period - 1);
    assert forall i :: 0 <= i < |run| ==>
      run[i] == Call(key, if i == 0 then 0 else if i < maxCalls then period - 1 else period, period, maxCalls);
  }
}
