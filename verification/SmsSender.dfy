/**
 Validation of a telephone number by a code sent to it. Entries are kept in the order of the
 requests; every new request first drops the entries older than 300 seconds.
 */
module SmsSender {
  import opened Common

  const ENTRY_SECONDS: nat := 300

  datatype Entry = Entry(number: string, code: string, userName: string, created: u64, validated: bool)

  type Cache = seq<Entry>

  datatype Event =
    | StartValidation(number: string, userName: string, now: u64, code: string)
    | CompleteValidation(number: string, code: string, userName: string)

  // ---------- What each step does ----------

  predicate Live(e: Entry, now: u64) {
    Since(now, e.created) <= ENTRY_SECONDS
  }

  /** The entries still live, in their old order. */
  function Clean(cache: Cache, now: u64): Cache {
    if cache == [] then []
    else (if Live(cache[0], now) then [cache[0]] else []) + Clean(cache[1..], now)
  }

  predicate Matches(e: Entry, number: string, userName: string) {
    e.number == number && e.userName == userName
  }

  /** The position of the first entry for a number and a user, or the length if there is none. */
  function FirstFor(cache: Cache, number: string, userName: string): (i: nat)
    ensures i <= |cache|
    ensures forall k :: 0 <= k < i ==> !Matches(cache[k], number, userName)
    ensures i < |cache| ==> Matches(cache[i], number, userName)
  {
    if cache == [] || Matches(cache[0], number, userName) then 0 else 1 + FirstFor(cache[1..], number, userName)
  }

  /** The position of the first entry for a number, a user and a code, or the length if there is none. */
  function FirstWithCode(cache: Cache, number: string, userName: string, code: string): (i: nat)
    ensures i <= |cache|
    ensures forall k :: 0 <= k < i ==> !(Matches(cache[k], number, userName) && cache[k].code == code)
    ensures i < |cache| ==> Matches(cache[i], number, userName) && cache[i].code == code
  {
    if cache == [] || (Matches(cache[0], number, userName) && cache[0].code == code) then 0
    else 1 + FirstWithCode(cache[1..], number, userName, code)
  }

  predicate NumberValid(cache: Cache, number: string, userName: string) {
    var i := FirstFor(cache, number, userName);
    i < |cache| && cache[i].validated
  }

  predicate Completes(enabled: bool, cache: Cache, number: string, code: string, userName: string) {
    enabled && FirstWithCode(cache, number, userName, code) < |cache|
  }

  function Next(enabled: bool, cache: Cache, ev: Event): Cache {
    match ev
    case StartValidation(number, userName, now, code) =>
      if enabled then Clean(cache, now) + [Entry(number, code, userName, now, false)] else cache
    case CompleteValidation(number, code, userName) =>
      if Completes(enabled, cache, number, code, userName) then
        var i := FirstWithCode(cache, number, userName, code);
        cache[i := cache[i].(validated := true)]
      else cache
  }

  lemma {:induction false} CleanAppend(a: Cache, b: Cache, now: u64)
    ensures Clean(a + b, now) == Clean(a, now) + Clean(b, now)
  {
    if a == [] {
      assert a + b == b;
    } else {
      CleanAppend(a[1..], b, now);
      assert (a + b)[1..] == a[1..] + b && (a + b)[0] == a[0];
      var first := if Live(a[0], now) then [a[0]] else [];
      hide Clean, Live;
      assert first + (Clean(a[1..], now) + Clean(b, now)) == (first + Clean(a[1..], now)) + Clean(b, now);
    }
  }

  class Sender {
    const enabled: bool
    var cache: Cache

    constructor (enabled: bool)
      ensures this.enabled == enabled && cache == []
    {
      this.enabled := enabled;
      cache := [];
    }

    method CleanCache(now: u64)
      modifies this
      ensures cache == Clean(old(cache), now)
    {
      var i := 0;
      ghost var done := 0;  // how many of the old entries have been looked at
      while i < |cache|
        invariant 0 <= i <= |cache| && 0 <= done <= |old(cache)|
        invariant cache[..i] == Clean(old(cache)[..done], now)
        invariant cache[i..] == old(cache)[done..]
        decreases |cache| - i
      {
        ghost var e := cache[i];
        assert old(cache)[..done + 1] == old(cache)[..done] + [e];
        CleanAppend(old(cache)[..done], [e], now);
        assert Clean([e], now) == if Live(e, now) then [e] else [];
        ghost var kept, rest := cache[..i], cache[i + 1..];
        assert rest == cache[i..][1..] == old(cache)[done + 1..];
        if Since(now, cache[i].created) > ENTRY_SECONDS {
          cache := cache[..i] + cache[i + 1..];
          assert cache[..i] == kept && cache[i..] == rest;
        } else {
          assert cache[..i + 1] == kept + [e];
          i := i + 1;
        }
        done := done + 1;
      }
      assert old(cache)[..done] == old(cache) && cache[..i] == cache;
    }

    /** `sent` is the verdict of the telephone provider. */
    method StartValidation(number: string, userName: string, now: u64, challenge: string, sent: bool) returns (ok: bool)
      modifies this
      ensures cache == Next(enabled, old(cache), Event.StartValidation(number, userName, now, challenge))
      ensures ok == (enabled && sent)
    {
      if !enabled {
        return false;
      }
      CleanCache(now);
      cache := cache + [Entry(number, challenge, userName, now, false)];
      return sent;
    }

    method IsNumberValid(number: string, userName: string) returns (valid: bool)
      ensures valid == (enabled && NumberValid(cache, number, userName))
    {
      if !enabled {
        return false;
      }
      for i := 0 to |cache|
        invariant forall k :: 0 <= k < i ==> !Matches(cache[k], number, userName)
      {
        if cache[i].number == number && cache[i].userName == userName {
          return cache[i].validated;
        }
      }
      return false;
    }

    method CompleteValidation(number: string, code: string, userName: string) returns (ok: bool)
      modifies this
      ensures cache == Next(enabled, old(cache), Event.CompleteValidation(number, code, userName))
      ensures ok == Completes(enabled, old(cache), number, code, userName)
    {
      if !enabled {
        return false;
      }
      for i := 0 to |cache|
        invariant cache == old(cache)
        invariant forall k :: 0 <= k < i ==> !(Matches(cache[k], number, userName) && cache[k].code == code)
      {
        if cache[i].code == code && cache[i].number == number && cache[i].userName == userName {
          cache := cache[i := cache[i].(validated := true)];
          return true;
        }
      }
      return false;
    }
  }

  // ---------- Runs ----------

  function After(enabled: bool, run: seq<Event>): Cache {
    if run == [] then [] else Next(enabled, After(enabled, Front(run)), Last(run))
  }

  predicate Issued(ev: Event, e: Entry) {
    ev == StartValidation(e.number, e.userName, e.created, e.code)
  }

  predicate Supplied(ev: Event, e: Entry) {
    ev == CompleteValidation(e.number, e.code, e.userName)
  }

  lemma {:induction false} CleanMembers(cache: Cache, now: u64, e: Entry)
    ensures e in Clean(cache, now) <==> e in cache && Live(e, now)
  {
    if cache != [] {
      CleanMembers(cache[1..], now, e);
      assert cache == [cache[0]] + cache[1..];
    }
  }

  /** Every entry was issued by a request; a validated one was answered afterwards with its own code. */
  lemma {:induction false} EntryHistory(enabled: bool, run: seq<Event>, e: Entry) returns (a: nat, b: nat)
    requires e in After(enabled, run)
    ensures a < |run| && Issued(run[a], e)
    ensures e.validated ==> a < b < |run| && Supplied(run[b], e)
  {
    var before, ev := Front(run), Last(run);
    var cache := After(enabled, before);
    if ev.StartValidation? && enabled && e !in cache {
      CleanMembers(cache, ev.now, e);
      a, b := |run| - 1, 0;
    } else {
      if ev.StartValidation? && enabled {
        CleanMembers(cache, ev.now, e);
      }
      if e in cache {
        a, b := EntryHistory(enabled, before, e);
      } else {
        a, b := EntryHistory(enabled, before, cache[FirstWithCode(cache, ev.number, ev.userName, ev.code)]);
        b := |run| - 1;
      }
    }
  }

  /**
   A number counts as valid for a user only after that user supplied, for that number, a code that
   had been issued for that number and that user.
   */
  lemma ValidNumberWasProved(enabled: bool, run: seq<Event>, number: string, userName: string)
    returns (a: nat, b: nat)
    requires NumberValid(After(enabled, run), number, userName)
    ensures a < b < |run|
    ensures run[a].StartValidation? && run[a].number == number && run[a].userName == userName
    ensures run[b] == CompleteValidation(number, run[a].code, userName)
  {
    var cache := After(enabled, run);
    a, b := EntryHistory(enabled, run, cache[FirstFor(cache, number, userName)]);
  }

  /**
   A successful completion does not always make the number valid: only the oldest entry of a number
   and user is read. The number is valid afterwards exactly when it already was, or when the code
   belongs to that oldest entry.
   */
  lemma CompletionCountsIffOldest(enabled: bool, cache: Cache, number: string, code: string, userName: string)
    requires Completes(enabled, cache, number, code, userName)
    ensures var cache' := Next(enabled, cache, CompleteValidation(number, code, userName));
      NumberValid(cache', number, userName) <==>
        NumberValid(cache, number, userName) || cache[FirstFor(cache, number, userName)].code == code
  {
    var cache' := Next(enabled, cache, CompleteValidation(number, code, userName));
    var i := FirstFor(cache, number, userName);
    assert Matches(cache'[i], number, userName);
    assert FirstFor(cache', number, userName) == i;
  }

  /** Two requests for one number: the code of the second is accepted, but the number does not become valid. */
  lemma RightCodeDoesNotCount(number: string, userName: string, code: string, code': string)
    requires code != code'
    ensures var asked := [StartValidation(number, userName, 0, code), StartValidation(number, userName, 0, code')];
      && Completes(true, After(true, asked), number, code', userName)
      && !NumberValid(After(true, asked + [CompleteValidation(number, code', userName)]), number, userName)
  {
    var first, second := StartValidation(number, userName, 0, code), StartValidation(number, userName, 0, code');
    var a, b := Entry(number, code, userName, 0, false), Entry(number, code', userName, 0, false);
    FrontOfAppend([], first);
    FrontOfAppend([first], second);
    FrontOfAppend([first, second], CompleteValidation(number, code', userName));
    assert [] + [first] == [first] && [first] + [second] == [first, second];
    assert After(true, [first]) == [a];
    assert Clean([a], 0) == [a];
    assert After(true, [first, second]) == [a, b];
    assert FirstFor([a, b], number, userName) == 0;
    CompletionCountsIffOldest(true, [a, b], number, code', userName);
    hide Clean, FirstFor, NumberValid;
  }

  /** After a request at `now`, the entries are the old ones at most 300 seconds old, and the new one as the last. */
  lemma RequestLeaves(cache: Cache, number: string, userName: string, now: u64, code: string, e: Entry)
    requires forall x :: x in cache ==> x.created <= now
    ensures var cache' := Next(true, cache, StartValidation(number, userName, now, code));
      && |cache'| > 0 && Last(cache') == Entry(number, code, userName, now, false)
      && (e in Front(cache') <==> e in cache && now - e.created <= 300)
    ensures Next(false, cache, StartValidation(number, userName, now, code)) == cache
  {
    CleanMembers(cache, now, e);
    FrontOfAppend(Clean(cache, now), Entry(number, code, userName, now, false));
  }

  /** For a number with no entry still live, a request and then a code make the number valid exactly if the code is the one sent. */
  lemma FreshNumberValidIff(cache: Cache, number: string, userName: string, now: u64, code: string, given: string)
    requires forall x :: x in cache ==> x.created <= now && !(Matches(x, number, userName) && now - x.created <= 300)
    ensures var asked := Next(true, cache, StartValidation(number, userName, now, code));
      && (Completes(true, asked, number, given, userName) <==> given == code)
      && (NumberValid(Next(true, asked, CompleteValidation(number, given, userName)), number, userName) <==> given == code)
  {
    var kept := Clean(cache, now);
    var e := Entry(number, code, userName, now, false);
    forall x | x in kept ensures !Matches(x, number, userName) {
      CleanMembers(cache, now, x);
    }
    var asked := kept + [e];
    assert forall i :: 0 <= i < |kept| ==> asked[i] in kept;
    assert asked[|kept|] == e;
    assert FirstFor(asked, number, userName) == |kept|;
    if given == code {
      assert FirstWithCode(asked, number, userName, given) == |kept|;
      CompletionCountsIffOldest(true, asked, number, given, userName);
    } else {
      assert FirstWithCode(asked, number, userName, given) == |asked|;
    }
    hide Clean;
  }
}
