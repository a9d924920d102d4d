/**
 Enrolment of an authenticator. A session belongs to one user id; it shows a fresh secret, takes two
 different codes for that secret within fifteen minutes, and then releases the secret once.
 */
module TotpCache {
  import opened Common

  const SECRET_SIZE: nat := 20
  const SESSION_SECONDS: nat := 15 * 60
  const TIME_STEP: nat := 30

  type Secret = s: string | |s| == SECRET_SIZE witness "...................."

  /** The two computations the cache relies on: the six digits of a secret in a time step, and the QR picture. */
  datatype Config = Config(totp: (string, u64) -> string, qr: (string, string) -> string)

  datatype Entry = Entry(subscriber: bool, start: u64, done: u64, verifications: nat,
                         secret: Secret, qrCode: string, lastCode: string)

  type Cache = map<UserId, Entry>

  datatype Error = TOTInvalidCode | TOTInvalidIndex | TOTRepeatedCode | TOTInvalidProtocol | TOTNoSession

  datatype Event =
    | StartValidation(id: UserId, email: string, subscriber: bool, reset: bool, now: u64, newSecret: Secret)
    | ContinueValidation(id: UserId, subscriber: bool, code: string, nextIndex: u64, now: u64)
    | CompleteValidation(id: UserId, subscriber: bool, now: u64)

  predicate ValidateCode(cfg: Config, secret: string, code: string, now: u64) {
    code == cfg.totp(secret, now / TIME_STEP)
  }

  // ---------- What each step does ----------

  predicate HasSession(cache: Cache, id: UserId, subscriber: bool) {
    id in cache && cache[id].subscriber == subscriber
  }

  predicate Active(cache: Cache, id: UserId, subscriber: bool, now: u64) {
    HasSession(cache, id, subscriber) && Since(now, cache[id].start) < SESSION_SECONDS
  }

  /** The step starts a session from scratch, for a new user id or by a reset. */
  predicate Opens(cache: Cache, ev: Event) {
    ev.StartValidation? && (ev.reset || !HasSession(cache, ev.id, ev.subscriber))
  }

  predicate AcceptsFirst(cfg: Config, cache: Cache, ev: Event) {
    && ev.ContinueValidation? && Active(cache, ev.id, ev.subscriber, ev.now)
    && ev.nextIndex == 1 && cache[ev.id].verifications == 0
    && ValidateCode(cfg, cache[ev.id].secret, ev.code, ev.now)
  }

  predicate AcceptsSecond(cfg: Config, cache: Cache, ev: Event) {
    && ev.ContinueValidation? && Active(cache, ev.id, ev.subscriber, ev.now)
    && ev.nextIndex == 2 && cache[ev.id].verifications == 1 && ev.code != cache[ev.id].lastCode
    && ValidateCode(cfg, cache[ev.id].secret, ev.code, ev.now)
  }

  predicate Releases(cache: Cache, ev: Event) {
    ev.CompleteValidation? && Active(cache, ev.id, ev.subscriber, ev.now) && cache[ev.id].done != 0
  }

  function Next(cfg: Config, cache: Cache, ev: Event): Cache {
    if Opens(cache, ev) then
      cache[ev.id := Entry(ev.subscriber, ev.now, 0, 0, ev.newSecret, cfg.qr(ev.newSecret, ev.email), "")]
    else if AcceptsFirst(cfg, cache, ev) then
      cache[ev.id := cache[ev.id].(verifications := 1, lastCode := ev.code)]
    else if AcceptsSecond(cfg, cache, ev) then
      cache[ev.id := cache[ev.id].(done := ev.now)]
    else if Releases(cache, ev) then
      cache - {ev.id}
    else
      cache
  }

  /** The 94 printable characters from '!' to '~'. */
  function SecretChar(random: u64): char {
    (33 + random % (127 - 33)) as char
  }

  class Totp {
    const cfg: Config
    var cache: Cache

    constructor (cfg: Config)
      ensures this.cfg == cfg && cache == map[]
    {
      this.cfg := cfg;
      cache := map[];
    }

    static method GenerateSecret(size: nat, random: seq<u64>) returns (r: string)
      requires |random| >= size
      ensures |r| == size
      ensures forall i :: 0 <= i < size ==> r[i] == SecretChar(random[i]) && '!' <= r[i] <= '~'
    {
      r := "";
      var left := size;
      while left > 0
        invariant 0 <= left <= size && |r| == size - left
        invariant forall i :: 0 <= i < |r| ==> r[i] == SecretChar(random[i]) && '!' <= r[i] <= '~'
      {
        r := r + [SecretChar(random[size - left])];
        left := left - 1;
      }
    }

    method StartValidation(id: UserId, email: string, subscriber: bool, reset: bool, now: u64, random: seq<u64>)
      returns (qrCode: string)
      requires |random| == SECRET_SIZE
      modifies this
      ensures cache == Next(cfg, old(cache),
                         Event.StartValidation(id, email, subscriber, reset, now, seq(SECRET_SIZE, i requires 0 <= i < |random| => SecretChar(random[i]))))
      ensures id in cache && qrCode == cache[id].qrCode
    {
      if id in cache && cache[id].subscriber == subscriber {
        if reset {
          var newSecret := GenerateSecret(SECRET_SIZE, random);
          assert newSecret == seq(SECRET_SIZE, i requires 0 <= i < |random| => SecretChar(random[i]));
          qrCode := cfg.qr(newSecret, email);
          cache := cache[id := cache[id].(subscriber := subscriber, start := now, done := 0, verifications := 0,
                                          secret := newSecret, qrCode := qrCode, lastCode := "")];
        } else {
          qrCode := cache[id].qrCode;
        }
        return;
      }
      var newSecret := GenerateSecret(SECRET_SIZE, random);
      assert newSecret == seq(SECRET_SIZE, i requires 0 <= i < |random| => SecretChar(random[i]));
      qrCode := cfg.qr(newSecret, email);
      cache := cache[id := Entry(subscriber, now, 0, 0, newSecret, qrCode, "")];
    }

    /** `nextIndex` and `moreCodes` are the source's in-out parameters; `error` is what it reports on failure. */
    method ContinueValidation(id: UserId, subscriber: bool, code: string, nextIndex: u64, moreCodes: bool, now: u64)
      returns (ok: bool, nextIndex': u64, moreCodes': bool, error: Option<Error>)
      modifies this
      ensures var ev := Event.ContinueValidation(id, subscriber, code, nextIndex, now);
        && cache == Next(cfg, old(cache), ev)
        && ok == (AcceptsFirst(cfg, old(cache), ev) || AcceptsSecond(cfg, old(cache), ev))
        && (ok ==> nextIndex' == 2 && moreCodes' == AcceptsFirst(cfg, old(cache), ev))
        && (!ok ==> cache == old(cache) && nextIndex' == nextIndex && moreCodes' == moreCodes)
      ensures ok <==> error.None?
      ensures error == Some(TOTNoSession) <==> !Active(old(cache), id, subscriber, now)
      ensures error == Some(TOTInvalidCode) <==>
        Active(old(cache), id, subscriber, now) && !ValidateCode(cfg, old(cache)[id].secret, code, now)
      ensures error == Some(TOTInvalidIndex) <==>
        Active(old(cache), id, subscriber, now) && ValidateCode(cfg, old(cache)[id].secret, code, now) &&
        nextIndex != 1 && nextIndex != 2
      ensures error == Some(TOTRepeatedCode) <==>
        Active(old(cache), id, subscriber, now) && ValidateCode(cfg, old(cache)[id].secret, code, now) &&
        (nextIndex == 1 || nextIndex == 2) && !ok && code == old(cache)[id].lastCode
      ensures error == Some(TOTInvalidProtocol) <==>
        Active(old(cache), id, subscriber, now) && ValidateCode(cfg, old(cache)[id].secret, code, now) &&
        (nextIndex == 1 || nextIndex == 2) && !ok && code != old(cache)[id].lastCode
    {
      nextIndex', moreCodes' := nextIndex, moreCodes;
      if id in cache && subscriber == cache[id].subscriber && Since(now, cache[id].start) < SESSION_SECONDS {
        var e := cache[id];
        if nextIndex == 1 && e.verifications == 0 && ValidateCode(cfg, e.secret, code, now) {
          cache := cache[id := e.(verifications := e.verifications + 1, lastCode := code)];
          return true, nextIndex + 1, true, None;
        } else if nextIndex == 2 && e.verifications == 1 && code != e.lastCode &&
                  ValidateCode(cfg, e.secret, code, now) {
          cache := cache[id := e.(done := now)];
          return true, nextIndex, false, None;
        } else if !ValidateCode(cfg, e.secret, code, now) {
          return false, nextIndex, moreCodes, Some(TOTInvalidCode);
        } else if nextIndex != 1 && nextIndex != 2 {
          return false, nextIndex, moreCodes, Some(TOTInvalidIndex);
        } else if code == e.lastCode {
          return false, nextIndex, moreCodes, Some(TOTRepeatedCode);
        }
        return false, nextIndex, moreCodes, Some(TOTInvalidProtocol);
      }
      return false, nextIndex, moreCodes, Some(TOTNoSession);
    }

    method CompleteValidation(id: UserId, subscriber: bool, now: u64) returns (secret: Option<Secret>)
      modifies this
      ensures var ev := Event.CompleteValidation(id, subscriber, now);
        && cache == Next(cfg, old(cache), ev)
        && secret == if Releases(old(cache), ev) then Some(old(cache)[id].secret) else None
    {
      if id in cache && subscriber == cache[id].subscriber &&
         Since(now, cache[id].start) < SESSION_SECONDS && cache[id].done != 0 {
        secret := Some(cache[id].secret);
        cache := cache - {id};
      } else {
        secret := None;
      }
    }
  }

  // ---------- Runs ----------

  function After(cfg: Config, run: seq<Event>): Cache {
    if run == [] then map[] else Next(cfg, After(cfg, Front(run)), Last(run))
  }

  predicate Clocked(run: seq<Event>) {
    && (forall i :: 0 <= i < |run| ==> 0 < run[i].now)
    && (forall i, j :: 0 <= i < j < |run| ==> run[i].now <= run[j].now)
  }

  predicate OpensAt(cfg: Config, run: seq<Event>, n: nat, id: UserId)
    requires n < |run|
  {
    run[n].id == id && Opens(After(cfg, run[..n]), run[n])
  }

  predicate ReleasesAt(cfg: Config, run: seq<Event>, n: nat, id: UserId)
    requires n < |run|
  {
    run[n].id == id && Releases(After(cfg, run[..n]), run[n])
  }

  /** Step `n` was accepted as a code, first or second, while the session's secret was `secret`. */
  predicate AcceptedAt(cfg: Config, run: seq<Event>, n: nat, id: UserId, secret: Secret)
    requires n < |run|
  {
    var cache := After(cfg, run[..n]);
    && run[n].ContinueValidation? && run[n].id == id && id in cache && cache[id].secret == secret
    && (AcceptsFirst(cfg, cache, run[n]) || AcceptsSecond(cfg, cache, run[n]))
  }

  /** Step `a` opened the session that `id` still has at the end of the run. */
  ghost predicate CurrentSession(cfg: Config, run: seq<Event>, a: nat, id: UserId) {
    && a < |run| && OpensAt(cfg, run, a, id)
    && forall b :: a < b < |run| ==> !OpensAt(cfg, run, b, id) && !ReleasesAt(cfg, run, b, id)
  }

  /** What a step says about an earlier position does not depend on later steps. */
  lemma PrefixAgrees(cfg: Config, run: seq<Event>, n: nat, b: nat, id: UserId)
    requires b < n <= |run|
    ensures run[..n][..b] == run[..b] && run[..n][b] == run[b]
    ensures OpensAt(cfg, run[..n], b, id) == OpensAt(cfg, run, b, id)
    ensures ReleasesAt(cfg, run[..n], b, id) == ReleasesAt(cfg, run, b, id)
  {
    assert run[..n][..b] == run[..b];
  }

  lemma AcceptedInPrefix(cfg: Config, run: seq<Event>, n: nat, b: nat, id: UserId, secret: Secret)
    requires b < n <= |run|
    ensures AcceptedAt(cfg, run[..n], b, id, secret) == AcceptedAt(cfg, run, b, id, secret)
  {
    assert run[..n][..b] == run[..b];
  }

  lemma SessionContinues(cfg: Config, run: seq<Event>, a: nat, id: UserId)
    requires run != [] && CurrentSession(cfg, Front(run), a, id)
    requires !OpensAt(cfg, run, |run| - 1, id) && !ReleasesAt(cfg, run, |run| - 1, id)
    ensures CurrentSession(cfg, run, a, id)
  {
    PrefixAgrees(cfg, run, |run| - 1, a, id);
    forall b | a < b < |run| ensures !OpensAt(cfg, run, b, id) && !ReleasesAt(cfg, run, b, id) {
      if b < |run| - 1 {
        PrefixAgrees(cfg, run, |run| - 1, b, id);
      }
    }
  }

  /** The facts about one live session that SessionHistory carries along a run. */
  ghost predicate Story(cfg: Config, run: seq<Event>, id: UserId, e: Entry, a: nat, i: nat, j: nat) {
    && a < |run| && run[a].StartValidation?
    && e.start == run[a].now && e.secret == run[a].newSecret && e.subscriber == run[a].subscriber
    && e.verifications <= 1 && (e.done != 0 ==> e.verifications == 1)
    && (e.verifications == 1 ==>
          && a < i < |run| && AcceptedAt(cfg, run, i, id, e.secret) && run[i].code == e.lastCode
          && run[i].nextIndex == 1 && run[i].now - run[a].now < SESSION_SECONDS)
    && (e.done != 0 ==>
          && i < j < |run| && AcceptedAt(cfg, run, j, id, e.secret) && run[j].code != e.lastCode
          && run[j].nextIndex == 2 && run[j].now - run[a].now < SESSION_SECONDS && e.done == run[j].now)
  }

  lemma StoryContinues(cfg: Config, run: seq<Event>, id: UserId, e: Entry, a: nat, i: nat, j: nat)
    requires run != [] && Story(cfg, Front(run), id, e, a, i, j)
    ensures Story(cfg, run, id, e, a, i, j)
  {
    if e.verifications == 1 {
      AcceptedInPrefix(cfg, run, |run| - 1, i, id, e.secret);
    }
    if e.done != 0 {
      AcceptedInPrefix(cfg, run, |run| - 1, j, id, e.secret);
    }
  }

  lemma AfterStep(cfg: Config, run: seq<Event>)
    requires run != []
    ensures run[..|run| - 1] == Front(run)
    ensures After(cfg, run) == Next(cfg, After(cfg, Front(run)), Last(run))
  {
  }

  /**
   The history of a live session: the step that opened it, the accepted first code and the latest
   accepted second code, as far as the entry says that they exist.
   */
  lemma {:induction false} SessionHistory(cfg: Config, run: seq<Event>, id: UserId) returns (a: nat, i: nat, j: nat)
    requires Clocked(run) && id in After(cfg, run)
    ensures CurrentSession(cfg, run, a, id)
    ensures Story(cfg, run, id, After(cfg, run)[id], a, i, j)
  {
    AfterStep(cfg, run);
    var before, ev, n := Front(run), Last(run), |run| - 1;
    var cache := After(cfg, before);
    if OpensAt(cfg, run, n, id) {
      a, i, j := n, 0, 0;
    } else {
      assert id in cache && !ReleasesAt(cfg, run, n, id);
      a, i, j := SessionHistory(cfg, before, id);
      SessionContinues(cfg, run, a, id);
      StoryContinues(cfg, run, id, cache[id], a, i, j);
      assert run[a].now <= ev.now;
      if ev.id == id && AcceptsFirst(cfg, cache, ev) {
        i := n;
      } else if ev.id == id && AcceptsSecond(cfg, cache, ev) {
        j := n;
      }
    }
  }

  /**
   What a release proves. The secret belongs to the session opened at step `a`. The run holds two
   accepted codes for that very secret, steps `i` then `j`, in two different time steps and in that
   order, both after the opening and within fifteen minutes of it; so is the release itself.
   Between the opening and the release the session was neither reset nor released.
   */
  lemma ReleaseNeedsTwoCodes(cfg: Config, run: seq<Event>, n: nat) returns (a: nat, i: nat, j: nat)
    requires Clocked(run) && n < |run| && ReleasesAt(cfg, run, n, run[n].id)
    ensures a < i < j < n && CurrentSession(cfg, run[..n], a, run[n].id)
    ensures run[a].StartValidation? && run[a].subscriber == run[n].subscriber
    ensures var secret := run[a].newSecret;
      && secret == After(cfg, run[..n])[run[n].id].secret
      && AcceptedAt(cfg, run, i, run[n].id, secret) && AcceptedAt(cfg, run, j, run[n].id, secret)
      && run[i].code == cfg.totp(secret, run[i].now / TIME_STEP)
      && run[j].code == cfg.totp(secret, run[j].now / TIME_STEP)
      && run[i].code != run[j].code
    ensures run[i].now / TIME_STEP < run[j].now / TIME_STEP
    ensures run[a].now <= run[i].now <= run[j].now <= run[n].now < run[a].now + SESSION_SECONDS
  {
    var before := run[..n];
    var id := run[n].id;
    a, i, j := SessionHistory(cfg, before, id);
    AcceptedInPrefix(cfg, run, n, i, id, run[a].newSecret);
    AcceptedInPrefix(cfg, run, n, j, id, run[a].newSecret);
  }

  /** A session releases its secret at most once: between two releases for a user there is an opening. */
  lemma OneReleasePerSession(cfg: Config, run: seq<Event>, m: nat, n: nat) returns (a: nat)
    requires Clocked(run) && m < n < |run| && run[m].id == run[n].id
    requires ReleasesAt(cfg, run, m, run[n].id) && ReleasesAt(cfg, run, n, run[n].id)
    ensures m < a < n && OpensAt(cfg, run, a, run[n].id)
  {
    var i, j;
    a, i, j := ReleaseNeedsTwoCodes(cfg, run, n);
    PrefixAgrees(cfg, run, n, m, run[n].id);
    PrefixAgrees(cfg, run, n, a, run[n].id);
  }

  /** A step that neither opens nor releases the session of `id` keeps everything about it that a release asks for. */
  lemma StepKeepsDone(cfg: Config, cache: Cache, ev: Event, id: UserId)
    requires id in cache && cache[id].done != 0 && cache[id].verifications == 1 && 0 < ev.now
    requires ev.id == id ==> !Opens(cache, ev) && !Releases(cache, ev)
    ensures id in Next(cfg, cache, ev)
    ensures var e := Next(cfg, cache, ev)[id];
      e.done != 0 && e.(done := 0) == cache[id].(done := 0)
  {
  }

  /**
   The other direction: once step `j` was accepted as a second code, a completion within the
   session's fifteen minutes releases the secret, whatever else happens in between, unless the
   session is opened anew or released first.
   */
  lemma {:induction false} SecondCodeLeadsToRelease(cfg: Config, run: seq<Event>, j: nat, ev: Event)
    requires Clocked(run) && j < |run| && AcceptsSecond(cfg, After(cfg, run[..j]), run[j])
    requires forall b :: j < b < |run| ==> !OpensAt(cfg, run, b, run[j].id) && !ReleasesAt(cfg, run, b, run[j].id)
    ensures var id := run[j].id;
      && id in After(cfg, run)
      && After(cfg, run)[id].done != 0
      && After(cfg, run)[id].(done := 0) == After(cfg, run[..j])[id].(done := 0)
      && (ev.CompleteValidation? && ev.id == id && ev.subscriber == run[j].subscriber &&
          Since(ev.now, After(cfg, run[..j])[id].start) < SESSION_SECONDS
          ==> Releases(After(cfg, run), ev))
  {
    AfterStep(cfg, run);
    var before, n := Front(run), |run| - 1;
    if j < n {
      forall b | j <= b < n
        ensures OpensAt(cfg, before, b, run[j].id) == OpensAt(cfg, run, b, run[j].id)
        ensures ReleasesAt(cfg, before, b, run[j].id) == ReleasesAt(cfg, run, b, run[j].id)
        ensures before[..b] == run[..b]
      {
        PrefixAgrees(cfg, run, n, b, run[j].id);
      }
      SecondCodeLeadsToRelease(cfg, before, j, ev);
      assert !OpensAt(cfg, run, n, run[j].id) && !ReleasesAt(cfg, run, n, run[j].id);
      StepKeepsDone(cfg, After(cfg, before), run[n], run[j].id);
    }
  }

  // ---------- An enrolment from its start to its release ----------

  /**
   What a start leaves. It keeps a session of the same kind unless a reset is asked for; otherwise the
   session is new: its own secret, the time of the start, no accepted code and nothing done.
   */
  lemma StartLeaves(cfg: Config, cache: Cache, ev: Event)
    requires ev.StartValidation?
    ensures Next(cfg, cache, ev) ==
      if ev.id in cache && cache[ev.id].subscriber == ev.subscriber && !ev.reset then cache
      else cache[ev.id := Entry(ev.subscriber, ev.now, 0, 0, ev.newSecret, cfg.qr(ev.newSecret, ev.email), "")]
  {
  }

  /** A first code counts exactly when it is the secret's code of the current 30-second step, less than 900 seconds after the start. */
  lemma FirstCodeCountsIff(cfg: Config, cache: Cache, ev: Event)
    requires ev.ContinueValidation? && ev.nextIndex == 1 && ev.id in cache && cache[ev.id].verifications == 0
    requires cache[ev.id].start <= ev.now
    ensures ev.id in Next(cfg, cache, ev)
    ensures Next(cfg, cache, ev)[ev.id] ==
      if ev.subscriber == cache[ev.id].subscriber && ev.now - cache[ev.id].start < 900 &&
         ev.code == cfg.totp(cache[ev.id].secret, ev.now / 30)
      then cache[ev.id].(verifications := 1, lastCode := ev.code) else cache[ev.id]
  {
  }

  /** A second code counts exactly under the same conditions and if it is not the first one again. */
  lemma SecondCodeCountsIff(cfg: Config, cache: Cache, ev: Event)
    requires ev.ContinueValidation? && ev.nextIndex == 2 && ev.id in cache && cache[ev.id].verifications == 1
    requires cache[ev.id].start <= ev.now
    ensures ev.id in Next(cfg, cache, ev)
    ensures Next(cfg, cache, ev)[ev.id] ==
      if ev.subscriber == cache[ev.id].subscriber && ev.now - cache[ev.id].start < 900 &&
         ev.code == cfg.totp(cache[ev.id].secret, ev.now / 30) && ev.code != cache[ev.id].lastCode
      then cache[ev.id].(done := ev.now) else cache[ev.id]
  {
  }

  /**
   A whole enrolment, from any cache: a start with a reset, two codes and a completion. The secret is
   released exactly if both codes are right, they differ, and all of it happens within 900 seconds.
   */
  lemma EnrolmentReleasesIff(cfg: Config, cache: Cache, id: UserId, email: string, subscriber: bool, secret: Secret,
                             code: string, code': string, t0: u64, t1: u64, t2: u64, t3: u64)
    requires 0 < t0 <= t1 <= t2 <= t3
    ensures var one := Next(cfg, cache, Event.StartValidation(id, email, subscriber, true, t0, secret));
      var two := Next(cfg, one, Event.ContinueValidation(id, subscriber, code, 1, t1));
      var three := Next(cfg, two, Event.ContinueValidation(id, subscriber, code', 2, t2));
      Releases(three, Event.CompleteValidation(id, subscriber, t3)) <==>
        code == cfg.totp(secret, t1 / 30) && code' == cfg.totp(secret, t2 / 30) && code != code' && t3 - t0 < 900
    ensures var one := Next(cfg, cache, Event.StartValidation(id, email, subscriber, true, t0, secret));
      var two := Next(cfg, one, Event.ContinueValidation(id, subscriber, code, 1, t1));
      var three := Next(cfg, two, Event.ContinueValidation(id, subscriber, code', 2, t2));
      id in three && three[id].secret == secret
  {
    var start := Event.StartValidation(id, email, subscriber, true, t0, secret);
    var first, second := Event.ContinueValidation(id, subscriber, code, 1, t1), Event.ContinueValidation(id, subscriber, code', 2, t2);
    StartLeaves(cfg, cache, start);
    var one := Next(cfg, cache, start);
    FirstCodeCountsIff(cfg, one, first);
    var two := Next(cfg, one, first);
    if two[id].verifications == 1 {
      SecondCodeCountsIff(cfg, two, second);
    } else {
      NoSecondWithoutFirst(cfg, two, second);
    }
    hide Next;
  }

  lemma NoSecondWithoutFirst(cfg: Config, cache: Cache, ev: Event)
    requires ev.ContinueValidation? && ev.nextIndex == 2 && ev.id in cache && cache[ev.id].verifications == 0
    ensures Next(cfg, cache, ev) == cache
  {
  }

  /** Every printable character occurs in secrets, for every 94th random number in turn. */
  lemma EveryCharacterOccurs(c: char, random: u64)
    requires '!' <= c <= '~'
    ensures SecretChar(random) == c <==> random % 94 == c as int - 33
  {
  }
}
