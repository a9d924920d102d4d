/**
 Login challenges. A challenge stores the identity of the user who gave a good password; whoever
 returns the right answer under its uuid gets that identity, once.
 */
module MfaServer {
  import opened Common
  import opened SecurityObjects

  const CHALLENGE_SECONDS: nat := 300
  /** The part of a user and its web token that a challenge hands through. */
  datatype Identity = Identity(userId: string, email: string, accessToken: string, channel: Channel,
                               hasMobile: bool, authenticatorSecret: string)

  datatype Entry = Entry(who: Identity, answer: string, created: u64, channel: Channel)

  type Cache = map<string, Entry>

  /** Which channels are switched on, and the six digits of a secret in a 30-second step. */
  datatype Config = Config(sms: bool, email: bool, totp: (string, u64) -> string)

  datatype Event =
    | Start(uuid: string, who: Identity, challenge: string, now: u64)
    | Resend(uuid: string)
    | Complete(replyTo: Option<string>, answer: Option<string>, now: u64)

  predicate MethodEnabled(cfg: Config, m: Channel) {
    if m == SMS then cfg.sms else if m == EMAIL then cfg.email else m == AUTHENTICATOR
  }

  /** Whether a challenge goes out; `sent` is the verdict of the SMS provider or the mailer. */
  predicate SendChallenge(cfg: Config, who: Identity, channel: Channel, sent: bool) {
    if channel == SMS && cfg.sms && who.hasMobile then sent
    else if channel == EMAIL && cfg.email && who.email != "" then sent
    else channel == AUTHENTICATOR && who.authenticatorSecret != ""
  }

  // ---------- What each step does ----------

  function Clean(cache: Cache, now: u64): Cache {
    map u | u in cache && Since(now, cache[u].created) <= CHALLENGE_SECONDS :: cache[u]
  }

  predicate RightAnswer(cfg: Config, e: Entry, answer: string, now: u64) {
    if e.channel == AUTHENTICATOR then answer == cfg.totp(e.who.authenticatorSecret, now / 30)
    else answer == e.answer
  }

  predicate Completes(cfg: Config, cache: Cache, ev: Event) {
    && ev.Complete? && ev.replyTo.Some? && ev.answer.Some? && ev.replyTo.value in cache
    && RightAnswer(cfg, cache[ev.replyTo.value], ev.answer.value, ev.now)
  }

  predicate Starts(cfg: Config, ev: Event) {
    ev.Start? && MethodEnabled(cfg, ev.who.channel)
  }

  function Next(cfg: Config, cache: Cache, ev: Event): Cache {
    match ev
    case Start(uuid, who, challenge, now) =>
      if Starts(cfg, ev) then Clean(cache, now)[uuid := Entry(who, challenge, now, who.channel)] else Clean(cache, now)
    case Resend(_) => cache
    case Complete(uuid, _, _) => if Completes(cfg, cache, ev) then cache - {uuid.value} else cache
  }

  class Server {
    const cfg: Config
    var cache: Cache

    constructor (cfg: Config)
      ensures this.cfg == cfg && cache == map[]
    {
      this.cfg := cfg;
      cache := map[];
    }

    method CleanCache(now: u64)
      modifies this
      ensures cache == Clean(old(cache), now)
    {
      var left := cache.Keys;
      while left != {}
        invariant left <= cache.Keys <= old(cache).Keys
        invariant forall u :: u in cache ==> cache[u] == old(cache)[u]
        invariant forall u :: u in old(cache) && u !in left ==>
          (u in cache <==> Since(now, old(cache)[u].created) <= CHALLENGE_SECONDS)
        decreases left
      {
        var u :| u in left;
        if Since(now, cache[u].created) > CHALLENGE_SECONDS {
          cache := cache - {u};
        }
        left := left - {u};
      }
    }

    method StartMFAChallenge(who: Identity, uuid: string, challenge: string, now: u64, sent: bool) returns (ok: bool)
      modifies this
      ensures cache == Next(cfg, old(cache), Start(uuid, who, challenge, now))
      ensures ok == (MethodEnabled(cfg, who.channel) && SendChallenge(cfg, who, who.channel, sent))
    {
      CleanCache(now);
      if !MethodEnabled(cfg, who.channel) {
        return false;
      }
      cache := cache[uuid := Entry(who, challenge, now, who.channel)];
      return SendChallenge(cfg, who, who.channel, sent);
    }

    method ResendCode(uuid: string, sent: bool) returns (ok: bool)
      ensures ok == (uuid in cache && SendChallenge(cfg, cache[uuid].who, cache[uuid].channel, sent))
    {
      if uuid !in cache {
        return false;
      }
      return SendChallenge(cfg, cache[uuid].who, cache[uuid].channel, sent);
    }

    method CompleteMFAChallenge(uuid: Option<string>, answer: Option<string>, now: u64) returns (who: Option<Identity>)
      modifies this
      ensures var ev := Complete(uuid, answer, now);
        && cache == Next(cfg, old(cache), ev)
        && who == if Completes(cfg, old(cache), ev) then Some(old(cache)[uuid.value].who) else None
    {
      if uuid.None? || answer.None? {
        return None;
      }
      if uuid.value !in cache {
        return None;
      }
      var hint := cache[uuid.value];
      if hint.channel == AUTHENTICATOR {
        if answer.value != cfg.totp(hint.who.authenticatorSecret, now / 30) {
          return None;
        }
      } else if hint.answer != answer.value {
        return None;
      }
      who := Some(hint.who);
      cache := cache - {uuid.value};
    }
  }

  // ---------- Runs ----------

  function After(cfg: Config, run: seq<Event>): Cache {
    if run == [] then map[] else Next(cfg, After(cfg, Front(run)), Last(run))
  }

  predicate CompletesAt(cfg: Config, run: seq<Event>, n: nat, uuid: string)
    requires n < |run|
  {
    Completes(cfg, After(cfg, run[..n]), run[n]) && run[n].replyTo == Some(uuid)
  }

  /** A uuid names one challenge only: no two starts of a run share it. */
  predicate FreshUuids(run: seq<Event>) {
    forall i, j :: 0 <= i < j < |run| && run[i].Start? && run[j].Start? ==> run[i].uuid != run[j].uuid
  }

  /** Step `a` started the challenge `uuid`, and nothing has completed or expired it since. */
  ghost predicate Pending(cfg: Config, run: seq<Event>, a: nat, uuid: string) {
    && a < |run| && Starts(cfg, run[a]) && run[a].uuid == uuid
    && (forall b :: a < b < |run| ==> !CompletesAt(cfg, run, b, uuid))
    && (forall b :: a < b < |run| && run[b].Start? ==> Since(run[b].now, run[a].now) <= CHALLENGE_SECONDS)
  }

  lemma PendingContinues(cfg: Config, run: seq<Event>, a: nat, uuid: string)
    requires run != [] && a < |run| - 1
    ensures Pending(cfg, run, a, uuid) <==>
      && Pending(cfg, Front(run), a, uuid)
      && !CompletesAt(cfg, run, |run| - 1, uuid)
      && (Last(run).Start? ==> Since(Last(run).now, run[a].now) <= CHALLENGE_SECONDS)
  {
    var before, n := Front(run), |run| - 1;
    forall b | 0 <= b < n ensures CompletesAt(cfg, before, b, uuid) == CompletesAt(cfg, run, b, uuid) {
      assert before[..b] == run[..b];
    }
    if Pending(cfg, run, a, uuid) {
      assert forall b :: a < b < n ==> before[b] == run[b];
      assert Pending(cfg, before, a, uuid);
    }
  }

  /** A cache entry is exactly a pending challenge, with the identity and the answer of its start. */
  lemma {:induction false} CacheIsPending(cfg: Config, run: seq<Event>, uuid: string) returns (a: nat)
    requires FreshUuids(run)
    ensures uuid in After(cfg, run) ==>
      && Pending(cfg, run, a, uuid)
      && After(cfg, run)[uuid] == Entry(run[a].who, run[a].challenge, run[a].now, run[a].who.channel)
    ensures uuid !in After(cfg, run) ==> forall k: nat :: !Pending(cfg, run, k, uuid)
  {
    a := 0;
    if run != [] {
      var before, ev, n := Front(run), Last(run), |run| - 1;
      assert run[..n] == before;
      a := CacheIsPending(cfg, before, uuid);
      if Starts(cfg, ev) && ev.uuid == uuid {
        a := n;
      } else {
        if a < n {
          PendingContinues(cfg, run, a, uuid);
        }
        forall k: nat | uuid !in After(cfg, run) ensures !Pending(cfg, run, k, uuid) {
          if k < n {
            PendingContinues(cfg, run, k, uuid);
            if uuid in After(cfg, before) && before[k].Start? && before[k].uuid == uuid {
              SameStart(before, k, a, uuid);
            }
          }
        }
      }
    }
  }

  lemma SameStart(run: seq<Event>, i: nat, j: nat, uuid: string)
    requires FreshUuids(run) && i < |run| && j < |run|
    requires run[i].Start? && run[j].Start? && run[i].uuid == uuid && run[j].uuid == uuid
    ensures i == j
  {
  }

  /**
   A completed challenge was started before, hands back exactly the identity stored then, for that
   challenge's own answer or the authenticator code of that identity's secret, and no start made in
   between came more than 300 seconds later.
   */
  lemma CompletionReturnsTheStarter(cfg: Config, run: seq<Event>, n: nat, uuid: string) returns (a: nat)
    requires FreshUuids(run) && n < |run| && CompletesAt(cfg, run, n, uuid)
    ensures a < n && Starts(cfg, run[a]) && run[a].uuid == uuid
    ensures After(cfg, run[..n])[uuid].who == run[a].who
    ensures run[n].answer == Some(if run[a].who.channel == AUTHENTICATOR
                                  then cfg.totp(run[a].who.authenticatorSecret, run[n].now / 30)
                                  else run[a].challenge)
    ensures forall b :: a < b < n && run[b].Start? ==> Since(run[b].now, run[a].now) <= CHALLENGE_SECONDS
  {
    var before := run[..n];
    a := CacheIsPending(cfg, before, uuid);
    assert forall b :: 0 <= b < n ==> before[b] == run[b];
  }

  /** A challenge completes at most once. */
  lemma CompletesAtMostOnce(cfg: Config, run: seq<Event>, m: nat, n: nat, uuid: string)
    requires FreshUuids(run) && m < |run| && n < |run|
    requires CompletesAt(cfg, run, m, uuid) && CompletesAt(cfg, run, n, uuid)
    ensures m == n
  {
    if m < n {
      NoSecondCompletion(cfg, run, m, n, uuid);
    } else if n < m {
      NoSecondCompletion(cfg, run, n, m, uuid);
    }
  }

  lemma NoSecondCompletion(cfg: Config, run: seq<Event>, m: nat, n: nat, uuid: string)
    requires FreshUuids(run) && m < n < |run| && CompletesAt(cfg, run, m, uuid)
    ensures !CompletesAt(cfg, run, n, uuid)
  {
    var before, early := run[..n], run[..m];
    var a := CacheIsPending(cfg, before, uuid);
    var a' := CacheIsPending(cfg, early, uuid);
    assert early[a'] == run[a'] && before[..m] == run[..m];
    assert CompletesAt(cfg, before, m, uuid);
    if uuid in After(cfg, before) {
      SameStart(run, a, a', uuid);
      assert false;
    }
  }

  function WithoutResends(run: seq<Event>): seq<Event> {
    if run == [] then []
    else WithoutResends(Front(run)) + if Last(run).Resend? then [] else [Last(run)]
  }

  /** However often codes are sent again in a run, the challenges are those of the run without it. */
  lemma {:induction false} ResendChangesNothing(cfg: Config, run: seq<Event>)
    ensures After(cfg, run) == After(cfg, WithoutResends(run))
  {
    hide Next;
    if run != [] {
      ResendChangesNothing(cfg, Front(run));
      ResendKeeps(cfg, After(cfg, Front(run)), Last(run));
      if !Last(run).Resend? {
        FrontOfAppend(WithoutResends(Front(run)), Last(run));
      } else {
        assert WithoutResends(run) == WithoutResends(Front(run));
      }
    }
  }

  lemma ResendKeeps(cfg: Config, cache: Cache, ev: Event)
    ensures ev.Resend? ==> Next(cfg, cache, ev) == cache
  {
  }

  // ---------- What is started, kept and accepted ----------

  /** A challenge is stored exactly for a method that is switched on, whether or not it can be sent. */
  lemma StartedIff(cfg: Config, cache: Cache, uuid: string, who: Identity, challenge: string, now: u64)
    requires uuid !in cache
    ensures uuid in Next(cfg, cache, Start(uuid, who, challenge, now)) <==>
      (who.channel == SMS && cfg.sms) || (who.channel == EMAIL && cfg.email) || who.channel == AUTHENTICATOR
  {
  }

  /** A start is answered well exactly if the method is on and its message goes out, or a secret is there to be used. */
  lemma AnsweredWellIff(cfg: Config, who: Identity, sent: bool)
    ensures MethodEnabled(cfg, who.channel) && SendChallenge(cfg, who, who.channel, sent) <==>
      || (who.channel == SMS && cfg.sms && who.hasMobile && sent)
      || (who.channel == EMAIL && cfg.email && who.email != "" && sent)
      || (who.channel == AUTHENTICATOR && who.authenticatorSecret != "")
  {
  }

  /** A start drops exactly the other challenges started more than 300 seconds before it. */
  lemma StartKeeps(cfg: Config, cache: Cache, ev: Event, uuid: string)
    requires ev.Start? && ev.uuid != uuid && (uuid in cache ==> cache[uuid].created <= ev.now)
    ensures uuid in Next(cfg, cache, ev) <==> uuid in cache && ev.now - cache[uuid].created <= 300
    ensures uuid in Next(cfg, cache, ev) ==> Next(cfg, cache, ev)[uuid] == cache[uuid]
  {
  }

  /**
   A challenge that is in the cache after a run completes exactly for its own answer: the code of its
   start, or with an authenticator the code of its user's secret in the current 30-second step.
   */
  lemma CompletesIff(cfg: Config, run: seq<Event>, uuid: string, answer: string, now: u64) returns (a: nat)
    requires FreshUuids(run) && uuid in After(cfg, run)
    ensures a < |run| && run[a].Start? && run[a].uuid == uuid
    ensures Completes(cfg, After(cfg, run), Complete(Some(uuid), Some(answer), now)) <==>
      answer == if run[a].who.channel == AUTHENTICATOR then cfg.totp(run[a].who.authenticatorSecret, now / 30)
                else run[a].challenge
  {
    a := CacheIsPending(cfg, run, uuid);
  }
}
