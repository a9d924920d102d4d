/**
 Where the second factors on user records come from. The requests of a run leave two traces, one in
 the enrolment cache and one in the telephone cache; every secret and every verified number on a
 record is traced back to them.
 */
module Enrolment {
  import opened Common
  import opened SecurityObjects
  import opened UserStore
  import opened UserSafety
  import Acl = AclProcessor
  import Sms = SmsSender
  import Totp = TotpCache

  // ---------- Traces ----------

  /** A modify request that gets as far as its second-factor part. */
  predicate Reaches(w: World, callerId: UserId, r: PutRequest) {
    && callerId in w.users && r.target != "" && r.target in w.users
    && Acl.CanModifyUserRecord(w.users[callerId], w.users[r.target]) && !r.resetMFA && !r.forgotPassword
    && Prepare(w.users[callerId], r, w.users[r.target]).Go?
  }

  /** A modify request that gets as far as completing its caller's enrolment. */
  predicate Asks(w: World, callerId: UserId, r: PutRequest) {
    Reaches(w, callerId, r) && AsksForEnrolment(r, Prepare(w.users[callerId], r, w.users[r.target]).user.ext)
  }

  /** The events of the enrolment cache that a request causes. */
  function TotpEvents(w: World, r: Request): seq<Totp.Event> {
    match r
    case Enrol(ev) => [ev]
    case PutUser(caller, put) => if Asks(w, caller, put) then [EnrolmentRelease(w.users[caller].id, put.now)] else []
    case _ => []
  }

  function TotpTrace(cfg: Config, w: World, run: seq<Request>): seq<Totp.Event> {
    if run == [] then [] else TotpTrace(cfg, w, Front(run)) + TotpEvents(After(cfg, w, Front(run)), Last(run))
  }

  function SmsTrace(run: seq<Request>): seq<Sms.Event> {
    if run == [] then [] else SmsTrace(Front(run)) + if Last(run).Telephone? then [Last(run).sms] else []
  }

  /**
   What a failed modify request leaves behind. It uses up its caller's enrolment session exactly when it
   asks for a finished one, and it stores a link exactly when it asks for an address check and gets as
   far as the second factor. Nothing else in this state changes; what a raise leaves in the digest engine
   is the subject of AuthService.EngineHoldsTextIff.
   */
  lemma FailedPutLeavesIff(cfg: Config, w: World, callerId: UserId, r: PutRequest)
    requires Put(cfg, w, callerId, r).status != OK
    ensures var w' := Put(cfg, w, callerId, r).world;
      && w' == w.(totp := w'.totp, links := w'.links)
      && (w'.totp != w.totp <==>
            Asks(w, callerId, r) && Totp.Releases(w.totp, EnrolmentRelease(w.users[callerId].id, r.now)))
      && (Asks(w, callerId, r) && Totp.Releases(w.totp, EnrolmentRelease(w.users[callerId].id, r.now)) ==>
            w'.totp == w.totp - {w.users[callerId].id})
      && w'.links == w.links + if Reaches(w, callerId, r) then EmailCheckLink(r.verifyEmail, w.users[r.target].id, r.now) else []
  {
    hide Prepare, Acl.CanModifyUserRecord, Acl.CanResetUserMFA, Sms.NumberValid;
  }

  lemma PutTotp(cfg: Config, w: World, callerId: UserId, r: PutRequest)
    ensures Put(cfg, w, callerId, r).world.totp ==
      if Asks(w, callerId, r) then Totp.Next(cfg.totp, w.totp, EnrolmentRelease(w.users[callerId].id, r.now)) else w.totp
  {
    hide Prepare, Acl.CanModifyUserRecord, Acl.CanResetUserMFA, Sms.NumberValid;
  }

  lemma StepTotp(cfg: Config, w: World, r: Request)
    ensures Serve(cfg, w, r).world.totp ==
      if TotpEvents(w, r) == [] then w.totp else Totp.Next(cfg.totp, w.totp, TotpEvents(w, r)[0])
  {
    hide Put, Create, KeyPost, KeyPut, KeyDelete, Delete, Asks, Totp.Next;
    if r.CreateUser? {
      CreateEffect(w, r.caller, r.create);
    } else if r.PutUser? {
      PutTotp(cfg, w, r.caller, r.put);
    } else if r.PostKey? {
      KeyPostEffect(w, r.caller, r.post);
    } else if r.PutKey? {
      KeyPutEffect(w, r.caller, r.change);
    } else if r.DeleteKey? {
      KeyDeleteEffect(w, r.caller, r.delete);
    } else if r.DeleteUser? {
      DeleteEffect(w, r.caller, r.target, r.dbOk);
    }
  }

  /** The enrolment cache is what the trace makes of it. */
  lemma {:induction false} TotpIsTrace(cfg: Config, w: World, run: seq<Request>)
    requires w.totp == map[]
    ensures After(cfg, w, run).totp == Totp.After(cfg.totp, TotpTrace(cfg, w, run))
  {
    hide Serve, TotpEvents, Totp.Next;
    if run != [] {
      var before, v := Front(run), After(cfg, w, Front(run));
      TotpIsTrace(cfg, w, before);
      StepTotp(cfg, v, Last(run));
      OneEventAtMost(v, Last(run));
      var trace, more := TotpTrace(cfg, w, before), TotpEvents(v, Last(run));
      if more != [] {
        assert more == [more[0]];
        FrontOfAppend(trace, more[0]);
      } else {
        assert trace + more == trace;
      }
    }
  }

  lemma OneEventAtMost(w: World, r: Request)
    ensures |TotpEvents(w, r)| <= 1
  {
  }

  lemma {:induction false} TracePrefix(cfg: Config, w: World, run: seq<Request>, n: nat)
    requires n < |run|
    ensures var m := |TotpTrace(cfg, w, run[..n])|;
      var more := TotpEvents(After(cfg, w, run[..n]), run[n]);
      && m + |more| <= |TotpTrace(cfg, w, run)|
      && TotpTrace(cfg, w, run)[..m] == TotpTrace(cfg, w, run[..n])
      && TotpTrace(cfg, w, run)[m..m + |more|] == more
  {
    hide After, TotpEvents;
    var before := Front(run);
    if n < |run| - 1 {
      TracePrefix(cfg, w, before, n);
      assert before[..n] == run[..n];
      var m, more := |TotpTrace(cfg, w, run[..n])|, TotpEvents(After(cfg, w, run[..n]), run[n]);
      assert TotpTrace(cfg, w, before) <= TotpTrace(cfg, w, run);
    } else {
      assert before == run[..n];
    }
  }

  // ---------- Secrets ----------

  /** Step `n` put the secret of its caller's finished enrolment on record `id`. */
  predicate FeedsAt(cfg: Config, w: World, run: seq<Request>, n: nat, id: UserId) {
    && n < |run| && run[n].PutUser? && run[n].put.target == id
    && var v := After(cfg, w, run[..n]);
    && Asks(v, run[n].caller, run[n].put)
    && Totp.Releases(v.totp, EnrolmentRelease(run[n].caller, run[n].put.now))
  }

  predicate NoSecondFactors(w: World) {
    w.totp == map[] && w.sms == [] &&
    forall id :: id in w.users ==> w.users[id].ext.authenticatorSecret == "" && w.users[id].ext.mobiles == []
  }

  /** How one second-factor update can leave a secret: by keeping the old one, or by an enrolment's release. */
  lemma SecretOfUpdate(cfg: Config, totp: Totp.Cache, sms: Sms.Cache, caller: UserInfo, r: PutRequest, ext: LoginExtensions)
    requires ApplyMfaChange(cfg, totp, sms, caller, r, ext).ext.authenticatorSecret != ""
    ensures var secret := ApplyMfaChange(cfg, totp, sms, caller, r, ext).ext.authenticatorSecret;
      || secret == ext.authenticatorSecret
      || (AsksForEnrolment(r, ext) && Totp.Releases(totp, EnrolmentRelease(caller.id, r.now)) && secret == totp[caller.id].secret)
  {
    hide Totp.Next, Sms.NumberValid;
  }

  lemma SecretStep(cfg: Config, w: World, r: Request, id: UserId)
    requires WellKeyed(w) && id in Serve(cfg, w, r).world.users
    requires Serve(cfg, w, r).world.users[id].ext.authenticatorSecret != ""
    ensures var secret := Serve(cfg, w, r).world.users[id].ext.authenticatorSecret;
      || (id in w.users && w.users[id].ext.authenticatorSecret == secret)
      || (r.PutUser? && r.put.target == id && Asks(w, r.caller, r.put)
          && Totp.Releases(w.totp, EnrolmentRelease(r.caller, r.put.now)) && secret == w.totp[r.caller].secret)
  {
    hide Create, Prepare, ApplyMfaChange, KeyPost, KeyPut, KeyDelete, AsksForEnrolment, Totp.Releases;
    StepEffect(cfg, w, r);
    if r.CreateUser? {
      CreateEffect(w, r.caller, r.create);
    } else if r.PutUser? && r.caller in w.users && r.put.target == id && id in w.users {
      var caller, u := w.users[r.caller], w.users[id];
      if Prepare(caller, r.put, u).Go? {
        PrepareEffect(caller, r.put, u);
        if ApplyMfaChange(cfg, w.totp, w.sms, caller, r.put, u.ext).ext.authenticatorSecret != "" {
          SecretOfUpdate(cfg, w.totp, w.sms, caller, r.put, u.ext);
        }
      }
    }
  }

  lemma {:induction false} SecretSource(cfg: Config, w: World, run: seq<Request>, id: UserId) returns (n: nat)
    requires WellKeyed(w) && NoSecondFactors(w) && Legal(cfg, w, run)
    requires id in After(cfg, w, run).users && After(cfg, w, run).users[id].ext.authenticatorSecret != ""
    ensures WellKeyed(After(cfg, w, run))
    ensures FeedsAt(cfg, w, run, n, id)
    ensures After(cfg, w, run).users[id].ext.authenticatorSecret == After(cfg, w, run[..n]).totp[run[n].caller].secret
  {
    hide Serve, Asks;
    var before, r := Front(run), Last(run);
    var v := After(cfg, w, before);
    AlwaysWellKeyed(cfg, w, before);
    StepKeepsKeys(cfg, v, r);
    SecretStep(cfg, v, r, id);
    if id in v.users && v.users[id].ext.authenticatorSecret == After(cfg, w, run).users[id].ext.authenticatorSecret {
      n := SecretSource(cfg, w, before, id);
      assert before[..n] == run[..n];
    } else {
      n := |run| - 1;
      assert run[..n] == before;
    }
  }

  lemma {:induction false} AlwaysWellKeyed(cfg: Config, w: World, run: seq<Request>)
    requires WellKeyed(w) && Legal(cfg, w, run)
    ensures WellKeyed(After(cfg, w, run))
  {
    hide Serve;
    if run != [] {
      AlwaysWellKeyed(cfg, w, Front(run));
      StepKeepsKeys(cfg, After(cfg, w, Front(run)), Last(run));
    }
  }

  /** A feeding step is a release in the enrolment trace, at the position the trace had reached. */
  lemma FeedIsRelease(cfg: Config, w: World, run: seq<Request>, n: nat, id: UserId) returns (m: nat)
    requires WellKeyed(w) && w.totp == map[] && Legal(cfg, w, run) && FeedsAt(cfg, w, run, n, id)
    ensures m == |TotpTrace(cfg, w, run[..n])| < |TotpTrace(cfg, w, run)|
    ensures TotpTrace(cfg, w, run)[m] == EnrolmentRelease(run[n].caller, run[n].put.now)
    ensures Totp.ReleasesAt(cfg.totp, TotpTrace(cfg, w, run), m, run[n].caller)
    ensures Totp.After(cfg.totp, TotpTrace(cfg, w, run)[..m]) == After(cfg, w, run[..n]).totp
  {
    hide After, TotpTrace, TotpEvents, Legal, FeedsAt, WellKeyed, Totp.Releases, Totp.After, Asks, Serve;
    FeedEvents(cfg, w, run, n, id);
    m := |TotpTrace(cfg, w, run[..n])|;
    TracePrefix(cfg, w, run, n);
    TotpIsTrace(cfg, w, run[..n]);
    assert TotpTrace(cfg, w, run)[m] == TotpTrace(cfg, w, run)[m..m + 1][0];
  }

  lemma FeedEvents(cfg: Config, w: World, run: seq<Request>, n: nat, id: UserId)
    requires WellKeyed(w) && Legal(cfg, w, run) && FeedsAt(cfg, w, run, n, id)
    ensures n < |run| && run[n].PutUser? && run[n].put.target == id
    ensures TotpEvents(After(cfg, w, run[..n]), run[n]) == [EnrolmentRelease(run[n].caller, run[n].put.now)]
    ensures Totp.Releases(After(cfg, w, run[..n]).totp, EnrolmentRelease(run[n].caller, run[n].put.now))
    ensures EnrolmentRelease(run[n].caller, run[n].put.now).id == run[n].caller
  {
    LegalPrefix(cfg, w, run, n);
    AlwaysWellKeyed(cfg, w, run[..n]);
    hide After, Legal, Totp.Releases;
  }

  lemma {:induction false} LegalPrefix(cfg: Config, w: World, run: seq<Request>, n: nat)
    requires Legal(cfg, w, run) && n <= |run|
    ensures Legal(cfg, w, run[..n])
  {
    hide After, FreshIds;
    if n < |run| {
      LegalPrefix(cfg, w, Front(run), n);
      assert Front(run)[..n] == run[..n];
    } else {
      assert run[..n] == run;
    }
  }

  /**
   Every authenticator secret on a record was put there by a modify request whose caller had finished
   an enrolment of exactly that secret: the trace holds the opening of the session, two accepted codes
   in two different time steps, and the release, all within fifteen minutes.
   */
  lemma SecretWasEnrolled(cfg: Config, w: World, run: seq<Request>, id: UserId)
    returns (n: nat, m: nat, a: nat, i: nat, j: nat)
    requires WellKeyed(w) && NoSecondFactors(w) && Legal(cfg, w, run) && Totp.Clocked(TotpTrace(cfg, w, run))
    requires id in After(cfg, w, run).users && After(cfg, w, run).users[id].ext.authenticatorSecret != ""
    ensures FeedsAt(cfg, w, run, n, id)
    ensures var trace := TotpTrace(cfg, w, run);
      var secret := After(cfg, w, run).users[id].ext.authenticatorSecret;
      && a < i < j < m < |trace| && m == |TotpTrace(cfg, w, run[..n])|
      && trace[m] == EnrolmentRelease(run[n].caller, run[n].put.now)
      && Totp.CurrentSession(cfg.totp, trace[..m], a, run[n].caller)
      && trace[a].StartValidation? && trace[a].newSecret == secret && !trace[a].subscriber
      && |secret| == Totp.SECRET_SIZE
      && Totp.AcceptedAt(cfg.totp, trace, i, run[n].caller, secret)
      && Totp.AcceptedAt(cfg.totp, trace, j, run[n].caller, secret)
      && trace[i].now / Totp.TIME_STEP < trace[j].now / Totp.TIME_STEP
      && trace[m].now < trace[a].now + Totp.SESSION_SECONDS
  {
    n := SecretSource(cfg, w, run, id);
    m := FeedIsRelease(cfg, w, run, n, id);
    hide After, TotpTrace, Legal, FeedsAt, WellKeyed, NoSecondFactors, Totp.Clocked;
    a, i, j := Totp.ReleaseNeedsTwoCodes(cfg.totp, TotpTrace(cfg, w, run), m);
  }

  /**
   Each enrolment feeds at most one record, once: two steps that put an enrolment's secret on a record,
   the same or another, whatever happened to the records since, completed two different sessions.
   */
  lemma OneRecordPerEnrolment(cfg: Config, w: World, run: seq<Request>, n: nat, n': nat, id: UserId, id': UserId)
    returns (a: nat, a': nat)
    requires WellKeyed(w) && w.totp == map[] && Legal(cfg, w, run) && Totp.Clocked(TotpTrace(cfg, w, run))
    requires n < n' && FeedsAt(cfg, w, run, n, id) && FeedsAt(cfg, w, run, n', id')
    ensures var trace := TotpTrace(cfg, w, run);
      && |TotpTrace(cfg, w, run[..n])| <= |trace| && |TotpTrace(cfg, w, run[..n'])| <= |trace|
      && Totp.CurrentSession(cfg.totp, trace[..|TotpTrace(cfg, w, run[..n])|], a, run[n].caller)
      && Totp.CurrentSession(cfg.totp, trace[..|TotpTrace(cfg, w, run[..n'])|], a', run[n'].caller)
      && a != a'
  {
    var i, j, i', j';
    var m := FeedIsRelease(cfg, w, run, n, id);
    var m' := FeedIsRelease(cfg, w, run, n', id');
    FeedEvents(cfg, w, run, n, id);
    FeedEvents(cfg, w, run, n', id');
    hide *;
    a, i, j := Totp.ReleaseNeedsTwoCodes(cfg.totp, TotpTrace(cfg, w, run), m);
    a', i', j' := Totp.ReleaseNeedsTwoCodes(cfg.totp, TotpTrace(cfg, w, run), m');
    SessionsDiffer(cfg, w, run, n, n', m, m', a, a');
  }

  /** So two records that hold secrets have them from two different steps and sessions. */
  lemma TwoSecretsTwoEnrolments(cfg: Config, w: World, run: seq<Request>, id: UserId, id': UserId)
    returns (n: nat, a: nat, n': nat, a': nat)
    requires WellKeyed(w) && NoSecondFactors(w) && Legal(cfg, w, run) && Totp.Clocked(TotpTrace(cfg, w, run))
    requires id in After(cfg, w, run).users && After(cfg, w, run).users[id].ext.authenticatorSecret != ""
    requires id' in After(cfg, w, run).users && After(cfg, w, run).users[id'].ext.authenticatorSecret != ""
    requires id != id'
    ensures FeedsAt(cfg, w, run, n, id) && FeedsAt(cfg, w, run, n', id') && n != n'
    ensures var trace := TotpTrace(cfg, w, run);
      && |TotpTrace(cfg, w, run[..n])| <= |trace| && |TotpTrace(cfg, w, run[..n'])| <= |trace|
      && Totp.CurrentSession(cfg.totp, trace[..|TotpTrace(cfg, w, run[..n])|], a, run[n].caller)
      && Totp.CurrentSession(cfg.totp, trace[..|TotpTrace(cfg, w, run[..n'])|], a', run[n'].caller)
      && a != a'
  {
    n := SecretSource(cfg, w, run, id);
    n' := SecretSource(cfg, w, run, id');
    assert n != n' && w.totp == map[];
    hide *;
    if n < n' {
      a, a' := OneRecordPerEnrolment(cfg, w, run, n, n', id, id');
    } else {
      a', a := OneRecordPerEnrolment(cfg, w, run, n', n, id', id);
    }
  }

  /** Of two sessions that released, the later one was opened after the earlier one released, or for another user. */
  lemma SessionsDiffer(cfg: Config, w: World, run: seq<Request>, n: nat, n': nat, m: nat, m': nat, a: nat, a': nat)
    requires n < n' < |run| && run[n].PutUser? && run[n'].PutUser?
    requires var trace := TotpTrace(cfg, w, run);
      && m == |TotpTrace(cfg, w, run[..n])| < |trace| && m' == |TotpTrace(cfg, w, run[..n'])| < |trace|
      && TotpEvents(After(cfg, w, run[..n]), run[n]) != []
      && Totp.ReleasesAt(cfg.totp, trace, m, run[n].caller)
      && Totp.CurrentSession(cfg.totp, trace[..m], a, run[n].caller)
      && Totp.CurrentSession(cfg.totp, trace[..m'], a', run[n'].caller)
    ensures a != a'
  {
    var trace := TotpTrace(cfg, w, run);
    TracePrefix(cfg, w, run[..n'], n);
    assert run[..n'][..n] == run[..n];
    hide After, TotpTrace, TotpEvents;
    assert m < m';
    Totp.PrefixAgrees(cfg.totp, trace, m', m, run[n].caller);
    assert trace[..m][a] == trace[a] == trace[..m'][a];
  }

  // ---------- Telephone numbers ----------

  lemma StepSms(cfg: Config, w: World, r: Request)
    ensures Serve(cfg, w, r).world.sms == if r.Telephone? then Sms.Next(cfg.smsEnabled, w.sms, r.sms) else w.sms
  {
    hide Create, Put, KeyPost, KeyPut, KeyDelete, Delete;
    if r.CreateUser? {
      CreateEffect(w, r.caller, r.create);
    } else if r.PutUser? {
      PutEffect(cfg, w, r.caller, r.put);
    } else if r.PostKey? {
      KeyPostEffect(w, r.caller, r.post);
    } else if r.PutKey? {
      KeyPutEffect(w, r.caller, r.change);
    } else if r.DeleteKey? {
      KeyDeleteEffect(w, r.caller, r.delete);
    } else if r.DeleteUser? {
      DeleteEffect(w, r.caller, r.target, r.dbOk);
    }
  }

  lemma {:induction false} SmsIsTrace(cfg: Config, w: World, run: seq<Request>)
    requires w.sms == []
    ensures After(cfg, w, run).sms == Sms.After(cfg.smsEnabled, SmsTrace(run))
  {
    hide Serve;
    if run != [] {
      SmsIsTrace(cfg, w, Front(run));
      StepSms(cfg, After(cfg, w, Front(run)), Last(run));
      if Last(run).Telephone? {
        FrontOfAppend(SmsTrace(Front(run)), Last(run).sms);
      } else {
        assert SmsTrace(run) == SmsTrace(Front(run));
      }
    }
  }

  predicate FirstVerified(ext: LoginExtensions) {
    ext.mobiles != [] && ext.mobiles[0].verified
  }

  lemma NumberOfUpdate(cfg: Config, totp: Totp.Cache, sms: Sms.Cache, caller: UserInfo, r: PutRequest, ext: LoginExtensions)
    requires FirstVerified(ApplyMfaChange(cfg, totp, sms, caller, r, ext).ext)
    ensures var mobiles := ApplyMfaChange(cfg, totp, sms, caller, r, ext).ext.mobiles;
      mobiles == ext.mobiles || Sms.NumberValid(sms, mobiles[0].number, caller.email)
  {
    hide Totp.Next, Totp.Releases, Sms.NumberValid;
  }

  lemma NumberStep(cfg: Config, w: World, r: Request, id: UserId)
    requires id in Serve(cfg, w, r).world.users && FirstVerified(Serve(cfg, w, r).world.users[id].ext)
    ensures var mobiles := Serve(cfg, w, r).world.users[id].ext.mobiles;
      || (id in w.users && w.users[id].ext.mobiles == mobiles)
      || (r.PutUser? && r.put.target == id && r.caller in w.users
          && Sms.NumberValid(w.sms, mobiles[0].number, w.users[r.caller].email))
  {
    hide Create, Prepare, ApplyMfaChange, KeyPost, KeyPut, KeyDelete, Sms.NumberValid;
    StepEffect(cfg, w, r);
    if r.CreateUser? {
      CreateEffect(w, r.caller, r.create);
    } else if r.PutUser? && r.caller in w.users && r.put.target == id && id in w.users {
      var caller, u := w.users[r.caller], w.users[id];
      if Prepare(caller, r.put, u).Go? {
        PrepareEffect(caller, r.put, u);
        if FirstVerified(ApplyMfaChange(cfg, w.totp, w.sms, caller, r.put, u.ext).ext) {
          NumberOfUpdate(cfg, w.totp, w.sms, caller, r.put, u.ext);
        }
      }
    }
  }

  /**
   Every first number marked verified was put on the record by a modify request (step `n`), and before
   that its caller's e-mail had asked for a code for that number (event `a`) and supplied it (event `b`).
   */
  lemma {:induction false} VerifiedNumberWasProved(cfg: Config, w: World, run: seq<Request>, id: UserId)
    returns (n: nat, a: nat, b: nat)
    requires NoSecondFactors(w)
    requires id in After(cfg, w, run).users && FirstVerified(After(cfg, w, run).users[id].ext)
    ensures n < |run| && run[n].PutUser? && run[n].put.target == id
    ensures run[n].caller in After(cfg, w, run[..n]).users
    ensures var number := After(cfg, w, run).users[id].ext.mobiles[0].number;
      var email := After(cfg, w, run[..n]).users[run[n].caller].email;
      var trace := SmsTrace(run[..n]);
      && a < b < |trace|
      && trace[a].StartValidation? && trace[a].number == number && trace[a].userName == email
      && trace[b] == Sms.CompleteValidation(number, trace[a].code, email)
  {
    hide Serve;
    var before, r := Front(run), Last(run);
    var v := After(cfg, w, before);
    NumberStep(cfg, v, r, id);
    var mobiles := After(cfg, w, run).users[id].ext.mobiles;
    if id in v.users && v.users[id].ext.mobiles == mobiles {
      n, a, b := VerifiedNumberWasProved(cfg, w, before, id);
      assert before[..n] == run[..n];
    } else {
      n := |run| - 1;
      assert run[..n] == before;
      SmsIsTrace(cfg, w, before);
      a, b := Sms.ValidNumberWasProved(cfg.smsEnabled, SmsTrace(before), mobiles[0].number, v.users[r.caller].email);
    }
  }
}
