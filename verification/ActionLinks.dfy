/**
 Action links. A link is issued for one user or one subscriber and may be used, before it expires, to
 set a new password without the old one.
 */
module ActionLinks {
  import opened Common
  import opened SecurityObjects
  import Auth = AuthService
  import Text

  /**
   The two user tables by id, the links by their own ids, and the text that the shared digest engine
   still holds.
   */
  datatype Store = Store(users: map<UserId, UserInfo>, subs: map<UserId, UserInfo>, links: map<string, Link>, left: string)

  /** A posted reset form; `hasFields` is false for an empty form, `salt` and `dbOk` come from the clock and the database. */
  datatype Form = Form(hasFields: bool, linkId: string, password1: string, password2: string, salt: string, dbOk: bool, now: u64)

  datatype Outcome = Success | NoSuchPage | ErrorPage | Raised

  predicate ForUser(l: Link) {
    l.userAction && (l.action == FORGOT_PASSWORD || l.action == VERIFY_EMAIL)
  }

  predicate ForSubscriber(l: Link) {
    !l.userAction && l.action == SUB_FORGOT_PASSWORD
  }

  function TableOf(s: Store, l: Link): map<UserId, UserInfo> {
    if l.userAction then s.users else s.subs
  }

  /** The checks of a reset before the password is set, in their order: the page of the first that fails. */
  function Refusal(cfg: Auth.Config, s: Store, f: Form): Option<Outcome> {
    if !f.hasFields || f.linkId !in s.links then Some(NoSuchPage)
    else
      var l := s.links[f.linkId];
      if f.now > l.expires || !(ForUser(l) || ForSubscriber(l)) then Some(NoSuchPage)
      else if f.password1 != f.password2 || !cfg.rule(f.password2) || !cfg.rule(f.password1) then Some(ErrorPage)
      else if l.userId !in TableOf(s, l) then Some(ErrorPage)
      else
        var u := TableOf(s, l)[l.userId];
        if u.blackListed || u.suspended then Some(ErrorPage) else None
  }

  function ResetOutcome(cfg: Auth.Config, s: Store, f: Form): Outcome {
    if Refusal(cfg, s, f).Some? then Refusal(cfg, s, f).value
    else
      var l := s.links[f.linkId];
      var u := TableOf(s, l)[l.userId];
      match Auth.HistoryVerdict(cfg, s.left, u.lastPasswords, 0, f.password1, Text.ToLower(u.email))
      case Fresh => Success
      case Reused => ErrorPage
      case Fault => Raised
  }

  /** The record a successful reset stores. */
  function ResetRecord(cfg: Auth.Config, left: string, l: Link, u: UserInfo, f: Form): UserInfo {
    var v := Auth.WithPassword(cfg, left, u, f.password1, f.salt).(modified := f.now);
    if l.action == VERIFY_EMAIL then
      v.(waitingForEmailCheck := false, validated := true, lastEmailCheck := f.now, validationDate := f.now)
    else v
  }

  function Reset(cfg: Auth.Config, s: Store, f: Form): Store {
    if f.hasFields && f.linkId in s.links && f.now > s.links[f.linkId].expires then
      s.(links := s.links[f.linkId := s.links[f.linkId].(canceled := f.now)])
    else if Refusal(cfg, s, f).Some? then s
    else
      var l := s.links[f.linkId];
      var u := TableOf(s, l)[l.userId];
      var t := s.(left := Auth.LeftByChange(cfg, s.left, u, f.password1));
      if ResetOutcome(cfg, s, f) != Success then t
      else
        var done := t.(links := s.links[f.linkId := l.(completed := f.now)]);
        var v := ResetRecord(cfg, s.left, l, u, f);
        if !f.dbOk then done
        else if l.userAction then done.(users := s.users[l.userId := v])
        else done.(subs := s.subs[l.userId := v])
  }

  class Handler {
    const auth: Auth.Service
    var users: map<UserId, UserInfo>
    var subs: map<UserId, UserInfo>
    var links: map<string, Link>

    ghost predicate Valid()
      reads auth, auth.sha2
    {
      auth.Valid()
    }

    ghost function View(): Store
      reads this, auth.sha2
    {
      Store(users, subs, links, auth.sha2.buffer)
    }

    constructor (auth: Auth.Service, users: map<UserId, UserInfo>, subs: map<UserId, UserInfo>, links: map<string, Link>)
      requires auth.Valid()
      ensures Valid() && this.auth == auth && View() == Store(users, subs, links, auth.sha2.buffer)
    {
      this.auth, this.users, this.subs, this.links := auth, users, subs, links;
    }

    method CompleteResetPassword(f: Form) returns (outcome: Outcome)
      requires Valid()
      modifies this, auth.sha2
      ensures Valid()
      ensures outcome == ResetOutcome(auth.cfg, old(View()), f)
      ensures View() == Reset(auth.cfg, old(View()), f)
    {
      hide Auth.WithPassword, Auth.HistoryVerdict, Auth.LeftByChange, Text.ToLower;
      if !f.hasFields {
        return NoSuchPage;
      }
      if f.linkId !in links {
        return NoSuchPage;
      }
      var link := links[f.linkId];
      if f.now > link.expires {
        links := links[f.linkId := link.(canceled := f.now)];
        return NoSuchPage;
      }
      var validUserAction := link.userAction && (link.action == FORGOT_PASSWORD || link.action == VERIFY_EMAIL);
      var validSubscriberAction := !link.userAction && link.action == SUB_FORGOT_PASSWORD;
      if !validUserAction && !validSubscriberAction {
        return NoSuchPage;
      }
      if f.password1 != f.password2 || !auth.cfg.rule(f.password2) || !auth.cfg.rule(f.password1) {
        return ErrorPage;
      }
      var table := if link.userAction then users else subs;
      if link.userId !in table {
        return ErrorPage;
      }
      if table[link.userId].blackListed || table[link.userId].suspended {
        return ErrorPage;
      }
      var verdict, u := auth.SetPassword(f.password1, table[link.userId], f.salt);
      if verdict == Auth.Fault {
        return Raised;
      }
      if verdict == Auth.Reused {
        return ErrorPage;
      }
      if link.action == VERIFY_EMAIL {
        u := u.(waitingForEmailCheck := false, validated := true, lastEmailCheck := f.now, validationDate := f.now,
                changePassword := false);
      }
      u := u.(modified := f.now);
      PasswordChanged(auth.cfg, old(auth.sha2.buffer), table[link.userId], f);
      if f.dbOk {
        if link.userAction {
          users := users[link.userId := u];
        } else {
          subs := subs[link.userId := u];
        }
      }
      links := links[f.linkId := link.(completed := f.now)];
      return Success;
    }
  }

  lemma PasswordChanged(cfg: Auth.Config, left: string, u: UserInfo, f: Form)
    ensures !Auth.WithPassword(cfg, left, u, f.password1, f.salt).changePassword
  {
  }

  // ---------- Runs ----------

  /** Everything that happens to the tables, the links and the engine; other handlers may change users and engine at will. */
  datatype Event =
    | Issue(kind: Kind, userId: UserId, linkId: string, now: nat)
    | PostReset(form: Form)
    | MarkSent(linkId: string, now: nat)
    | MarkCompleted(linkId: string, now: nat)
    | MarkCanceled(linkId: string, now: nat)
    | CleanOld(now: nat)
    | OtherChange(users: map<UserId, UserInfo>, subs: map<UserId, UserInfo>, left: string)

  function Next(cfg: Auth.Config, s: Store, ev: Event): Store {
    match ev
    case Issue(kind, userId, linkId, now) => s.(links := s.links[linkId := NewLink(kind, userId, now)])
    case PostReset(form) => Reset(cfg, s, form)
    case MarkSent(linkId, now) =>
      if linkId in s.links then s.(links := s.links[linkId := s.links[linkId].(sent := now)]) else s
    case MarkCompleted(linkId, now) =>
      if linkId in s.links then s.(links := s.links[linkId := s.links[linkId].(completed := now)]) else s
    case MarkCanceled(linkId, now) =>
      if linkId in s.links then s.(links := s.links[linkId := s.links[linkId].(canceled := now)]) else s
    case CleanOld(now) => s.(links := map id | id in s.links && s.links[id].created + 30 * DAY > now :: s.links[id])
    case OtherChange(users, subs, left) => s.(users := users, subs := subs, left := left)
  }

  function After(cfg: Auth.Config, s: Store, run: seq<Event>): Store {
    if run == [] then s else Next(cfg, After(cfg, s, Front(run)), Last(run))
  }

  /** The marks of a link change; what it is for does not. */
  predicate SamePurpose(l: Link, m: Link) {
    l.action == m.action && l.userId == m.userId && l.created == m.created && l.expires == m.expires &&
    l.userAction == m.userAction
  }

  lemma PurposeKept(cfg: Auth.Config, s: Store, ev: Event, id: string)
    requires id in Next(cfg, s, ev).links
    ensures (id in s.links && SamePurpose(s.links[id], Next(cfg, s, ev).links[id]))
      || (ev.Issue? && ev.linkId == id && Next(cfg, s, ev).links[id] == NewLink(ev.kind, ev.userId, ev.now))
  {
    hide Reset;
    if ev.PostReset? {
      ResetMarksItsLink(cfg, s, ev.form);
    }
  }

  /** A reset marks at most its own link. */
  lemma ResetMarksItsLink(cfg: Auth.Config, s: Store, f: Form)
    ensures var links := Reset(cfg, s, f).links;
      links == s.links ||
      (f.linkId in s.links && f.linkId in links && SamePurpose(s.links[f.linkId], links[f.linkId]) &&
       links == s.links[f.linkId := links[f.linkId]])
  {
    hide Auth.HistoryVerdict, Auth.LeftByChange, ResetRecord;
  }

  /** Every link of a reachable state was issued, and serves the purpose of its latest issue. */
  lemma {:induction false} LinkWasIssued(cfg: Auth.Config, s: Store, run: seq<Event>, id: string) returns (n: nat)
    requires s.links == map[] && id in After(cfg, s, run).links
    ensures n < |run| && run[n].Issue? && run[n].linkId == id
    ensures SamePurpose(NewLink(run[n].kind, run[n].userId, run[n].now), After(cfg, s, run).links[id])
  {
    hide Next;
    var before, ev := Front(run), Last(run);
    PurposeKept(cfg, After(cfg, s, before), ev, id);
    if id in After(cfg, s, before).links && SamePurpose(After(cfg, s, before).links[id], After(cfg, s, run).links[id]) {
      n := LinkWasIssued(cfg, s, before, id);
    } else {
      n := |run| - 1;
    }
  }

  /** A reachable link is a user's exactly when its action is one of the two user actions. */
  lemma {:induction false} UserActionIff(cfg: Auth.Config, s: Store, run: seq<Event>, id: string)
    requires s.links == map[] && id in After(cfg, s, run).links
    ensures After(cfg, s, run).links[id].userAction <==>
      After(cfg, s, run).links[id].action == FORGOT_PASSWORD || After(cfg, s, run).links[id].action == VERIFY_EMAIL
  {
    var n := LinkWasIssued(cfg, s, run, id);
    hide After;
  }

  /** The kinds of issue whose links can set a password, and whether they are for the user table. */
  predicate SetsPassword(kind: Kind) {
    kind == UserForgotPassword || kind == UserEmailCheck || kind == SubForgotPassword
  }

  predicate IsUserKind(kind: Kind) {
    kind == UserForgotPassword || kind == UserEmailCheck
  }

  /** A reset that does not succeed changes no record of either table. */
  lemma RejectedResetChangesNobody(cfg: Auth.Config, s: Store, f: Form)
    requires ResetOutcome(cfg, s, f) != Success
    ensures Reset(cfg, s, f).users == s.users && Reset(cfg, s, f).subs == s.subs
    ensures Reset(cfg, s, f).links.Keys == s.links.Keys
  {
    hide Auth.HistoryVerdict, Auth.LeftByChange, ResetRecord;
  }

  /** A new seal was made from an empty engine: nothing was left, or reading the history emptied it. */
  predicate CleanSeal(left: string, u: UserInfo) {
    left == "" || u.lastPasswords != []
  }

  /** The record of a successful reset: before and after, in the table of its link. */
  predicate Opened(cfg: Auth.Config, left: string, before: UserInfo, after: UserInfo, f: Form, other: string) {
    (CleanSeal(left, before) ==>
       (Auth.PasswordMatches(cfg, "", before.email, other, after.currentPassword) <==> other == f.password1))
    && (Auth.PasswordMatches(cfg, "", before.email, f.password1, after.currentPassword) <==> CleanSeal(left, before))
  }

  /**
   A successful reset was made with a link issued (step `n`) for a password or an address check at most
   a day before, which is then marked completed. It changes the one record that link was issued for, in
   the table it was issued from - or none, if the database refuses, which the answer does not tell. The
   new password opens that record, and no other does, exactly when it was sealed from an empty engine.
   */
  lemma ResetChangesTheIssuedRecord(cfg: Auth.Config, s: Store, run: seq<Event>, f: Form, other: string) returns (n: nat)
    requires s.links == map[] && ResetOutcome(cfg, After(cfg, s, run), f) == Success
    requires Auth.Injective(cfg.hash) && Auth.HexDigests(cfg.hash) && '|' !in f.salt
    ensures n < |run| && run[n].Issue? && run[n].linkId == f.linkId && SetsPassword(run[n].kind)
    ensures f.now <= run[n].now + DAY
    ensures var before, after, id := After(cfg, s, run), Reset(cfg, After(cfg, s, run), f), run[n].userId;
      && f.linkId in before.links && after.links == before.links[f.linkId := before.links[f.linkId].(completed := f.now)]
      && after.left == ""
      && if !f.dbOk then after.users == before.users && after.subs == before.subs
         else if IsUserKind(run[n].kind) then
           && after.subs == before.subs && id in before.users && id in after.users
           && after.users == before.users[id := after.users[id]]
           && Opened(cfg, before.left, before.users[id], after.users[id], f, other)
         else
           && after.users == before.users && id in before.subs && id in after.subs
           && after.subs == before.subs[id := after.subs[id]]
           && Opened(cfg, before.left, before.subs[id], after.subs[id], f, other)
  {
    n := LinkWasIssued(cfg, s, run, f.linkId);
    var before := After(cfg, s, run);
    var l := before.links[f.linkId];
    var u := TableOf(before, l)[l.userId];
    ResetPasswordOpens(cfg, before.left, l, u, f, other);
    Auth.LeftUnlessRaised(cfg, before.left, u, f.password1);
    hide After, ResetRecord, Opened, Auth.HistoryVerdict, Auth.LeftByChange, Auth.Injective, Auth.HexDigests, Text.ToLower;
  }

  lemma ResetPasswordOpens(cfg: Auth.Config, left: string, l: Link, u: UserInfo, f: Form, other: string)
    requires Auth.Injective(cfg.hash) && Auth.HexDigests(cfg.hash) && '|' !in f.salt
    ensures Opened(cfg, left, u, ResetRecord(cfg, left, l, u, f), f, other)
  {
    var email, sealLeft := Text.ToLower(u.email), if u.lastPasswords == [] then left else "";
    Auth.LowerTwice(u.email);
    assert Auth.UserName(u.email) == Auth.UserName(email);
    SameUserName(cfg, u.email, email, other, ResetRecord(cfg, left, l, u, f).currentPassword);
    SameUserName(cfg, u.email, email, f.password1, ResetRecord(cfg, left, l, u, f).currentPassword);
    Auth.SealOpensOnlyFor(cfg, email, f.password1, f.salt, other);
    Auth.RightPasswordIff(cfg, sealLeft, "", email, f.password1, f.salt);
    hide Auth.PasswordMatches, Auth.Seal, Text.ToLower, Auth.UserName, Auth.Injective, Auth.HexDigests;
  }

  lemma SameUserName(cfg: Auth.Config, name: string, name': string, password: string, stored: string)
    requires Auth.UserName(name) == Auth.UserName(name')
    ensures Auth.PasswordMatches(cfg, "", name, password, stored) == Auth.PasswordMatches(cfg, "", name', password, stored)
  {
  }

  /** The two stores differ at most in the marks of their links. */
  ghost predicate SameButMarks(s: Store, t: Store) {
    && s.users == t.users && s.subs == t.subs && s.left == t.left && s.links.Keys == t.links.Keys
    && forall id :: id in s.links ==> SamePurpose(s.links[id], t.links[id])
  }

  /** The marks of links have no say in the outcome of any reset. */
  lemma MarksDoNotMatter(cfg: Auth.Config, s: Store, t: Store, f: Form)
    requires SameButMarks(s, t)
    ensures ResetOutcome(cfg, s, f) == ResetOutcome(cfg, t, f)
  {
    hide Auth.HistoryVerdict;
  }

  /** The run does not issue this link again, and cleans up only links older than it. */
  predicate Spares(run: seq<Event>, id: string, created: nat) {
    forall i :: 0 <= i < |run| ==>
      match run[i]
      case Issue(_, _, linkId, _) => linkId != id
      case CleanOld(now) => now < created + 30 * DAY
      case _ => true
  }

  lemma {:induction false} LinkStays(cfg: Auth.Config, s: Store, run: seq<Event>, id: string)
    requires id in s.links && Spares(run, id, s.links[id].created)
    ensures id in After(cfg, s, run).links && SamePurpose(s.links[id], After(cfg, s, run).links[id])
  {
    hide Next;
    if run != [] {
      LinkStays(cfg, s, Front(run), id);
      StepKeepsLink(cfg, After(cfg, s, Front(run)), Last(run), id);
    }
  }

  lemma StepKeepsLink(cfg: Auth.Config, s: Store, ev: Event, id: string)
    requires id in s.links && (ev.Issue? ==> ev.linkId != id) && (ev.CleanOld? ==> ev.now < s.links[id].created + 30 * DAY)
    ensures id in Next(cfg, s, ev).links && SamePurpose(s.links[id], Next(cfg, s, ev).links[id])
  {
    hide Reset;
    if ev.PostReset? {
      ResetMarksItsLink(cfg, s, ev.form);
    }
  }

  /**
   A link is not used up by a successful reset. Whatever happens afterwards, short of issuing it again or
   cleaning it up after a month: a form with that link succeeds exactly when the link has not expired, the
   passwords agree and meet the rule, the account is there and in good standing, and its history then
   does not reject the password.
   */
  lemma CompletedLinkStaysGoodIff(cfg: Auth.Config, s: Store, f: Form, run: seq<Event>, g: Form)
    requires ResetOutcome(cfg, s, f) == Success && g.linkId == f.linkId && Spares(run, f.linkId, s.links[f.linkId].created)
    ensures var t := After(cfg, Reset(cfg, s, f), run);
      var l := s.links[f.linkId];
      && f.linkId in t.links && SamePurpose(l, t.links[f.linkId])
      && (ResetOutcome(cfg, t, g) == Success <==>
            && g.hasFields && g.now <= l.expires && g.password1 == g.password2 && cfg.rule(g.password1)
            && l.userId in TableOf(t, l)
            && var u := TableOf(t, l)[l.userId];
              && !u.blackListed && !u.suspended
              && Auth.HistoryVerdict(cfg, t.left, u.lastPasswords, 0, g.password1, Text.ToLower(u.email)) == Auth.Fresh)
  {
    ResetMarksItsLink(cfg, s, f);
    LinkStays(cfg, Reset(cfg, s, f), run, f.linkId);
    hide Auth.HistoryVerdict, Auth.LeftByChange, ResetRecord, Reset, After, Text.ToLower, Spares;
  }

  /**
   Completing a link does not use it up. After a successful reset a second form with the same link
   succeeds exactly when the link has not expired, the passwords agree and meet the rule, and the
   history, which now ends in the first form's password, does not reject the second one.
   */
  lemma CompletedLinkWorksAgainIff(cfg: Auth.Config, s: Store, f: Form, g: Form)
    requires ResetOutcome(cfg, s, f) == Success && g.linkId == f.linkId
    ensures var t := Reset(cfg, s, f);
      var l := s.links[f.linkId];
      && l.userId in TableOf(t, l)
      && var u := TableOf(t, l)[l.userId];
        ResetOutcome(cfg, t, g) == Success <==>
          && g.hasFields && g.now <= l.expires && g.password1 == g.password2 && cfg.rule(g.password1)
          && Auth.HistoryVerdict(cfg, "", u.lastPasswords, 0, g.password1, Text.ToLower(u.email)) == Auth.Fresh
  {
    var l := s.links[f.linkId];
    var u := TableOf(s, l)[l.userId];
    Auth.LeftUnlessRaised(cfg, s.left, u, f.password1);
    ResetKeepsStanding(cfg, s.left, l, u, f);
    hide Auth.HistoryVerdict, Auth.LeftByChange, ResetRecord, Text.ToLower;
  }

  lemma ResetKeepsStanding(cfg: Auth.Config, left: string, l: Link, u: UserInfo, f: Form)
    ensures var v := ResetRecord(cfg, left, l, u, f);
      v.blackListed == u.blackListed && v.suspended == u.suspended && v.lastPasswords != []
  {
    hide Text.ToLower;
  }

  // ---------- Which forms succeed, and what they leave ----------

  /**
   A form with a link issued at step `n`, and not again since, succeeds exactly if the link is one that sets
   a password, it is at most a day old, the passwords agree and meet the rule, the account is in the
   table it was issued from and in good standing, and its history does not reject the password.
   */
  lemma IssuedLinkWorksIff(cfg: Auth.Config, s: Store, run: seq<Event>, n: nat, g: Form)
    requires n < |run| && run[n].Issue? && run[n].linkId == g.linkId && Spares(run[n + 1..], g.linkId, run[n].now)
    ensures var t, kind, id := After(cfg, s, run), run[n].kind, run[n].userId;
      ResetOutcome(cfg, t, g) == Success <==>
        && g.hasFields && (kind == UserForgotPassword || kind == UserEmailCheck || kind == SubForgotPassword)
        && g.now <= run[n].now + 86400 && g.password1 == g.password2 && cfg.rule(g.password1)
        && var table := if kind == SubForgotPassword then t.subs else t.users;
          && id in table && !table[id].blackListed && !table[id].suspended
          && Auth.HistoryVerdict(cfg, t.left, table[id].lastPasswords, 0, g.password1, Text.ToLower(table[id].email)) == Auth.Fresh
  {
    var issued := After(cfg, s, run[..n + 1]);
    assert Front(run[..n + 1]) == run[..n] && Last(run[..n + 1]) == run[n];
    assert g.linkId in issued.links && issued.links[g.linkId] == NewLink(run[n].kind, run[n].userId, run[n].now);
    AfterSplit(cfg, s, run, n + 1);
    LinkStays(cfg, issued, run[n + 1..], g.linkId);
    hide Auth.HistoryVerdict, After, Next, Spares, Text.ToLower;
  }

  lemma {:induction false} AfterSplit(cfg: Auth.Config, s: Store, run: seq<Event>, n: nat)
    requires n <= |run|
    ensures After(cfg, s, run) == After(cfg, After(cfg, s, run[..n]), run[n..])
  {
    hide Next;
    if n == |run| {
      assert run[..n] == run;
    } else {
      AfterSplit(cfg, s, Front(run), n);
      FrontOfSuffix(run, n);
      assert Front(run)[..n] == run[..n];
    }
  }

  /** A form that comes after the link has expired is refused, and the link is marked canceled. */
  lemma ExpiredLinkIsCanceled(cfg: Auth.Config, s: Store, f: Form)
    requires f.hasFields && f.linkId in s.links && f.now > s.links[f.linkId].expires
    ensures ResetOutcome(cfg, s, f) == NoSuchPage
    ensures Reset(cfg, s, f) == s.(links := s.links[f.linkId := s.links[f.linkId].(canceled := f.now)])
  {
    hide Auth.HistoryVerdict, Auth.LeftByChange, ResetRecord;
  }

  /**
   The record that a successful reset stores: password, history and the mark for a change of password, its
   address in lower case, and the time. A link for the check of an address also ends the wait: the record
   is validated, and the check is dated.
   */
  lemma ResetLeaves(cfg: Auth.Config, s: Store, f: Form)
    requires ResetOutcome(cfg, s, f) == Success && f.dbOk
    ensures var l := s.links[f.linkId];
      l.userId in TableOf(s, l) && l.userId in TableOf(Reset(cfg, s, f), l)
    ensures var l := s.links[f.linkId];
      var u, v := TableOf(s, l)[l.userId], TableOf(Reset(cfg, s, f), l)[l.userId];
      && !v.changePassword && v.email == Text.ToLower(u.email) && v.modified == f.now
      && v.lastPasswords != [] && Last(v.lastPasswords) == v.currentPassword
      && v.waitingForEmailCheck == (if l.action == VERIFY_EMAIL then false else u.waitingForEmailCheck)
      && v.validated == (if l.action == VERIFY_EMAIL then true else u.validated)
      && v.lastEmailCheck == (if l.action == VERIFY_EMAIL then f.now else u.lastEmailCheck)
      && v.validationDate == (if l.action == VERIFY_EMAIL then f.now else u.validationDate)
      && v == u.(email := v.email, currentPassword := v.currentPassword, lastPasswords := v.lastPasswords,
                 changePassword := false, modified := f.now, waitingForEmailCheck := v.waitingForEmailCheck,
                 validated := v.validated, lastEmailCheck := v.lastEmailCheck, validationDate := v.validationDate)
  {
    hide Auth.HistoryVerdict, Auth.LeftByChange, Text.ToLower, Auth.Seal;
  }

  /** The clean-up drops exactly the links created 30 days ago or longer. */
  lemma CleanUpDropsIff(cfg: Auth.Config, s: Store, now: nat, id: string)
    requires id in s.links
    ensures id in Next(cfg, s, CleanOld(now)).links <==> now - s.links[id].created < 30 * 86400
    ensures id in Next(cfg, s, CleanOld(now)).links ==> Next(cfg, s, CleanOld(now)).links[id] == s.links[id]
    ensures Next(cfg, s, CleanOld(now)).users == s.users && Next(cfg, s, CleanOld(now)).subs == s.subs
  {
  }
}
