/** Concrete runs, from the state in which the service starts, that reach what the results above speak of. */
module Witnesses {
  import opened Common
  import opened SecurityObjects
  import opened UserStore
  import opened UserSafety
  import opened InitialState
  import ApiKeys
  import Auth = AuthService
  import Enrolment
  import Text
  import Totp = TotpCache

  /** A record that asks for nothing. */
  const BLANK: UserInfo := UserInfo("", "", "", "", "", "", "", "", ADMIN, false, false, false, false, false, "", [],
                                    0, 0, 0, LoginExtensions(MfaConfig(false, NO_METHOD), [], ""), [], 0)

  /** The default user creates a record from this body. */
  function CreateFrom(body: UserInfo, id: UserId, now: u64): Request {
    CreateUser(DEFAULT_ID, CreateRequest("0", true, body, "", false, true, false, true, "", id, true, now))
  }

  lemma CreateFromBody(cfg: Config, w: World, body: UserInfo, id: UserId, now: u64)
    requires WellKeyed(w) && DEFAULT_ID in w.users && w.users[DEFAULT_ID].userRole == ROOT
    requires body.userRole != UNKNOWN && body.currentPassword == "" && !EmailTaken(w.users, Text.ToLower(body.email))
    ensures var reply := Serve(cfg, w, CreateFrom(body, id, now));
      && reply.status == OK && id in reply.world.users
      && reply.world == w.(users := w.users[id := reply.world.users[id]], issued := w.issued + [id])
      && reply.world.users[id].lastPasswords == body.lastPasswords
      && reply.world.users[id].id == id && reply.world.users[id].userRole == body.userRole
  {
    hide Text.ToLower, EmailTaken;
    assert w.links + [] == w.links;
  }

  lemma NotTaken(email: string, password: string, now: u64, other: string)
    requires other != Text.ToLower(email)
    ensures !EmailTaken(DefaultWorld(email, password, now).users, other)
  {
  }

  // ---------- A history that starts with an empty entry ----------

  /**
   One create request of the default user, with a history of one empty entry in its body, is enough:
   every password change for the new record raises. After it the right password of any account is still
   accepted, and a new seal still opens, exactly if the digest is taken before the token is asked for.
   */
  lemma EmptyHistoryReached(cfg: Config, auth: Auth.Config, email: string, password: string, now: u64, id: UserId,
                            newPassword: string, salt: string, userName: string, other: string)
    requires id != "" && id != DEFAULT_ID && email != "" && newPassword != ""
    requires Auth.Injective(auth.hash) && Auth.HexDigests(auth.hash) && '|' !in salt
    ensures var w, run := DefaultWorld(email, password, now), [CreateFrom(BLANK.(lastPasswords := [""]), id, now)];
      && Legal(cfg, w, run) && id in After(cfg, w, run).users
      && var u := After(cfg, w, run).users[id];
        var ops := [Auth.Change(u, newPassword, salt)];
        && Auth.HistoryVerdict(auth, "", u.lastPasswords, 0, newPassword, Text.ToLower(u.email)) == Auth.Fault
        && (Auth.PasswordMatches(auth, Auth.LeftAfter(auth, ops), userName, other, Auth.Seal(auth, "", userName, other, salt)) <==>
              !auth.indexFirst)
        && (Auth.PasswordMatches(auth, "", userName, other, Auth.Seal(auth, Auth.LeftAfter(auth, ops), userName, other, salt)) <==>
              !auth.indexFirst)
  {
    var w, r := DefaultWorld(email, password, now), CreateFrom(BLANK.(lastPasswords := [""]), id, now);
    DefaultBecomes(cfg, email, password, now, id, BLANK.(lastPasswords := [""]));
    var u := After(cfg, w, [r]).users[id];
    Auth.EmptyFirstEntryRaises(auth, "", u, newPassword);
    OneChange(auth, u, newPassword, salt);
    var left := Auth.LeftAfter(auth, [Auth.Change(u, newPassword, salt)]);
    assert auth.indexFirst ==> |left| >= |newPassword| > 0;
    Auth.RightPasswordIff(auth, "", left, userName, other, salt);
    Auth.RightPasswordIff(auth, left, "", userName, other, salt);
    hide *;
  }

  lemma OneChange(auth: Auth.Config, u: UserInfo, newPassword: string, salt: string)
    ensures Auth.LeftAfter(auth, [Auth.Change(u, newPassword, salt)]) == Auth.LeftByChange(auth, "", u, newPassword)
  {
    var op := Auth.Change(u, newPassword, salt);
    assert Front([op]) == [] && Auth.LeftAfter(auth, []) == "";
    hide Auth.LeftByChange;
  }

  lemma OneStep(cfg: Config, w: World, r: Request)
    ensures After(cfg, w, [r]) == Serve(cfg, w, r).world
    ensures Legal(cfg, w, [r]) <==> FreshIds(w, r)
  {
    assert Front([r]) == [] && After(cfg, w, []) == w && Legal(cfg, w, []);
    hide Serve, FreshIds;
  }

  lemma OneMore(cfg: Config, w: World, run: seq<Request>, r: Request)
    ensures After(cfg, w, run + [r]) == Serve(cfg, After(cfg, w, run), r).world
    ensures Legal(cfg, w, run + [r]) <==> Legal(cfg, w, run) && FreshIds(After(cfg, w, run), r)
  {
    FrontOfAppend(run, r);
    hide Serve, FreshIds;
  }

  // ---------- A key without a user ----------

  /** The default user creates a record, gives it a key and deletes it: the key stays. */
  lemma OrphanReached(cfg: Config, email: string, password: string, now: u64, id: UserId, keyId: string)
    requires id != "" && id != DEFAULT_ID && email != ""
    ensures var w := DefaultWorld(email, password, now);
      var run := [CreateFrom(BLANK, id, now), PostKey(DEFAULT_ID, KeyPostRequest(id, true, "key", true, "", now, keyId, true, true, now)),
                  DeleteUser(DEFAULT_ID, id, true)];
      && Legal(cfg, w, run)
      && ApiKeys.HasKey(After(cfg, w, run), keyId, id) && id !in After(cfg, w, run).users
  {
    var w := DefaultWorld(email, password, now);
    var create := CreateFrom(BLANK, id, now);
    var post := PostKey(DEFAULT_ID, KeyPostRequest(id, true, "key", true, "", now, keyId, true, true, now));
    var delete := DeleteUser(DEFAULT_ID, id, true);
    DefaultBecomes(cfg, email, password, now, id, BLANK);
    var v := After(cfg, w, [create]);
    KeyThenDelete(cfg, v, id, keyId, now);
    OneMore(cfg, w, [create], post);
    OneMore(cfg, w, [create, post], delete);
    assert [create] + [post] == [create, post] && [create, post] + [delete] == [create, post, delete];
    hide *;
  }

  /** What the table holds after the default user created one record. */
  lemma DefaultBecomes(cfg: Config, email: string, password: string, now: u64, id: UserId, body: UserInfo)
    requires id != "" && id != DEFAULT_ID && email != ""
    requires body.userRole != UNKNOWN && body.currentPassword == "" && body.email == ""
    ensures var w, r := DefaultWorld(email, password, now), CreateFrom(body, id, now);
      var v := After(cfg, w, [r]);
      && Legal(cfg, w, [r]) && id in v.users && v.users[id].lastPasswords == body.lastPasswords && v.keys == []
      && DEFAULT_ID in v.users && v.users[DEFAULT_ID] == w.users[DEFAULT_ID] && v.users[DEFAULT_ID].userRole == ROOT
      && v.users[DEFAULT_ID].id == DEFAULT_ID && v.users[id].id == id && v.users[id].userRole == body.userRole
  {
    var w, r := DefaultWorld(email, password, now), CreateFrom(body, id, now);
    DefaultWorldIsSound(email, password, now);
    EmptyIsLower();
    NotTaken(email, password, now, "");
    CreateFromBody(cfg, w, body, id, now);
    OneStep(cfg, w, r);
    hide Text.ToLower, EmailTaken, Serve, ApiKeys.KeyInvariant, ApiKeys.NoOrphans, Enrolment.NoSecondFactors, Legal, After;
  }

  lemma EmptyIsLower()
    ensures Text.ToLower("") == ""
  {
  }

  lemma KeyThenDelete(cfg: Config, w: World, id: UserId, keyId: string, now: u64)
    requires DEFAULT_ID in w.users && w.users[DEFAULT_ID].userRole == ROOT && w.users[DEFAULT_ID].id == DEFAULT_ID
    requires id in w.users && w.users[id].id == id && id != "" && id != DEFAULT_ID && w.keys == []
    ensures var post := PostKey(DEFAULT_ID, KeyPostRequest(id, true, "key", true, "", now, keyId, true, true, now));
      var x := Serve(cfg, w, post).world;
      var y := Serve(cfg, x, DeleteUser(DEFAULT_ID, id, true)).world;
      && FreshIds(w, post) && FreshIds(x, DeleteUser(DEFAULT_ID, id, true))
      && ApiKeys.HasKey(y, keyId, id) && id !in y.users
  {
    FirstKey(cfg, w, id, keyId, now);
    hide KeyPost;
    var post := PostKey(DEFAULT_ID, KeyPostRequest(id, true, "key", true, "", now, keyId, true, true, now));
    var x := Serve(cfg, w, post).world;
    var y := Serve(cfg, x, DeleteUser(DEFAULT_ID, id, true)).world;
    assert y == x.(users := x.users - {id});
    assert y.keys[0].id == keyId && y.keys[0].userUuid == id;
  }

  lemma FirstKey(cfg: Config, w: World, id: UserId, keyId: string, now: u64)
    requires DEFAULT_ID in w.users && w.users[DEFAULT_ID].userRole == ROOT && id in w.users && id != "" && w.keys == []
    ensures var w' := KeyPost(w, DEFAULT_ID, KeyPostRequest(id, true, "key", true, "", now, keyId, true, true, now)).world;
      && w' == w.(keys := w'.keys) && |w'.keys| == 1 && w'.keys[0].id == keyId && w'.keys[0].userUuid == id
  {
    hide Text.ToLower;
    assert KeysOf([], id) == [];
  }

  // ---------- Two keys of one name ----------

  function OwnKey(keyId: string, pageOk: bool, now: u64): KeyPostRequest {
    KeyPostRequest(DEFAULT_ID, true, "key", true, "", now, keyId, pageOk, true, now)
  }

  /** The default user asks for the same key twice, and the second time its keys cannot be read: it has two of one name. */
  lemma TwoOfOneNameReached(cfg: Config, email: string, password: string, now: u64, keyId: string, keyId': string)
    requires keyId != keyId'
    ensures var w := DefaultWorld(email, password, now);
      var run := [PostKey(DEFAULT_ID, OwnKey(keyId, true, now)), PostKey(DEFAULT_ID, OwnKey(keyId', false, now))];
      Legal(cfg, w, run) && !ApiKeys.DistinctNames(KeysOf(After(cfg, w, run).keys, DEFAULT_ID))
  {
    var w := DefaultWorld(email, password, now);
    var first, second := PostKey(DEFAULT_ID, OwnKey(keyId, true, now)), PostKey(DEFAULT_ID, OwnKey(keyId', false, now));
    OneStep(cfg, w, first);
    OneMore(cfg, w, [first], second);
    assert [first] + [second] == [first, second];
    FirstOwnKey(w, keyId, now);
    SecondOwnKey(After(cfg, w, [first]), keyId', now);
    hide *;
  }

  lemma FirstOwnKey(w: World, keyId: string, now: u64)
    requires DEFAULT_ID in w.users && w.keys == []
    ensures FreshIds(w, PostKey(DEFAULT_ID, OwnKey(keyId, true, now)))
    ensures KeyPost(w, DEFAULT_ID, OwnKey(keyId, true, now)).world ==
      w.(keys := [ApiKey(keyId, DEFAULT_ID, Text.ToLower("key"), "", now, now, 0)])
  {
    hide Text.ToLower;
    assert KeysOf([], DEFAULT_ID) == [];
    assert DEFAULT_ID != "";
  }

  lemma SecondOwnKey(w: World, keyId: string, now: u64)
    requires DEFAULT_ID in w.users && |w.keys| == 1 && w.keys[0].id != keyId
    requires w.keys[0].userUuid == DEFAULT_ID && w.keys[0].name == Text.ToLower("key")
    ensures var r := OwnKey(keyId, false, now);
      && FreshIds(w, PostKey(DEFAULT_ID, r))
      && !ApiKeys.DistinctNames(KeysOf(KeyPost(w, DEFAULT_ID, r).world.keys, DEFAULT_ID))
  {
    hide Text.ToLower;
    assert DEFAULT_ID != "";
    var keys := KeyPost(w, DEFAULT_ID, OwnKey(keyId, false, now)).world.keys;
    assert keys == w.keys + [ApiKey(keyId, DEFAULT_ID, Text.ToLower("key"), "", now, now, 0)];
    hide KeyPost;
    assert keys[1..][1..] == [] && KeysOf([], DEFAULT_ID) == [];
    assert KeysOf(keys[1..], DEFAULT_ID) == [keys[1]] + KeysOf(keys[1..][1..], DEFAULT_ID) == [keys[1]];
    var mine := KeysOf(keys, DEFAULT_ID);
    assert mine == [keys[0], keys[1]];
    assert mine[0].name == mine[1].name;
  }

  // ---------- A failed modify request that leaves a trace ----------

  /** A modify request of the default user on its own record, with nothing but a second factor in its body. */
  function OwnFactor(channel: Channel, verifyEmail: bool, now: u64): PutRequest {
    PutRequest(DEFAULT_ID, false, false, verifyEmail, true, {"userTypeProprietaryInfo"}, ROOT, "", "", "", "", "", false,
               false, false, [], LoginExtensions(MfaConfig(true, channel), [], ""), Invalid, false, now)
  }

  /** The second factor is refused for want of the service, but the link of the address check has been stored. */
  lemma FailedPutStoresLink(cfg: Config, email: string, password: string, now: u64)
    requires !cfg.smsEnabled
    ensures var w, r := DefaultWorld(email, password, now), OwnFactor(SMS, true, now);
      && Put(cfg, w, DEFAULT_ID, r).status == BadRequest(SMSMFANotEnabled)
      && Put(cfg, w, DEFAULT_ID, r).world == w.(links := [NewLink(UserEmailCheck, DEFAULT_ID, now)])
  {
    var w, r := DefaultWorld(email, password, now), OwnFactor(SMS, true, now);
    var u := w.users[DEFAULT_ID];
    OwnFactorPrepared(u, SMS, true, now);
    hide Prepare, Totp.Next, Text.ToLower;
  }

  lemma OwnFactorPrepared(u: UserInfo, channel: Channel, verifyEmail: bool, now: u64)
    requires u.userRole == ROOT
    ensures var r := OwnFactor(channel, verifyEmail, now); Prepare(u, r, u).Go? && Prepare(u, r, u).user.ext == u.ext
  {
    var r := OwnFactor(channel, verifyEmail, now);
    assert "userRole" !in r.keys && "currentPassword" !in r.keys && "notes" !in r.keys;
    assert IsSelfServiceCaller(u) == false;
    hide ApplyAdminStatusFields, ApplyProfileFields, ApplyOwnerUpdate;
    EarlyChanges(u, r, u);
  }

  /** The default user enrols an authenticator; the database then refuses the row, and the enrolment is gone. */
  lemma FailedPutUsesUpEnrolment(cfg: Config, email: string, password: string, secret: Totp.Secret, code: string, code': string)
    requires code == cfg.totp.totp(secret, 1) && code' == cfg.totp.totp(secret, 2) && code != code'
    ensures var w := DefaultWorld(email, password, 0);
      var run := [Enrol(Totp.StartValidation(DEFAULT_ID, email, false, false, 30, secret)),
                  Enrol(Totp.ContinueValidation(DEFAULT_ID, false, code, 1, 30)),
                  Enrol(Totp.ContinueValidation(DEFAULT_ID, false, code', 2, 60))];
      var v, r := After(cfg, w, run), OwnFactor(AUTHENTICATOR, false, 60);
      && Legal(cfg, w, run) && DEFAULT_ID in v.totp && v.users == w.users
      && Put(cfg, v, DEFAULT_ID, r) == Reply(BadRequest(RecordNotUpdated), v.(totp := map[]))
  {
    hide Put, Create, Delete, KeyPost, KeyPut, KeyDelete, Prepare, Totp.Next, Totp.Releases, OwnFactor, Text.ToLower;
    var w := DefaultWorld(email, password, 0);
    var start := Totp.StartValidation(DEFAULT_ID, email, false, false, 30, secret);
    var first := Totp.ContinueValidation(DEFAULT_ID, false, code, 1, 30);
    var second := Totp.ContinueValidation(DEFAULT_ID, false, code', 2, 60);
    var cache := Totp.Next(cfg.totp, Totp.Next(cfg.totp, Totp.Next(cfg.totp, map[], start), first), second);
    OneStep(cfg, w, Enrol(start));
    OneMore(cfg, w, [Enrol(start)], Enrol(first));
    OneMore(cfg, w, [Enrol(start), Enrol(first)], Enrol(second));
    assert [Enrol(start)] + [Enrol(first)] == [Enrol(start), Enrol(first)];
    assert [Enrol(start), Enrol(first)] + [Enrol(second)] == [Enrol(start), Enrol(first), Enrol(second)];
    Finished(cfg.totp, start, first, second);
    var v := w.(totp := cache);
    OwnFactorPrepared(v.users[DEFAULT_ID], AUTHENTICATOR, false, 60);
    RefusedRow(cfg, v, OwnFactor(AUTHENTICATOR, false, 60));
    hide *;
  }

  lemma Finished(cfg: Totp.Config, start: Totp.Event, first: Totp.Event, second: Totp.Event)
    requires start.StartValidation? && first.ContinueValidation? && second.ContinueValidation?
    requires start.id == first.id == second.id && !start.subscriber && !first.subscriber && !second.subscriber
    requires start.now == first.now == 30 && second.now == 60 && first.nextIndex == 1 && second.nextIndex == 2
    requires first.code == cfg.totp(start.newSecret, 1) && second.code == cfg.totp(start.newSecret, 2) && first.code != second.code
    ensures var cache := Totp.Next(cfg, Totp.Next(cfg, Totp.Next(cfg, map[], start), first), second);
      && cache.Keys == {start.id}
      && Totp.Releases(cache, EnrolmentRelease(start.id, 60))
      && Totp.Next(cfg, cache, EnrolmentRelease(start.id, 60)) == map[]
  {
    var one := Totp.Next(cfg, map[], start);
    assert one.Keys == {start.id} && one[start.id].verifications == 0 && one[start.id].start == 30;
    var two := Totp.Next(cfg, one, first);
    assert two.Keys == {start.id} && two[start.id].verifications == 1 && two[start.id].lastCode == first.code;
    var three := Totp.Next(cfg, two, second);
    assert three.Keys == {start.id} && three[start.id].done == 60;
  }

  lemma RefusedRow(cfg: Config, w: World, r: PutRequest)
    requires DEFAULT_ID in w.users && w.users[DEFAULT_ID].userRole == ROOT && w.users[DEFAULT_ID].id == DEFAULT_ID
    requires w.users[DEFAULT_ID].ext.authenticatorSecret == "" && r == OwnFactor(AUTHENTICATOR, false, 60)
    requires Prepare(w.users[DEFAULT_ID], r, w.users[DEFAULT_ID]).Go?
    requires Prepare(w.users[DEFAULT_ID], r, w.users[DEFAULT_ID]).user.ext == w.users[DEFAULT_ID].ext
    requires Totp.Releases(w.totp, EnrolmentRelease(DEFAULT_ID, 60))
    ensures Put(cfg, w, DEFAULT_ID, r) ==
      Reply(BadRequest(RecordNotUpdated), w.(totp := Totp.Next(cfg.totp, w.totp, EnrolmentRelease(DEFAULT_ID, 60))))
  {
    assert w.links + [] == w.links;
    hide Prepare, Totp.Next, Totp.Releases, EnrolmentRelease;
  }
}
