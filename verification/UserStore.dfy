/**
 The user table and what its handlers do to it, one request at a time. The state also holds the two
 caches whose results the handlers consume (authenticator enrolment, telephone validation) and the
 API key table. Every request names its caller by id; the caller must be a current record.
 */
module UserStore {
  import opened Common
  import opened SecurityObjects
  import Acl = AclProcessor
  import Sms = SmsSender
  import Text
  import Totp = TotpCache

  datatype Config = Config(totp: Totp.Config, smsEnabled: bool, mailEnabled: bool)

  datatype ApiKey = ApiKey(id: string, userUuid: UserId, name: string, description: string, expiresOn: u64,
                           created: u64, lastUse: u64)

  /**
   `issued` lists every id ever given to a record of the table, oldest first; `links` the action links
   that the user handler has stored, in that order.
   */
  datatype World = World(users: map<UserId, UserInfo>, issued: seq<UserId>, totp: Totp.Cache, sms: Sms.Cache,
                         keys: seq<ApiKey>, links: seq<Link>)

  datatype Error =
    | MissingUserID | IdMustBe0 | InvalidJSONDocument | InvalidUserRole | InvalidEmailAddress | UserAlreadyExists
    | InvalidPassword | PasswordRejected | RecordNotCreated | RecordNotUpdated | BadMFAMethod | SMSMFANotEnabled
    | EMailMFANotEnabled | NeedMobileNumber | AuthenticatorVerificationIncomplete | InternalError
    | MissingOrInvalidParameters | UserMustExist | ApiKeyNameAlreadyExists | TooManyApiKeys | ApiKeyDoesNotExist

  datatype Status = OK | BadRequest(error: Error) | UnAuthorized | NotFound

  datatype Reply = Reply(status: Status, world: World)

  // ---------- Create ----------

  /**
   A create request: the parsed body, and what the rest of the service answers on the way - is the
   address well formed, does a subscriber have it, does the password meet the rule, its sealed form,
   the fresh id, and whether the database accepts the row.
   */
  datatype CreateRequest = CreateRequest(
    pathId: string, parsed: bool, body: UserInfo, entity: string, verifyEmail: bool,
    emailOk: bool, subscriberExists: bool, passwordOk: bool, sealed: string, freshId: UserId, dbOk: bool, now: u64)

  predicate EmailTaken(users: map<UserId, UserInfo>, email: string) {
    exists id :: id in users && users[id].email == email
  }

  /** The record a create request hands to the table: the caller decides its creator and owner, and no second factor is set. */
  function NewUser(caller: UserInfo, r: CreateRequest): UserInfo {
    var email := Text.ToLower(r.body.email);
    r.body.(
      createdBy := caller.id,
      owner := if caller.userRole == ROOT then r.entity else caller.owner,
      email := email,
      name := if r.body.name == "" then email else r.body.name,
      ext := LoginExtensions(MfaConfig(false, NO_METHOD), [], ""),
      validated := true)
  }

  /** The table gives the row its id and time stamp, and seals a password if there is one. */
  function Stamped(u: UserInfo, r: CreateRequest): UserInfo {
    var v := u.(email := Text.ToLower(u.email), id := r.freshId, modified := r.now);
    if v.currentPassword == "" then v
    else v.(currentPassword := r.sealed, lastPasswords := [r.sealed], lastPasswordChange := r.now, validated := true)
  }

  /** The record a create request stores when nothing stops it. */
  function CreatedRecord(caller: UserInfo, r: CreateRequest): UserInfo {
    var u := Stamped(NewUser(caller, r), r);
    if r.verifyEmail then u.(waitingForEmailCheck := true, validated := false) else u
  }

  /** The first reason for which a create request fails, if there is one. */
  function CreateError(users: map<UserId, UserInfo>, caller: UserInfo, r: CreateRequest): Option<Status> {
    if r.pathId != "0" then Some(BadRequest(IdMustBe0))
    else if !r.parsed then Some(BadRequest(InvalidJSONDocument))
    else if r.body.userRole == UNKNOWN then Some(BadRequest(InvalidUserRole))
    else if !Acl.CanCreateUserRecord(caller, r.body) then Some(UnAuthorized)
    else if !r.emailOk then Some(BadRequest(InvalidEmailAddress))
    else if r.subscriberExists then Some(BadRequest(UserAlreadyExists))
    else if r.body.currentPassword != "" && !r.passwordOk then Some(BadRequest(InvalidPassword))
    else if EmailTaken(users, Text.ToLower(r.body.email)) || !r.dbOk then Some(BadRequest(RecordNotCreated))
    else None
  }

  /** A request with an address check stores a link for it. */
  function EmailCheckLink(verifyEmail: bool, id: UserId, now: u64): seq<Link> {
    if verifyEmail then [NewLink(UserEmailCheck, id, now)] else []
  }

  function Create(w: World, callerId: UserId, r: CreateRequest): Reply {
    if callerId !in w.users then Reply(UnAuthorized, w)
    else
      var caller := w.users[callerId];
      match CreateError(w.users, caller, r)
      case Some(status) => Reply(status, w)
      case None =>
        Reply(OK, w.(users := w.users[r.freshId := CreatedRecord(caller, r)], issued := w.issued + [r.freshId],
                     links := w.links + EmailCheckLink(r.verifyEmail, r.freshId, r.now)))
  }

  // ---------- Modify ----------

  /** What the password rule and the password history answer to a new password. */
  datatype PasswordUpdate = Invalid | Rejected | Raised | Applied(current: string, last: seq<string>)

  /** A modify request; `keys` are the names the JSON body holds. */
  datatype PutRequest = PutRequest(
    target: UserId, resetMFA: bool, forgotPassword: bool, verifyEmail: bool,
    parsed: bool, keys: set<string>, userRole: Role, owner: string, name: string, description: string,
    location: string, locale: string, changePassword: bool, suspended: bool, blackListed: bool,
    notes: seq<string>, ext: LoginExtensions, password: PasswordUpdate, dbOk: bool, now: u64)

  const SELF_SERVICE_FIELDS: set<string> :=
    {"name", "description", "location", "locale", "changePassword", "currentPassword", "userTypeProprietaryInfo"}

  predicate IsSelfServiceCaller(user: UserInfo) {
    user.userRole != ROOT && user.userRole != ADMIN
  }

  predicate HasOnlyAllowedSelfServiceFields(r: PutRequest) {
    r.keys <= SELF_SERVICE_FIELDS
  }

  predicate ValidateUpdatePayload(r: PutRequest) {
    !("userRole" in r.keys && r.userRole == UNKNOWN)
  }

  function ResetMFA(caller: UserInfo, u: UserInfo, now: u64): UserInfo {
    u.(ext := u.ext.(mfa := MfaConfig(false, NO_METHOD), mobiles := []),
       modified := now,
       notes := u.notes + [Note(now, caller.email, "MFA Reset by " + caller.email)])
  }

  function ApplyOwnerUpdate(caller: UserInfo, r: PutRequest, u: UserInfo): UserInfo {
    if "owner" in r.keys && caller.userRole == ROOT && u.owner == "" then u.(owner := r.owner) else u
  }

  function ApplyProfileFields(r: PutRequest, u: UserInfo): UserInfo {
    u.(name := if "name" in r.keys then r.name else u.name,
       description := if "description" in r.keys then r.description else u.description,
       location := if "location" in r.keys then r.location else u.location,
       locale := if "locale" in r.keys then r.locale else u.locale,
       changePassword := if "changePassword" in r.keys then r.changePassword else u.changePassword)
  }

  function ApplyAdminStatusFields(r: PutRequest, u: UserInfo): UserInfo {
    u.(suspended := if "suspended" in r.keys then r.suspended else u.suspended,
       blackListed := if "blackListed" in r.keys then r.blackListed else u.blackListed)
  }

  function ApplyRoleChange(caller: UserInfo, r: PutRequest, u: UserInfo): Option<UserInfo> {
    if "userRole" !in r.keys || r.userRole == u.userRole then Some(u)
    else if !Acl.CanChangeUserRole(caller, u, r.userRole) then None
    else Some(u.(userRole := r.userRole))
  }

  function AppendNotes(caller: UserInfo, r: PutRequest, u: UserInfo): UserInfo {
    if "notes" !in r.keys then u
    else u.(notes := u.notes + seq(|r.notes|, i requires 0 <= i < |r.notes| => Note(r.now, caller.email, r.notes[i])))
  }

  function ApplyPasswordChange(r: PutRequest, u: UserInfo): UserInfo {
    if "currentPassword" in r.keys && r.password.Applied? then
      u.(email := Text.ToLower(u.email), currentPassword := r.password.current, lastPasswords := r.password.last,
         changePassword := false)
    else u
  }

  function PasswordError(r: PutRequest): Option<Error> {
    if "currentPassword" !in r.keys then None
    else match r.password
      case Invalid => Some(InvalidPassword)
      case Rejected => Some(PasswordRejected)
      case Raised => Some(InternalError)
      case Applied(_, _) => None
  }

  /** The changes before the second factor: the first failure, or the changed record. */
  datatype Prepared = Stop(status: Status) | Go(user: UserInfo)

  function Prepare(caller: UserInfo, r: PutRequest, existing: UserInfo): Prepared {
    if !r.parsed then Stop(BadRequest(InvalidJSONDocument))
    else if !ValidateUpdatePayload(r) then Stop(BadRequest(InvalidUserRole))
    else if IsSelfServiceCaller(caller) && !HasOnlyAllowedSelfServiceFields(r) then Stop(UnAuthorized)
    else
      var u := ApplyAdminStatusFields(r, ApplyProfileFields(r, ApplyOwnerUpdate(caller, r, existing)));
      match ApplyRoleChange(caller, r, u)
      case None => Stop(UnAuthorized)
      case Some(v) =>
        var noted := AppendNotes(caller, r, v);
        if PasswordError(r).Some? then Stop(BadRequest(PasswordError(r).value))
        else
          var changed := ApplyPasswordChange(r, noted);
          Go(if r.verifyEmail then changed.(waitingForEmailCheck := true, validated := false) else changed)
  }

  /**
   The outcome of the second-factor part, which is all about the record's login extensions. The
   enrolment session is used up even if the request fails later.
   */
  datatype MfaUpdate = MfaUpdate(error: Option<Error>, ext: LoginExtensions, totp: Totp.Cache)

  function EnrolmentRelease(callerId: UserId, now: u64): Totp.Event {
    Totp.CompleteValidation(callerId, false, now)
  }

  /** The request gets as far as asking for the result of the caller's enrolment. */
  predicate AsksForEnrolment(r: PutRequest, ext: LoginExtensions) {
    && "userTypeProprietaryInfo" in r.keys && r.ext.mfa.enabled && r.ext.mfa.channel == AUTHENTICATOR
    && ext.authenticatorSecret == ""
  }

  function ApplyMfaChange(cfg: Config, totp: Totp.Cache, sms: Sms.Cache, caller: UserInfo, r: PutRequest,
                          ext: LoginExtensions): MfaUpdate {
    if "userTypeProprietaryInfo" !in r.keys then MfaUpdate(None, ext, totp)
    else if !r.ext.mfa.enabled then MfaUpdate(None, LoginExtensions(ext.mfa.(enabled := false), [], ""), totp)
    else
      var on := MfaConfig(true, r.ext.mfa.channel);
      match r.ext.mfa.channel
      case Other(_) => MfaUpdate(Some(BadMFAMethod), ext, totp)
      case SMS =>
        if !cfg.smsEnabled then MfaUpdate(Some(SMSMFANotEnabled), ext, totp)
        else if r.ext.mobiles == [] || !Sms.NumberValid(sms, r.ext.mobiles[0].number, caller.email) then
          MfaUpdate(Some(NeedMobileNumber), ext, totp)
        else
          var mobiles := r.ext.mobiles[0 := r.ext.mobiles[0].(verified := true)];
          MfaUpdate(None, LoginExtensions(on, mobiles, ""), totp)
      case EMAIL =>
        if !cfg.mailEnabled then MfaUpdate(Some(EMailMFANotEnabled), ext, totp)
        else MfaUpdate(None, LoginExtensions(on, [], ""), totp)
      case AUTHENTICATOR =>
        if !AsksForEnrolment(r, ext) then MfaUpdate(None, LoginExtensions(on, [], ext.authenticatorSecret), totp)
        else
          var release := EnrolmentRelease(caller.id, r.now);
          if Totp.Releases(totp, release) then
            MfaUpdate(None, LoginExtensions(on, [], totp[caller.id].secret), Totp.Next(cfg.totp, totp, release))
          else MfaUpdate(Some(AuthenticatorVerificationIncomplete), ext, totp)
  }

  function Put(cfg: Config, w: World, callerId: UserId, r: PutRequest): Reply {
    if callerId !in w.users then Reply(UnAuthorized, w)
    else if r.target == "" then Reply(BadRequest(MissingUserID), w)
    else if r.target !in w.users then Reply(NotFound, w)
    else
      var caller, existing := w.users[callerId], w.users[r.target];
      if !Acl.CanModifyUserRecord(caller, existing) then Reply(UnAuthorized, w)
      else if r.resetMFA then
        if !Acl.CanResetUserMFA(caller, existing) then Reply(UnAuthorized, w)
        else if !r.dbOk then Reply(BadRequest(RecordNotUpdated), w)
        else Reply(OK, w.(users := w.users[r.target := ResetMFA(caller, existing, r.now)]))
      else if r.forgotPassword then Reply(OK, w.(links := w.links + [NewLink(UserForgotPassword, existing.id, r.now)]))
      else match Prepare(caller, r, existing)
        case Stop(status) => Reply(status, w)
        case Go(u) =>
          var m := ApplyMfaChange(cfg, w.totp, w.sms, caller, r, u.ext);
          var v := w.(totp := m.totp, links := w.links + EmailCheckLink(r.verifyEmail, existing.id, r.now));
          if m.error.Some? then Reply(BadRequest(m.error.value), v)
          else if !r.dbOk then Reply(BadRequest(RecordNotUpdated), v)
          else Reply(OK, v.(users := w.users[r.target := u.(ext := m.ext, modified := r.now)]))
  }

  // ---------- Delete ----------

  /** Deleting a user announces its API keys as removed, but leaves their rows in the key table. */
  function Delete(w: World, callerId: UserId, target: UserId, dbOk: bool): Reply {
    if callerId !in w.users then Reply(UnAuthorized, w)
    else if target == "" then Reply(BadRequest(MissingUserID), w)
    else if target !in w.users then Reply(NotFound, w)
    else if !Acl.CanDeleteUserRecord(w.users[callerId], w.users[target]) then Reply(UnAuthorized, w)
    else if !dbOk then Reply(NotFound, w)
    else Reply(OK, w.(users := w.users - {target}))
  }

  // ---------- API keys ----------

  const KEY_PAGE: nat := 500
  const MAX_KEYS: nat := 10

  /** The rows of one owner, in table order. */
  function KeysOf(keys: seq<ApiKey>, owner: UserId): seq<ApiKey> {
    if keys == [] then []
    else (if keys[0].userUuid == owner then [keys[0]] else []) + KeysOf(keys[1..], owner)
  }

  /** What a query for an owner's keys returns: the first rows, up to the page size. */
  function KeyPage(keys: seq<ApiKey>, owner: UserId): seq<ApiKey> {
    var all := KeysOf(keys, owner);
    if |all| <= KEY_PAGE then all else all[..KEY_PAGE]
  }

  predicate HasName(keys: seq<ApiKey>, name: string) {
    exists i :: 0 <= i < |keys| && keys[i].name == name
  }

  /** The position of a key id in the table, or its length. */
  function FindKey(keys: seq<ApiKey>, id: string): (i: nat)
    ensures i <= |keys|
    ensures i < |keys| ==> keys[i].id == id
    ensures forall k :: 0 <= k < i ==> keys[k].id != id
  {
    if keys == [] || keys[0].id == id then 0 else 1 + FindKey(keys[1..], id)
  }

  /** `pageOk` is the verdict of the database on reading the owner's keys; a refused read looks like no keys. */
  datatype KeyPostRequest = KeyPostRequest(owner: UserId, parsed: bool, name: string, alphaNumeric: bool, description: string,
                                           expiresOn: u64, freshId: string, pageOk: bool, dbOk: bool, now: u64)

  datatype KeyPutRequest = KeyPutRequest(owner: UserId, parsed: bool, keyId: string, description: Option<string>, dbOk: bool)

  /** The database's verdict on deleting the row does not show in the answer. */
  datatype KeyDeleteRequest = KeyDeleteRequest(owner: UserId, keyId: string, dbOk: bool)

  /** Only the user itself or a ROOT user works on a user's keys. */
  predicate MayUseKeysOf(w: World, callerId: UserId, owner: UserId)
    requires callerId in w.users
  {
    owner == callerId || w.users[callerId].userRole == ROOT
  }

  function KeyPost(w: World, callerId: UserId, r: KeyPostRequest): Reply {
    if callerId !in w.users then Reply(UnAuthorized, w)
    else if r.owner == "" then Reply(BadRequest(MissingOrInvalidParameters), w)
    else if !MayUseKeysOf(w, callerId, r.owner) then Reply(UnAuthorized, w)
    else if r.owner !in w.users then Reply(BadRequest(UserMustExist), w)
    else if !r.parsed then Reply(BadRequest(InvalidJSONDocument), w)
    else if !r.alphaNumeric || r.name == "" || r.expiresOn < r.now then Reply(BadRequest(MissingOrInvalidParameters), w)
    else
      var existing := if r.pageOk then KeyPage(w.keys, r.owner) else [];
      var name := Text.ToLower(r.name);
      if HasName(existing, name) then Reply(BadRequest(ApiKeyNameAlreadyExists), w)
      else if |existing| >= MAX_KEYS then Reply(BadRequest(TooManyApiKeys), w)
      else if !r.dbOk then Reply(BadRequest(RecordNotCreated), w)
      else
        var key := ApiKey(r.freshId, r.owner, name, r.description, r.expiresOn, r.now, 0);
        Reply(OK, w.(keys := w.keys + [key]))
  }

  function KeyPut(w: World, callerId: UserId, r: KeyPutRequest): Reply {
    if callerId !in w.users then Reply(UnAuthorized, w)
    else if r.owner == "" then Reply(BadRequest(MissingOrInvalidParameters), w)
    else if !MayUseKeysOf(w, callerId, r.owner) then Reply(UnAuthorized, w)
    else if !r.parsed then Reply(BadRequest(InvalidJSONDocument), w)
    else
      var i := FindKey(w.keys, r.keyId);
      if i == |w.keys| then Reply(BadRequest(ApiKeyDoesNotExist), w)
      else if w.keys[i].userUuid != r.owner then Reply(BadRequest(MissingUserID), w)
      else if !r.dbOk then Reply(BadRequest(RecordNotUpdated), w)
      else if r.description.None? then Reply(OK, w)
      else Reply(OK, w.(keys := w.keys[i := w.keys[i].(description := r.description.value)]))
  }

  function KeyDelete(w: World, callerId: UserId, r: KeyDeleteRequest): Reply {
    if callerId !in w.users then Reply(UnAuthorized, w)
    else if r.owner == "" then Reply(BadRequest(MissingOrInvalidParameters), w)
    else if !MayUseKeysOf(w, callerId, r.owner) then Reply(UnAuthorized, w)
    else if r.owner !in w.users then Reply(NotFound, w)
    else if r.keyId == "" then Reply(BadRequest(MissingOrInvalidParameters), w)
    else
      var i := FindKey(w.keys, r.keyId);
      if i == |w.keys| then Reply(NotFound, w)
      else if w.keys[i].userUuid != r.owner then Reply(BadRequest(MissingOrInvalidParameters), w)
      else Reply(OK, if r.dbOk then w.(keys := w.keys[..i] + w.keys[i + 1..]) else w)
  }

  // ---------- All requests ----------

  datatype Request =
    | CreateUser(caller: UserId, create: CreateRequest)
    | PutUser(caller: UserId, put: PutRequest)
    | DeleteUser(caller: UserId, target: UserId, dbOk: bool)
    | Enrol(totp: Totp.Event)   // all other uses of the enrolment cache, the subscriber handler's completions included
    | Telephone(sms: Sms.Event) // telephone validation requests
    | PostKey(caller: UserId, post: KeyPostRequest)
    | PutKey(caller: UserId, change: KeyPutRequest)
    | DeleteKey(caller: UserId, delete: KeyDeleteRequest)

  function Serve(cfg: Config, w: World, r: Request): Reply {
    match r
    case CreateUser(caller, create) => Create(w, caller, create)
    case PutUser(caller, put) => Put(cfg, w, caller, put)
    case DeleteUser(caller, target, dbOk) => Delete(w, caller, target, dbOk)
    case Enrol(ev) => Reply(OK, w.(totp := Totp.Next(cfg.totp, w.totp, ev)))
    case Telephone(ev) => Reply(OK, w.(sms := Sms.Next(cfg.smsEnabled, w.sms, ev)))
    case PostKey(caller, post) => KeyPost(w, caller, post)
    case PutKey(caller, change) => KeyPut(w, caller, change)
    case DeleteKey(caller, delete) => KeyDelete(w, caller, delete)
  }

  function After(cfg: Config, w: World, run: seq<Request>): World {
    if run == [] then w else Serve(cfg, After(cfg, w, Front(run)), Last(run)).world
  }

  /** Ids come from a generator that never repeats itself. */
  predicate FreshIds(w: World, r: Request) {
    match r
    case CreateUser(_, create) => create.freshId != "" && create.freshId !in w.issued
    case PostKey(_, post) => forall i :: 0 <= i < |w.keys| ==> w.keys[i].id != post.freshId
    case _ => true
  }

  /** Every request of the run is one the service can receive in its state. */
  predicate Legal(cfg: Config, w: World, run: seq<Request>) {
    run == [] || (Legal(cfg, w, Front(run)) && FreshIds(After(cfg, w, Front(run)), Last(run)))
  }
}
