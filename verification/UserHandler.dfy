/** The request handlers themselves, changing the tables and the caches step by step. */
module UserHandler {
  import opened Common
  import opened SecurityObjects
  import opened UserStore
  import Acl = AclProcessor
  import Sms = SmsSender
  import Text
  import Totp = TotpCache
  import UserSafety

  class Handler {
    const cfg: Config
    const totp: Totp.Totp
    const sms: Sms.Sender
    var users: map<UserId, UserInfo>
    var issued: seq<UserId>
    var keys: seq<ApiKey>
    var links: seq<Link>

    ghost predicate Valid() {
      totp.cfg == cfg.totp && sms.enabled == cfg.smsEnabled
    }

    ghost function View(): World
      reads this, totp, sms
    {
      World(users, issued, totp.cache, sms.cache, keys, links)
    }

    constructor (cfg: Config, users: map<UserId, UserInfo>, issued: seq<UserId>)
      ensures Valid() && this.cfg == cfg && View() == World(users, issued, map[], [], [], [])
      ensures fresh(totp) && fresh(sms)
    {
      this.cfg := cfg;
      totp := new Totp.Totp(cfg.totp);
      sms := new Sms.Sender(cfg.smsEnabled);
      this.users, this.issued, keys, links := users, issued, [], [];
    }

    /** The table's own create: an address is taken once, and the row gets its id and its time stamps. */
    method CreateUser(u: UserInfo, r: CreateRequest) returns (ok: bool, u': UserInfo)
      modifies this`users, this`issued
      ensures ok == (r.dbOk && !EmailTaken(old(users), Text.ToLower(u.email)))
      ensures u' == Stamped(u, r)
      ensures users == if ok then old(users)[r.freshId := u'] else old(users)
      ensures issued == if ok then old(issued) + [r.freshId] else old(issued)
    {
      u' := u.(email := Text.ToLower(u.email), id := r.freshId, modified := r.now);
      if u'.currentPassword != "" {
        u' := u'.(currentPassword := r.sealed, lastPasswords := [r.sealed], lastPasswordChange := r.now, validated := true);
      }
      if EmailTaken(users, u'.email) {
        return false, u';
      }
      if !r.dbOk {
        return false, u';
      }
      users := users[r.freshId := u'];
      issued := issued + [r.freshId];
      return true, u';
    }

    /** What the service decides about a new record, whatever the body says. */
    method FillNewUser(caller: UserInfo, r: CreateRequest) returns (u: UserInfo)
      ensures u == NewUser(caller, r)
    {
      hide Text.ToLower;
      u := r.body.(createdBy := caller.id);
      if caller.userRole == ROOT {
        u := u.(owner := r.entity);
      } else {
        u := u.(owner := caller.owner);
      }
      u := u.(email := Text.ToLower(u.email));
      if u.name == "" {
        u := u.(name := u.email);
      }
      u := u.(ext := LoginExtensions(MfaConfig(false, NO_METHOD), [], ""), validated := true);
    }

    /** The checks of a create request before the table. */
    method CheckNewUser(caller: UserInfo, r: CreateRequest) returns (stop: Option<Status>)
      ensures stop == CreateError(map[], caller, r.(dbOk := true))
    {
      hide Acl.CanCreateUserRecord, Text.ToLower, EmailTaken;
      NoneTaken(Text.ToLower(r.body.email));
      if r.pathId != "0" {
        return Some(BadRequest(IdMustBe0));
      }
      if !r.parsed {
        return Some(BadRequest(InvalidJSONDocument));
      }
      if r.body.userRole == UNKNOWN {
        return Some(BadRequest(InvalidUserRole));
      }
      if !Acl.CanCreateUserRecord(caller, r.body) {
        return Some(UnAuthorized);
      }
      if !r.emailOk {
        return Some(BadRequest(InvalidEmailAddress));
      }
      if r.subscriberExists {
        return Some(BadRequest(UserAlreadyExists));
      }
      if r.body.currentPassword != "" {
        if !r.passwordOk {
          return Some(BadRequest(InvalidPassword));
        }
      }
      return None;
    }

    /** Stores a link for the check of an address, and returns the record as it is to be stored then. */
    method VerifyEmail(u: UserInfo, now: u64) returns (u': UserInfo)
      modifies this`links
      ensures links == old(links) + EmailCheckLink(true, u.id, now)
      ensures u' == u.(waitingForEmailCheck := true, validated := false)
    {
      links := links + [NewLink(UserEmailCheck, u.id, now)];
      return u.(waitingForEmailCheck := true, validated := false);
    }

    method DoPost(callerId: UserId, r: CreateRequest) returns (status: Status)
      requires Valid()
      modifies this`users, this`issued, this`links
      ensures Reply(status, View()) == Create(old(View()), callerId, r)
    {
      hide Text.ToLower, NewUser, Stamped, EmailTaken, Acl.CanCreateUserRecord;
      if callerId !in users {
        return UnAuthorized;
      }
      var caller := users[callerId];
      NoneTaken(Text.ToLower(r.body.email));
      var stop := CheckNewUser(caller, r);
      if stop.Some? {
        return stop.value;
      }
      var newUser := FillNewUser(caller, r);
      Text.ToLowerIdempotent(r.body.email);
      assert newUser.email == Text.ToLower(r.body.email) by { NewUserEmail(caller, r); }
      var created;
      created, newUser := CreateUser(newUser, r);
      if !created {
        return BadRequest(RecordNotCreated);
      }
      if r.verifyEmail {
        StampedId(NewUser(caller, r), r);
        newUser := VerifyEmail(newUser, r.now);
        users := users[r.freshId := newUser];
      }
      return OK;
    }

    /** The second-factor part of a modify request, on the login extensions of the record in hand. */
    method ApplyMfa(caller: UserInfo, r: PutRequest, ext: LoginExtensions) returns (error: Option<Error>, ext': LoginExtensions)
      requires Valid()
      modifies totp
      ensures var m := ApplyMfaChange(cfg, old(totp.cache), sms.cache, caller, r, ext);
        error == m.error && totp.cache == m.totp && (error.None? ==> ext' == m.ext)
    {
      ext' := ext;
      if "userTypeProprietaryInfo" !in r.keys {
        return None, ext';
      }
      if r.ext.mfa.enabled {
        if !KnownMethod(r.ext.mfa.channel) {
          return Some(BadMFAMethod), ext';
        }
        if r.ext.mfa.channel == SMS && !sms.enabled {
          return Some(SMSMFANotEnabled), ext';
        }
        if r.ext.mfa.channel == EMAIL && !cfg.mailEnabled {
          return Some(EMailMFANotEnabled), ext';
        }
        ext' := ext'.(mfa := MfaConfig(true, r.ext.mfa.channel));
        if r.ext.mfa.channel == SMS {
          if r.ext.mobiles == [] {
            return Some(NeedMobileNumber), ext';
          }
          var valid := sms.IsNumberValid(r.ext.mobiles[0].number, caller.email);
          if !valid {
            return Some(NeedMobileNumber), ext';
          }
          var mobiles := r.ext.mobiles;
          ext' := ext'.(mobiles := mobiles[0 := mobiles[0].(verified := true)], authenticatorSecret := "");
        } else if r.ext.mfa.channel == AUTHENTICATOR {
          ext' := ext'.(mobiles := []);
          if ext'.authenticatorSecret == "" {
            var secret := totp.CompleteValidation(caller.id, false, r.now);
            if secret.None? {
              return Some(AuthenticatorVerificationIncomplete), ext';
            }
            ext' := ext'.(authenticatorSecret := secret.value);
          }
        } else if r.ext.mfa.channel == EMAIL {
          ext' := ext'.(mobiles := [], authenticatorSecret := "");
        }
      } else {
        ext' := LoginExtensions(ext'.mfa.(enabled := false), [], "");
      }
      return None, ext';
    }

    /** The new value of a field: the body's, if the body names the field. */
    static method AssignIfPresent<T>(keys: set<string>, key: string, value: T, current: T) returns (v: T)
      ensures v == if key in keys then value else current
    {
      if key in keys {
        return value;
      }
      return current;
    }

    method AssignOwner(caller: UserInfo, r: PutRequest, existing: UserInfo) returns (u: UserInfo)
      ensures u == ApplyOwnerUpdate(caller, r, existing) && u.id == existing.id
    {
      u := existing;
      if "owner" in r.keys && caller.userRole == ROOT && u.owner == "" {
        u := u.(owner := r.owner);
      }
    }

    method AssignProfile(r: PutRequest, existing: UserInfo) returns (u: UserInfo)
      ensures u == ApplyProfileFields(r, existing) && u.id == existing.id
    {
      var name := AssignIfPresent(r.keys, "name", r.name, existing.name);
      u := existing.(name := name);
      var description := AssignIfPresent(r.keys, "description", r.description, u.description);
      u := u.(description := description);
      var location := AssignIfPresent(r.keys, "location", r.location, u.location);
      u := u.(location := location);
      var locale := AssignIfPresent(r.keys, "locale", r.locale, u.locale);
      u := u.(locale := locale);
      var changePassword := AssignIfPresent(r.keys, "changePassword", r.changePassword, u.changePassword);
      u := u.(changePassword := changePassword);
    }

    method AssignStatus(r: PutRequest, existing: UserInfo) returns (u: UserInfo)
      ensures u == ApplyAdminStatusFields(r, existing) && u.id == existing.id
    {
      var suspended := AssignIfPresent(r.keys, "suspended", r.suspended, existing.suspended);
      u := existing.(suspended := suspended);
      var blackListed := AssignIfPresent(r.keys, "blackListed", r.blackListed, u.blackListed);
      u := u.(blackListed := blackListed);
    }

    method ChangeRole(caller: UserInfo, r: PutRequest, existing: UserInfo) returns (ok: bool, u: UserInfo)
      ensures (if ok then Some(u) else None) == ApplyRoleChange(caller, r, existing) && u.id == existing.id
    {
      u := existing;
      if "userRole" !in r.keys {
        return true, u;
      }
      if r.userRole != u.userRole {
        if !Acl.CanChangeUserRole(caller, u, r.userRole) {
          return false, u;
        }
        u := u.(userRole := r.userRole);
      }
      return true, u;
    }

    /** Every note of the body is added at the end, signed by the caller and with the time of the request. */
    method AddNotes(caller: UserInfo, r: PutRequest, existing: UserInfo) returns (u: UserInfo)
      ensures u == AppendNotes(caller, r, existing) && u.id == existing.id
    {
      u := existing;
      if "notes" !in r.keys {
        return;
      }
      for i := 0 to |r.notes|
        invariant u == existing.(notes := u.notes)
        invariant u.notes == existing.notes + seq(i, k requires 0 <= k < |r.notes| => Note(r.now, caller.email, r.notes[k]))
      {
        u := u.(notes := u.notes + [Note(r.now, caller.email, r.notes[i])]);
      }
    }

    method ChangePassword(r: PutRequest, existing: UserInfo) returns (error: Option<Error>, u: UserInfo)
      ensures error == PasswordError(r)
      ensures error.None? ==> u == ApplyPasswordChange(r, existing) && u.id == existing.id
    {
      u := existing;
      if "currentPassword" !in r.keys {
        return None, u;
      }
      match r.password
      case Invalid => return Some(InvalidPassword), u;
      case Rejected => return Some(PasswordRejected), u;
      case Raised => return Some(InternalError), u;
      case Applied(current, last) =>
        u := u.(email := Text.ToLower(u.email), currentPassword := current, lastPasswords := last, changePassword := false);
        return None, u;
    }

    /**
     The part of a modify request between its checks and the second factor, on the record in hand. What it
     hands on has the same id, creator and second factors, a role that the caller may give, and for a
     self-service caller the same standing; and the link of an address check is stored exactly then.
     */
    method ApplyFields(caller: UserInfo, r: PutRequest, existing: UserInfo) returns (res: Prepared)
      modifies this`links
      ensures res == Prepare(caller, r, existing)
      ensures res.Go? ==>
        && res.user.id == existing.id && res.user.createdBy == existing.createdBy && res.user.ext == existing.ext
        && (res.user.userRole == existing.userRole || Acl.CanChangeUserRole(caller, existing, res.user.userRole))
        && (IsSelfServiceCaller(caller) ==> UserSafety.SameStanding(existing, res.user))
      ensures links == old(links) + if res.Go? then EmailCheckLink(r.verifyEmail, existing.id, r.now) else []
    {
      hide ApplyOwnerUpdate, ApplyProfileFields, ApplyAdminStatusFields, ApplyRoleChange, AppendNotes, PasswordError,
        ApplyPasswordChange, ValidateUpdatePayload, HasOnlyAllowedSelfServiceFields, Acl.CanChangeUserRole,
        UserSafety.SameStanding, NewLink;
      if !r.parsed {
        return Stop(BadRequest(InvalidJSONDocument));
      }
      if !ValidateUpdatePayload(r) {
        return Stop(BadRequest(InvalidUserRole));
      }
      if IsSelfServiceCaller(caller) && !HasOnlyAllowedSelfServiceFields(r) {
        return Stop(UnAuthorized);
      }
      var u := AssignOwner(caller, r, existing);
      u := AssignProfile(r, u);
      u := AssignStatus(r, u);
      var allowed;
      allowed, u := ChangeRole(caller, r, u);
      if !allowed {
        return Stop(UnAuthorized);
      }
      u := AddNotes(caller, r, u);
      var error;
      error, u := ChangePassword(r, u);
      if error.Some? {
        return Stop(BadRequest(error.value));
      }
      if r.verifyEmail {
        u := VerifyEmail(u, r.now);
      }
      assert Go(u) == Prepare(caller, r, existing);
      UserSafety.PrepareEffect(caller, r, existing);
      return Go(u);
    }

    method DoPut(callerId: UserId, r: PutRequest) returns (status: Status)
      requires Valid()
      modifies this`users, this`links, totp
      ensures Reply(status, View()) == Put(cfg, old(View()), callerId, r)
    {
      hide Prepare, ApplyMfaChange, Acl.CanModifyUserRecord, Acl.CanResetUserMFA;
      if callerId !in users {
        return UnAuthorized;
      }
      var caller := users[callerId];
      if r.target == "" {
        return BadRequest(MissingUserID);
      }
      if r.target !in users {
        return NotFound;
      }
      var existing := users[r.target];
      if !Acl.CanModifyUserRecord(caller, existing) {
        return UnAuthorized;
      }
      if r.resetMFA {
        if !Acl.CanResetUserMFA(caller, existing) {
          return UnAuthorized;
        }
        existing := ResetMFA(caller, existing, r.now);
        if !r.dbOk {
          return BadRequest(RecordNotUpdated);
        }
        users := users[r.target := existing];
        return OK;
      }
      if r.forgotPassword {
        links := links + [NewLink(UserForgotPassword, existing.id, r.now)];
        return OK;
      }
      var prepared := ApplyFields(caller, r, existing);
      if prepared.Stop? {
        assert links == old(links);
        return prepared.status;
      }
      var error, ext := ApplyMfa(caller, r, prepared.user.ext);
      if error.Some? {
        return BadRequest(error.value);
      }
      var u := prepared.user.(ext := ext, modified := r.now);
      if !r.dbOk {
        return BadRequest(RecordNotUpdated);
      }
      users := users[r.target := u];
      return OK;
    }

    method DoDelete(callerId: UserId, target: UserId, dbOk: bool) returns (status: Status)
      requires Valid()
      modifies this`users
      ensures Reply(status, View()) == Delete(old(View()), callerId, target, dbOk)
    {
      if callerId !in users {
        return UnAuthorized;
      }
      if target == "" {
        return BadRequest(MissingUserID);
      }
      if target !in users {
        return NotFound;
      }
      if !Acl.CanDeleteUserRecord(users[callerId], users[target]) {
        return UnAuthorized;
      }
      if !dbOk {
        return NotFound;
      }
      users := users - {target};
      return OK;
    }

    method PostKey(callerId: UserId, r: KeyPostRequest) returns (status: Status)
      requires Valid()
      modifies this`keys
      ensures Reply(status, View()) == KeyPost(old(View()), callerId, r)
    {
      if callerId !in users {
        return UnAuthorized;
      }
      if r.owner == "" {
        return BadRequest(MissingOrInvalidParameters);
      }
      if r.owner != callerId && users[callerId].userRole != ROOT {
        return UnAuthorized;
      }
      if r.owner != callerId {
        if r.owner !in users {
          return BadRequest(UserMustExist);
        }
      }
      if !r.parsed {
        return BadRequest(InvalidJSONDocument);
      }
      var newKey := ApiKey(r.freshId, r.owner, r.name, r.description, r.expiresOn, r.now, 0);
      if !r.alphaNumeric || newKey.name == "" {
        return BadRequest(MissingOrInvalidParameters);
      }
      newKey := newKey.(name := Text.ToLower(newKey.name));
      if newKey.expiresOn < r.now {
        return BadRequest(MissingOrInvalidParameters);
      }
      var existing: seq<ApiKey> := [];
      if r.pageOk {
        existing := KeyPage(keys, r.owner);
      }
      if HasName(existing, newKey.name) {
        return BadRequest(ApiKeyNameAlreadyExists);
      }
      if |existing| >= MAX_KEYS {
        return BadRequest(TooManyApiKeys);
      }
      if !r.dbOk {
        return BadRequest(RecordNotCreated);
      }
      keys := keys + [newKey];
      return OK;
    }

    method PutKey(callerId: UserId, r: KeyPutRequest) returns (status: Status)
      requires Valid()
      modifies this`keys
      ensures Reply(status, View()) == KeyPut(old(View()), callerId, r)
    {
      if callerId !in users {
        return UnAuthorized;
      }
      if r.owner == "" {
        return BadRequest(MissingOrInvalidParameters);
      }
      if r.owner != callerId && users[callerId].userRole != ROOT {
        return UnAuthorized;
      }
      if !r.parsed {
        return BadRequest(InvalidJSONDocument);
      }
      var i := FindKey(keys, r.keyId);
      if i == |keys| {
        return BadRequest(ApiKeyDoesNotExist);
      }
      var existing := keys[i];
      if existing.userUuid != r.owner {
        return BadRequest(MissingUserID);
      }
      if r.description.Some? {
        existing := existing.(description := r.description.value);
      }
      if !r.dbOk {
        return BadRequest(RecordNotUpdated);
      }
      keys := keys[i := existing];
      return OK;
    }

    method DeleteKey(callerId: UserId, r: KeyDeleteRequest) returns (status: Status)
      requires Valid()
      modifies this`keys
      ensures Reply(status, View()) == KeyDelete(old(View()), callerId, r)
    {
      if callerId !in users {
        return UnAuthorized;
      }
      if r.owner == "" {
        return BadRequest(MissingOrInvalidParameters);
      }
      if r.owner != callerId && users[callerId].userRole != ROOT {
        return UnAuthorized;
      }
      if r.owner != callerId {
        if r.owner !in users {
          return NotFound;
        }
      }
      if r.keyId == "" {
        return BadRequest(MissingOrInvalidParameters);
      }
      var i := FindKey(keys, r.keyId);
      if i == |keys| {
        return NotFound;
      }
      if keys[i].userUuid != r.owner {
        return BadRequest(MissingOrInvalidParameters);
      }
      if r.dbOk {
        keys := keys[..i] + keys[i + 1..];
      }
      return OK;
    }
  }

  lemma NoneTaken(email: string)
    ensures !EmailTaken(map[], email)
  {
  }

  lemma StampedId(u: UserInfo, r: CreateRequest)
    ensures Stamped(u, r).id == r.freshId
  {
  }

  lemma NewUserEmail(caller: UserInfo, r: CreateRequest)
    ensures NewUser(caller, r).email == Text.ToLower(r.body.email)
    ensures NewUser(caller, r).currentPassword == r.body.currentPassword
  {
  }
}
