/**
 Which requests on the user table are accepted, in terms of roles, records and what the body names, and
 what an accepted request leaves behind.
 */
module UserEffects {
  import opened Common
  import opened SecurityObjects
  import opened UserStore
  import opened UserSafety
  import Acl = AclProcessor
  import Sms = SmsSender
  import Text
  import Totp = TotpCache

  // ---------- Create ----------

  /** A ROOT user creates any known role, an ADMIN any but ROOT and PARTNER, nobody else any; and addresses are taken once. */
  lemma CreateAcceptedIff(w: World, callerId: UserId, r: CreateRequest)
    requires callerId in w.users
    ensures Create(w, callerId, r).status == OK <==>
      var role := w.users[callerId].userRole;
      && r.pathId == "0" && r.parsed && r.body.userRole != UNKNOWN
      && (role == ROOT || (role == ADMIN && r.body.userRole != ROOT && r.body.userRole != PARTNER))
      && r.emailOk && !r.subscriberExists && (r.body.currentPassword == "" || r.passwordOk)
      && (forall id :: id in w.users ==> w.users[id].email != Text.ToLower(r.body.email)) && r.dbOk
  {
    hide Text.ToLower, CreatedRecord;
  }

  /**
   The record that an accepted create request stores: creator and owner come from the caller, there is no
   second factor, a password is sealed and dated, an address check makes it wait, and everything else is
   the body's.
   */
  lemma CreatedRecordIs(w: World, callerId: UserId, r: CreateRequest)
    requires callerId in w.users && Create(w, callerId, r).status == OK
    ensures var w', caller := Create(w, callerId, r).world, w.users[callerId];
      && r.freshId in w'.users && w'.users == w.users[r.freshId := w'.users[r.freshId]]
      && w'.issued == w.issued + [r.freshId]
      && w'.links == w.links + (if r.verifyEmail then [Link(VERIFY_EMAIL, r.freshId, r.now, r.now + 86400, 0, 0, 0, true)] else [])
      && var v, email := w'.users[r.freshId], Text.ToLower(r.body.email);
        v == r.body.(
          id := r.freshId, createdBy := caller.id, email := email,
          owner := if caller.userRole == ROOT then r.entity else caller.owner,
          name := if r.body.name == "" then email else r.body.name,
          ext := LoginExtensions(MfaConfig(false, Other("")), [], ""),
          validated := !r.verifyEmail, waitingForEmailCheck := r.verifyEmail || r.body.waitingForEmailCheck,
          currentPassword := if r.body.currentPassword == "" then "" else r.sealed,
          lastPasswords := if r.body.currentPassword == "" then r.body.lastPasswords else [r.sealed],
          lastPasswordChange := if r.body.currentPassword == "" then r.body.lastPasswordChange else r.now,
          modified := r.now)
  {
    Text.ToLowerIdempotent(r.body.email);
    hide Text.ToLower, EmailTaken, Acl.CanCreateUserRecord;
  }

  // ---------- Modify ----------

  /** A ROOT user changes every record; others their own, unless it is a ROOT one; an ADMIN also the non-ROOT records it created. */
  predicate MayModify(caller: UserInfo, u: UserInfo) {
    caller.userRole == ROOT ||
    (u.userRole != ROOT &&
     (caller.id == u.id || (caller.userRole == ADMIN && u.createdBy != "" && u.createdBy == caller.id)))
  }

  predicate MayGiveRole(caller: UserInfo, u: UserInfo, role: Role) {
    caller.id != u.id &&
    (caller.userRole == ROOT ||
     (caller.userRole == ADMIN && role != ROOT && u.userRole != ROOT && u.createdBy != "" && u.createdBy == caller.id))
  }

  /** What a body may name if its caller is neither ROOT nor ADMIN. */
  predicate OwnFieldsOnly(r: PutRequest) {
    forall key :: key in r.keys ==>
      key == "name" || key == "description" || key == "location" || key == "locale" || key == "changePassword" ||
      key == "currentPassword" || key == "userTypeProprietaryInfo"
  }

  /** A factor that is turned on must be at hand: its service runs, and its number or secret is proved. */
  predicate FactorAtHand(cfg: Config, w: World, caller: UserInfo, r: PutRequest, ext: LoginExtensions) {
    "userTypeProprietaryInfo" in r.keys && r.ext.mfa.enabled ==>
      || (r.ext.mfa.channel == SMS && cfg.smsEnabled && r.ext.mobiles != [] &&
          Sms.NumberValid(w.sms, r.ext.mobiles[0].number, caller.email))
      || (r.ext.mfa.channel == EMAIL && cfg.mailEnabled)
      || (r.ext.mfa.channel == AUTHENTICATOR &&
          (ext.authenticatorSecret != "" || Totp.Releases(w.totp, Totp.CompleteValidation(caller.id, false, r.now))))
  }

  /**
   When the second-factor part accepts, and what it leaves: the factor is on exactly if the body turns it
   on, with the body's method and exactly the data of that method; a body that does not name the factor
   leaves it alone.
   */
  lemma FactorOutcome(cfg: Config, w: World, caller: UserInfo, r: PutRequest, ext: LoginExtensions)
    ensures var m := ApplyMfaChange(cfg, w.totp, w.sms, caller, r, ext);
      && (m.error.None? <==> FactorAtHand(cfg, w, caller, r, ext))
      && ("userTypeProprietaryInfo" !in r.keys ==> m.ext == ext)
      && ("userTypeProprietaryInfo" in r.keys && m.error.None? ==>
            var on := r.ext.mfa.enabled;
            && m.ext.mfa.enabled == on && m.ext.mfa.channel == (if on then r.ext.mfa.channel else ext.mfa.channel)
            && m.ext.mobiles == (if on && r.ext.mfa.channel == SMS
                                 then [r.ext.mobiles[0].(verified := true)] + r.ext.mobiles[1..] else [])
            && m.ext.authenticatorSecret ==
                 (if !on || r.ext.mfa.channel != AUTHENTICATOR then ""
                  else if ext.authenticatorSecret != "" then ext.authenticatorSecret else w.totp[caller.id].secret))
  {
    hide Sms.NumberValid, Totp.Next, Totp.Releases;
    if Totp.Releases(w.totp, Totp.CompleteValidation(caller.id, false, r.now)) {
      ReleasedIsCached(w.totp, caller.id, r.now);
    }
  }

  lemma ReleasedIsCached(cache: Totp.Cache, id: UserId, now: u64)
    requires Totp.Releases(cache, Totp.CompleteValidation(id, false, now))
    ensures id in cache
  {
  }

  lemma AclIs(caller: UserInfo, u: UserInfo, role: Role)
    ensures Acl.CanModifyUserRecord(caller, u) <==> MayModify(caller, u)
    ensures Acl.CanResetUserMFA(caller, u) <==> MayModify(caller, u)
    ensures Acl.CanChangeUserRole(caller, u, role) <==> MayGiveRole(caller, u, role)
    ensures IsSelfServiceCaller(caller) <==> caller.userRole != ROOT && caller.userRole != ADMIN
  {
  }

  lemma OwnFieldsIff(r: PutRequest)
    ensures HasOnlyAllowedSelfServiceFields(r) <==> OwnFieldsOnly(r)
  {
  }

  predicate FieldsAllowed(caller: UserInfo, r: PutRequest, u: UserInfo) {
    && r.parsed && !("userRole" in r.keys && r.userRole == UNKNOWN)
    && (caller.userRole != ROOT && caller.userRole != ADMIN ==> OwnFieldsOnly(r))
    && ("userRole" in r.keys && r.userRole != u.userRole ==> MayGiveRole(caller, u, r.userRole))
    && ("currentPassword" in r.keys ==> r.password.Applied?)
  }

  lemma PrepareIff(caller: UserInfo, r: PutRequest, u: UserInfo)
    ensures Prepare(caller, r, u).Go? <==> FieldsAllowed(caller, r, u)
    ensures Prepare(caller, r, u).Stop? ==> Prepare(caller, r, u).status != OK
    ensures Prepare(caller, r, u).Go? ==> Prepare(caller, r, u).user.ext == u.ext
  {
    hide ApplyAdminStatusFields, ApplyProfileFields, ApplyOwnerUpdate, ApplyPasswordChange, AppendNotes, ApplyRoleChange,
      Acl.CanChangeUserRole, HasOnlyAllowedSelfServiceFields, OwnFieldsOnly, MayGiveRole;
    EarlyChanges(caller, r, u);
    var early := ApplyAdminStatusFields(r, ApplyProfileFields(r, ApplyOwnerUpdate(caller, r, u)));
    RoleApplied(caller, r, u, early);
    AclIs(caller, u, r.userRole);
    OwnFieldsIff(r);
    if Prepare(caller, r, u).Go? {
      PrepareEffect(caller, r, u);
    }
  }

  /** Exactly which modify requests are accepted. */
  lemma PutAcceptedIff(cfg: Config, w: World, callerId: UserId, r: PutRequest)
    requires callerId in w.users
    ensures Put(cfg, w, callerId, r).status == OK <==>
      && r.target != "" && r.target in w.users
      && var caller, u := w.users[callerId], w.users[r.target];
        && MayModify(caller, u)
        && (if r.resetMFA then r.dbOk
            else r.forgotPassword || (FieldsAllowed(caller, r, u) && FactorAtHand(cfg, w, caller, r, u.ext) && r.dbOk))
  {
    if r.target in w.users {
      var caller, u := w.users[callerId], w.users[r.target];
      AclIs(caller, u, r.userRole);
      PrepareIff(caller, r, u);
      FactorOutcome(cfg, w, caller, r, u.ext);
    }
    hide Prepare, ApplyMfaChange, Acl.CanModifyUserRecord, Acl.CanResetUserMFA, MayModify, FieldsAllowed, FactorAtHand;
  }

  /** The new value of a field: the body's, if the body names the field. */
  function Named<T>(r: PutRequest, key: string, value: T, current: T): T {
    if key in r.keys then value else current
  }

  /**
   What an accepted modify request leaves of its target. Fields the body names take its values, the others
   stay; the owner is set once, by a ROOT user; notes are added; a new password becomes the password and
   the history; an address check makes the record wait.
   */
  lemma PutLeaves(cfg: Config, w: World, callerId: UserId, r: PutRequest)
    requires callerId in w.users && Put(cfg, w, callerId, r).status == OK && !r.resetMFA && !r.forgotPassword
    ensures r.target in w.users && r.target in Put(cfg, w, callerId, r).world.users
    ensures Put(cfg, w, callerId, r).world.links == w.links +
      if r.verifyEmail then [Link(VERIFY_EMAIL, w.users[r.target].id, r.now, r.now + 86400, 0, 0, 0, true)] else []
    ensures var caller, u, v := w.users[callerId], w.users[r.target], Put(cfg, w, callerId, r).world.users[r.target];
      && v.name == Named(r, "name", r.name, u.name) && v.description == Named(r, "description", r.description, u.description)
      && v.location == Named(r, "location", r.location, u.location) && v.locale == Named(r, "locale", r.locale, u.locale)
      && v.suspended == Named(r, "suspended", r.suspended, u.suspended)
      && v.blackListed == Named(r, "blackListed", r.blackListed, u.blackListed)
      && v.userRole == Named(r, "userRole", r.userRole, u.userRole)
      && v.owner == (if caller.userRole == ROOT && u.owner == "" then Named(r, "owner", r.owner, u.owner) else u.owner)
      && |v.notes| == |u.notes| + (if "notes" in r.keys then |r.notes| else 0) && v.notes[..|u.notes|] == u.notes
      && (forall i :: |u.notes| <= i < |v.notes| ==> v.notes[i] == Note(r.now, caller.email, r.notes[i - |u.notes|]))
      && (if "currentPassword" in r.keys
          then r.password.Applied? && v.currentPassword == r.password.current && v.lastPasswords == r.password.last &&
               !v.changePassword && v.email == Text.ToLower(u.email)
          else v.currentPassword == u.currentPassword && v.lastPasswords == u.lastPasswords &&
               v.changePassword == Named(r, "changePassword", r.changePassword, u.changePassword) && v.email == u.email)
      && (if r.verifyEmail then v.waitingForEmailCheck && !v.validated
          else v.waitingForEmailCheck == u.waitingForEmailCheck && v.validated == u.validated)
      && v.ext == ApplyMfaChange(cfg, w.totp, w.sms, caller, r, u.ext).ext
      && v.modified == r.now && v.id == u.id && v.createdBy == u.createdBy
      && v.lastPasswordChange == u.lastPasswordChange && v.lastEmailCheck == u.lastEmailCheck && v.validationDate == u.validationDate
  {
    hide ApplyMfaChange, Acl.CanModifyUserRecord, Acl.CanResetUserMFA, Prepare, Text.ToLower;
    var caller, u := w.users[callerId], w.users[r.target];
    if Prepare(caller, r, u).Go? {
      PreparedFields(caller, r, u);
      PreparedNotes(caller, r, u);
      PreparedRest(caller, r, u);
      PrepareEffect(caller, r, u);
    } else {
      PrepareIff(caller, r, u);
    }
  }

  /** The record before its role, as the body changes it. */
  function Early(caller: UserInfo, r: PutRequest, u: UserInfo): UserInfo {
    ApplyAdminStatusFields(r, ApplyProfileFields(r, ApplyOwnerUpdate(caller, r, u)))
  }

  lemma PreparedIs(caller: UserInfo, r: PutRequest, u: UserInfo)
    requires Prepare(caller, r, u).Go?
    ensures ApplyRoleChange(caller, r, Early(caller, r, u)).Some? && PasswordError(r).None?
    ensures var v := ApplyPasswordChange(r, AppendNotes(caller, r, ApplyRoleChange(caller, r, Early(caller, r, u)).value));
      Prepare(caller, r, u).user == if r.verifyEmail then v.(waitingForEmailCheck := true, validated := false) else v
  {
    hide ApplyAdminStatusFields, ApplyProfileFields, ApplyOwnerUpdate, ApplyPasswordChange, AppendNotes, ApplyRoleChange,
      HasOnlyAllowedSelfServiceFields, ValidateUpdatePayload, PasswordError, Text.ToLower;
  }

  lemma OwnerIs(caller: UserInfo, r: PutRequest, u: UserInfo)
    ensures ApplyOwnerUpdate(caller, r, u) ==
      u.(owner := if caller.userRole == ROOT && u.owner == "" then Named(r, "owner", r.owner, u.owner) else u.owner)
  {
  }

  lemma ProfileIs(r: PutRequest, u: UserInfo)
    ensures ApplyProfileFields(r, u) == u.(
      name := Named(r, "name", r.name, u.name), description := Named(r, "description", r.description, u.description),
      location := Named(r, "location", r.location, u.location), locale := Named(r, "locale", r.locale, u.locale),
      changePassword := Named(r, "changePassword", r.changePassword, u.changePassword))
  {
  }

  lemma StatusIs(r: PutRequest, u: UserInfo)
    ensures ApplyAdminStatusFields(r, u) == u.(
      suspended := Named(r, "suspended", r.suspended, u.suspended),
      blackListed := Named(r, "blackListed", r.blackListed, u.blackListed))
  {
  }

  lemma EarlyIs(caller: UserInfo, r: PutRequest, u: UserInfo)
    ensures Early(caller, r, u) == u.(
      name := Named(r, "name", r.name, u.name), description := Named(r, "description", r.description, u.description),
      location := Named(r, "location", r.location, u.location), locale := Named(r, "locale", r.locale, u.locale),
      changePassword := Named(r, "changePassword", r.changePassword, u.changePassword),
      suspended := Named(r, "suspended", r.suspended, u.suspended),
      blackListed := Named(r, "blackListed", r.blackListed, u.blackListed),
      owner := if caller.userRole == ROOT && u.owner == "" then Named(r, "owner", r.owner, u.owner) else u.owner)
  {
    hide ApplyOwnerUpdate, ApplyProfileFields, ApplyAdminStatusFields, Named;
    OwnerIs(caller, r, u);
    var v := ApplyOwnerUpdate(caller, r, u);
    ProfileIs(r, v);
    StatusIs(r, ApplyProfileFields(r, v));
  }

  lemma RoleIs(caller: UserInfo, r: PutRequest, v: UserInfo)
    requires ApplyRoleChange(caller, r, v).Some?
    ensures ApplyRoleChange(caller, r, v).value == v.(userRole := Named(r, "userRole", r.userRole, v.userRole))
  {
    hide Acl.CanChangeUserRole;
  }

  lemma NotesAre(caller: UserInfo, r: PutRequest, u: UserInfo)
    ensures var v := AppendNotes(caller, r, u);
      && v == u.(notes := v.notes)
      && |v.notes| == |u.notes| + (if "notes" in r.keys then |r.notes| else 0) && v.notes[..|u.notes|] == u.notes
      && forall i :: |u.notes| <= i < |v.notes| ==> v.notes[i] == Note(r.now, caller.email, r.notes[i - |u.notes|])
  {
  }

  lemma PasswordIs(r: PutRequest, u: UserInfo)
    requires PasswordError(r).None?
    ensures ApplyPasswordChange(r, u) ==
      if "currentPassword" in r.keys then
        u.(email := Text.ToLower(u.email), currentPassword := r.password.current, lastPasswords := r.password.last,
           changePassword := false)
      else u
    ensures "currentPassword" in r.keys ==> r.password.Applied?
  {
    hide Text.ToLower;
  }

  lemma PreparedFields(caller: UserInfo, r: PutRequest, u: UserInfo)
    requires Prepare(caller, r, u).Go?
    ensures var v := Prepare(caller, r, u).user;
      && v.name == Named(r, "name", r.name, u.name) && v.description == Named(r, "description", r.description, u.description)
      && v.location == Named(r, "location", r.location, u.location) && v.locale == Named(r, "locale", r.locale, u.locale)
      && v.suspended == Named(r, "suspended", r.suspended, u.suspended)
      && v.blackListed == Named(r, "blackListed", r.blackListed, u.blackListed)
      && v.userRole == Named(r, "userRole", r.userRole, u.userRole)
      && v.owner == (if caller.userRole == ROOT && u.owner == "" then Named(r, "owner", r.owner, u.owner) else u.owner)
  {
    hide ApplyAdminStatusFields, ApplyProfileFields, ApplyOwnerUpdate, ApplyPasswordChange, AppendNotes, ApplyRoleChange,
      HasOnlyAllowedSelfServiceFields, ValidateUpdatePayload, PasswordError, Text.ToLower, Named;
    PreparedIs(caller, r, u);
    EarlyIs(caller, r, u);
    var early := Early(caller, r, u);
    RoleIs(caller, r, early);
    var role := ApplyRoleChange(caller, r, early).value;
    NotesAre(caller, r, role);
    PasswordIs(r, AppendNotes(caller, r, role));
    hide Prepare, Early;
  }

  lemma PreparedNotes(caller: UserInfo, r: PutRequest, u: UserInfo)
    requires Prepare(caller, r, u).Go?
    ensures var v := Prepare(caller, r, u).user;
      && |v.notes| == |u.notes| + (if "notes" in r.keys then |r.notes| else 0) && v.notes[..|u.notes|] == u.notes
      && (forall i :: |u.notes| <= i < |v.notes| ==> v.notes[i] == Note(r.now, caller.email, r.notes[i - |u.notes|]))
  {
    hide ApplyAdminStatusFields, ApplyProfileFields, ApplyOwnerUpdate, ApplyPasswordChange, AppendNotes, ApplyRoleChange,
      HasOnlyAllowedSelfServiceFields, ValidateUpdatePayload, PasswordError, Text.ToLower, Named;
    PreparedIs(caller, r, u);
    EarlyIs(caller, r, u);
    var early := Early(caller, r, u);
    RoleIs(caller, r, early);
    var role := ApplyRoleChange(caller, r, early).value;
    NotesAre(caller, r, role);
    PasswordIs(r, AppendNotes(caller, r, role));
    hide *;
  }

  /** The two records agree in what a body changes only through its password or an address check. */
  predicate SameRest(u: UserInfo, v: UserInfo) {
    && v.currentPassword == u.currentPassword && v.lastPasswords == u.lastPasswords && v.email == u.email
    && v.waitingForEmailCheck == u.waitingForEmailCheck && v.validated == u.validated
    && v.lastPasswordChange == u.lastPasswordChange && v.lastEmailCheck == u.lastEmailCheck
    && v.validationDate == u.validationDate
  }

  lemma EarlyKeepsRest(caller: UserInfo, r: PutRequest, u: UserInfo)
    ensures SameRest(u, Early(caller, r, u))
    ensures Early(caller, r, u).changePassword == Named(r, "changePassword", r.changePassword, u.changePassword)
  {
    hide Early, Named;
    EarlyIs(caller, r, u);
  }

  lemma RoleAndNotesKeepRest(caller: UserInfo, r: PutRequest, v: UserInfo)
    requires ApplyRoleChange(caller, r, v).Some?
    ensures var n := AppendNotes(caller, r, ApplyRoleChange(caller, r, v).value);
      SameRest(v, n) && n.changePassword == v.changePassword
  {
    hide ApplyRoleChange, AppendNotes, Named;
    RoleIs(caller, r, v);
    NotesAre(caller, r, ApplyRoleChange(caller, r, v).value);
  }

  lemma PreparedRest(caller: UserInfo, r: PutRequest, u: UserInfo)
    requires Prepare(caller, r, u).Go?
    ensures var v := Prepare(caller, r, u).user;
      && (if "currentPassword" in r.keys
          then r.password.Applied? && v.currentPassword == r.password.current && v.lastPasswords == r.password.last &&
               !v.changePassword && v.email == Text.ToLower(u.email)
          else v.currentPassword == u.currentPassword && v.lastPasswords == u.lastPasswords &&
               v.changePassword == Named(r, "changePassword", r.changePassword, u.changePassword) && v.email == u.email)
      && (if r.verifyEmail then v.waitingForEmailCheck && !v.validated
          else v.waitingForEmailCheck == u.waitingForEmailCheck && v.validated == u.validated)
      && v.lastPasswordChange == u.lastPasswordChange && v.lastEmailCheck == u.lastEmailCheck && v.validationDate == u.validationDate
  {
    PreparedIs(caller, r, u);
    var early := Early(caller, r, u);
    EarlyKeepsRest(caller, r, u);
    RoleAndNotesKeepRest(caller, r, early);
    PasswordIs(r, AppendNotes(caller, r, ApplyRoleChange(caller, r, early).value));
    hide Prepare, Early, ApplyPasswordChange, AppendNotes, ApplyRoleChange, PasswordError, Text.ToLower, Named;
  }

  /** A reset turns the second factor off and forgets its method and numbers, but keeps its secret; one note says who did it. */
  lemma ResetLeaves(cfg: Config, w: World, callerId: UserId, r: PutRequest)
    requires callerId in w.users && Put(cfg, w, callerId, r).status == OK && r.resetMFA
    ensures var u, caller := w.users[r.target], w.users[callerId];
      Put(cfg, w, callerId, r).world == w.(users := w.users[r.target := u.(
        ext := LoginExtensions(MfaConfig(false, Other("")), [], u.ext.authenticatorSecret), modified := r.now,
        notes := u.notes + [Note(r.now, caller.email, "MFA Reset by " + caller.email)])])
  {
    hide Prepare, ApplyMfaChange, Acl.CanModifyUserRecord, Acl.CanResetUserMFA;
  }

  /** A forgotten password changes no record: it stores a link that may set the password for a day. */
  lemma ForgotPasswordLeaves(cfg: Config, w: World, callerId: UserId, r: PutRequest)
    requires callerId in w.users && Put(cfg, w, callerId, r).status == OK && r.forgotPassword && !r.resetMFA
    ensures Put(cfg, w, callerId, r).world ==
      w.(links := w.links + [Link(FORGOT_PASSWORD, w.users[r.target].id, r.now, r.now + 86400, 0, 0, 0, true)])
  {
    hide Prepare, ApplyMfaChange, Acl.CanModifyUserRecord, Acl.CanResetUserMFA;
  }

  // ---------- Delete ----------

  /** Nobody deletes itself; a ROOT user deletes everybody else, an ADMIN the non-ROOT records it created. */
  lemma DeleteAcceptedIff(w: World, callerId: UserId, target: UserId, dbOk: bool)
    requires callerId in w.users
    ensures Delete(w, callerId, target, dbOk).status == OK <==>
      && target != "" && target in w.users && dbOk
      && var caller, u := w.users[callerId], w.users[target];
        && caller.id != u.id
        && (caller.userRole == ROOT ||
            (caller.userRole == ADMIN && u.userRole != ROOT && u.createdBy != "" && u.createdBy == caller.id))
    ensures Delete(w, callerId, target, dbOk).world ==
      if Delete(w, callerId, target, dbOk).status == OK then w.(users := w.users - {target}) else w
  {
  }

  // ---------- Addresses ----------

  /** Addresses are in lower case, and no two records share one. */
  predicate AddressesDistinct(w: World) {
    && (forall id :: id in w.users ==> Text.ToLower(w.users[id].email) == w.users[id].email)
    && (forall id, id' :: id in w.users && id' in w.users && id != id' ==> w.users[id].email != w.users[id'].email)
  }

  lemma PutKeepsAddress(cfg: Config, w: World, callerId: UserId, r: PutRequest, id: UserId)
    requires AddressesDistinct(w) && id in w.users
    ensures id in Put(cfg, w, callerId, r).world.users && Put(cfg, w, callerId, r).world.users[id].email == w.users[id].email
  {
    PutEffect(cfg, w, callerId, r);
    if callerId in w.users && Put(cfg, w, callerId, r).status == OK && r.target == id {
      if r.resetMFA {
        ResetLeaves(cfg, w, callerId, r);
      } else if r.forgotPassword {
        ForgotPasswordLeaves(cfg, w, callerId, r);
      } else {
        PutLeaves(cfg, w, callerId, r);
      }
    }
    hide Put, MayBecome, Text.ToLower;
  }

  lemma StepKeepsAddresses(cfg: Config, w: World, r: Request)
    requires AddressesDistinct(w)
    ensures AddressesDistinct(Serve(cfg, w, r).world)
  {
    hide Create, Put, Serve, Text.ToLower;
    StepEffect(cfg, w, r);
    if r.CreateUser? {
      if r.caller in w.users && Create(w, r.caller, r.create).status == OK {
        CreateAcceptedIff(w, r.caller, r.create);
        CreatedRecordIs(w, r.caller, r.create);
        Text.ToLowerIdempotent(r.create.body.email);
      } else {
        CreateEffect(w, r.caller, r.create);
      }
    } else if r.PutUser? {
      PutEffect(cfg, w, r.caller, r.put);
      forall id | id in w.users ensures Put(cfg, w, r.caller, r.put).world.users[id].email == w.users[id].email {
        PutKeepsAddress(cfg, w, r.caller, r.put, id);
      }
    }
  }

  /** In every reachable state addresses are in lower case and pairwise distinct. */
  lemma {:induction false} AlwaysDistinctAddresses(cfg: Config, w: World, run: seq<Request>)
    requires AddressesDistinct(w)
    ensures AddressesDistinct(After(cfg, w, run))
  {
    hide Serve, AddressesDistinct;
    if run != [] {
      AlwaysDistinctAddresses(cfg, w, Front(run));
      StepKeepsAddresses(cfg, After(cfg, w, Front(run)), Last(run));
    }
  }
}
