/** What every request keeps, and what no run of requests can do to the user table. */
module UserSafety {
  import opened Common
  import opened SecurityObjects
  import opened UserStore
  import Acl = AclProcessor
  import Sms = SmsSender
  import Text
  import Totp = TotpCache

  // ---------- The table's own invariant ----------

  /** Records sit under their ids, and ids were issued once. */
  predicate WellKeyed(w: World) {
    && (forall id :: id in w.users ==> id != "" && w.users[id].id == id && id in w.issued)
    && (forall i, j :: 0 <= i < j < |w.issued| ==> w.issued[i] != w.issued[j])
  }

  // ---------- What a request does to the table, in short ----------

  /** The two records differ at most in what a user may change of itself. */
  predicate SameStanding(u: UserInfo, v: UserInfo) {
    u.createdBy == v.createdBy && u.userRole == v.userRole && u.owner == v.owner &&
    u.suspended == v.suspended && u.blackListed == v.blackListed
  }

  /** `v` is a record that a modify request of this caller may leave in the place of `u`. */
  predicate MayBecome(caller: UserInfo, u: UserInfo, v: UserInfo) {
    && Acl.CanModifyUserRecord(caller, u) && v.id == u.id && v.createdBy == u.createdBy
    && (v.userRole == u.userRole || (Acl.CanChangeUserRole(caller, u, v.userRole) && v.userRole != UNKNOWN))
    && (IsSelfServiceCaller(caller) ==> SameStanding(u, v))
  }

  lemma EarlyChanges(caller: UserInfo, r: PutRequest, u: UserInfo)
    ensures var v := ApplyAdminStatusFields(r, ApplyProfileFields(r, ApplyOwnerUpdate(caller, r, u)));
      && v.id == u.id && v.createdBy == u.createdBy && v.userRole == u.userRole && v.ext == u.ext
      && (HasOnlyAllowedSelfServiceFields(r) ==> SameStanding(u, v))
  {
  }

  lemma RoleChange(caller: UserInfo, r: PutRequest, u: UserInfo)
    requires ValidateUpdatePayload(r)
    ensures match ApplyRoleChange(caller, r, u)
      case None => true
      case Some(v) =>
        && v == u.(userRole := v.userRole)
        && (v.userRole == u.userRole || (Acl.CanChangeUserRole(caller, u, v.userRole) && v.userRole != UNKNOWN))
        && (HasOnlyAllowedSelfServiceFields(r) ==> v == u)
  {
  }

  lemma NotesChange(caller: UserInfo, r: PutRequest, u: UserInfo)
    ensures AppendNotes(caller, r, u) == u.(notes := AppendNotes(caller, r, u).notes)
  {
  }

  lemma LateChanges(caller: UserInfo, r: PutRequest, u: UserInfo)
    ensures var v := ApplyPasswordChange(r, AppendNotes(caller, r, u));
      v.id == u.id && SameStanding(u, v) && v.ext == u.ext
  {
    hide AppendNotes;
    NotesChange(caller, r, u);
  }

  lemma PrepareEffect(caller: UserInfo, r: PutRequest, u: UserInfo)
    requires Prepare(caller, r, u).Go?
    ensures var v := Prepare(caller, r, u).user;
      && v.id == u.id && v.createdBy == u.createdBy && v.ext == u.ext
      && (v.userRole == u.userRole || (Acl.CanChangeUserRole(caller, u, v.userRole) && v.userRole != UNKNOWN))
      && (IsSelfServiceCaller(caller) ==> SameStanding(u, v))
  {
    hide ApplyAdminStatusFields, ApplyProfileFields, ApplyOwnerUpdate, ApplyPasswordChange, AppendNotes, ApplyRoleChange;
    EarlyChanges(caller, r, u);
    var early := ApplyAdminStatusFields(r, ApplyProfileFields(r, ApplyOwnerUpdate(caller, r, u)));
    RoleChange(caller, r, early);
    LateChanges(caller, r, ApplyRoleChange(caller, r, early).value);
  }

  /** A modify request leaves the table alone, or replaces its target by a record it may become. */
  lemma PutEffect(cfg: Config, w: World, callerId: UserId, r: PutRequest)
    ensures var reply := Put(cfg, w, callerId, r);
      && reply.world == w.(users := reply.world.users, totp := reply.world.totp, links := reply.world.links)
      && (reply.world.users == w.users
          || (reply.status == OK && callerId in w.users && r.target in w.users && r.target in reply.world.users
              && MayBecome(w.users[callerId], w.users[r.target], reply.world.users[r.target])
              && reply.world.users == w.users[r.target := reply.world.users[r.target]]))
      && (reply.status != OK ==> reply.world.users == w.users)
  {
    hide Prepare, ApplyMfaChange;
    if callerId in w.users && r.target in w.users {
      var caller, existing := w.users[callerId], w.users[r.target];
      if Prepare(caller, r, existing).Go? {
        PrepareEffect(caller, r, existing);
      }
    }
  }

  lemma CreateEffect(w: World, callerId: UserId, r: CreateRequest)
    ensures var reply := Create(w, callerId, r);
      reply.world == w
      || (reply.status == OK && callerId in w.users && r.freshId in reply.world.users
          && reply.world == w.(users := w.users[r.freshId := reply.world.users[r.freshId]], issued := w.issued + [r.freshId],
                               links := w.links + EmailCheckLink(r.verifyEmail, r.freshId, r.now))
          && (var v := reply.world.users[r.freshId];
              && v.id == r.freshId && v.createdBy == w.users[callerId].id
              && Acl.CanCreateUserRecord(w.users[callerId], v)
              && v.ext == LoginExtensions(MfaConfig(false, NO_METHOD), [], "")))
  {
  }

  /** What any request does to the user table: nothing, a row more, a row replaced, or a row less. */
  lemma StepEffect(cfg: Config, w: World, r: Request)
    ensures var w' := Serve(cfg, w, r).world;
      || (w'.users == w.users && w'.issued == w.issued)
      || (r.CreateUser? && Serve(cfg, w, r) == Create(w, r.caller, r.create) && w' != w)
      || (r.PutUser? && Serve(cfg, w, r) == Put(cfg, w, r.caller, r.put) && w'.users != w.users)
      || (r.DeleteUser? && r.caller in w.users && r.target in w.users && w' == w.(users := w.users - {r.target})
          && Acl.CanDeleteUserRecord(w.users[r.caller], w.users[r.target]))
  {
    hide Create, Put;
    if r.PutUser? {
      PutEffect(cfg, w, r.caller, r.put);
    }
  }

  lemma KeyPostEffect(w: World, caller: UserId, r: KeyPostRequest)
    ensures KeyPost(w, caller, r).world == w.(keys := KeyPost(w, caller, r).world.keys)
  {
  }

  lemma KeyPutEffect(w: World, caller: UserId, r: KeyPutRequest)
    ensures KeyPut(w, caller, r).world == w.(keys := KeyPut(w, caller, r).world.keys)
  {
  }

  lemma KeyDeleteEffect(w: World, caller: UserId, r: KeyDeleteRequest)
    ensures KeyDelete(w, caller, r).world == w.(keys := KeyDelete(w, caller, r).world.keys)
  {
  }

  lemma DeleteEffect(w: World, caller: UserId, target: UserId, dbOk: bool)
    ensures Delete(w, caller, target, dbOk).world == w.(users := Delete(w, caller, target, dbOk).world.users)
  {
  }

  lemma StepKeepsKeys(cfg: Config, w: World, r: Request)
    requires WellKeyed(w) && FreshIds(w, r)
    ensures WellKeyed(Serve(cfg, w, r).world)
  {
    hide Create, Put, Serve;
    StepEffect(cfg, w, r);
    if r.CreateUser? {
      CreateEffect(w, r.caller, r.create);
    } else if r.PutUser? {
      PutEffect(cfg, w, r.caller, r.put);
    }
  }

  // ---------- A failed request changes no record ----------

  /** A request that fails changes no user, no id, no key and no telephone entry; only a modify request can leave a trace at all. */
  lemma FailureChangesNoRecord(cfg: Config, w: World, r: Request)
    ensures Serve(cfg, w, r).status != OK ==>
      && Serve(cfg, w, r).world == w.(totp := Serve(cfg, w, r).world.totp, links := Serve(cfg, w, r).world.links)
      && (r.PutUser? || Serve(cfg, w, r).world == w)
  {
  }

  /** The links that user requests store are for records of the table, past or present, and are users' links. */
  predicate LinksAreForUsers(w: World) {
    forall i :: 0 <= i < |w.links| ==> w.links[i].userId in w.issued && w.links[i].userAction
  }

  lemma {:induction false} AlwaysLinksForUsers(cfg: Config, w: World, run: seq<Request>)
    requires WellKeyed(w) && LinksAreForUsers(w) && Legal(cfg, w, run)
    ensures WellKeyed(After(cfg, w, run)) && LinksAreForUsers(After(cfg, w, run))
  {
    hide Serve, LinksAreForUsers, WellKeyed;
    if run != [] {
      AlwaysLinksForUsers(cfg, w, Front(run));
      StepKeepsKeys(cfg, After(cfg, w, Front(run)), Last(run));
      StepKeepsLinks(cfg, After(cfg, w, Front(run)), Last(run));
    }
  }

  lemma StepKeepsLinks(cfg: Config, w: World, r: Request)
    requires WellKeyed(w) && LinksAreForUsers(w)
    ensures LinksAreForUsers(Serve(cfg, w, r).world)
  {
    hide Create, Put, KeyPost, KeyPut, KeyDelete, Delete;
    match r
    case CreateUser(caller, create) => CreateEffect(w, caller, create);
    case PutUser(caller, put) =>
      PutEffect(cfg, w, caller, put);
      PutLinks(cfg, w, caller, put);
    case PostKey(caller, post) => KeyPostEffect(w, caller, post);
    case PutKey(caller, change) => KeyPutEffect(w, caller, change);
    case DeleteKey(caller, delete) => KeyDeleteEffect(w, caller, delete);
    case DeleteUser(caller, target, dbOk) => DeleteEffect(w, caller, target, dbOk);
    case _ =>
  }

  /** A modify request stores at most one link, for its target. */
  lemma PutLinks(cfg: Config, w: World, callerId: UserId, r: PutRequest)
    ensures var links := Put(cfg, w, callerId, r).world.links;
      links == w.links ||
      (r.target in w.users && |links| == |w.links| + 1 && links[..|w.links|] == w.links &&
       links[|w.links|].userId == w.users[r.target].id && links[|w.links|].userAction)
  {
    hide Prepare, ApplyMfaChange, Acl.CanModifyUserRecord, Acl.CanResetUserMFA;
  }

  // ---------- ROOT ----------

  predicate HasRoot(w: World) {
    exists id :: id in w.users && w.users[id].userRole == ROOT
  }

  /** The caller of a request, if it is a current record with this role. */
  predicate CalledByRoot(w: World, r: Request) {
    match r
    case Enrol(_) => false
    case Telephone(_) => false
    case _ => r.caller in w.users && w.users[r.caller].userRole == ROOT
  }

  /** A request of anybody but a ROOT user leaves every ROOT record as it is and makes no new one. */
  lemma OnlyRootTouchesRoot(cfg: Config, w: World, r: Request)
    requires WellKeyed(w) && FreshIds(w, r) && !CalledByRoot(w, r)
    ensures var w' := Serve(cfg, w, r).world;
      && (forall id :: id in w.users && w.users[id].userRole == ROOT ==> id in w'.users && w'.users[id] == w.users[id])
      && (forall id :: id in w'.users && w'.users[id].userRole == ROOT ==> id in w.users && w.users[id].userRole == ROOT)
  {
    hide Create, Put, Serve;
    StepEffect(cfg, w, r);
    if r.CreateUser? {
      CreateEffect(w, r.caller, r.create);
    } else if r.PutUser? {
      PutEffect(cfg, w, r.caller, r.put);
    }
  }

  /** A ROOT caller keeps its own record and its own role. */
  lemma RootCallerStays(cfg: Config, w: World, r: Request)
    requires WellKeyed(w) && FreshIds(w, r) && CalledByRoot(w, r)
    ensures r.caller in Serve(cfg, w, r).world.users && Serve(cfg, w, r).world.users[r.caller].userRole == ROOT
  {
    hide Create, Put, Serve;
    StepEffect(cfg, w, r);
    if r.CreateUser? {
      CreateEffect(w, r.caller, r.create);
    } else if r.PutUser? {
      PutEffect(cfg, w, r.caller, r.put);
    }
  }

  /** In every run from a state with a ROOT user, a ROOT user always exists. */
  lemma {:induction false} NeverRootless(cfg: Config, w: World, run: seq<Request>)
    requires WellKeyed(w) && HasRoot(w) && Legal(cfg, w, run)
    ensures WellKeyed(After(cfg, w, run)) && HasRoot(After(cfg, w, run))
  {
    hide Serve;
    if run != [] {
      NeverRootless(cfg, w, Front(run));
      var v, r := After(cfg, w, Front(run)), Last(run);
      StepKeepsKeys(cfg, v, r);
      if CalledByRoot(v, r) {
        RootCallerStays(cfg, v, r);
      } else {
        OnlyRootTouchesRoot(cfg, v, r);
        var id :| id in v.users && v.users[id].userRole == ROOT;
        assert id in After(cfg, w, run).users;
      }
    }
  }

  // ---------- The creator relation ----------

  /** The position at which an id was issued. */
  predicate IssuedAt(w: World, id: UserId, i: nat) {
    i < |w.issued| && w.issued[i] == id
  }

  /** Every record was created by nobody, or by an id issued before its own. */
  ghost predicate Forest(w: World) {
    forall id, i: nat {:trigger IssuedAt(w, id, i)} :: id in w.users && IssuedAt(w, id, i) && w.users[id].createdBy != "" ==>
      exists j: nat :: j < i && IssuedAt(w, w.users[id].createdBy, j)
  }

  /** createdBy is set at creation, to the caller, and never again. */
  lemma CreatorIsImmutable(cfg: Config, w: World, r: Request)
    requires WellKeyed(w) && FreshIds(w, r)
    ensures var w' := Serve(cfg, w, r).world;
      forall id :: id in w'.users ==>
        if id in w.users then w'.users[id].createdBy == w.users[id].createdBy
        else r.CreateUser? && id == r.create.freshId && r.caller in w.users && w'.users[id].createdBy == r.caller
  {
    hide Create, Put, Serve;
    StepEffect(cfg, w, r);
    if r.CreateUser? {
      CreateEffect(w, r.caller, r.create);
    } else if r.PutUser? {
      PutEffect(cfg, w, r.caller, r.put);
    }
  }

  lemma IssuedGrows(cfg: Config, w: World, r: Request)
    ensures |w.issued| <= |Serve(cfg, w, r).world.issued|
    ensures Serve(cfg, w, r).world.issued[..|w.issued|] == w.issued
    ensures |Serve(cfg, w, r).world.issued| > |w.issued| ==>
      r.CreateUser? && Serve(cfg, w, r).world.issued == w.issued + [r.create.freshId]
  {
  }

  lemma StepKeepsForest(cfg: Config, w: World, r: Request)
    requires WellKeyed(w) && Forest(w) && FreshIds(w, r)
    ensures Forest(Serve(cfg, w, r).world)
  {
    hide Serve;
    var w' := Serve(cfg, w, r).world;
    CreatorIsImmutable(cfg, w, r);
    IssuedGrows(cfg, w, r);
    StepKeepsKeys(cfg, w, r);
    forall id, i: nat {:trigger IssuedAt(w', id, i)} | id in w'.users && IssuedAt(w', id, i) && w'.users[id].createdBy != ""
      ensures exists j: nat :: j < i && IssuedAt(w', w'.users[id].createdBy, j)
    {
      var creator := w'.users[id].createdBy;
      if id in w.users {
        assert id in w.issued;
        var k: nat :| k < |w.issued| && w.issued[k] == id;
        assert w'.issued[k] == id && k == i;
        assert IssuedAt(w, id, i);
        var j: nat :| j < i && IssuedAt(w, creator, j);
        assert IssuedAt(w', creator, j);
      } else {
        assert creator in w.issued;
        var j: nat :| j < |w.issued| && w.issued[j] == creator;
        assert w'.issued[j] == creator && IssuedAt(w', creator, j);
        assert i == |w.issued|;
      }
    }
  }

  /** A walk from record to creator. */
  predicate CreatorChain(w: World, path: seq<UserId>) {
    && (forall i :: 0 <= i < |path| ==> path[i] in w.users)
    && (forall i :: 0 <= i < |path| - 1 ==> w.users[path[i]].createdBy == path[i + 1])
  }

  /** Along a walk the ids were issued earlier and earlier. */
  lemma {:induction false} ChainGoesBack(w: World, path: seq<UserId>, i: nat, j: nat, a: nat, b: nat)
    requires WellKeyed(w) && Forest(w) && CreatorChain(w, path) && i < j < |path|
    requires IssuedAt(w, path[i], a) && IssuedAt(w, path[j], b)
    ensures b < a
    decreases j - i
  {
    var creator := w.users[path[i]].createdBy;
    assert creator == path[i + 1] && creator != "";
    var c: nat :| c < a && IssuedAt(w, creator, c);
    if i + 1 < j {
      ChainGoesBack(w, path, i + 1, j, c, b);
    }
  }

  /** The creator relation has no cycle: no walk visits a record twice. */
  lemma NoCreatorCycle(w: World, path: seq<UserId>, i: nat, j: nat)
    requires WellKeyed(w) && Forest(w) && CreatorChain(w, path) && i < j < |path|
    ensures path[i] != path[j]
  {
    assert path[i] in w.issued && path[j] in w.issued;
    var a: nat :| a < |w.issued| && w.issued[a] == path[i];
    var b: nat :| b < |w.issued| && w.issued[b] == path[j];
    ChainGoesBack(w, path, i, j, a, b);
  }

  lemma {:induction false} AlwaysForest(cfg: Config, w: World, run: seq<Request>)
    requires WellKeyed(w) && Forest(w) && Legal(cfg, w, run)
    ensures WellKeyed(After(cfg, w, run)) && Forest(After(cfg, w, run))
  {
    hide Serve, Forest, WellKeyed;
    if run != [] {
      AlwaysForest(cfg, w, Front(run));
      StepKeepsKeys(cfg, After(cfg, w, Front(run)), Last(run));
      StepKeepsForest(cfg, After(cfg, w, Front(run)), Last(run));
    }
  }

  /** Over any run the creator of a record that is there at both ends is the same. */
  lemma {:induction false} CreatorNeverChanges(cfg: Config, w: World, run: seq<Request>, id: UserId)
    requires WellKeyed(w) && Legal(cfg, w, run) && id in w.issued
    ensures WellKeyed(After(cfg, w, run)) && id in After(cfg, w, run).issued
    ensures id in After(cfg, w, run).users ==>
      id in w.users && After(cfg, w, run).users[id].createdBy == w.users[id].createdBy
  {
    hide Serve;
    if run != [] {
      CreatorNeverChanges(cfg, w, Front(run), id);
      var v, r := After(cfg, w, Front(run)), Last(run);
      StepKeepsKeys(cfg, v, r);
      CreatorIsImmutable(cfg, v, r);
      IssuedGrows(cfg, v, r);
    }
  }

  // ---------- How far a caller reaches ----------

  /**
   An ADMIN changes only its own record, which it cannot delete and whose role it cannot change, and
   the non-ROOT records it created; and what it adds it created. Any other non-ROOT caller changes
   only its own record, and not its standing.
   */
  lemma CallersReach(cfg: Config, w: World, r: Request, id: UserId)
    requires WellKeyed(w) && FreshIds(w, r) && (r.CreateUser? || r.PutUser? || r.DeleteUser?)
    requires !CalledByRoot(w, r)
    ensures var w' := Serve(cfg, w, r).world;
      && (id in w.users && !(id in w'.users && w'.users[id] == w.users[id]) ==>
            && r.caller in w.users && w.users[id].userRole != ROOT
            && (id == r.caller || (w.users[r.caller].userRole == ADMIN && w.users[id].createdBy == r.caller))
            && (id == r.caller ==>
                  id in w'.users && w'.users[id].userRole == w.users[id].userRole
                  && (w.users[id].userRole != ADMIN ==> SameStanding(w.users[id], w'.users[id]))))
      && (id !in w.users && id in w'.users ==>
            r.caller in w.users && w.users[r.caller].userRole == ADMIN &&
            w'.users[id].createdBy == r.caller && w'.users[id].userRole !in {ROOT, PARTNER})
  {
    hide Create, Put, Serve;
    StepEffect(cfg, w, r);
    if r.CreateUser? {
      CreateEffect(w, r.caller, r.create);
    } else if r.PutUser? {
      PutEffect(cfg, w, r.caller, r.put);
    }
  }

  /**
   For any request of an ADMIN and any role its target does not have: the target gets that role exactly
   when the ADMIN created it, neither its old role nor the new one is ROOT, the new one is known, the body
   asks for it, and nothing else in the request fails. So an ADMIN, who may not create a PARTNER, may turn
   a record it created into one.
   */
  lemma AdminGivesRoleIff(cfg: Config, w: World, admin: UserId, r: PutRequest, role: Role)
    requires WellKeyed(w) && admin in w.users && w.users[admin].userRole == ADMIN
    requires r.target in w.users && w.users[r.target].userRole != role
    ensures var u := w.users[r.target];
      Put(cfg, w, admin, r).world.users[r.target].userRole == role <==>
        && r.target != admin && u.createdBy == admin && u.userRole != ROOT && role != ROOT && role != UNKNOWN
        && !r.resetMFA && !r.forgotPassword && r.parsed && "userRole" in r.keys && r.userRole == role
        && PasswordError(r).None? && ApplyMfaChange(cfg, w.totp, w.sms, w.users[admin], r, u.ext).error.None? && r.dbOk
  {
    var caller, u := w.users[admin], w.users[r.target];
    PrepareRole(caller, r, u);
    if Prepare(caller, r, u).Go? {
      PrepareEffect(caller, r, u);
    }
    PutRole(cfg, w, admin, r);
    AdminReaches(caller, u, role);
    hide Put, Prepare, ApplyMfaChange, PasswordError, Acl.CanModifyUserRecord, Acl.CanChangeUserRole, Acl.CanResetUserMFA;
  }

  /** The role of the target after a modify request. */
  lemma PutRole(cfg: Config, w: World, callerId: UserId, r: PutRequest)
    requires WellKeyed(w) && callerId in w.users && r.target in w.users
    ensures var caller, u := w.users[callerId], w.users[r.target];
      Put(cfg, w, callerId, r).world.users[r.target].userRole ==
        if Acl.CanModifyUserRecord(caller, u) && !r.resetMFA && !r.forgotPassword && r.dbOk && Prepare(caller, r, u).Go? &&
           ApplyMfaChange(cfg, w.totp, w.sms, caller, r, Prepare(caller, r, u).user.ext).error.None?
        then Prepare(caller, r, u).user.userRole else u.userRole
  {
    hide Prepare, ApplyMfaChange, Acl.CanModifyUserRecord, Acl.CanResetUserMFA;
  }

  lemma AdminReaches(caller: UserInfo, u: UserInfo, role: Role)
    requires caller.userRole == ADMIN && u.id != "" && caller.id != ""
    ensures Acl.CanModifyUserRecord(caller, u) && Acl.CanChangeUserRole(caller, u, role) <==>
      u.id != caller.id && u.createdBy == caller.id && u.userRole != ROOT && role != ROOT
    ensures !IsSelfServiceCaller(caller)
  {
  }

  /** For a caller that is not confined to self-service: when the request reaches its second factor, and with which role. */
  lemma PrepareRole(caller: UserInfo, r: PutRequest, u: UserInfo)
    requires !IsSelfServiceCaller(caller)
    ensures Prepare(caller, r, u).Go? <==>
      && r.parsed && ValidateUpdatePayload(r) && PasswordError(r).None?
      && ("userRole" in r.keys && r.userRole != u.userRole ==> Acl.CanChangeUserRole(caller, u, r.userRole))
    ensures Prepare(caller, r, u).Go? ==>
      Prepare(caller, r, u).user.userRole == if "userRole" in r.keys then r.userRole else u.userRole
  {
    hide ApplyAdminStatusFields, ApplyProfileFields, ApplyOwnerUpdate, ApplyPasswordChange, AppendNotes, ApplyRoleChange,
      Acl.CanChangeUserRole, ValidateUpdatePayload, PasswordError;
    EarlyChanges(caller, r, u);
    var early := ApplyAdminStatusFields(r, ApplyProfileFields(r, ApplyOwnerUpdate(caller, r, u)));
    RoleApplied(caller, r, u, early);
    if ApplyRoleChange(caller, r, early).Some? {
      LateChanges(caller, r, ApplyRoleChange(caller, r, early).value);
    }
  }

  lemma RoleApplied(caller: UserInfo, r: PutRequest, u: UserInfo, v: UserInfo)
    requires v.id == u.id && v.createdBy == u.createdBy && v.userRole == u.userRole
    ensures ApplyRoleChange(caller, r, v).None? <==>
      "userRole" in r.keys && r.userRole != u.userRole && !Acl.CanChangeUserRole(caller, u, r.userRole)
    ensures ApplyRoleChange(caller, r, v).Some? ==>
      ApplyRoleChange(caller, r, v).value.userRole == if "userRole" in r.keys then r.userRole else u.userRole
  {
  }

  // ---------- What the body of a request decides ----------

  /** The body of a create request has no say in the new record's id, creator, owner, validation or second factors. */
  lemma BodyCannotChoose(w: World, callerId: UserId, r: CreateRequest, id: UserId, createdBy: UserId, owner: string,
                         validated: bool, ext: LoginExtensions)
    ensures var body' := r.body.(id := id, createdBy := createdBy, owner := owner, validated := validated, ext := ext);
      Create(w, callerId, r.(body := body')) == Create(w, callerId, r)
  {
    var r' := r.(body := r.body.(id := id, createdBy := createdBy, owner := owner, validated := validated, ext := ext));
    if callerId in w.users {
      SameError(w.users, w.users[callerId], r, r');
      SameRecord(w.users[callerId], r, id, createdBy, owner, validated, ext);
      hide CreateError, CreatedRecord;
    }
  }

  lemma SameError(users: map<UserId, UserInfo>, caller: UserInfo, r: CreateRequest, r': CreateRequest)
    requires r' == r.(body := r'.body)
    requires r.body.userRole == r'.body.userRole && r.body.email == r'.body.email &&
             r.body.currentPassword == r'.body.currentPassword
    ensures CreateError(users, caller, r') == CreateError(users, caller, r)
  {
    hide EmailTaken, Text.ToLower;
  }

  lemma SameRecord(caller: UserInfo, r: CreateRequest, id: UserId, createdBy: UserId, owner: string, validated: bool,
                   ext: LoginExtensions)
    ensures var body' := r.body.(id := id, createdBy := createdBy, owner := owner, validated := validated, ext := ext);
      CreatedRecord(caller, r.(body := body')) == CreatedRecord(caller, r)
  {
    hide Text.ToLower;
    var r' := r.(body := r.body.(id := id, createdBy := createdBy, owner := owner, validated := validated, ext := ext));
    assert NewUser(caller, r') == NewUser(caller, r).(id := id);
    hide NewUser;
  }

  /** A successful create request keeps the password history of its body exactly when the body sets no password. */
  lemma BodyHistoryIsKept(w: World, callerId: UserId, r: CreateRequest)
    requires Create(w, callerId, r).status == OK
    ensures r.freshId in Create(w, callerId, r).world.users
    ensures Create(w, callerId, r).world.users[r.freshId].lastPasswords ==
      if r.body.currentPassword == "" then r.body.lastPasswords else [r.sealed]
  {
    hide Text.ToLower, EmailTaken, Acl.CanCreateUserRecord;
  }

  const PROFILE_FIELDS: set<string> :=
    {"name", "description", "location", "locale", "changePassword", "suspended", "blackListed", "userRole"}

  /** Sending a record its own values, under any of these names, changes nothing but the time stamp. */
  lemma WriteBackChangesNothing(cfg: Config, w: World, callerId: UserId, r: PutRequest)
    requires r.keys <= PROFILE_FIELDS && !r.resetMFA && !r.forgotPassword && !r.verifyEmail
    requires r.target in w.users && w.users[r.target].userRole != UNKNOWN
    requires var u := w.users[r.target];
      && r.name == u.name && r.description == u.description && r.location == u.location && r.locale == u.locale
      && r.changePassword == u.changePassword && r.suspended == u.suspended && r.blackListed == u.blackListed
      && r.userRole == u.userRole
    requires Put(cfg, w, callerId, r).status == OK
    ensures Put(cfg, w, callerId, r).world == w.(users := w.users[r.target := w.users[r.target].(modified := r.now)])
  {
    if callerId in w.users {
      PrepareWriteBack(w.users[callerId], r, w.users[r.target]);
    }
    hide Prepare, Acl.CanModifyUserRecord, Acl.CanResetUserMFA;
    assert "userTypeProprietaryInfo" !in r.keys;
    assert w.links + [] == w.links;
  }

  lemma PrepareWriteBack(caller: UserInfo, r: PutRequest, u: UserInfo)
    requires r.keys <= PROFILE_FIELDS && !r.verifyEmail && u.userRole != UNKNOWN
    requires r.name == u.name && r.description == u.description && r.location == u.location && r.locale == u.locale
    requires r.changePassword == u.changePassword && r.suspended == u.suspended && r.blackListed == u.blackListed
    requires r.userRole == u.userRole
    ensures Prepare(caller, r, u).Stop? ==> Prepare(caller, r, u).status != OK
    ensures Prepare(caller, r, u).Go? ==> Prepare(caller, r, u).user == u
  {
    assert "owner" !in r.keys && "notes" !in r.keys && "currentPassword" !in r.keys;
    assert ApplyProfileFields(r, u) == u && ApplyAdminStatusFields(r, u) == u;
    hide ApplyProfileFields, ApplyAdminStatusFields;
  }

  // ---------- Second factors ----------

  predicate MfaWellFormed(e: LoginExtensions) {
    if !e.mfa.enabled then e.mobiles == []
    else if e.mfa.channel == SMS then
      e.mobiles != [] && e.mobiles[0].verified && e.authenticatorSecret == ""
    else if e.mfa.channel == AUTHENTICATOR then
      e.mobiles == [] && e.authenticatorSecret != ""
    else e.mfa.channel == EMAIL && e.mobiles == [] && e.authenticatorSecret == ""
  }

  predicate AllMfaWellFormed(w: World) {
    forall id :: id in w.users ==> MfaWellFormed(w.users[id].ext)
  }

  lemma MfaChangeWellFormed(cfg: Config, w: World, caller: UserInfo, r: PutRequest, ext: LoginExtensions)
    requires MfaWellFormed(ext)
    ensures MfaWellFormed(ApplyMfaChange(cfg, w.totp, w.sms, caller, r, ext).ext)
  {
    hide Totp.Next, Sms.NumberValid;
  }

  lemma StepKeepsMfa(cfg: Config, w: World, r: Request)
    requires AllMfaWellFormed(w)
    ensures AllMfaWellFormed(Serve(cfg, w, r).world)
  {
    hide Create, Put, Serve, MfaWellFormed;
    StepEffect(cfg, w, r);
    if r.CreateUser? {
      CreateEffect(w, r.caller, r.create);
      NoFactorWellFormed();
    } else if r.PutUser? {
      PutKeepsMfa(cfg, w, r.caller, r.put);
    }
  }

  lemma NoFactorWellFormed()
    ensures MfaWellFormed(LoginExtensions(MfaConfig(false, NO_METHOD), [], ""))
  {
  }

  lemma PutKeepsMfa(cfg: Config, w: World, callerId: UserId, r: PutRequest)
    requires AllMfaWellFormed(w)
    ensures AllMfaWellFormed(Put(cfg, w, callerId, r).world)
  {
    hide Prepare, ApplyMfaChange, MfaWellFormed, ResetMFA, Acl.CanModifyUserRecord, Acl.CanResetUserMFA;
    if callerId in w.users && r.target in w.users {
      var caller, u := w.users[callerId], w.users[r.target];
      ResetWellFormed(caller, u, r.now);
      if Prepare(caller, r, u).Go? {
        PrepareEffect(caller, r, u);
        MfaChangeWellFormed(cfg, w, caller, r, Prepare(caller, r, u).user.ext);
      }
    }
  }

  lemma ResetWellFormed(caller: UserInfo, u: UserInfo, now: u64)
    ensures MfaWellFormed(ResetMFA(caller, u, now).ext)
  {
  }

  /** Second-factor data stays well formed over every run. */
  lemma {:induction false} AlwaysMfaWellFormed(cfg: Config, w: World, run: seq<Request>)
    requires AllMfaWellFormed(w)
    ensures AllMfaWellFormed(After(cfg, w, run))
  {
    hide Serve, AllMfaWellFormed;
    if run != [] {
      AlwaysMfaWellFormed(cfg, w, Front(run));
      StepKeepsMfa(cfg, After(cfg, w, Front(run)), Last(run));
    }
  }
}
