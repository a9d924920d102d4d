/** What the API key table keeps, and what user deletion does to it. */
module ApiKeys {
  import opened Common
  import opened SecurityObjects
  import opened UserStore
  import opened UserSafety
  import Text

  predicate DistinctNames(keys: seq<ApiKey>) {
    forall i, j :: 0 <= i < j < |keys| ==> keys[i].name != keys[j].name
  }

  predicate LowerNames(keys: seq<ApiKey>) {
    forall i :: 0 <= i < |keys| ==> Text.ToLower(keys[i].name) == keys[i].name
  }

  /** An owner's keys: at most ten, with distinct lower-case names. */
  predicate Tidy(keys: seq<ApiKey>) {
    |keys| <= MAX_KEYS && DistinctNames(keys) && LowerNames(keys)
  }

  /** The rows: key ids are unique, and every owner was once a user. */
  predicate KeyRows(w: World) {
    && (forall i, j :: 0 <= i < j < |w.keys| ==> w.keys[i].id != w.keys[j].id)
    && (forall i :: 0 <= i < |w.keys| ==> w.keys[i].userUuid in w.issued)
  }

  /** The table: sound rows, and every owner's keys are tidy. */
  ghost predicate KeyInvariant(w: World) {
    KeyRows(w) && forall owner :: Tidy(KeysOf(w.keys, owner))
  }

  lemma {:induction false} KeysOfConcat(a: seq<ApiKey>, b: seq<ApiKey>, owner: UserId)
    ensures KeysOf(a + b, owner) == KeysOf(a, owner) + KeysOf(b, owner)
  {
    if a == [] {
      assert a + b == b;
    } else {
      KeysOfConcat(a[1..], b, owner);
      assert (a + b)[1..] == a[1..] + b && (a + b)[0] == a[0];
      var first := if a[0].userUuid == owner then [a[0]] else [];
      assert first + (KeysOf(a[1..], owner) + KeysOf(b, owner)) == (first + KeysOf(a[1..], owner)) + KeysOf(b, owner);
    }
  }

  lemma KeysAround(keys: seq<ApiKey>, i: nat, owner: UserId)
    requires i < |keys|
    ensures KeysOf(keys, owner) ==
      KeysOf(keys[..i], owner) + (if keys[i].userUuid == owner then [keys[i]] else []) + KeysOf(keys[i + 1..], owner)
  {
    assert keys == keys[..i] + ([keys[i]] + keys[i + 1..]);
    KeysOfConcat(keys[..i], [keys[i]] + keys[i + 1..], owner);
    assert ([keys[i]] + keys[i + 1..])[1..] == keys[i + 1..];
  }

  lemma {:induction false} KeysOfMembers(keys: seq<ApiKey>, owner: UserId, k: ApiKey)
    ensures k in KeysOf(keys, owner) <==> k in keys && k.userUuid == owner
  {
    if keys != [] {
      KeysOfMembers(keys[1..], owner, k);
      assert keys == [keys[0]] + keys[1..];
    }
  }

  /** Ten keys fit the page of five hundred, so the checks of a key request see all of an owner's keys. */
  lemma PageIsComplete(w: World, owner: UserId)
    requires KeyInvariant(w)
    ensures KeyPage(w.keys, owner) == KeysOf(w.keys, owner)
  {
    assert Tidy(KeysOf(w.keys, owner));
  }

  lemma TidyAppend(keys: seq<ApiKey>, k: ApiKey)
    requires Tidy(keys) && |keys| < MAX_KEYS && !HasName(keys, k.name) && Text.ToLower(k.name) == k.name
    ensures Tidy(keys + [k])
  {
  }

  lemma TidyWithout(a: seq<ApiKey>, k: ApiKey, b: seq<ApiKey>)
    requires Tidy(a + [k] + b)
    ensures Tidy(a + b)
  {
    var all := a + [k] + b;
    assert forall i :: 0 <= i < |a + b| ==> (a + b)[i] == all[if i < |a| then i else i + 1];
  }

  lemma TidyUpdate(a: seq<ApiKey>, k: ApiKey, k': ApiKey, b: seq<ApiKey>)
    requires Tidy(a + [k] + b) && k'.name == k.name
    ensures Tidy(a + [k'] + b)
  {
    var all, all' := a + [k] + b, a + [k'] + b;
    assert forall i :: 0 <= i < |all| ==> all'[i].name == all[i].name;
  }

  /** A new row with a new lower-case name, for an owner with room for it, leaves every owner's keys tidy. */
  lemma RowAdded(keys: seq<ApiKey>, k: ApiKey, owner: UserId)
    requires Tidy(KeysOf(keys, owner)) && Text.ToLower(k.name) == k.name
    requires |KeysOf(keys, k.userUuid)| < MAX_KEYS && !HasName(KeysOf(keys, k.userUuid), k.name)
    ensures Tidy(KeysOf(keys + [k], owner))
  {
    KeysOfConcat(keys, [k], owner);
    assert KeysOf([k], owner) == if k.userUuid == owner then [k] else [];
    hide KeysOf, Tidy, HasName;
    if owner == k.userUuid {
      TidyAppend(KeysOf(keys, owner), k);
    } else {
      assert KeysOf(keys, owner) + [] == KeysOf(keys, owner);
    }
  }

  /** The new key fits: its owner has room for it, and no key of that name. */
  predicate Fits(w: World, r: KeyPostRequest) {
    |KeysOf(w.keys, r.owner)| < MAX_KEYS && !HasName(KeysOf(w.keys, r.owner), Text.ToLower(r.name))
  }

  /**
   Creating a key keeps the table's invariant exactly when the key fits, if it is created at all. The
   check sees to that whenever the database lets it read the owner's keys.
   */
  lemma PostKeepsIff(w: World, callerId: UserId, r: KeyPostRequest)
    requires WellKeyed(w) && KeyInvariant(w) && FreshIds(w, PostKey(callerId, r))
    ensures KeyInvariant(KeyPost(w, callerId, r).world) <==> (KeyPost(w, callerId, r).status == OK ==> Fits(w, r))
    ensures r.pageOk && KeyPost(w, callerId, r).status == OK ==> Fits(w, r)
  {
    var w' := KeyPost(w, callerId, r).world;
    PageIsComplete(w, r.owner);
    if KeyPost(w, callerId, r).status == OK {
      var k := Last(w'.keys);
      assert w'.keys == w.keys + [k] && k.userUuid == r.owner && k.name == Text.ToLower(r.name);
      PostKeepsRows(w, callerId, r);
      Text.ToLowerIdempotent(r.name);
      hide KeyPost, KeysOf, HasName, KeyPage, Text.ToLower;
      if Fits(w, r) {
        hide Tidy;
        forall owner ensures Tidy(KeysOf(w'.keys, owner)) {
          RowAdded(w.keys, k, owner);
        }
      } else {
        NoFit(w.keys, k);
        assert !Tidy(KeysOf(w'.keys, r.owner));
      }
    }
  }

  lemma NoFit(keys: seq<ApiKey>, k: ApiKey)
    requires |KeysOf(keys, k.userUuid)| >= MAX_KEYS || HasName(KeysOf(keys, k.userUuid), k.name)
    ensures !Tidy(KeysOf(keys + [k], k.userUuid))
  {
    KeysOfConcat(keys, [k], k.userUuid);
    assert KeysOf([k], k.userUuid) == [k];
    var mine := KeysOf(keys, k.userUuid);
    assert (mine + [k])[|mine|] == k;
    hide KeysOf;
    if i :| 0 <= i < |mine| && mine[i].name == k.name {
      assert (mine + [k])[i].name == k.name;
    }
  }

  lemma PostKeepsRows(w: World, callerId: UserId, r: KeyPostRequest)
    requires WellKeyed(w) && KeyRows(w) && FreshIds(w, PostKey(callerId, r))
    ensures KeyRows(KeyPost(w, callerId, r).world)
  {
    hide KeysOf, KeyPage, HasName, Text.ToLower;
  }

  lemma PutKeepsRows(w: World, callerId: UserId, r: KeyPutRequest)
    requires KeyRows(w)
    ensures KeyRows(KeyPut(w, callerId, r).world)
  {
    var keys := KeyPut(w, callerId, r).world.keys;
    assert |keys| == |w.keys| && forall j :: 0 <= j < |keys| ==> keys[j].id == w.keys[j].id && keys[j].userUuid == w.keys[j].userUuid;
  }

  lemma DeleteKeepsRows(w: World, callerId: UserId, r: KeyDeleteRequest)
    requires KeyRows(w)
    ensures KeyRows(KeyDelete(w, callerId, r).world)
  {
    var w', i := KeyDelete(w, callerId, r).world, FindKey(w.keys, r.keyId);
    if w'.keys != w.keys {
      assert w' == w.(keys := w.keys[..i] + w.keys[i + 1..]);
      RowsWithout(w, i);
    }
    hide KeyRows, FindKey;
  }

  lemma RowsWithout(w: World, i: nat)
    requires KeyRows(w) && i < |w.keys|
    ensures KeyRows(w.(keys := w.keys[..i] + w.keys[i + 1..]))
  {
    var keys := w.keys[..i] + w.keys[i + 1..];
    assert forall j :: 0 <= j < |keys| ==> keys[j] == w.keys[if j < i then j else j + 1];
  }

  lemma PutKeeps(w: World, callerId: UserId, r: KeyPutRequest)
    requires KeyInvariant(w)
    ensures KeyInvariant(KeyPut(w, callerId, r).world)
  {
    var w' := KeyPut(w, callerId, r).world;
    PutKeepsRows(w, callerId, r);
    if w'.keys != w.keys {
      var i := FindKey(w.keys, r.keyId);
      var k, k' := w.keys[i], w'.keys[i];
      assert w'.keys == w.keys[i := k'] && k' == k.(description := k'.description);
      hide KeyPut, KeysOf, Tidy, KeyRows;
      forall o ensures Tidy(KeysOf(w'.keys, o)) {
        RowRewritten(w.keys, i, k', o);
      }
    }
  }

  /** Rewriting a row without touching its name or owner leaves every owner's keys tidy. */
  lemma RowRewritten(keys: seq<ApiKey>, i: nat, k: ApiKey, owner: UserId)
    requires i < |keys| && Tidy(KeysOf(keys, owner))
    requires k.name == keys[i].name && k.userUuid == keys[i].userUuid
    ensures Tidy(KeysOf(keys[i := k], owner))
  {
    hide KeysOf, Tidy;
    var keys' := keys[i := k];
    KeysAround(keys, i, owner);
    KeysAround(keys', i, owner);
    assert keys'[..i] == keys[..i] && keys'[i + 1..] == keys[i + 1..];
    if k.userUuid == owner {
      TidyUpdate(KeysOf(keys[..i], owner), keys[i], k, KeysOf(keys[i + 1..], owner));
    }
  }

  lemma DeleteKeeps(w: World, callerId: UserId, r: KeyDeleteRequest)
    requires KeyInvariant(w)
    ensures KeyInvariant(KeyDelete(w, callerId, r).world)
  {
    var w' := KeyDelete(w, callerId, r).world;
    DeleteKeepsRows(w, callerId, r);
    if w'.keys != w.keys {
      var i := FindKey(w.keys, r.keyId);
      assert w'.keys == w.keys[..i] + w.keys[i + 1..];
      hide KeyDelete, KeysOf, Tidy, KeyRows;
      forall o ensures Tidy(KeysOf(w'.keys, o)) {
        RowGone(w.keys, i, o);
      }
    }
  }

  /** Taking one row out of the table leaves every owner's keys tidy. */
  lemma RowGone(keys: seq<ApiKey>, i: nat, owner: UserId)
    requires i < |keys| && Tidy(KeysOf(keys, owner))
    ensures Tidy(KeysOf(keys[..i] + keys[i + 1..], owner))
  {
    hide KeysOf, Tidy;
    KeysAround(keys, i, owner);
    KeysOfConcat(keys[..i], keys[i + 1..], owner);
    if keys[i].userUuid == owner {
      TidyWithout(KeysOf(keys[..i], owner), keys[i], KeysOf(keys[i + 1..], owner));
    } else {
      assert KeysOf(keys[..i], owner) + [] == KeysOf(keys[..i], owner);
    }
  }

  /** All other requests leave the keys as they are. */
  lemma OtherRequestsKeep(cfg: Config, w: World, r: Request)
    requires !r.PostKey? && !r.PutKey? && !r.DeleteKey?
    ensures Serve(cfg, w, r).world.keys == w.keys
    ensures |Serve(cfg, w, r).world.issued| >= |w.issued| && Serve(cfg, w, r).world.issued[..|w.issued|] == w.issued
  {
    hide Create, Put;
    IssuedGrows(cfg, w, r);
    if r.CreateUser? {
      CreateEffect(w, r.caller, r.create);
    } else if r.PutUser? {
      PutEffect(cfg, w, r.caller, r.put);
    }
  }

  lemma RowsOfSameKeys(w: World, w': World)
    requires KeyRows(w) && w'.keys == w.keys && |w'.issued| >= |w.issued| && w'.issued[..|w.issued|] == w.issued
    ensures KeyRows(w')
  {
  }

  lemma StepKeepsRows(cfg: Config, w: World, r: Request)
    requires WellKeyed(w) && KeyRows(w) && FreshIds(w, r)
    ensures KeyRows(Serve(cfg, w, r).world)
  {
    hide KeyPost, KeyPut, KeyDelete, Create, Put, Delete, KeyRows, WellKeyed;
    match r
    case PostKey(caller, post) => PostKeepsRows(w, caller, post);
    case PutKey(caller, change) => PutKeepsRows(w, caller, change);
    case DeleteKey(caller, delete) => DeleteKeepsRows(w, caller, delete);
    case _ =>
      OtherRequestsKeep(cfg, w, r);
      RowsOfSameKeys(w, Serve(cfg, w, r).world);
  }

  lemma {:induction false} AlwaysRows(cfg: Config, w: World, run: seq<Request>)
    requires WellKeyed(w) && KeyRows(w) && Legal(cfg, w, run)
    ensures WellKeyed(After(cfg, w, run)) && KeyRows(After(cfg, w, run))
  {
    hide Serve, KeyRows, WellKeyed;
    if run != [] {
      AlwaysRows(cfg, w, Front(run));
      StepKeepsKeys(cfg, After(cfg, w, Front(run)), Last(run));
      StepKeepsRows(cfg, After(cfg, w, Front(run)), Last(run));
    }
  }

  /** The request creates a key that does not fit. For that the database must refuse to read the owner's keys. */
  predicate Overfills(cfg: Config, w: World, r: Request) {
    r.PostKey? && !r.post.pageOk && Serve(cfg, w, r).status == OK && !Fits(w, r.post)
  }

  lemma StepKeepsTidyIff(cfg: Config, w: World, r: Request)
    requires WellKeyed(w) && KeyInvariant(w) && FreshIds(w, r)
    ensures KeyInvariant(Serve(cfg, w, r).world) <==> !Overfills(cfg, w, r)
  {
    hide KeyPost, KeyPut, KeyDelete, Create, Put, Delete, KeyRows, WellKeyed, Fits, Tidy;
    match r
    case PostKey(caller, post) => PostKeepsIff(w, caller, post);
    case PutKey(caller, change) => PutKeeps(w, caller, change);
    case DeleteKey(caller, delete) => DeleteKeeps(w, caller, delete);
    case _ =>
      OtherRequestsKeep(cfg, w, r);
      RowsOfSameKeys(w, Serve(cfg, w, r).world);
  }

  /** Step `n` of the run creates a key that does not fit. */
  predicate OverfillsAt(cfg: Config, w: World, run: seq<Request>, n: nat) {
    n < |run| && Overfills(cfg, After(cfg, w, run[..n]), run[n])
  }

  /** The state after `n` steps meets the table's invariant. */
  ghost predicate TidyAt(cfg: Config, w: World, run: seq<Request>, n: nat) {
    n <= |run| && KeyInvariant(After(cfg, w, run[..n]))
  }

  /**
   Over a run each owner has at all times at most ten keys, with distinct lower-case names, exactly when no
   step of it created a key that did not fit - in particular when the database lets all checks read.
   */
  lemma {:induction false} AlwaysTidyIff(cfg: Config, w: World, run: seq<Request>)
    requires WellKeyed(w) && KeyInvariant(w) && Legal(cfg, w, run)
    ensures WellKeyed(After(cfg, w, run))
    ensures (forall n: nat :: n <= |run| ==> TidyAt(cfg, w, run, n)) <==> !exists n: nat :: OverfillsAt(cfg, w, run, n)
  {
    hide Serve, KeyInvariant, WellKeyed, Overfills;
    assert run[..|run|] == run && After(cfg, w, []) == w;
    if run == [] {
      assert forall n: nat :: n <= |run| ==> TidyAt(cfg, w, run, n);
    } else {
      var before, k := Front(run), |run| - 1;
      AlwaysTidyIff(cfg, w, before);
      StepKeepsKeys(cfg, After(cfg, w, before), Last(run));
      assert run[..k] == before;
      forall n: nat | n <= k
        ensures TidyAt(cfg, w, before, n) == TidyAt(cfg, w, run, n)
        ensures n < k ==> OverfillsAt(cfg, w, before, n) == OverfillsAt(cfg, w, run, n)
      {
        assert before[..n] == run[..n];
      }
      assert TidyAt(cfg, w, before, k) <==> KeyInvariant(After(cfg, w, before));
      if KeyInvariant(After(cfg, w, before)) {
        StepKeepsTidyIff(cfg, After(cfg, w, before), Last(run));
      }
      assert OverfillsAt(cfg, w, run, k) <==> Overfills(cfg, After(cfg, w, before), Last(run));
      assert TidyAt(cfg, w, run, |run|) <==> KeyInvariant(After(cfg, w, run));
      LastStep(cfg, w, run);
    }
  }

  /** The bookkeeping of AlwaysTidyIff: its claim for a run from its claim for the run without the last step. */
  lemma LastStep(cfg: Config, w: World, run: seq<Request>)
    requires run != []
    requires forall n: nat :: n < |run| ==> TidyAt(cfg, w, Front(run), n) == TidyAt(cfg, w, run, n)
    requires forall n: nat :: n < |run| - 1 ==> OverfillsAt(cfg, w, Front(run), n) == OverfillsAt(cfg, w, run, n)
    requires (forall n: nat :: n <= |run| - 1 ==> TidyAt(cfg, w, Front(run), n)) <==>
      !exists n: nat :: OverfillsAt(cfg, w, Front(run), n)
    requires TidyAt(cfg, w, Front(run), |run| - 1) ==>
      (TidyAt(cfg, w, run, |run|) <==> !OverfillsAt(cfg, w, run, |run| - 1))
    ensures (forall n: nat :: n <= |run| ==> TidyAt(cfg, w, run, n)) <==> !exists n: nat :: OverfillsAt(cfg, w, run, n)
  {
    assert forall n: nat :: OverfillsAt(cfg, w, run, n) ==> n < |run|;
    assert forall n: nat :: OverfillsAt(cfg, w, Front(run), n) ==> n < |run| - 1;
    hide TidyAt, OverfillsAt;
    if forall n: nat :: n <= |run| ==> TidyAt(cfg, w, run, n) {
      assert forall n: nat :: n <= |run| - 1 ==> TidyAt(cfg, w, Front(run), n);
      forall n: nat ensures !OverfillsAt(cfg, w, run, n) {
        if n < |run| - 1 {
          assert !OverfillsAt(cfg, w, Front(run), n);
        } else if n == |run| - 1 {
          assert TidyAt(cfg, w, run, |run|);
        }
      }
    }
    if !exists n: nat :: OverfillsAt(cfg, w, run, n) {
      forall n: nat ensures !OverfillsAt(cfg, w, Front(run), n) {
        if n < |run| - 1 {
          assert !OverfillsAt(cfg, w, run, n);
        }
      }
      forall n: nat | n <= |run| ensures TidyAt(cfg, w, run, n) {
        if n < |run| {
          assert TidyAt(cfg, w, Front(run), n);
        } else {
          assert TidyAt(cfg, w, Front(run), |run| - 1) && !OverfillsAt(cfg, w, run, |run| - 1);
        }
      }
    }
  }

  // ---------- Who changes keys, and what a request leaves ----------

  /** The caller is a current user, and the keys are its own or it is a ROOT user. */
  predicate OwnerOrRoot(w: World, callerId: UserId, owner: UserId) {
    callerId in w.users && (callerId == owner || w.users[callerId].userRole == ROOT)
  }

  /** When a key is created: by its owner or a ROOT user, for a current user, named, not expired, and fitting what the check reads. */
  lemma PostAcceptedIff(w: World, callerId: UserId, r: KeyPostRequest)
    ensures KeyPost(w, callerId, r).status == OK <==>
      && OwnerOrRoot(w, callerId, r.owner) && r.owner != "" && r.owner in w.users
      && r.parsed && r.alphaNumeric && r.name != "" && r.now <= r.expiresOn && r.dbOk
      && (r.pageOk ==> |KeyPage(w.keys, r.owner)| < 10 && !HasName(KeyPage(w.keys, r.owner), Text.ToLower(r.name)))
  {
    hide KeyPage, Text.ToLower;
  }

  /** What a created key is; a refused request changes nothing. */
  lemma PostLeaves(w: World, callerId: UserId, r: KeyPostRequest)
    ensures KeyPost(w, callerId, r).world ==
      if KeyPost(w, callerId, r).status == OK then
        w.(keys := w.keys + [ApiKey(r.freshId, r.owner, Text.ToLower(r.name), r.description, r.expiresOn, r.now, 0)])
      else w
  {
    hide KeyPage, HasName, Text.ToLower;
  }

  /** A description changes exactly when the owner or a ROOT user names an existing key of that owner. */
  lemma PutLeaves(w: World, callerId: UserId, r: KeyPutRequest)
    requires KeyRows(w)
    ensures KeyPut(w, callerId, r).status == OK <==>
      OwnerOrRoot(w, callerId, r.owner) && r.owner != "" && r.parsed && r.dbOk && HasKey(w, r.keyId, r.owner)
    ensures var keys := KeyPut(w, callerId, r).world.keys;
      && KeyPut(w, callerId, r).world == w.(keys := keys) && |keys| == |w.keys|
      && forall i :: 0 <= i < |keys| ==>
        var changed := KeyPut(w, callerId, r).status == OK && w.keys[i].id == r.keyId && r.description.Some?;
        keys[i] == if changed then w.keys[i].(description := r.description.value) else w.keys[i]
  {
  }

  /**
   A key is deleted exactly when its owner or a ROOT user names it; afterwards, unless the database keeps
   the row, no key has that id, and all other keys are there.
   */
  lemma DeleteLeaves(w: World, callerId: UserId, r: KeyDeleteRequest, k: ApiKey)
    requires KeyRows(w)
    ensures KeyDelete(w, callerId, r).status == OK <==>
      OwnerOrRoot(w, callerId, r.owner) && r.owner != "" && r.owner in w.users && r.keyId != "" && HasKey(w, r.keyId, r.owner)
    ensures var reply := KeyDelete(w, callerId, r);
      && reply.world == w.(keys := reply.world.keys)
      && (k in reply.world.keys <==> k in w.keys && !(reply.status == OK && r.dbOk && k.id == r.keyId))
  {
    var keys, i := KeyDelete(w, callerId, r).world.keys, FindKey(w.keys, r.keyId);
    if i < |w.keys| {
      assert w.keys == w.keys[..i] + [w.keys[i]] + w.keys[i + 1..];
      assert forall j :: 0 <= j < |w.keys| && w.keys[j].id == r.keyId ==> j == i;
    }
  }

  /** Whatever request changes the key table, its caller owns the keys or is a ROOT user, and nobody else's rows change. */
  lemma OnlyOwnerOrRootChangesKeys(cfg: Config, w: World, r: Request, other: UserId)
    requires KeyRows(w) && Serve(cfg, w, r).world.keys != w.keys
    ensures r.PostKey? || r.PutKey? || r.DeleteKey?
    ensures var owner := if r.PostKey? then r.post.owner else if r.PutKey? then r.change.owner else r.delete.owner;
      && OwnerOrRoot(w, r.caller, owner)
      && (other != owner ==> KeysOf(Serve(cfg, w, r).world.keys, other) == KeysOf(w.keys, other))
  {
    hide Create, Put, Delete, KeyPost, KeyPut, KeyDelete, KeysOf, KeyRows, OwnerOrRoot;
    match r
    case PostKey(caller, post) => PostTouches(w, caller, post, other);
    case PutKey(caller, change) => PutTouches(w, caller, change, other);
    case DeleteKey(caller, delete) => DeleteTouches(w, caller, delete, other);
    case _ => OtherRequestsKeep(cfg, w, r);
  }

  lemma PostTouches(w: World, callerId: UserId, r: KeyPostRequest, other: UserId)
    requires KeyPost(w, callerId, r).world.keys != w.keys
    ensures OwnerOrRoot(w, callerId, r.owner)
    ensures other != r.owner ==> KeysOf(KeyPost(w, callerId, r).world.keys, other) == KeysOf(w.keys, other)
  {
    PostAcceptedIff(w, callerId, r);
    PostLeaves(w, callerId, r);
    var k := ApiKey(r.freshId, r.owner, Text.ToLower(r.name), r.description, r.expiresOn, r.now, 0);
    KeysOfConcat(w.keys, [k], other);
    assert other != r.owner ==> KeysOf([k], other) == [];
    hide KeyPost, KeysOf, Text.ToLower;
  }

  lemma PutTouches(w: World, callerId: UserId, r: KeyPutRequest, other: UserId)
    requires KeyRows(w) && KeyPut(w, callerId, r).world.keys != w.keys
    ensures OwnerOrRoot(w, callerId, r.owner)
    ensures other != r.owner ==> KeysOf(KeyPut(w, callerId, r).world.keys, other) == KeysOf(w.keys, other)
  {
    var i, keys := FindKey(w.keys, r.keyId), KeyPut(w, callerId, r).world.keys;
    PutLeaves(w, callerId, r);
    assert w.keys[i].userUuid == r.owner && keys == w.keys[i := keys[i]] && keys[i].userUuid == r.owner;
    KeysAround(w.keys, i, other);
    KeysAround(keys, i, other);
    assert keys[..i] == w.keys[..i] && keys[i + 1..] == w.keys[i + 1..];
    hide KeyPut, KeysOf, KeyRows;
  }

  lemma DeleteTouches(w: World, callerId: UserId, r: KeyDeleteRequest, other: UserId)
    requires KeyRows(w) && KeyDelete(w, callerId, r).world.keys != w.keys
    ensures OwnerOrRoot(w, callerId, r.owner)
    ensures other != r.owner ==> KeysOf(KeyDelete(w, callerId, r).world.keys, other) == KeysOf(w.keys, other)
  {
    var i := FindKey(w.keys, r.keyId);
    DeleteLeaves(w, callerId, r, w.keys[i]);
    KeysAround(w.keys, i, other);
    KeysOfConcat(w.keys[..i], w.keys[i + 1..], other);
    assert w.keys[i].userUuid == r.owner && KeyDelete(w, callerId, r).world.keys == w.keys[..i] + w.keys[i + 1..];
    assert other != r.owner ==> KeysOf(w.keys, other) == KeysOf(w.keys[..i], other) + [] + KeysOf(w.keys[i + 1..], other);
    hide KeyDelete, KeysOf, KeyRows;
  }

  /** Step `n` is an accepted request for this key, by its owner or a ROOT user. */
  predicate PostedAt(cfg: Config, w: World, run: seq<Request>, n: nat, k: ApiKey) {
    && n < |run| && run[n].PostKey? && run[n].post.freshId == k.id && run[n].post.owner == k.userUuid
    && Text.ToLower(run[n].post.name) == k.name && run[n].post.expiresOn == k.expiresOn
    && OwnerOrRoot(After(cfg, w, run[..n]), run[n].caller, k.userUuid)
  }

  /** Every key at the end of a run was posted in it, by its owner or a ROOT user, with its name and its expiry. */
  lemma {:induction false} KeyWasPosted(cfg: Config, w: World, run: seq<Request>, k: ApiKey) returns (n: nat)
    requires WellKeyed(w) && w.keys == [] && Legal(cfg, w, run) && k in After(cfg, w, run).keys
    ensures PostedAt(cfg, w, run, n, k)
  {
    hide Serve, WellKeyed, KeyPost, KeyPut, KeyDelete, OwnerOrRoot, Text.ToLower;
    var before, r, v := Front(run), Last(run), After(cfg, w, Front(run));
    assert run[..|run| - 1] == before;
    EmptyRows(w);
    AlwaysRows(cfg, w, before);
    var k' := KeyBefore(cfg, v, r, k);
    if k' in v.keys {
      n := KeyWasPosted(cfg, w, before, k');
      assert before[..n] == run[..n];
    } else {
      n := |run| - 1;
    }
  }

  lemma EmptyRows(w: World)
    requires w.keys == []
    ensures KeyRows(w)
  {
  }

  /** A key after a request was there before it, but for its description, or was posted by it. */
  lemma KeyBefore(cfg: Config, w: World, r: Request, k: ApiKey) returns (k': ApiKey)
    requires KeyRows(w) && k in Serve(cfg, w, r).world.keys
    ensures k == k'.(description := k.description)
    ensures k' in w.keys ||
      (r.PostKey? && r.post.freshId == k.id && r.post.owner == k.userUuid && Text.ToLower(r.post.name) == k.name &&
       r.post.expiresOn == k.expiresOn && OwnerOrRoot(w, r.caller, k.userUuid))
  {
    hide Create, Put, Delete, KeyPost, KeyPut, KeyDelete, OwnerOrRoot, Text.ToLower;
    k' := k;
    match r
    case PostKey(caller, post) =>
      PostLeaves(w, caller, post);
      PostAcceptedIff(w, caller, post);
    case PutKey(caller, change) =>
      PutLeaves(w, caller, change);
      var keys := KeyPut(w, caller, change).world.keys;
      var i :| 0 <= i < |keys| && keys[i] == k;
      k' := w.keys[i];
    case DeleteKey(caller, delete) =>
      DeleteLeaves(w, caller, delete, k);
    case _ =>
      OtherRequestsKeep(cfg, w, r);
  }

  // ---------- Keys without a user ----------

  /** Every key belongs to a current user. */
  predicate NoOrphans(w: World) {
    forall i :: 0 <= i < |w.keys| ==> w.keys[i].userUuid in w.users
  }

  /** A user deletion leaves keys without a user exactly when the deleted user had keys. */
  lemma DeletionOrphansIff(w: World, callerId: UserId, target: UserId, dbOk: bool)
    requires NoOrphans(w) && Delete(w, callerId, target, dbOk).status == OK
    ensures NoOrphans(Delete(w, callerId, target, dbOk).world) <==> KeysOf(w.keys, target) == []
  {
    var w' := Delete(w, callerId, target, dbOk).world;
    if KeysOf(w.keys, target) != [] {
      KeysOfMembers(w.keys, target, KeysOf(w.keys, target)[0]);
      var i :| 0 <= i < |w.keys| && w.keys[i] == KeysOf(w.keys, target)[0];
      assert w'.keys[i].userUuid !in w'.users;
    } else {
      forall i | 0 <= i < |w.keys| ensures w.keys[i].userUuid in w'.users {
        KeysOfMembers(w.keys, target, w.keys[i]);
      }
    }
  }

  /** No other request leaves a key without a user. */
  lemma OthersKeepOwners(cfg: Config, w: World, r: Request)
    requires WellKeyed(w) && FreshIds(w, r) && NoOrphans(w) && !r.DeleteUser?
    ensures NoOrphans(Serve(cfg, w, r).world)
  {
    hide Create, Put, WellKeyed;
    if r.CreateUser? {
      CreateEffect(w, r.caller, r.create);
    } else if r.PutUser? {
      PutEffect(cfg, w, r.caller, r.put);
    }
  }

  /** An id that was issued and is no longer a user never becomes one again. */
  lemma GoneStaysGone(cfg: Config, w: World, r: Request, id: UserId)
    requires WellKeyed(w) && FreshIds(w, r) && id in w.issued && id !in w.users
    ensures id !in Serve(cfg, w, r).world.users && id in Serve(cfg, w, r).world.issued
  {
    hide Create, Put, Serve;
    StepEffect(cfg, w, r);
    IssuedGrows(cfg, w, r);
    if r.CreateUser? {
      CreateEffect(w, r.caller, r.create);
    } else if r.PutUser? {
      PutEffect(cfg, w, r.caller, r.put);
    }
  }

  predicate HasKey(w: World, keyId: string, owner: UserId) {
    exists i :: 0 <= i < |w.keys| && w.keys[i].id == keyId && w.keys[i].userUuid == owner
  }

  /** No request removes a key whose owner is gone. */
  lemma OrphanStepStays(cfg: Config, w: World, r: Request, keyId: string, owner: UserId)
    requires KeyRows(w) && HasKey(w, keyId, owner) && owner !in w.users
    ensures HasKey(Serve(cfg, w, r).world, keyId, owner)
  {
    hide KeyRows, KeyPost, KeyPut, KeyDelete, Create, Put, Delete;
    match r
    case PostKey(caller, post) => OrphanAfterPost(w, caller, post, keyId, owner);
    case PutKey(caller, change) => OrphanAfterPut(w, caller, change, keyId, owner);
    case DeleteKey(caller, delete) => OrphanAfterDelete(w, caller, delete, keyId, owner);
    case _ => OtherRequestsKeep(cfg, w, r);
  }

  lemma OrphanAfterPost(w: World, callerId: UserId, r: KeyPostRequest, keyId: string, owner: UserId)
    requires HasKey(w, keyId, owner)
    ensures HasKey(KeyPost(w, callerId, r).world, keyId, owner)
  {
    var i :| 0 <= i < |w.keys| && w.keys[i].id == keyId && w.keys[i].userUuid == owner;
    assert KeyPost(w, callerId, r).world.keys[i] == w.keys[i];
  }

  lemma OrphanAfterPut(w: World, callerId: UserId, r: KeyPutRequest, keyId: string, owner: UserId)
    requires HasKey(w, keyId, owner)
    ensures HasKey(KeyPut(w, callerId, r).world, keyId, owner)
  {
    var i :| 0 <= i < |w.keys| && w.keys[i].id == keyId && w.keys[i].userUuid == owner;
    var keys := KeyPut(w, callerId, r).world.keys;
    assert |keys| == |w.keys| && keys[i].id == keyId && keys[i].userUuid == owner;
  }

  lemma OrphanAfterDelete(w: World, callerId: UserId, r: KeyDeleteRequest, keyId: string, owner: UserId)
    requires HasKey(w, keyId, owner) && owner !in w.users
    ensures HasKey(KeyDelete(w, callerId, r).world, keyId, owner)
  {
    var i :| 0 <= i < |w.keys| && w.keys[i].id == keyId && w.keys[i].userUuid == owner;
    var keys, gone := KeyDelete(w, callerId, r).world.keys, FindKey(w.keys, r.keyId);
    if keys != w.keys {
      assert gone != i;
      assert keys[if i < gone then i else i - 1] == w.keys[i];
    }
  }

  /** Once a key has lost its user, no run of requests removes it. */
  lemma {:induction false} OrphansStay(cfg: Config, w: World, run: seq<Request>, keyId: string, owner: UserId)
    requires WellKeyed(w) && KeyRows(w) && Legal(cfg, w, run)
    requires HasKey(w, keyId, owner) && owner in w.issued && owner !in w.users
    ensures HasKey(After(cfg, w, run), keyId, owner) && owner !in After(cfg, w, run).users
    ensures owner in After(cfg, w, run).issued
  {
    hide Serve, KeyRows, WellKeyed;
    if run != [] {
      OrphansStay(cfg, w, Front(run), keyId, owner);
      AlwaysRows(cfg, w, Front(run));
      GoneStaysGone(cfg, After(cfg, w, Front(run)), Last(run), owner);
      OrphanStepStays(cfg, After(cfg, w, Front(run)), Last(run), keyId, owner);
    }
  }

  /** The request deletes a user who has keys. */
  predicate Orphans(cfg: Config, w: World, r: Request) {
    r.DeleteUser? && Serve(cfg, w, r).status == OK && KeysOf(w.keys, r.target) != []
  }

  /** A step keeps every key with a user exactly when it found it so and does not delete a user with keys. */
  lemma StepKeepsOwnersIff(cfg: Config, w: World, r: Request)
    requires WellKeyed(w) && KeyRows(w) && FreshIds(w, r)
    ensures NoOrphans(Serve(cfg, w, r).world) <==> NoOrphans(w) && !Orphans(cfg, w, r)
  {
    hide Create, Put, KeyPost, KeyPut, KeyDelete, WellKeyed, Delete;
    if !NoOrphans(w) {
      var i :| 0 <= i < |w.keys| && w.keys[i].userUuid !in w.users;
      var keyId, owner := w.keys[i].id, w.keys[i].userUuid;
      GoneStaysGone(cfg, w, r, owner);
      OrphanStepStays(cfg, w, r, keyId, owner);
    } else if r.DeleteUser? {
      if Serve(cfg, w, r).status == OK {
        DeletionOrphansIff(w, r.caller, r.target, r.dbOk);
      } else {
        RefusedDeletion(w, r.caller, r.target, r.dbOk);
      }
    } else {
      OthersKeepOwners(cfg, w, r);
    }
  }

  lemma RefusedDeletion(w: World, callerId: UserId, target: UserId, dbOk: bool)
    ensures Delete(w, callerId, target, dbOk).status != OK ==> Delete(w, callerId, target, dbOk).world == w
  {
  }

  /** Step `n` of the run deletes a user who has keys. */
  predicate OrphansAt(cfg: Config, w: World, run: seq<Request>, n: nat) {
    n < |run| && Orphans(cfg, After(cfg, w, run[..n]), run[n])
  }

  /** In any run from a sound start every key has a user exactly when no step deleted a user who had keys. */
  lemma {:induction false} EveryKeyHasAUserIff(cfg: Config, w: World, run: seq<Request>)
    requires WellKeyed(w) && KeyRows(w) && NoOrphans(w) && Legal(cfg, w, run)
    ensures NoOrphans(After(cfg, w, run)) <==> !exists n: nat :: OrphansAt(cfg, w, run, n)
  {
    hide Serve, KeyRows, WellKeyed, NoOrphans, Orphans;
    if run != [] {
      var before, k := Front(run), |run| - 1;
      EveryKeyHasAUserIff(cfg, w, before);
      AlwaysRows(cfg, w, before);
      StepKeepsOwnersIff(cfg, After(cfg, w, before), Last(run));
      assert run[..k] == before;
      assert OrphansAt(cfg, w, run, k) <==> Orphans(cfg, After(cfg, w, before), Last(run));
      forall n: nat | n < k ensures OrphansAt(cfg, w, before, n) == OrphansAt(cfg, w, run, n) {
        assert before[..n] == run[..n];
      }
      if n: nat :| OrphansAt(cfg, w, before, n) {
        assert OrphansAt(cfg, w, run, n);
      }
    }
  }
}
