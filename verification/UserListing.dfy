/** Listing users: a query over the table, scoped for an ADMIN, or a selection by ids checked one by one. */
module UserListing {
  import opened Common
  import opened SecurityObjects
  import opened UserStore
  import opened UserSafety
  import Acl = AclProcessor

  /** One condition of the query; conditions are joined by "and". */
  datatype Condition = NameLike(text: string) | EmailLike(text: string) | CreatedBy(id: UserId)

  /** How the database compares a text with a search term. */
  type Like = (string, string) -> bool

  predicate Holds(like: Like, c: Condition, u: UserInfo) {
    match c
    case NameLike(text) => like(u.name, text)
    case EmailLike(text) => like(u.email, text)
    case CreatedBy(id) => u.createdBy == id
  }

  predicate AllHold(like: Like, query: seq<Condition>, u: UserInfo) {
    forall i :: 0 <= i < |query| ==> Holds(like, query[i], u)
  }

  /** The rows of the table in the order of their creation. */
  function Rows(w: World, n: nat): seq<UserInfo>
    requires n <= |w.issued|
  {
    if n == 0 then []
    else Rows(w, n - 1) + if w.issued[n - 1] in w.users then [w.users[w.issued[n - 1]]] else []
  }

  function Matching(like: Like, query: seq<Condition>, rows: seq<UserInfo>): seq<UserInfo> {
    if rows == [] then []
    else (if AllHold(like, query, rows[0]) then [rows[0]] else []) + Matching(like, query, rows[1..])
  }

  function Page<T>(rows: seq<T>, offset: nat, limit: nat): seq<T> {
    var from := if offset <= |rows| then offset else |rows|;
    var to := if from + limit <= |rows| then from + limit else |rows|;
    rows[from..to]
  }

  /** Pages one after the other give the rows without gap or overlap, and no page is longer than its limit. */
  lemma PagesJoin<T>(rows: seq<T>, offset: nat, limit: nat, limit': nat)
    ensures |Page(rows, offset, limit)| <= limit
    ensures Page(rows, offset, limit) + Page(rows, offset + limit, limit') == Page(rows, offset, limit + limit')
    ensures offset == 0 && |rows| <= limit ==> Page(rows, offset, limit) == rows
  {
  }

  function Sanitize(u: UserInfo): UserInfo {
    u.(currentPassword := "", lastPasswords := [])
  }

  /** The conditions of a list request, or nothing if the caller may not list. */
  method BuildQuery(caller: UserInfo, nameSearch: string, emailSearch: string) returns (query: Option<seq<Condition>>)
    ensures query.Some? <==> caller.userRole == ROOT || caller.userRole == ADMIN
    ensures query.Some? ==> forall like: Like, u :: AllHold(like, query.value, u) <==>
      && (caller.userRole == ADMIN ==> u.createdBy == caller.id)
      && (nameSearch != "" ==> like(u.name, nameSearch)) && (emailSearch != "" ==> like(u.email, emailSearch))
    ensures caller.userRole == ADMIN && nameSearch == "" && emailSearch == "" ==> query == Some([CreatedBy(caller.id)])
  {
    var base: seq<Condition> := [];
    if nameSearch != "" || emailSearch != "" {
      if nameSearch != "" {
        base := [NameLike(nameSearch)];
      }
      if emailSearch != "" {
        base := if base == [] then [EmailLike(emailSearch)] else base + [EmailLike(emailSearch)];
      }
    }
    if caller.userRole == ROOT {
    } else if caller.userRole == ADMIN {
      var scope := [CreatedBy(caller.id)];
      base := if base == [] then scope else scope + base;
    } else {
      return None;
    }
    forall like: Like, u
      ensures AllHold(like, base, u) <==>
        && (caller.userRole == ADMIN ==> u.createdBy == caller.id)
        && (nameSearch != "" ==> like(u.name, nameSearch)) && (emailSearch != "" ==> like(u.email, emailSearch))
    {
      if AllHold(like, base, u) {
        assert caller.userRole == ADMIN ==> Holds(like, base[0], u);
        assert nameSearch != "" ==> Holds(like, base[if caller.userRole == ADMIN then 1 else 0], u);
        assert emailSearch != "" ==> Holds(like, base[|base| - 1], u);
      }
    }
    return Some(base);
  }

  /** The select mode, for the same callers: one record after the other, those the caller may not read left out. */
  method Select(w: World, caller: UserInfo, ids: seq<UserId>) returns (answer: Option<seq<UserInfo>>)
    ensures answer == if caller.userRole in {ROOT, ADMIN} then Some(Selected(w, caller, ids)) else None
    ensures answer.Some? ==> forall u :: u in answer.value ==> u.currentPassword == "" && u.lastPasswords == []
  {
    if caller.userRole != ROOT && caller.userRole != ADMIN {
      return None;
    }
    var res: seq<UserInfo> := [];
    for i := 0 to |ids|
      invariant res == Selected(w, caller, ids[..i])
    {
      assert ids[..i + 1] == ids[..i] + [ids[i]];
      SelectedAppend(w, caller, ids[..i], ids[i]);
      if ids[i] in w.users {
        var u := w.users[ids[i]];
        if !Acl.CanReadUserRecord(caller, u) {
          continue;
        }
        res := res + [Sanitize(u)];
      }
    }
    assert ids[..|ids|] == ids;
    NoPasswords(w, caller, ids);
    return Some(res);
  }

  function Selected(w: World, caller: UserInfo, ids: seq<UserId>): seq<UserInfo> {
    if ids == [] then []
    else Readable(w, caller, ids[0]) + Selected(w, caller, ids[1..])
  }

  /** The sanitized record of an id, or nothing if there is none the caller may read. */
  function Readable(w: World, caller: UserInfo, id: UserId): seq<UserInfo> {
    if id in w.users && Acl.CanReadUserRecord(caller, w.users[id]) then [Sanitize(w.users[id])] else []
  }

  lemma {:induction false} SelectedAppend(w: World, caller: UserInfo, ids: seq<UserId>, id: UserId)
    ensures Selected(w, caller, ids + [id]) == Selected(w, caller, ids) + Readable(w, caller, id)
  {
    hide Readable;
    if ids == [] {
      assert ids + [id] == [id];
      assert Selected(w, caller, [id][1..]) == [];
    } else {
      SelectedAppend(w, caller, ids[1..], id);
      assert (ids + [id])[1..] == ids[1..] + [id] && (ids + [id])[0] == ids[0];
    }
  }

  lemma {:induction false} SelectedAreReadable(w: World, caller: UserInfo, ids: seq<UserId>, u: UserInfo)
    requires WellKeyed(w)
    ensures u in Selected(w, caller, ids) <==>
      exists id :: id in ids && id in w.users && Acl.CanReadUserRecord(caller, w.users[id]) && u == Sanitize(w.users[id])
  {
    if ids != [] {
      SelectedAreReadable(w, caller, ids[1..], u);
      assert forall id :: id in ids <==> id == ids[0] || id in ids[1..];
    }
  }

  lemma {:induction false} RowsAreUsers(w: World, n: nat, u: UserInfo)
    requires WellKeyed(w) && n <= |w.issued|
    ensures u in Rows(w, n) <==> exists i :: 0 <= i < n && w.issued[i] in w.users && u == w.users[w.issued[i]]
  {
    if n > 0 {
      RowsAreUsers(w, n - 1, u);
    }
  }

  lemma {:induction false} MatchingMembers(like: Like, query: seq<Condition>, rows: seq<UserInfo>, u: UserInfo)
    ensures u in Matching(like, query, rows) <==> u in rows && AllHold(like, query, u)
  {
    if rows != [] {
      MatchingMembers(like, query, rows[1..], u);
      assert rows == [rows[0]] + rows[1..];
    }
  }

  /** No record of a forest created itself. */
  lemma NobodyCreatedItself(w: World, id: UserId)
    requires WellKeyed(w) && Forest(w) && id in w.users
    ensures w.users[id].createdBy != id
  {
    if w.users[id].createdBy == id {
      NoCreatorCycle(w, [id, id], 0, 1);
    }
  }

  /**
   With no search terms the scope of an ADMIN's list is exactly the set of records the ADMIN may read,
   without its own.
   */
  lemma AdminScopeIsReadable(w: World, like: Like, caller: UserId, u: UserInfo)
    requires WellKeyed(w) && Forest(w) && caller in w.users && w.users[caller].userRole == ADMIN
    ensures u in Matching(like, [CreatedBy(caller)], Rows(w, |w.issued|)) <==>
      u.id in w.users && w.users[u.id] == u && Acl.CanReadUserRecord(w.users[caller], u) && u.id != caller
  {
    MatchingMembers(like, [CreatedBy(caller)], Rows(w, |w.issued|), u);
    RowsAreUsers(w, |w.issued|, u);
    assert AllHold(like, [CreatedBy(caller)], u) <==> Holds(like, CreatedBy(caller), u) by {
      assert forall i :: 0 <= i < 1 ==> [CreatedBy(caller)][i] == CreatedBy(caller);
      if AllHold(like, [CreatedBy(caller)], u) {
        assert Holds(like, [CreatedBy(caller)][0], u);
      }
    }
    if u.id in w.users && w.users[u.id] == u {
      NobodyCreatedItself(w, u.id);
      var i :| 0 <= i < |w.issued| && w.issued[i] == u.id;
    }
  }

  /** What BuildQuery promises of an ADMIN's query. */
  ghost predicate OnlyCreatedBy(like: Like, query: seq<Condition>, id: UserId) {
    forall u :: AllHold(like, query, u) ==> u.createdBy == id
  }

  /** Whatever the search terms and the page, a list under a query that BuildQuery makes holds only records its caller may read. */
  lemma ListedAreReadable(w: World, like: Like, caller: UserId, query: seq<Condition>, offset: nat, limit: nat, u: UserInfo)
    requires WellKeyed(w) && Forest(w) && caller in w.users
    requires w.users[caller].userRole == ROOT || (w.users[caller].userRole == ADMIN && OnlyCreatedBy(like, query, caller))
    requires u in Page(Matching(like, query, Rows(w, |w.issued|)), offset, limit)
    ensures u.id in w.users && w.users[u.id] == u && Acl.CanReadUserRecord(w.users[caller], u)
  {
    assert u in Matching(like, query, Rows(w, |w.issued|));
    MatchingMembers(like, query, Rows(w, |w.issued|), u);
    RowsAreUsers(w, |w.issued|, u);
  }

  /** The list mode: the rows of one page, each without its passwords. */
  method List(w: World, like: Like, caller: UserId, nameSearch: string, emailSearch: string, offset: nat, limit: nat)
    returns (res: Option<seq<UserInfo>>)
    requires WellKeyed(w) && Forest(w) && caller in w.users
    ensures res.Some? <==> w.users[caller].userRole in {ROOT, ADMIN}
    ensures res.Some? ==> |res.value| <= limit
    ensures res.Some? ==> forall i :: 0 <= i < |res.value| ==>
      var u := res.value[i];
      && u.id in w.users && u == Sanitize(w.users[u.id]) && Acl.CanReadUserRecord(w.users[caller], w.users[u.id])
      && u.currentPassword == "" && u.lastPasswords == []
    ensures res.Some? && |w.issued| <= limit && offset == 0 && nameSearch == "" && emailSearch == "" ==>
      forall id :: (id in w.users && Acl.CanReadUserRecord(w.users[caller], w.users[id]) &&
                    (id != caller || w.users[caller].userRole == ROOT)) ==> Sanitize(w.users[id]) in res.value
  {
    var query := BuildQuery(w.users[caller], nameSearch, emailSearch);
    if query.None? {
      return None;
    }
    var all := Matching(like, query.value, Rows(w, |w.issued|));
    var page := Page(all, offset, limit);
    var users: seq<UserInfo> := [];
    for i := 0 to |page|
      invariant |users| == i
      invariant forall k :: 0 <= k < i ==> users[k] == Sanitize(page[k])
    {
      users := users + [Sanitize(page[i])];
    }
    forall i | 0 <= i < |users|
      ensures users[i].id in w.users && users[i] == Sanitize(w.users[users[i].id])
      ensures Acl.CanReadUserRecord(w.users[caller], w.users[users[i].id])
    {
      ListedAreReadable(w, like, caller, query.value, offset, limit, page[i]);
    }
    if |w.issued| <= limit && offset == 0 && nameSearch == "" && emailSearch == "" {
      MatchingLength(like, query.value, Rows(w, |w.issued|));
      RowsLength(w, |w.issued|);
      assert page == all;
      forall id | id in w.users && Acl.CanReadUserRecord(w.users[caller], w.users[id]) &&
                  (id != caller || w.users[caller].userRole == ROOT)
        ensures Sanitize(w.users[id]) in users
      {
        RowsAreUsers(w, |w.issued|, w.users[id]);
        MatchingMembers(like, query.value, Rows(w, |w.issued|), w.users[id]);
        if w.users[caller].userRole == ADMIN {
          AdminScopeIsReadable(w, like, caller, w.users[id]);
        }
        var i :| 0 <= i < |w.issued| && w.issued[i] == id;
        var k :| 0 <= k < |page| && page[k] == w.users[id];
        assert users[k] == Sanitize(w.users[id]);
      }
    }
    return Some(users);
  }

  lemma {:induction false} MatchingLength(like: Like, query: seq<Condition>, rows: seq<UserInfo>)
    ensures |Matching(like, query, rows)| <= |rows|
  {
    if rows != [] {
      MatchingLength(like, query, rows[1..]);
    }
  }

  lemma {:induction false} RowsLength(w: World, n: nat)
    requires n <= |w.issued|
    ensures |Rows(w, n)| <= n
  {
    if n > 0 {
      RowsLength(w, n - 1);
    }
  }

  lemma {:induction false} NoPasswords(w: World, caller: UserInfo, ids: seq<UserId>)
    ensures forall u :: u in Selected(w, caller, ids) ==> u.currentPassword == "" && u.lastPasswords == []
  {
    if ids != [] {
      NoPasswords(w, caller, ids[1..]);
    }
  }

  /** The select mode for an ADMIN: its own record and those it created, each without its passwords, and nothing else. */
  lemma SelectedForAdmin(w: World, caller: UserId, ids: seq<UserId>, u: UserInfo)
    requires WellKeyed(w) && caller in w.users && w.users[caller].userRole == ADMIN
    ensures u in Selected(w, w.users[caller], ids) <==>
      exists id :: id in ids && id in w.users && (id == caller || w.users[id].createdBy == caller) &&
        u == w.users[id].(currentPassword := "", lastPasswords := [])
  {
    SelectedAreReadable(w, w.users[caller], ids, u);
    forall id | id in w.users
      ensures Acl.CanReadUserRecord(w.users[caller], w.users[id]) <==> id == caller || w.users[id].createdBy == caller
    {
    }
    hide Selected;
  }
}
