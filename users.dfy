/** Resolving the signed-in user, and the single-admin promotion (`makeMeAdmin`). */
module Users {
  import opened Wrappers
  import opened Tables
  import opened Schema

  /**
   * `getCurrentUser`: the authenticated id (an explicit input here) resolved in
   * the users table. No id, or an id with no user document, gives `None`.
   */
  function CurrentUser(auth: Option<nat>, users: Table<User>): (r: Option<Doc<User>>)
    ensures auth.None? ==> r.None?
    ensures r.Some? ==> auth == Some(r.value.id) && r.value in users
    ensures auth.Some? && r.None? ==> auth.value !in Ids(users)
  {
    match auth
    case None => None
    case Some(id) =>
      match Get(users, id)
      case None => None
      case Some(u) => Some(Doc(id, u))
  }

  /** One step of the demotion loop: an admin other than `me` becomes a plain user. */
  function Demote(d: Doc<User>, me: nat): Doc<User> {
    if d.val.role == Some(RoleAdmin) && d.id != me then Doc(d.id, d.val.(role := Some(RoleUser))) else d
  }

  /** The users table after `makeMeAdmin` by `me`: `me` is admin, every other admin is demoted. */
  function TransferAdmin(users: Table<User>, me: nat): (r: Table<User>)
    ensures |r| == |users|
  {
    seq(|users|, i requires 0 <= i < |users| =>
      if users[i].id == me then Doc(me, users[i].val.(role := Some(RoleAdmin))) else Demote(users[i], me))
  }

  /**
   * After the transfer, a user is admin exactly when it is `me`, so a table in
   * which `me` exists holds exactly one admin (under unique ids).
   */
  lemma {:induction false} TransferAdminLeavesOneAdmin(users: Table<User>, me: nat)
    requires me in Ids(users)
    ensures var r := TransferAdmin(users, me);
      && (forall i :: 0 <= i < |r| ==> (r[i].val.role == Some(RoleAdmin) <==> r[i].id == me))
      && exists i :: 0 <= i < |r| && r[i].id == me && r[i].val.role == Some(RoleAdmin)
  {
    var r := TransferAdmin(users, me);
    var k :| 0 <= k < |users| && users[k].id == me;
    assert r[k].id == me && r[k].val.role == Some(RoleAdmin);
  }

  /**
   * What happens to the others: ids and order are kept, former admins become
   * "user" with their other fields intact, and every other user is untouched.
   */
  lemma TransferAdminFrame(users: Table<User>, me: nat, i: nat)
    requires i < |users| && users[i].id != me
    ensures var r := TransferAdmin(users, me);
      && r[i].id == users[i].id
      && (users[i].val.role == Some(RoleAdmin) ==> r[i].val == users[i].val.(role := Some(RoleUser)))
      && (users[i].val.role != Some(RoleAdmin) ==> r[i] == users[i])
  {
  }

  /** A second `makeMeAdmin` by the same user changes nothing. */
  lemma TransferAdminIdempotent(users: Table<User>, me: nat)
    ensures TransferAdmin(TransferAdmin(users, me), me) == TransferAdmin(users, me)
  {
  }

  /** The caller's final patch, applied to the table the demotion loop leaves behind, yields `TransferAdmin`. */
  lemma PromoteAfterDemotion(all: Table<User>, mid: Table<User>, me: nat, k: nat)
    requires UniqueIds(all) && |mid| == |all|
    requires forall j :: 0 <= j < |all| ==> mid[j] == Demote(all[j], me)
    requires k < |mid| && mid[k].id == me
    ensures Replace(mid, k, mid[k].val.(role := Some(RoleAdmin))) == TransferAdmin(all, me)
  {
    var r := Replace(mid, k, mid[k].val.(role := Some(RoleAdmin)));
    var want := TransferAdmin(all, me);
    forall j | 0 <= j < |all| ensures r[j] == want[j] {
      if all[j].id == me {
        assert mid[k].id == all[k].id;
        assert j == k;
      }
    }
  }

  /**
   * The demotion loop's state after `i` iterations: the first `i` users have
   * been through `Demote`, the rest are untouched, and ids stay where they were.
   */
  ghost predicate DemotedBefore(cur: Table<User>, all: Table<User>, me: nat, i: nat) {
    && i <= |all| && |cur| == |all|
    && (forall j :: 0 <= j < |all| ==> cur[j].id == all[j].id)
    && (forall j :: 0 <= j < i ==> cur[j] == Demote(all[j], me))
    && (forall j :: i <= j < |all| ==> cur[j] == all[j])
  }

  /** One iteration: user `i` is found at position `i`, and patching it (if needed) advances the loop state. */
  lemma DemoteStep(cur: Table<User>, all: Table<User>, me: nat, i: nat)
    requires DemotedBefore(cur, all, me, i) && i < |all| && UniqueIds(cur)
    ensures IndexOf(cur, all[i].id) == i
    ensures all[i].val.role == Some(RoleAdmin) && all[i].id != me ==>
      DemotedBefore(Replace(cur, i, all[i].val.(role := Some(RoleUser))), all, me, i + 1)
    ensures !(all[i].val.role == Some(RoleAdmin) && all[i].id != me) ==> DemotedBefore(cur, all, me, i + 1)
  {
    IndexOfAt(cur, i);
  }

  /**
   * `makeMeAdmin`: throws when nobody is signed in (nothing changes); otherwise
   * demotes every other admin in table order, promotes the caller and returns true.
   */
  method MakeMeAdmin(db: Db, auth: Option<nat>) returns (r: Result<bool>)
    requires db.Valid()
    modifies db`users
    ensures db.Valid()
    ensures var me := CurrentUser(auth, old(db.users));
      && (me.None? ==> r == Err(NotAuthenticated) && db.users == old(db.users))
      && (me.Some? ==> r == Ok(true) && db.users == TransferAdmin(old(db.users), me.value.id))
  {
    var me := CurrentUser(auth, db.users);
    if me.None? {
      return Err(NotAuthenticated);
    }
    var myId := me.value.id;
    var all := db.users;
    var bound := db.nextId;
    for i := 0 to |all|
      invariant DemotedBefore(db.users, all, myId, i)
      invariant UniqueIds(db.users) && IdsBelow(db.users, bound)
    {
      var u := all[i];
      DemoteStep(db.users, all, myId, i);
      if u.val.role == Some(RoleAdmin) && u.id != myId {
        var k := IndexOf(db.users, u.id);
        ReplaceKeepsInvariant(db.users, k, u.val.(role := Some(RoleUser)), bound);
        db.users := Replace(db.users, k, u.val.(role := Some(RoleUser)));
      }
    }
    assert myId in Ids(db.users) by {
      var j :| 0 <= j < |all| && all[j] == me.value;
      assert db.users[j].id == myId;
    }
    var k := IndexOf(db.users, myId);
    PromoteAfterDemotion(all, db.users, myId, k);
    ReplaceKeepsInvariant(db.users, k, db.users[k].val.(role := Some(RoleAdmin)), bound);
    db.users := Replace(db.users, k, db.users[k].val.(role := Some(RoleAdmin)));
    return Ok(true);
  }
}
