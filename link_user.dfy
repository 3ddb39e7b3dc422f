/** engine/api/group/link_user.go: promotion of a member to group admin and
    the membership check. */
module LinkUser {
  import opened Sdk
  import opened Store

  /** The tables after the pair's link, if there is one, carries the admin flag. */
  function Promoted(t: Tables, groupID: int, userID: int): Tables {
    if (groupID, userID) in t.links then t.(links := t.links[(groupID, userID) := true]) else t
  }

  /** SetUserGroupAdmin: load the link; no link is Forbidden; an admin link is
      left as it is; otherwise the flag is set and written back. */
  method SetUserGroupAdmin(db: Db, groupID: int, userID: int) returns (err: Option<Error>)
    requires db.Valid()
    modifies db
    ensures db.Valid()
    ensures err.Some? ==> db.State() == old(db.State())
    ensures err.None? ==> db.State() == Promoted(old(db.State()), groupID, userID)
    ensures (groupID, userID) !in old(db.links) ==> err == Some(ErrForbidden)
    ensures (groupID, userID) in old(db.links) && old(db.links)[(groupID, userID)] ==>
      err.None? && db.State() == old(db.State())
    ensures (groupID, userID) in old(db.links) && !old(db.links)[(groupID, userID)] ==>
      err == (if SqlUpdateLink in db.failing then Some(StorageFailure(SqlUpdateLink)) else None)
  {
    var l := FindLink(db.links, groupID, userID);
    if l.None? {
      return Some(ErrForbidden);
    }
    if l.value.admin {
      return None;
    }
    err := db.UpdateLink(groupID, userID, true);
  }

  /** Promotion only ever touches the pair's own link, which ends up admin. */
  lemma PromotedFrame(t: Tables, groupID: int, userID: int)
    requires (groupID, userID) in t.links
    ensures var t' := Promoted(t, groupID, userID);
      && t'.links.Keys == t.links.Keys && t'.links[(groupID, userID)]
      && (forall k :: k in t.links && k != (groupID, userID) ==> t'.links[k] == t.links[k])
      && t' == t.(links := t'.links)
  {
  }

  /** Promoting twice leaves the same tables as promoting once. */
  lemma PromotedIdempotent(t: Tables, groupID: int, userID: int)
    ensures Promoted(Promoted(t, groupID, userID), groupID, userID) == Promoted(t, groupID, userID)
  {
  }

  /** CheckUserInGroup as written: it returns `l == nil`, so it reports true
      exactly when the user has NO link to the group, the opposite of what
      its name and comment say. It reads the store and changes nothing. */
  function CheckUserInGroup(db: Db, groupID: int, userID: int): (inGroup: bool)
    reads db
    ensures inGroup <==> userID !in MembersOf(db.links, groupID)
  {
    var l := FindLink(db.links, groupID, userID);
    assert l.Some? ==> userID in MembersOf(db.links, groupID);
    l.None?
  }

  /** The membership check CheckUserInGroup's comment describes: true exactly
      when the user has a link to the group. */
  function IsMember(db: Db, groupID: int, userID: int): (inGroup: bool)
    reads db
    ensures inGroup <==> userID in MembersOf(db.links, groupID)
  {
    var l := FindLink(db.links, groupID, userID);
    assert l.Some? ==> userID in MembersOf(db.links, groupID);
    l.Some?
  }

  /** The two checks always disagree. */
  lemma CheckUserInGroupIsInverted(db: Db, groupID: int, userID: int)
    ensures CheckUserInGroup(db, groupID, userID) == !IsMember(db, groupID, userID)
  {
  }

  /** The scenario of user_groups_test.go: a user non-admin member of g1 and
      g2 is promoted in g2 only; afterwards the g1 link is still not admin
      and the g2 link is. */
  method PromoteInOneOfTwoGroups() returns (adminInG1: bool, adminInG2: bool)
    ensures !adminInG1 && adminInG2
  {
    var db := new Db(None, map["lambda" := 7], {});
    var g1, e1 := db.InsertGroup("g1");
    var g2, e2 := db.InsertGroup("g2");
    assert db.groups == [g1, g2];
    assert db.groups[0].id == g1.id && db.groups[1].id == g2.id;
    var e3 := db.InsertLink(g1.id, 7, false);
    var e4 := db.InsertLink(g2.id, 7, false);
    var e5 := SetUserGroupAdmin(db, g2.id, 7);
    adminInG1 := db.links[(g1.id, 7)];
    adminInG2 := db.links[(g2.id, 7)];
  }
}
