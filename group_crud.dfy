/** engine/api/group/crud.go: group creation with the creator as admin. */
module GroupCrud {
  import opened Sdk
  import opened Store

  /** Create: insert the group (the insert assigns its id), then the
      creator's admin link under that id. A failed link insert returns the
      error but leaves the group row in place; undoing it is the enclosing
      transaction's job. */
  method Create(db: Db, grp: Group, userID: int) returns (created: Option<Group>, err: Option<Error>)
    requires db.Valid()
    modifies db
    ensures db.Valid()
    ensures created.None? <==> err.Some?
    ensures SqlInsertGroup in db.failing || HasGroupName(old(db.groups), grp.name) ==>
      err.Some? && db.State() == old(db.State())
    ensures SqlInsertGroup !in db.failing && !HasGroupName(old(db.groups), grp.name) ==>
      var g := Group(old(db.nextGroupID), grp.name);
      && (SqlInsertLink in db.failing ==>
            && err == Some(StorageFailure(SqlInsertLink))
            && db.State() == old(db.State()).(groups := old(db.groups) + [g], nextGroupID := g.id + 1))
      && (SqlInsertLink !in db.failing ==>
            && created == Some(g)
            && db.State() == old(db.State()).(groups := old(db.groups) + [g], nextGroupID := g.id + 1,
                                              links := old(db.links)[(g.id, userID) := true]))
    ensures created.Some? ==> AdminsOf(db.links, created.value.id) == {userID}
  {
    var g;
    g, err := db.InsertGroup(grp.name);
    if err.Some? {
      return None, err;
    }
    assert db.groups[|db.groups| - 1] == g;
    assert forall k :: k in db.links ==> k.0 < g.id;
    err := db.InsertLink(g.id, userID, true);
    if err.Some? {
      return None, err;
    }
    assert forall k :: k in db.links && k.0 == g.id ==> k == (g.id, userID);
    assert AdminsOf(db.links, g.id) == {userID} by {
      assert (g.id, userID) in db.links && db.links[(g.id, userID)];
    }
    created := Some(g);
  }
}
