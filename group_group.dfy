/** engine/api/group/group.go: membership removal with the last-admin guard,
    the unguarded demotion, cascading deletion, renaming, the project's
    group list and the default-group auto-join. */
module Groups {
  import opened Sdk
  import opened Store
  import opened Text
  import opened LinkUser
  import Seqs

  // ----- the tables after each statement ------------------------------------

  /** `DELETE FROM group_user WHERE group_id = $1`. */
  function LinksWithoutGroup(links: map<(int, int), bool>, groupID: int): map<(int, int), bool> {
    map k | k in links && k.0 != groupID :: links[k]
  }

  /** `DELETE FROM project_group WHERE group_id = $1`. */
  function GrantsWithoutGroup(grants: map<(int, int), Level>, groupID: int): map<(int, int), Level> {
    map k | k in grants && k.1 != groupID :: grants[k]
  }

  function IdIsNot(groupID: int): Group -> bool {
    (g: Group) => g.id != groupID
  }

  /** `DELETE FROM "group" WHERE id = $1`. */
  function GroupsWithout(groups: seq<Group>, groupID: int): seq<Group> {
    Seqs.Filter(groups, IdIsNot(groupID))
  }

  /** The tables after all three steps of the cascade. */
  function Cascaded(t: Tables, groupID: int): Tables {
    t.(links := LinksWithoutGroup(t.links, groupID),
       grants := GrantsWithoutGroup(t.grants, groupID),
       groups := GroupsWithout(t.groups, groupID))
  }

  /** The tables after the pair's link, if there is one, loses the admin flag. */
  function Demoted(t: Tables, groupID: int, userID: int): Tables {
    if (groupID, userID) in t.links then t.(links := t.links[(groupID, userID) := false]) else t
  }

  /** `UPDATE "group" SET name = $1 WHERE name = $2`. */
  function Renamed(groups: seq<Group>, oldName: string, newName: string): seq<Group> {
    seq(|groups|, i requires 0 <= i < |groups| =>
      if groups[i].name == oldName then groups[i].(name := newName) else groups[i])
  }

  lemma GroupsWithoutValid(t: Tables, groupID: int)
    requires ValidTables(t)
    ensures ValidTables(t.(groups := GroupsWithout(t.groups, groupID)))
  {
    Seqs.FilterDistinct(t.groups, IdIsNot(groupID), GroupID);
    Seqs.FilterDistinct(t.groups, IdIsNot(groupID), GroupName);
  }

  // ----- the three steps of the cascade --------------------------------------

  /** DeleteGroupUserByGroup: every link of the group, admin or not, goes;
      the last-admin guard does not apply. */
  method DeleteGroupUserByGroup(db: Db, g: Group) returns (err: Option<Error>)
    requires db.Valid()
    modifies db
    ensures db.Valid()
    ensures err == (if SqlDeleteLinksOfGroup in db.failing then Some(StorageFailure(SqlDeleteLinksOfGroup)) else None)
    ensures err.Some? ==> db.State() == old(db.State())
    ensures err.None? ==> db.State() == old(db.State()).(links := LinksWithoutGroup(old(db.links), g.id))
  {
    if SqlDeleteLinksOfGroup in db.failing {
      return Some(StorageFailure(SqlDeleteLinksOfGroup));
    }
    db.links := LinksWithoutGroup(db.links, g.id);
    err := None;
  }

  /** deleteGroupProjectByGroup: every grant of the group goes. */
  method DeleteGroupProjectByGroup(db: Db, g: Group) returns (err: Option<Error>)
    requires db.Valid()
    modifies db
    ensures db.Valid()
    ensures err == (if SqlDeleteGrantsOfGroup in db.failing then Some(StorageFailure(SqlDeleteGrantsOfGroup)) else None)
    ensures err.Some? ==> db.State() == old(db.State())
    ensures err.None? ==> db.State() == old(db.State()).(grants := GrantsWithoutGroup(old(db.grants), g.id))
  {
    if SqlDeleteGrantsOfGroup in db.failing {
      return Some(StorageFailure(SqlDeleteGrantsOfGroup));
    }
    db.grants := GrantsWithoutGroup(db.grants, g.id);
    err := None;
  }

  /** deleteGroup: the group row goes. */
  method DeleteGroup(db: Db, g: Group) returns (err: Option<Error>)
    requires db.Valid()
    modifies db
    ensures db.Valid()
    ensures err == (if SqlDeleteGroup in db.failing then Some(StorageFailure(SqlDeleteGroup)) else None)
    ensures err.Some? ==> db.State() == old(db.State())
    ensures err.None? ==> db.State() == old(db.State()).(groups := GroupsWithout(old(db.groups), g.id))
  {
    if SqlDeleteGroup in db.failing {
      return Some(StorageFailure(SqlDeleteGroup));
    }
    GroupsWithoutValid(db.State(), g.id);
    db.groups := GroupsWithout(db.groups, g.id);
    err := None;
  }

  /** DeleteGroupAndDependencies: links, then grants, then the group row. The
      first step that fails returns its error and the later ones do not run;
      the steps that ran are not undone here (that is the enclosing
      transaction's job). */
  method DeleteGroupAndDependencies(db: Db, g: Group) returns (err: Option<Error>)
    requires db.Valid()
    modifies db
    ensures db.Valid()
    ensures SqlDeleteLinksOfGroup in db.failing ==>
      err == Some(StorageFailure(SqlDeleteLinksOfGroup)) && db.State() == old(db.State())
    ensures SqlDeleteLinksOfGroup !in db.failing && SqlDeleteGrantsOfGroup in db.failing ==>
      && err == Some(StorageFailure(SqlDeleteGrantsOfGroup))
      && db.State() == old(db.State()).(links := LinksWithoutGroup(old(db.links), g.id))
    ensures SqlDeleteLinksOfGroup !in db.failing && SqlDeleteGrantsOfGroup !in db.failing
            && SqlDeleteGroup in db.failing ==>
      && err == Some(StorageFailure(SqlDeleteGroup))
      && db.State() == old(db.State()).(links := LinksWithoutGroup(old(db.links), g.id),
                                        grants := GrantsWithoutGroup(old(db.grants), g.id))
    ensures err.None? <==>
      SqlDeleteLinksOfGroup !in db.failing && SqlDeleteGrantsOfGroup !in db.failing && SqlDeleteGroup !in db.failing
    ensures err.None? ==> db.State() == Cascaded(old(db.State()), g.id)
  {
    err := DeleteGroupUserByGroup(db, g);
    if err.Some? {
      return;
    }
    err := DeleteGroupProjectByGroup(db, g);
    if err.Some? {
      return;
    }
    err := DeleteGroup(db, g);
  }

  /** After the cascade nothing references the group, and the rows of every
      other group are exactly as they were (the group rows in their order). */
  lemma CascadeLeavesNoReference(t: Tables, groupID: int)
    ensures var t' := Cascaded(t, groupID);
      && (forall k :: k in t'.links ==> k.0 != groupID)
      && (forall k :: k in t'.grants ==> k.1 != groupID)
      && (forall g :: g in t'.groups ==> g.id != groupID)
      && (forall k :: k in t.links && k.0 != groupID ==> k in t'.links && t'.links[k] == t.links[k])
      && (forall k :: k in t.grants && k.1 != groupID ==> k in t'.grants && t'.grants[k] == t.grants[k])
      && t'.groups == Seqs.Filter(t.groups, IdIsNot(groupID))
      && (forall g :: g in t.groups && g.id != groupID ==> g in t'.groups)
      && t'.projects == t.projects
  {
  }

  // ----- membership ----------------------------------------------------------

  /** DeleteUserFromGroup: read the link's admin flag (no link: the Scan
      fails); an admin may only go while the group has more than one admin;
      then exactly that link is deleted. */
  method DeleteUserFromGroup(db: Db, groupID: int, userID: int) returns (err: Option<Error>)
    requires db.Valid()
    modifies db
    ensures db.Valid()
    ensures err.Some? ==> db.State() == old(db.State())
    ensures (groupID, userID) !in old(db.links) ==> err == Some(ErrNoRows)
    ensures (groupID, userID) in old(db.links) && old(db.links)[(groupID, userID)]
            && AdminCount(old(db.links), groupID) <= 1 ==>
      err == Some(ErrNotEnoughAdmin)
    ensures (groupID, userID) in old(db.links)
            && (!old(db.links)[(groupID, userID)] || AdminCount(old(db.links), groupID) > 1) ==>
      err == (if SqlDeleteLink in db.failing then Some(StorageFailure(SqlDeleteLink)) else None)
    ensures err.None? ==> db.State() == old(db.State()).(links := old(db.links) - {(groupID, userID)})
  {
    var l := FindLink(db.links, groupID, userID);
    if l.None? {
      return Some(ErrNoRows);
    }
    if l.value.admin {
      var nbAdm := AdminCount(db.links, groupID);
      if nbAdm <= 1 {
        return Some(ErrNotEnoughAdmin);
      }
    }
    if SqlDeleteLink in db.failing {
      return Some(StorageFailure(SqlDeleteLink));
    }
    db.links := db.links - {(groupID, userID)};
    err := None;
  }

  /** The last-admin invariant: a removal that DeleteUserFromGroup lets
      through never leaves a group that had an admin without one. */
  lemma RemovalKeepsAnAdmin(links: map<(int, int), bool>, groupID: int, userID: int)
    requires (groupID, userID) in links
    requires AdminCount(links, groupID) >= 1
    requires links[(groupID, userID)] ==> AdminCount(links, groupID) > 1
    ensures AdminCount(links - {(groupID, userID)}, groupID) >= 1
  {
    var before := AdminsOf(links, groupID);
    var after := AdminsOf(links - {(groupID, userID)}, groupID);
    assert after == before - {userID};
    if !links[(groupID, userID)] {
      assert userID !in before;
    }
  }

  /** A removal takes exactly one admin or none from the count. */
  lemma RemovalAdminCount(links: map<(int, int), bool>, groupID: int, userID: int)
    requires (groupID, userID) in links
    ensures AdminCount(links - {(groupID, userID)}, groupID)
            == AdminCount(links, groupID) - (if links[(groupID, userID)] then 1 else 0)
  {
    var before := AdminsOf(links, groupID);
    assert AdminsOf(links - {(groupID, userID)}, groupID) == before - {userID};
    assert links[(groupID, userID)] <==> userID in before;
  }

  /** RemoveUserGroupAdmin: the pair's link loses its admin flag, with no
      admin count check; an absent link is not an error. */
  method RemoveUserGroupAdmin(db: Db, groupID: int, userID: int) returns (err: Option<Error>)
    requires db.Valid()
    modifies db
    ensures db.Valid()
    ensures err == (if SqlUpdateLink in db.failing then Some(StorageFailure(SqlUpdateLink)) else None)
    ensures err.Some? ==> db.State() == old(db.State())
    ensures err.None? ==> db.State() == Demoted(old(db.State()), groupID, userID)
  {
    err := db.UpdateLink(groupID, userID, false);
  }

  /** Demotion takes exactly the demoted user out of the group's admins. */
  lemma DemotedAdmins(links: map<(int, int), bool>, groupID: int, userID: int)
    requires (groupID, userID) in links
    ensures AdminsOf(links[(groupID, userID) := false], groupID) == AdminsOf(links, groupID) - {userID}
  {
    var links' := links[(groupID, userID) := false];
    forall u | u in AdminsOf(links', groupID) ensures u in AdminsOf(links, groupID) && u != userID {
      assert (groupID, u) in links' && links'[(groupID, u)];
      assert (groupID, u) in links && links[(groupID, u)];
    }
    forall u | u in AdminsOf(links, groupID) && u != userID ensures u in AdminsOf(links', groupID) {
      assert (groupID, u) in links && links[(groupID, u)];
      assert (groupID, u) in links' && links'[(groupID, u)];
    }
  }

  /** Demotion, unlike removal, can leave a group with members and no admin. */
  lemma DemotionCanLeaveNoAdmin(t: Tables, groupID: int, userID: int)
    requires AdminsOf(t.links, groupID) == {userID}
    ensures userID in MembersOf(Demoted(t, groupID, userID).links, groupID)
    ensures AdminCount(Demoted(t, groupID, userID).links, groupID) == 0
  {
    var k := (groupID, userID);
    assert userID in AdminsOf(t.links, groupID);
    assert k in t.links;
    var links' := Demoted(t, groupID, userID).links;
    assert k in links';
    DemotedAdmins(t.links, groupID, userID);
  }

  // ----- renaming ------------------------------------------------------------

  /** UpdateGroup: the new name must match the name pattern; the update
      targets the row named `oldName`; a clash on the unique name index is
      reported as ErrGroupExists. */
  method UpdateGroup(db: Db, g: Group, oldName: string, namePattern: string -> bool) returns (err: Option<Error>)
    requires db.Valid()
    modifies db
    ensures db.Valid()
    ensures err.Some? ==> db.State() == old(db.State())
    ensures !namePattern(g.name) ==> err == Some(ErrInvalidName)
    ensures namePattern(g.name) && SqlUpdateGroupName in db.failing ==>
      err == Some(StorageFailure(SqlUpdateGroupName))
    ensures namePattern(g.name) && SqlUpdateGroupName !in db.failing ==>
      err == (if NameClash(old(db.groups), oldName, g.name) then Some(ErrGroupExists) else None)
    ensures err.None? ==> db.State() == old(db.State()).(groups := Renamed(old(db.groups), oldName, g.name))
  {
    if !namePattern(g.name) {
      return Some(ErrInvalidName);
    }
    if SqlUpdateGroupName in db.failing {
      return Some(StorageFailure(SqlUpdateGroupName));
    }
    if NameClash(db.groups, oldName, g.name) {
      return Some(ErrGroupExists);
    }
    RenamedValid(db.State(), oldName, g.name);
    db.groups := Renamed(db.groups, oldName, g.name);
    err := None;
  }

  /** The update would give two rows the same name. */
  predicate NameClash(groups: seq<Group>, oldName: string, newName: string) {
    HasGroupName(groups, oldName) && newName != oldName && HasGroupName(groups, newName)
  }

  lemma RenamedValid(t: Tables, oldName: string, newName: string)
    requires ValidTables(t) && !NameClash(t.groups, oldName, newName)
    ensures ValidTables(t.(groups := Renamed(t.groups, oldName, newName)))
  {
    var r := Renamed(t.groups, oldName, newName);
    forall g | g in r ensures 0 < g.id < t.nextGroupID {
      var i :| 0 <= i < |r| && r[i] == g;
      assert t.groups[i] in t.groups;
    }
    forall i, j | 0 <= i < j < |r| ensures r[i].name != r[j].name {
      if t.groups[i].name == oldName {
        assert t.groups[j].name != oldName;
      } else if t.groups[j].name == oldName {
        assert t.groups[i].name != oldName;
      }
    }
    assert Seqs.DistinctBy(r, GroupName);
  }

  /** A successful rename changes only the row formerly named `oldName`, and
      only its name; ids and order stay. */
  lemma RenamedFrame(groups: seq<Group>, oldName: string, newName: string)
    ensures var r := Renamed(groups, oldName, newName);
      && |r| == |groups|
      && (forall i :: 0 <= i < |r| ==> r[i].id == groups[i].id)
      && (forall i :: 0 <= i < |r| && groups[i].name != oldName ==> r[i] == groups[i])
      && (forall i :: 0 <= i < |r| && groups[i].name == oldName ==> r[i].name == newName)
  {
  }

  // ----- the groups of a project ---------------------------------------------

  /** Strictly ascending group names. */
  predicate SortedByName(s: seq<GroupPermission>) {
    forall i, j :: 0 <= i < j < |s| ==> NameLess(s[i].group.name, s[j].group.name)
  }

  /** The rows of the join of "group" and "project_group" for a project. */
  ghost function JoinRows(groups: seq<Group>, grants: map<(int, int), Level>, projectID: int): set<GroupPermission> {
    set g | g in groups && (projectID, g.id) in grants :: GroupPermission(g, grants[(projectID, g.id)])
  }

  /** One row put into its place in a name-ordered list. */
  function InsertByName(s: seq<GroupPermission>, x: GroupPermission): (r: seq<GroupPermission>)
    requires SortedByName(s)
    requires forall i :: 0 <= i < |s| ==> s[i].group.name != x.group.name
    ensures SortedByName(r)
    ensures |r| == |s| + 1
    ensures forall y :: y in r <==> y in s || y == x
  {
    if |s| == 0 || NameLess(x.group.name, s[0].group.name) then
      assert forall j :: 0 <= j < |s| ==> NameLess(x.group.name, s[j].group.name) by {
        forall j | 0 <= j < |s| ensures NameLess(x.group.name, s[j].group.name) {
          if j > 0 { NameLessTransitive(x.group.name, s[0].group.name, s[j].group.name); }
        }
      }
      [x] + s
    else
      NameLessTotal(x.group.name, s[0].group.name);
      var rest := InsertByName(s[1..], x);
      assert forall y :: y in s[1..] ==> y in s;
      var r := [s[0]] + rest;
      assert forall j :: 0 <= j < |rest| ==> NameLess(s[0].group.name, rest[j].group.name) by {
        forall j | 0 <= j < |rest| ensures NameLess(s[0].group.name, rest[j].group.name) {
          if rest[j] != x {
            assert rest[j] in s[1..];
            var k :| 0 <= k < |s[1..]| && s[1..][k] == rest[j];
            assert s[k + 1] == rest[j];
          }
        }
      }
      assert forall i, j :: 0 < i < j < |r| ==> r[i] == rest[i - 1] && r[j] == rest[j - 1];
      r
  }

  /** LoadGroupByProject: the existing entries stay, in their order; then
      one entry per grant of the project, with the grant's role as the
      permission, in ascending group name order (code-point order, as
      under the C collation). */
  method LoadGroupByProject(db: Db, projectID: int, projectGroups: seq<GroupPermission>)
    returns (result: seq<GroupPermission>)
    requires db.Valid()
    ensures |result| >= |projectGroups| && result[..|projectGroups|] == projectGroups
    ensures SortedByName(result[|projectGroups|..])
    ensures forall gp :: gp in result[|projectGroups|..] <==> gp in JoinRows(db.groups, db.grants, projectID)
  {
    var rows: seq<GroupPermission> := [];
    var i := 0;
    while i < |db.groups|
      invariant 0 <= i <= |db.groups|
      invariant SortedByName(rows)
      invariant forall gp :: gp in rows <==> gp in JoinRows(db.groups[..i], db.grants, projectID)
    {
      var g := db.groups[i];
      assert db.groups[..i + 1] == db.groups[..i] + [g];
      if (projectID, g.id) in db.grants {
        var row := GroupPermission(g, db.grants[(projectID, g.id)]);
        forall j | 0 <= j < |rows| ensures rows[j].group.name != g.name {
          assert rows[j] in JoinRows(db.groups[..i], db.grants, projectID);
          var k :| 0 <= k < i && rows[j].group == db.groups[k];
          assert GroupName(db.groups[k]) != GroupName(db.groups[i]);
        }
        rows := InsertByName(rows, row);
      }
      i := i + 1;
    }
    assert db.groups[..i] == db.groups;
    result := projectGroups + rows;
    assert result[|projectGroups|..] == rows;
  }

  // ----- default group -------------------------------------------------------

  /** CheckUserInDefaultGroup as written. Because CheckUserInGroup is
      inverted, the link is inserted exactly when the user already has one,
      so the insert always fails, and a user who is not in the default group
      is never added: the store never changes. */
  method CheckUserInDefaultGroup(db: Db, userID: int) returns (err: Option<Error>)
    requires db.Valid()
    modifies db
    ensures db.Valid()
    ensures db.State() == old(db.State())
    ensures db.defaultGroup.None? || db.defaultGroup.value.id == 0 ==> err.None?
    ensures db.defaultGroup.Some? && db.defaultGroup.value.id != 0 ==>
      (err.Some? <==> userID in MembersOf(old(db.links), db.defaultGroup.value.id))
  {
    if db.defaultGroup.None? || db.defaultGroup.value.id == 0 {
      return None;
    }
    var gid := db.defaultGroup.value.id;
    var inGroup := CheckUserInGroup(db, gid, userID);
    if !inGroup {
      assert (gid, userID) in db.links;
      err := db.InsertLink(gid, userID, false);
    } else {
      err := None;
    }
  }

  /** CheckUserInDefaultGroup as its comment intends: a user not yet in the
      (set, nonzero) default group joins it as a non-admin member. */
  method CheckUserInDefaultGroupIntended(db: Db, userID: int) returns (err: Option<Error>)
    requires db.Valid()
    modifies db
    ensures db.Valid()
    ensures err.Some? ==> db.State() == old(db.State())
    ensures db.defaultGroup.None? || db.defaultGroup.value.id == 0 ==>
      err.None? && db.State() == old(db.State())
    ensures db.defaultGroup.Some? && db.defaultGroup.value.id != 0 ==>
      var gid := db.defaultGroup.value.id;
      && (userID in MembersOf(old(db.links), gid) ==> err.None? && db.State() == old(db.State()))
      && (userID !in MembersOf(old(db.links), gid) ==>
            (err.None? <==> SqlInsertLink !in db.failing && HasGroupID(old(db.groups), gid)))
      && (err.None? ==> userID in MembersOf(db.links, gid))
      && (err.None? && userID !in MembersOf(old(db.links), gid) ==>
            db.State() == old(db.State()).(links := old(db.links)[(gid, userID) := false]))
  {
    if db.defaultGroup.None? || db.defaultGroup.value.id == 0 {
      return None;
    }
    var gid := db.defaultGroup.value.id;
    if !IsMember(db, gid, userID) {
      err := db.InsertLink(gid, userID, false);
      if err.None? {
        assert (gid, userID) in db.links;
      }
    } else {
      err := None;
    }
  }
}
