/** engine/api/group.go: the group handlers as compositions over the store.
    A handler that opens a transaction takes a snapshot of the tables and
    restores it when a later step fails; statements the source runs on the
    plain connection instead of the transaction are not undone. */
module GroupApi {
  import opened Sdk
  import opened Store
  import opened LinkUser
  import opened Groups
  import Seqs

  /** The notification deleteGroupHandler publishes for each former grant. */
  datatype Event = EventDeleteProjectPermission(projectID: int, group: Group)

  function NotDefault(defaultGroup: Option<Group>): Group -> bool {
    (g: Group) => !IsDefaultGroupID(defaultGroup, g.id)
  }

  /** getGroupsHandler's withoutDefault option: the loaded groups minus the
      default group, in their order; without the option, all of them. */
  method FilterGroups(groups: seq<Group>, withoutDefault: bool, defaultGroup: Option<Group>)
    returns (result: seq<Group>)
    ensures !withoutDefault ==> result == groups
    ensures withoutDefault ==> result == Seqs.Filter(groups, NotDefault(defaultGroup))
    ensures withoutDefault ==> forall g :: g in result <==> g in groups && !IsDefaultGroupID(defaultGroup, g.id)
  {
    if !withoutDefault {
      return groups;
    }
    var filteredGroups: seq<Group> := [];
    var i := 0;
    while i < |groups|
      invariant 0 <= i <= |groups|
      invariant filteredGroups == Seqs.Filter(groups[..i], NotDefault(defaultGroup))
    {
      Seqs.FilterPrefix(groups, i, NotDefault(defaultGroup));
      if !IsDefaultGroupID(defaultGroup, groups[i].id) {
        filteredGroups := filteredGroups + [groups[i]];
      }
      i := i + 1;
    }
    assert groups[..i] == groups;
    result := filteredGroups;
  }

  /** postGroupHandler: a group with the same name is ErrGroupPresent; then,
      in one transaction, the group is inserted, the caller is linked as a
      non-admin member and that link is promoted to admin. */
  method PostGroupHandler(db: Db, data: Group, callerID: int) returns (created: Option<Group>, err: Option<Error>)
    requires db.Valid()
    modifies db
    ensures db.Valid()
    ensures created.None? <==> err.Some?
    ensures err.Some? ==> db.State() == old(db.State())
    ensures HasGroupName(old(db.groups), data.name) ==> err == Some(ErrGroupPresent)
    ensures err.None? <==>
      && !HasGroupName(old(db.groups), data.name)
      && SqlInsertGroup !in db.failing && SqlInsertLink !in db.failing && SqlUpdateLink !in db.failing
    ensures created.Some? ==>
      var g := Group(old(db.nextGroupID), data.name);
      && created.value == g
      && db.State() == old(db.State()).(groups := old(db.groups) + [g], nextGroupID := g.id + 1,
                                        links := old(db.links)[(g.id, callerID) := true])
      && AdminsOf(db.links, g.id) == {callerID}
  {
    var snapshot := db.State();
    if FindGroupByName(db.groups, data.name).Some? {
      return None, Some(ErrGroupPresent);
    }
    var g;
    g, err := db.InsertGroup(data.name);
    if err.Some? {
      return None, err;
    }
    assert db.groups[|db.groups| - 1] == g;
    err := AddCallerAsAdmin(db, g.id, callerID);
    if err.Some? {
      db.Restore(snapshot);
      return None, err;
    }
    created := Some(g);
  }

  /** The caller's membership in the group postGroupHandler just created: a
      non-admin link, then promoted to admin. The caller's rollback undoes
      a partial effect. */
  method AddCallerAsAdmin(db: Db, groupID: int, callerID: int) returns (err: Option<Error>)
    requires db.Valid() && HasGroupID(db.groups, groupID)
    requires forall k :: k in db.links ==> k.0 < groupID
    modifies db
    ensures db.Valid()
    ensures err.None? <==> SqlInsertLink !in db.failing && SqlUpdateLink !in db.failing
    ensures err.None? ==>
      && db.State() == old(db.State()).(links := old(db.links)[(groupID, callerID) := true])
      && AdminsOf(db.links, groupID) == {callerID}
  {
    err := db.InsertLink(groupID, callerID, false);
    if err.Some? {
      return;
    }
    err := SetUserGroupAdmin(db, groupID, callerID);
    if err.Some? {
      return;
    }
    assert db.links == old(db.links)[(groupID, callerID) := true];
    AdminsOfFresh(old(db.links), groupID, callerID);
  }

  /** deleteGroupHandler: load the group and the projects it has grants on,
      run the cascade in a transaction, then emit one delete-permission
      notification per grant captured before the cascade. */
  method DeleteGroupHandler(db: Db, name: string) returns (events: seq<Event>, err: Option<Error>)
    requires db.Valid()
    modifies db
    ensures db.Valid()
    ensures err.Some? ==> db.State() == old(db.State()) && events == []
    ensures !HasGroupName(old(db.groups), name) ==> err == Some(ErrNotFound)
    ensures HasGroupName(old(db.groups), name) ==>
      (err.None? <==>
         SqlDeleteLinksOfGroup !in db.failing && SqlDeleteGrantsOfGroup !in db.failing && SqlDeleteGroup !in db.failing)
    ensures err.None? ==>
      var g := FindGroupByName(old(db.groups), name).value;
      && db.State() == Cascaded(old(db.State()), g.id)
      && (forall e :: e in events ==> e.group == g)
      && (forall p :: p in GrantedProjects(old(db.grants), g.id) <==> exists e :: e in events && e.projectID == p)
      && (forall i, j :: 0 <= i < j < |events| ==> events[i].projectID != events[j].projectID)
  {
    events := [];
    var found := FindGroupByName(db.groups, name);
    if found.None? {
      return [], Some(ErrNotFound);
    }
    var g := found.value;
    var projPerms := db.LoadPermissions(g.id);
    var snapshot := db.State();
    err := DeleteGroupAndDependencies(db, g);
    if err.Some? {
      db.Restore(snapshot);
      return [], err;
    }
    var i := 0;
    while i < |projPerms|
      invariant 0 <= i <= |projPerms|
      invariant |events| == i
      invariant forall j :: 0 <= j < i ==> events[j] == EventDeleteProjectPermission(projPerms[j], g)
    {
      events := events + [EventDeleteProjectPermission(projPerms[i], g)];
      i := i + 1;
    }
    forall p | p in GrantedProjects(old(db.grants), g.id) ensures exists e :: e in events && e.projectID == p {
      var j :| 0 <= j < |projPerms| && projPerms[j] == p;
      assert events[j] in events;
    }
  }

  /** updateGroupHandler: the group keeps its id and takes the new name, and
      every member link of it is deleted, in one transaction. */
  method UpdateGroupHandler(db: Db, oldName: string, updatedGroup: Group, namePattern: string -> bool)
    returns (result: Group, err: Option<Error>)
    requires db.Valid()
    modifies db
    ensures db.Valid()
    ensures err.Some? ==> db.State() == old(db.State())
    ensures !HasGroupName(old(db.groups), oldName) ==> err == Some(ErrNotFound)
    ensures HasGroupName(old(db.groups), oldName) && !namePattern(updatedGroup.name) ==> err == Some(ErrInvalidName)
    ensures HasGroupName(old(db.groups), oldName) && namePattern(updatedGroup.name)
            && SqlUpdateGroupName in db.failing ==>
      err == Some(StorageFailure(SqlUpdateGroupName))
    ensures HasGroupName(old(db.groups), oldName) && namePattern(updatedGroup.name)
            && SqlUpdateGroupName !in db.failing && NameClash(old(db.groups), oldName, updatedGroup.name) ==>
      err == Some(ErrGroupExists)
    ensures HasGroupName(old(db.groups), oldName) && namePattern(updatedGroup.name)
            && SqlUpdateGroupName !in db.failing && !NameClash(old(db.groups), oldName, updatedGroup.name) ==>
      err == (if SqlDeleteLinksOfGroup in db.failing then Some(StorageFailure(SqlDeleteLinksOfGroup)) else None)
    ensures err.None? ==>
      var g := FindGroupByName(old(db.groups), oldName).value;
      && result == Group(g.id, updatedGroup.name)
      && db.State() == old(db.State()).(groups := Renamed(old(db.groups), oldName, updatedGroup.name),
                                        links := LinksWithoutGroup(old(db.links), g.id))
      && result in db.groups
      && MembersOf(db.links, result.id) == {}
  {
    result := updatedGroup;
    var found := FindGroupByName(db.groups, oldName);
    if found.None? {
      return result, Some(ErrNotFound);
    }
    var g := found.value;
    result := updatedGroup.(id := g.id);
    var snapshot := db.State();
    err := UpdateGroup(db, result, oldName, namePattern);
    if err.Some? {
      return result, err;
    }
    err := DeleteGroupUserByGroup(db, result);
    if err.Some? {
      db.Restore(snapshot);
      return result, err;
    }
    var k :| 0 <= k < |snapshot.groups| && snapshot.groups[k] == g;
    assert db.groups[k] == result;
  }

  /** removeUserFromGroupHandler as written: the reported membership is
      CheckUserInGroup's inverted one, so a member is refused with
      ErrWrongRequest and for a non-member DeleteUserFromGroup fails on the
      missing link: the handler never removes anyone. */
  method RemoveUserFromGroupHandler(db: Db, name: string, username: string) returns (err: Option<Error>)
    requires db.Valid()
    modifies db
    ensures db.Valid()
    ensures db.State() == old(db.State())
    ensures err.Some?
    ensures !HasGroupName(old(db.groups), name) ==> err == Some(ErrNotFound)
    ensures HasGroupName(old(db.groups), name) && username !in db.users ==> err == Some(ErrUserNotFound)
    ensures HasGroupName(old(db.groups), name) && username in db.users ==>
      var gid := FindGroupByName(old(db.groups), name).value.id;
      err == (if db.users[username] in MembersOf(old(db.links), gid) then Some(ErrWrongRequest) else Some(ErrNoRows))
  {
    var found := FindGroupByName(db.groups, name);
    if found.None? {
      return Some(ErrNotFound);
    }
    var g := found.value;
    var u := db.LoadUserID(username);
    if u.None? {
      return Some(ErrUserNotFound);
    }
    var userInGroup := CheckUserInGroup(db, g.id, u.value);
    if !userInGroup {
      return Some(ErrWrongRequest);
    }
    err := DeleteUserFromGroup(db, g.id, u.value);
  }

  /** removeUserFromGroupHandler with the membership check its message
      describes: a non-member is ErrWrongRequest, and for a member the
      outcome is exactly DeleteUserFromGroup's. */
  method RemoveUserFromGroupHandlerIntended(db: Db, name: string, username: string) returns (err: Option<Error>)
    requires db.Valid()
    modifies db
    ensures db.Valid()
    ensures err.Some? ==> db.State() == old(db.State())
    ensures !HasGroupName(old(db.groups), name) ==> err == Some(ErrNotFound)
    ensures HasGroupName(old(db.groups), name) && username !in db.users ==> err == Some(ErrUserNotFound)
    ensures HasGroupName(old(db.groups), name) && username in db.users ==>
      var gid, uid := FindGroupByName(old(db.groups), name).value.id, db.users[username];
      && (uid !in MembersOf(old(db.links), gid) ==> err == Some(ErrWrongRequest))
      && (uid in MembersOf(old(db.links), gid) && old(db.links)[(gid, uid)] && AdminCount(old(db.links), gid) <= 1 ==>
            err == Some(ErrNotEnoughAdmin))
      && (uid in MembersOf(old(db.links), gid)
          && (!old(db.links)[(gid, uid)] || AdminCount(old(db.links), gid) > 1) ==>
            err == (if SqlDeleteLink in db.failing then Some(StorageFailure(SqlDeleteLink)) else None))
      && (err.None? ==> db.State() == old(db.State()).(links := old(db.links) - {(gid, uid)}))
  {
    var found := FindGroupByName(db.groups, name);
    if found.None? {
      return Some(ErrNotFound);
    }
    var g := found.value;
    var u := db.LoadUserID(username);
    if u.None? {
      return Some(ErrUserNotFound);
    }
    if !IsMember(db, g.id, u.value) {
      return Some(ErrWrongRequest);
    }
    assert (g.id, u.value) in db.links;
    err := DeleteUserFromGroup(db, g.id, u.value);
  }

  /** The usernames that all resolve, none of them to a member of the group. */
  predicate AllNewMembers(db: Db, usernames: seq<string>, groupID: int)
    reads db
  {
    forall i :: 0 <= i < |usernames| ==>
      usernames[i] in db.users && db.users[usernames[i]] !in MembersOf(db.links, groupID)
  }

  /** addUserInGroupHandler as written: the insert happens only where the
      inverted CheckUserInGroup reports false, that is where the user is
      already a member, and the duplicate insert fails; users who are not
      members are skipped. The handler never adds anyone, and it succeeds
      exactly when every username resolves to a non-member. */
  method AddUserInGroupHandler(db: Db, name: string, usernames: seq<string>) returns (err: Option<Error>)
    requires db.Valid()
    modifies db
    ensures db.Valid()
    ensures db.State() == old(db.State())
    ensures !HasGroupName(old(db.groups), name) ==> err == Some(ErrNotFound)
    ensures HasGroupName(old(db.groups), name) ==>
      (err.None? <==> AllNewMembers(db, usernames, FindGroupByName(old(db.groups), name).value.id))
  {
    var found := FindGroupByName(db.groups, name);
    if found.None? {
      return Some(ErrNotFound);
    }
    var g := found.value;
    var i := 0;
    while i < |usernames|
      invariant 0 <= i <= |usernames|
      invariant db.Valid() && db.State() == old(db.State())
      invariant AllNewMembers(db, usernames[..i], g.id)
    {
      var u := db.LoadUserID(usernames[i]);
      if u.None? {
        return Some(ErrUserNotFound);
      }
      var userInGroup := CheckUserInGroup(db, g.id, u.value);
      if !userInGroup {
        assert (g.id, u.value) in db.links;
        err := db.InsertLink(g.id, u.value, false);
        if err.Some? {
          return err;
        }
      }
      assert usernames[..i + 1] == usernames[..i] + [usernames[i]];
      i := i + 1;
    }
    assert usernames[..i] == usernames;
    err := None;
  }

  /** The body of the intended insertion loop for one resolved user: a
      non-admin link when the user is not a member yet, nothing otherwise. */
  method EnsureMember(db: Db, groupID: int, userID: int) returns (err: Option<Error>)
    requires db.Valid() && HasGroupID(db.groups, groupID)
    modifies db
    ensures db.Valid()
    ensures err.Some? ==>
      && db.State() == old(db.State())
      && err == Some(StorageFailure(SqlInsertLink))
      && (groupID, userID) !in old(db.links)
    ensures err.None? ==>
      db.State() == old(db.State()).(links := if (groupID, userID) in old(db.links) then old(db.links)
                                              else old(db.links)[(groupID, userID) := false])
    ensures (groupID, userID) !in old(db.links) && SqlInsertLink !in db.failing ==> err.None?
    ensures SqlInsertLink in db.failing ==> db.State() == old(db.State())
  {
    MembersOfIff(db.links, groupID, userID);
    if !IsMember(db, groupID, userID) {
      err := db.InsertLink(groupID, userID, false);
    } else {
      err := None;
    }
  }

  /** The intended insertion loop over the usernames, for a group of the
      store: it stops at the first unknown user or failed insert. */
  method AddMembers(db: Db, groupID: int, usernames: seq<string>) returns (err: Option<Error>)
    requires db.Valid() && HasGroupID(db.groups, groupID)
    modifies db
    ensures db.Valid()
    ensures db.State() == old(db.State()).(links := db.links)
    ensures forall k :: k in old(db.links) ==> k in db.links && db.links[k] == old(db.links)[k]
    ensures forall k :: k in db.links && k !in old(db.links) ==> k.0 == groupID && !db.links[k]
    ensures forall k :: k in db.links && k !in old(db.links) ==>
      exists i :: 0 <= i < |usernames| && usernames[i] in db.users && k.1 == db.users[usernames[i]]
    ensures err.None? ==> forall i :: 0 <= i < |usernames| ==>
      usernames[i] in db.users && (groupID, db.users[usernames[i]]) in db.links
    ensures err.None? <==>
      && (forall i :: 0 <= i < |usernames| ==> usernames[i] in db.users)
      && (SqlInsertLink !in db.failing
          || forall i :: 0 <= i < |usernames| ==> (groupID, db.users[usernames[i]]) in old(db.links))
  {
    var i := 0;
    while i < |usernames|
      invariant 0 <= i <= |usernames|
      invariant db.Valid() && HasGroupID(db.groups, groupID)
      invariant db.State() == old(db.State()).(links := db.links)
      invariant forall k :: k in old(db.links) ==> k in db.links && db.links[k] == old(db.links)[k]
      invariant forall k :: k in db.links && k !in old(db.links) ==> k.0 == groupID && !db.links[k]
      invariant forall k :: k in db.links && k !in old(db.links) ==>
        exists j :: 0 <= j < i && usernames[j] in db.users && k.1 == db.users[usernames[j]]
      invariant forall j :: 0 <= j < i ==> usernames[j] in db.users && (groupID, db.users[usernames[j]]) in db.links
      invariant SqlInsertLink in db.failing ==> db.links == old(db.links)
    {
      var u := db.LoadUserID(usernames[i]);
      if u.None? {
        return Some(ErrUserNotFound);
      }
      err := EnsureMember(db, groupID, u.value);
      if err.Some? {
        return err;
      }
      i := i + 1;
    }
    err := None;
  }

  /** addUserInGroupHandler with the membership check its message describes:
      each resolved user who is not yet a member gets a non-admin link.
      Inserts run on the plain connection, as in the source, so on an error
      the links added before it stay. Existing links never change. */
  method AddUserInGroupHandlerIntended(db: Db, name: string, usernames: seq<string>) returns (err: Option<Error>)
    requires db.Valid()
    modifies db
    ensures db.Valid()
    ensures !HasGroupName(old(db.groups), name) ==> err == Some(ErrNotFound) && db.State() == old(db.State())
    ensures db.State() == old(db.State()).(links := db.links)
    ensures forall k :: k in old(db.links) ==> k in db.links && db.links[k] == old(db.links)[k]
    ensures HasGroupName(old(db.groups), name) ==>
      var gid := FindGroupByName(old(db.groups), name).value.id;
      && (forall k :: k in db.links && k !in old(db.links) ==> k.0 == gid && !db.links[k])
      && (forall k :: k in db.links && k !in old(db.links) ==>
            exists i :: 0 <= i < |usernames| && usernames[i] in db.users && k.1 == db.users[usernames[i]])
      && (err.None? ==> forall i :: 0 <= i < |usernames| ==>
            usernames[i] in db.users && (gid, db.users[usernames[i]]) in db.links)
      && (err.None? <==>
            && (forall i :: 0 <= i < |usernames| ==> usernames[i] in db.users)
            && (SqlInsertLink !in db.failing
                || forall i :: 0 <= i < |usernames| ==> (gid, db.users[usernames[i]]) in old(db.links)))
  {
    var found := FindGroupByName(db.groups, name);
    if found.None? {
      return Some(ErrNotFound);
    }
    var g := found.value;
    assert HasGroupID(db.groups, g.id) by {
      var k :| 0 <= k < |db.groups| && db.groups[k] == g;
    }
    err := AddMembers(db, g.id, usernames);
  }

  /** setUserGroupAdminHandler: resolve the user, then the group, then
      SetUserGroupAdmin. */
  method SetUserGroupAdminHandler(db: Db, name: string, username: string) returns (err: Option<Error>)
    requires db.Valid()
    modifies db
    ensures db.Valid()
    ensures err.Some? ==> db.State() == old(db.State())
    ensures username !in db.users ==> err == Some(ErrUserNotFound)
    ensures username in db.users && !HasGroupName(old(db.groups), name) ==> err == Some(ErrNotFound)
    ensures username in db.users && HasGroupName(old(db.groups), name) ==>
      var gid, uid := FindGroupByName(old(db.groups), name).value.id, db.users[username];
      && ((gid, uid) !in old(db.links) ==> err == Some(ErrForbidden))
      && ((gid, uid) in old(db.links) ==>
            err == (if !old(db.links)[(gid, uid)] && SqlUpdateLink in db.failing
                    then Some(StorageFailure(SqlUpdateLink)) else None))
      && (err.None? ==> db.State() == Promoted(old(db.State()), gid, uid) && uid in AdminsOf(db.links, gid))
  {
    var u := db.LoadUserID(username);
    if u.None? {
      return Some(ErrUserNotFound);
    }
    var found := FindGroupByName(db.groups, name);
    if found.None? {
      return Some(ErrNotFound);
    }
    err := SetUserGroupAdmin(db, found.value.id, u.value);
    if err.None? {
      assert (found.value.id, u.value) in db.links && db.links[(found.value.id, u.value)];
    }
  }

  /** removeUserGroupAdminHandler: resolve the user, then the group, then
      RemoveUserGroupAdmin, with no admin count check. */
  method RemoveUserGroupAdminHandler(db: Db, name: string, username: string) returns (err: Option<Error>)
    requires db.Valid()
    modifies db
    ensures db.Valid()
    ensures err.Some? ==> db.State() == old(db.State())
    ensures username !in db.users ==> err == Some(ErrUserNotFound)
    ensures username in db.users && !HasGroupName(old(db.groups), name) ==> err == Some(ErrNotFound)
    ensures username in db.users && HasGroupName(old(db.groups), name) ==>
      var gid, uid := FindGroupByName(old(db.groups), name).value.id, db.users[username];
      && err == (if SqlUpdateLink in db.failing then Some(StorageFailure(SqlUpdateLink)) else None)
      && (err.None? ==> db.State() == Demoted(old(db.State()), gid, uid) && uid !in AdminsOf(db.links, gid))
  {
    var u := db.LoadUserID(username);
    if u.None? {
      return Some(ErrUserNotFound);
    }
    var found := FindGroupByName(db.groups, name);
    if found.None? {
      return Some(ErrNotFound);
    }
    err := RemoveUserGroupAdmin(db, found.value.id, u.value);
  }

  /** The admin sets of the scenario below, one link table at a time. */
  lemma ScenarioAdmins()
    ensures AdminsOf(map[][(1, 1) := true], 1) == {1}
    ensures AdminsOf(map[][(1, 1) := true][(1, 2) := true], 1) == {1, 2}
    ensures AdminsOf(map[][(1, 1) := true][(1, 2) := true] - {(1, 1)}, 1) == {2}
  {
    AdminsOfInsert(map[], 1, 1, true, 1);
    assert AdminsOf(map[], 1) == {};
    AdminsOfInsert(map[][(1, 1) := true], 1, 2, true, 1);
    RemovalAdminCount(map[][(1, 1) := true][(1, 2) := true], 1, 1);
    var l := map[][(1, 1) := true][(1, 2) := true] - {(1, 1)};
    assert (1, 2) in l && l[(1, 2)];
    assert AdminsOf(l, 1) <= {2};
  }

  /** The scenario of the last-admin rule: u1 is the only admin of g1 and
      cannot be removed; once u2 is an admin too, u1 can, and u2 is then
      the group's only admin. */
  method LastAdminScenario() returns (first: Option<Error>, second: Option<Error>, admins: set<int>)
    ensures first == Some(ErrNotEnoughAdmin)
    ensures second.None?
    ensures admins == {2}
  {
    ScenarioAdmins();
    var db := new Db(None, map["u1" := 1, "u2" := 2], {});
    var g, e := db.InsertGroup("g1");
    assert db.groups[0] == g;
    e := db.InsertLink(g.id, 1, true);
    first := DeleteUserFromGroup(db, g.id, 1);
    e := db.InsertLink(g.id, 2, true);
    second := DeleteUserFromGroup(db, g.id, 1);
    admins := AdminsOf(db.links, g.id);
  }
}
