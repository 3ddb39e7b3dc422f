/** The abstract in-memory store that stands for the relational tables the
    group and project packages work on ("group", "group_user",
    "project_group", "project"), together with the storage statements whose
    Go bodies are not part of this model (group.Insert, InsertLinkGroupUser,
    UpdateLinkGroupUser, InsertGroupInProject, AddGroup and the project
    package's Insert, Update, Delete and LoadPermissions). Each statement
    does what its SQL evidently does, enforces the schema's unique and
    foreign keys, and fails without effect when the storage executor rejects
    it (the statement is in `failing`). */
module Store {
  import opened Sdk
  import Seqs

  /** A project row, with the number of pipelines and applications that the
      project loaders attach to it. */
  datatype ProjectRow = ProjectRow(id: int, name: string, pipelines: nat, applications: nat)

  /** The content of all tables at one moment. */
  datatype Tables = Tables(
    groups: seq<Group>,
    links: map<(int, int), bool>,
    grants: map<(int, int), Level>,
    projects: map<string, ProjectRow>,
    nextGroupID: int,
    nextProjectID: int)

  /** What the schema guarantees: group ids and names are unique, ids come
      from a serial counter, links are keyed (groupID, userID) and grants
      (projectID, groupID), project ids are unique. */
  predicate ValidTables(t: Tables) {
    && 1 <= t.nextGroupID && 1 <= t.nextProjectID
    && Seqs.DistinctBy(t.groups, GroupID)
    && Seqs.DistinctBy(t.groups, GroupName)
    && (forall g :: g in t.groups ==> 0 < g.id < t.nextGroupID)
    && (forall k :: k in t.links ==> k.0 < t.nextGroupID)
    && (forall k :: k in t.grants ==> 0 < k.0 < t.nextProjectID && k.1 < t.nextGroupID)
    && (forall key :: key in t.projects ==> 0 < t.projects[key].id < t.nextProjectID)
    && (forall k1, k2 :: k1 in t.projects && k2 in t.projects && k1 != k2 ==>
          t.projects[k1].id != t.projects[k2].id)
  }

  function GroupID(g: Group): int { g.id }
  function GroupName(g: Group): string { g.name }

  predicate HasGroupName(groups: seq<Group>, name: string) {
    exists i :: 0 <= i < |groups| && groups[i].name == name
  }

  predicate HasGroupID(groups: seq<Group>, id: int) {
    exists i :: 0 <= i < |groups| && groups[i].id == id
  }

  predicate HasProjectID(projects: map<string, ProjectRow>, id: int) {
    exists key :: key in projects && projects[key].id == id
  }

  /** The row a `WHERE name = $1` lookup finds. */
  function FindGroupByName(groups: seq<Group>, name: string): (r: Option<Group>)
    ensures r.Some? ==> r.value in groups && r.value.name == name
    ensures r.None? <==> !HasGroupName(groups, name)
  {
    if |groups| == 0 then None
    else if groups[0].name == name then Some(groups[0])
    else
      var r := FindGroupByName(groups[1..], name);
      assert forall i :: 1 <= i < |groups| ==> groups[i] == groups[1..][i - 1];
      r
  }

  /** A "group_user" row as LoadLinkGroupUserForGroupIDAndUserID returns it. */
  datatype LinkGroupUser = LinkGroupUser(groupID: int, userID: int, admin: bool)

  /** LoadLinkGroupUserForGroupIDAndUserID: the link of the pair, if any. */
  function FindLink(links: map<(int, int), bool>, groupID: int, userID: int): (l: Option<LinkGroupUser>)
    ensures l.Some? <==> (groupID, userID) in links
    ensures l.Some? ==> l.value == LinkGroupUser(groupID, userID, links[(groupID, userID)])
  {
    if (groupID, userID) in links then Some(LinkGroupUser(groupID, userID, links[(groupID, userID)])) else None
  }

  /** group.IsDefaultGroupID: the default group is set and has this id. */
  predicate IsDefaultGroupID(defaultGroup: Option<Group>, id: int) {
    defaultGroup.Some? && defaultGroup.value.id == id
  }

  /** group.IsDefaultGroupName: the default group is set and has this name. */
  predicate IsDefaultGroupName(defaultGroup: Option<Group>, name: string) {
    defaultGroup.Some? && defaultGroup.value.name == name
  }

  /** The user ids of the admin links of a group. */
  function AdminsOf(links: map<(int, int), bool>, groupID: int): set<int> {
    set k | k in links && k.0 == groupID && links[k] :: k.1
  }

  /** `SELECT COUNT(id) FROM group_user WHERE group_id = $1 AND group_admin = true`. */
  function AdminCount(links: map<(int, int), bool>, groupID: int): nat {
    |AdminsOf(links, groupID)|
  }

  /** The user ids linked to a group. */
  function MembersOf(links: map<(int, int), bool>, groupID: int): set<int> {
    set k | k in links && k.0 == groupID :: k.1
  }

  /** Membership of a user is the presence of the pair's link. */
  lemma MembersOfIff(links: map<(int, int), bool>, groupID: int, userID: int)
    ensures userID in MembersOf(links, groupID) <==> (groupID, userID) in links
  {
    if (groupID, userID) in links {
      assert (groupID, userID).1 == userID;
    }
  }

  /** An admin link to a group no link mentions yet makes its user the
      group's only admin. */
  lemma AdminsOfFresh(links: map<(int, int), bool>, groupID: int, userID: int)
    requires forall k :: k in links ==> k.0 < groupID
    ensures AdminsOf(links[(groupID, userID) := true], groupID) == {userID}
  {
    var links' := links[(groupID, userID) := true];
    assert (groupID, userID) in links' && links'[(groupID, userID)];
    forall u | u in AdminsOf(links', groupID) ensures u == userID {
      assert (groupID, u) in links';
    }
  }

  /** A new link adds its user to the group's admins exactly when it is an
      admin link, and leaves every other group's admins alone. */
  lemma AdminsOfInsert(links: map<(int, int), bool>, groupID: int, userID: int, admin: bool, other: int)
    requires (groupID, userID) !in links
    ensures AdminsOf(links[(groupID, userID) := admin], other)
            == if admin && other == groupID then AdminsOf(links, other) + {userID} else AdminsOf(links, other)
  {
    var links' := links[(groupID, userID) := admin];
    forall u | u in AdminsOf(links', other)
      ensures u in (if admin && other == groupID then AdminsOf(links, other) + {userID} else AdminsOf(links, other))
    {
      assert (other, u) in links' && links'[(other, u)];
      if (other, u) != (groupID, userID) {
        assert (other, u) in links && links[(other, u)];
      }
    }
    forall u | u in (if admin && other == groupID then AdminsOf(links, other) + {userID} else AdminsOf(links, other))
      ensures u in AdminsOf(links', other)
    {
      if admin && other == groupID && u == userID {
        assert (other, u) in links' && links'[(other, u)];
      } else {
        assert (other, u) in links && links[(other, u)];
        assert (other, u) in links' && links'[(other, u)];
      }
    }
  }

  /** Two different rows of a table with unique ids have different ids. */
  lemma GroupIdsDiffer(groups: seq<Group>, a: Group, b: Group)
    requires Seqs.DistinctBy(groups, GroupID)
    requires a in groups && b in groups && a != b
    ensures a.id != b.id
  {
    var i :| 0 <= i < |groups| && groups[i] == a;
    var j :| 0 <= j < |groups| && groups[j] == b;
    if i < j {
      assert GroupID(groups[i]) != GroupID(groups[j]);
    } else {
      assert GroupID(groups[j]) != GroupID(groups[i]);
    }
  }

  /** Two different rows of a table with unique names have different names. */
  lemma GroupNamesDiffer(groups: seq<Group>, a: Group, b: Group)
    requires Seqs.DistinctBy(groups, GroupName)
    requires a in groups && b in groups && a != b
    ensures a.name != b.name
  {
    var i :| 0 <= i < |groups| && groups[i] == a;
    var j :| 0 <= j < |groups| && groups[j] == b;
    if i < j {
      assert GroupName(groups[i]) != GroupName(groups[j]);
    } else {
      assert GroupName(groups[j]) != GroupName(groups[i]);
    }
  }

  /** The project ids a group has a grant on. */
  function GrantedProjects(grants: map<(int, int), Level>, groupID: int): set<int> {
    set k | k in grants && k.1 == groupID :: k.0
  }

  class Db {
    var groups: seq<Group>
    var links: map<(int, int), bool>
    var grants: map<(int, int), Level>
    var projects: map<string, ProjectRow>
    var nextGroupID: int
    var nextProjectID: int
    /** group.DefaultGroup, loaded once at start-up; None when unset. */
    const defaultGroup: Option<Group>
    /** The identity registry: the user id of each username. */
    const users: map<string, int>
    /** The write statements the storage executor rejects. */
    const failing: set<Stmt>

    function State(): Tables
      reads this
    {
      Tables(groups, links, grants, projects, nextGroupID, nextProjectID)
    }

    predicate Valid()
      reads this
    {
      ValidTables(State())
    }

    constructor (defaultGroup: Option<Group>, users: map<string, int>, failing: set<Stmt>)
      ensures Valid() && State() == Tables([], map[], map[], map[], 1, 1)
      ensures this.defaultGroup == defaultGroup && this.users == users && this.failing == failing
    {
      groups, links, grants, projects := [], map[], map[], map[];
      nextGroupID, nextProjectID := 1, 1;
      this.defaultGroup, this.users, this.failing := defaultGroup, users, failing;
    }

    /** A transaction's rollback: the tables return to a snapshot. */
    method Restore(t: Tables)
      requires ValidTables(t)
      modifies this
      ensures Valid() && State() == t
    {
      groups, links, grants, projects := t.groups, t.links, t.grants, t.projects;
      nextGroupID, nextProjectID := t.nextGroupID, t.nextProjectID;
    }

    /** user.LoadByUsername, reduced to the user id. */
    function LoadUserID(username: string): (r: Option<int>)
      ensures r.Some? <==> username in users
      ensures r.Some? ==> r.value == users[username]
    {
      if username in users then Some(users[username]) else None
    }

    /** group.Insert: a new "group" row whose id the serial counter assigns. */
    method InsertGroup(name: string) returns (g: Group, err: Option<Error>)
      requires Valid()
      modifies this
      ensures Valid()
      ensures SqlInsertGroup in failing ==>
        err == Some(StorageFailure(SqlInsertGroup)) && State() == old(State())
      ensures SqlInsertGroup !in failing && HasGroupName(old(groups), name) ==>
        err == Some(ErrUniqueViolation(IdxGroupName)) && State() == old(State())
      ensures SqlInsertGroup !in failing && !HasGroupName(old(groups), name) ==>
        && err.None? && g == Group(old(nextGroupID), name)
        && State() == old(State()).(groups := old(groups) + [g], nextGroupID := old(nextGroupID) + 1)
    {
      g := Group(0, name);
      if SqlInsertGroup in failing {
        return g, Some(StorageFailure(SqlInsertGroup));
      }
      if FindGroupByName(groups, name).Some? {
        return g, Some(ErrUniqueViolation(IdxGroupName));
      }
      g := Group(nextGroupID, name);
      groups := groups + [g];
      nextGroupID := nextGroupID + 1;
      err := None;
    }

    /** InsertLinkGroupUser / InsertUserInGroup: a new "group_user" row. */
    method InsertLink(groupID: int, userID: int, admin: bool) returns (err: Option<Error>)
      requires Valid()
      modifies this
      ensures Valid()
      ensures err.Some? ==> State() == old(State())
      ensures err == None <==>
        SqlInsertLink !in failing && HasGroupID(old(groups), groupID) && (groupID, userID) !in old(links)
      ensures SqlInsertLink !in failing && HasGroupID(old(groups), groupID) && (groupID, userID) in old(links) ==>
        err == Some(ErrUniqueViolation(IdxGroupUser))
      ensures SqlInsertLink in failing ==> err == Some(StorageFailure(SqlInsertLink))
      ensures err.None? ==> State() == old(State()).(links := old(links)[(groupID, userID) := admin])
    {
      if SqlInsertLink in failing {
        return Some(StorageFailure(SqlInsertLink));
      }
      if !(exists i :: 0 <= i < |groups| && groups[i].id == groupID) {
        return Some(ErrForeignKeyViolation);
      }
      if (groupID, userID) in links {
        return Some(ErrUniqueViolation(IdxGroupUser));
      }
      var i :| 0 <= i < |groups| && groups[i].id == groupID;
      links := links[(groupID, userID) := admin];
      err := None;
    }

    /** UpdateLinkGroupUser: rewrite the admin flag of an existing link. */
    method UpdateLink(groupID: int, userID: int, admin: bool) returns (err: Option<Error>)
      requires Valid()
      modifies this
      ensures Valid()
      ensures SqlUpdateLink in failing ==>
        err == Some(StorageFailure(SqlUpdateLink)) && State() == old(State())
      ensures SqlUpdateLink !in failing ==>
        && err.None?
        && State() == old(State()).(links :=
             if (groupID, userID) in old(links) then old(links)[(groupID, userID) := admin] else old(links))
    {
      if SqlUpdateLink in failing {
        return Some(StorageFailure(SqlUpdateLink));
      }
      if (groupID, userID) in links {
        links := links[(groupID, userID) := admin];
      }
      err := None;
    }

    /** group.InsertGroupInProject: a new "project_group" row. */
    method InsertGrant(projectID: int, groupID: int, level: Level) returns (err: Option<Error>)
      requires Valid()
      modifies this
      ensures Valid()
      ensures err.Some? ==> State() == old(State())
      ensures err == None <==>
        && SqlInsertGrant !in failing && HasGroupID(old(groups), groupID)
        && HasProjectID(old(projects), projectID) && (projectID, groupID) !in old(grants)
      ensures SqlInsertGrant in failing ==> err == Some(StorageFailure(SqlInsertGrant))
      ensures err.None? ==> State() == old(State()).(grants := old(grants)[(projectID, groupID) := level])
    {
      if SqlInsertGrant in failing {
        return Some(StorageFailure(SqlInsertGrant));
      }
      if !(exists i :: 0 <= i < |groups| && groups[i].id == groupID) {
        return Some(ErrForeignKeyViolation);
      }
      if !(exists key :: key in projects && projects[key].id == projectID) {
        return Some(ErrForeignKeyViolation);
      }
      if (projectID, groupID) in grants {
        return Some(ErrUniqueViolation(IdxProjectGroup));
      }
      var i :| 0 <= i < |groups| && groups[i].id == groupID;
      var key :| key in projects && projects[key].id == projectID;
      grants := grants[(projectID, groupID) := level];
      err := None;
    }

    /** project.Insert: a new "project" row whose id the serial counter assigns. */
    method InsertProject(key: string, name: string) returns (id: int, err: Option<Error>)
      requires Valid()
      modifies this
      ensures Valid()
      ensures err.Some? ==> State() == old(State())
      ensures err.None? <==> SqlInsertProject !in failing && key !in old(projects)
      ensures err.None? ==>
        && id == old(nextProjectID)
        && State() == old(State()).(projects := old(projects)[key := ProjectRow(id, name, 0, 0)],
                                    nextProjectID := id + 1)
    {
      id := 0;
      if SqlInsertProject in failing {
        return id, Some(StorageFailure(SqlInsertProject));
      }
      if key in projects {
        return id, Some(ErrUniqueViolation(IdxProjectKey));
      }
      id := nextProjectID;
      projects := projects[key := ProjectRow(id, name, 0, 0)];
      nextProjectID := id + 1;
      err := None;
    }

    /** project.Update, reduced to the column the core cares about: the name. */
    method UpdateProjectName(key: string, name: string) returns (err: Option<Error>)
      requires Valid() && key in projects
      modifies this
      ensures Valid()
      ensures SqlUpdateProject in failing ==>
        err == Some(StorageFailure(SqlUpdateProject)) && State() == old(State())
      ensures SqlUpdateProject !in failing ==>
        && err.None?
        && State() == old(State()).(projects := old(projects)[key := old(projects)[key].(name := name)])
    {
      if SqlUpdateProject in failing {
        return Some(StorageFailure(SqlUpdateProject));
      }
      projects := projects[key := projects[key].(name := name)];
      err := None;
    }

    /** project.Delete: the project row and the grants on it. */
    method DeleteProject(key: string) returns (err: Option<Error>)
      requires Valid() && key in projects
      modifies this
      ensures Valid()
      ensures SqlDeleteProject in failing ==>
        err == Some(StorageFailure(SqlDeleteProject)) && State() == old(State())
      ensures SqlDeleteProject !in failing ==>
        && err.None?
        && State() == old(State()).(
             projects := old(projects) - {key},
             grants := map k | k in old(grants) && k.0 != old(projects)[key].id :: old(grants)[k])
    {
      if SqlDeleteProject in failing {
        return Some(StorageFailure(SqlDeleteProject));
      }
      var id := projects[key].id;
      grants := map k | k in grants && k.0 != id :: grants[k];
      projects := projects - {key};
      err := None;
    }

    /** project.LoadPermissions, reduced to the projects: one entry per grant
        of the group, by ascending project id. */
    method LoadPermissions(groupID: int) returns (projectIDs: seq<int>)
      requires Valid()
      ensures forall p :: p in projectIDs <==> p in GrantedProjects(grants, groupID)
      ensures forall i, j :: 0 <= i < j < |projectIDs| ==> projectIDs[i] < projectIDs[j]
    {
      projectIDs := [];
      var p := 1;
      while p < nextProjectID
        invariant 1 <= p <= nextProjectID
        invariant forall q :: q in projectIDs <==> 0 < q < p && (q, groupID) in grants
        invariant forall i :: 0 <= i < |projectIDs| ==> projectIDs[i] < p
        invariant forall i, j :: 0 <= i < j < |projectIDs| ==> projectIDs[i] < projectIDs[j]
      {
        if (p, groupID) in grants {
          projectIDs := projectIDs + [p];
        }
        p := p + 1;
      }
      forall q | q in GrantedProjects(grants, groupID) ensures q in projectIDs {
        assert (q, groupID) in grants;
      }
    }

    /** group.AddGroup: the id of the group with this name, creating it when
        absent; `isNew` says whether it was created. An id of 0 reports a
        failure, as in the source. */
    method AddGroup(g: Group, namePattern: string -> bool) returns (id: int, isNew: bool, err: Option<Error>)
      requires Valid()
      modifies this
      ensures Valid()
      ensures !namePattern(g.name) ==>
        id == 0 && err == Some(ErrInvalidName) && State() == old(State())
      ensures namePattern(g.name) && HasGroupName(old(groups), g.name) ==>
        && err.None? && !isNew && State() == old(State())
        && FindGroupByName(old(groups), g.name) == Some(Group(id, g.name))
      ensures namePattern(g.name) && !HasGroupName(old(groups), g.name) && SqlInsertGroup in failing ==>
        id == 0 && err == Some(StorageFailure(SqlInsertGroup)) && State() == old(State())
      ensures namePattern(g.name) && !HasGroupName(old(groups), g.name) && SqlInsertGroup !in failing ==>
        && err.None? && isNew && id == old(nextGroupID)
        && State() == old(State()).(groups := old(groups) + [Group(id, g.name)], nextGroupID := id + 1)
      ensures err.None? ==> id != 0 && HasGroupID(groups, id)
    {
      isNew := false;
      if !namePattern(g.name) {
        return 0, false, Some(ErrInvalidName);
      }
      var existing := FindGroupByName(groups, g.name);
      if existing.Some? {
        var i :| 0 <= i < |groups| && groups[i] == existing.value;
        return existing.value.id, false, None;
      }
      var created;
      created, err := InsertGroup(g.name);
      if err.Some? {
        return 0, false, err;
      }
      assert groups[|groups| - 1] == created;
      id, isNew := created.id, true;
    }
  }
}
