/** engine/api/project.go: the decision logic of the project handlers
    (creation, label replacement, update, deletion and the writable filter
    of the project list) over the store. */
module ProjectApi {
  import opened Sdk
  import opened Store
  import opened Text
  import Seqs

  // ---------------------------------------------------------------------
  // Creation: validation, attached groups, the automatic group

  /** The checks postProjectHandler runs before its transaction, in the
      order it runs them: key pattern, then non-empty name, then a free key. */
  function CreationError(key: string, name: string, projects: map<string, ProjectRow>, keyPattern: string -> bool)
    : (r: Option<Error>)
    ensures !keyPattern(key) ==> r == Some(ErrInvalidProjectKey)
    ensures keyPattern(key) && name == "" ==> r == Some(ErrInvalidProjectName)
    ensures keyPattern(key) && name != "" && key in projects ==> r == Some(ErrConflict)
    ensures r.None? <==> keyPattern(key) && name != "" && key !in projects
  {
    if !keyPattern(key) then Some(ErrInvalidProjectKey)
    else if name == "" then Some(ErrInvalidProjectName)
    else if key in projects then Some(ErrConflict)
    else None
  }

  /** An entry of the request's group list that counts as an explicitly
      attached group: a non-blank name, and either a nonzero id that is not
      the default group's or a name that is not the default group's. */
  predicate Attaches(defaultGroup: Option<Group>, gp: GroupPermission) {
    && !IsBlank(gp.group.name)
    && ((gp.group.id != 0 && !IsDefaultGroupID(defaultGroup, gp.group.id))
        || (gp.group.name != "" && !IsDefaultGroupName(defaultGroup, gp.group.name)))
  }

  /** The groupAttached loop of postProjectHandler. */
  method GroupAttached(defaultGroup: Option<Group>, projectGroups: seq<GroupPermission>) returns (groupAttached: bool)
    ensures groupAttached <==> exists i :: 0 <= i < |projectGroups| && Attaches(defaultGroup, projectGroups[i])
  {
    groupAttached := false;
    var i := 0;
    while i < |projectGroups|
      invariant 0 <= i <= |projectGroups|
      invariant groupAttached <==> exists j :: 0 <= j < i && Attaches(defaultGroup, projectGroups[j])
    {
      var groupPermission := projectGroups[i];
      i := i + 1;
      if IsBlank(groupPermission.group.name) {
        continue;
      }
      if groupPermission.group.id != 0 && !IsDefaultGroupID(defaultGroup, groupPermission.group.id) {
        groupAttached := true;
        continue;
      }
      if groupPermission.group.name != "" && !IsDefaultGroupName(defaultGroup, groupPermission.group.name) {
        groupAttached := true;
      }
    }
  }

  /** An entry naming only the default group, or naming nothing, never
      counts as attached: such a request gets the automatic group. */
  lemma DefaultOrBlankNeverAttaches(defaultGroup: Option<Group>, gp: GroupPermission)
    requires IsBlank(gp.group.name)
             || (defaultGroup.Some? && gp.group.name == defaultGroup.value.name
                 && (gp.group.id == 0 || gp.group.id == defaultGroup.value.id))
    ensures !Attaches(defaultGroup, gp)
  {
  }

  /** The automatic group entry: the project name with its spaces removed,
      at ReadWriteExecute, with no id yet. */
  function AutoEntry(projectName: string): (gp: GroupPermission)
    ensures gp.group.id == 0 && gp.permission == PermissionReadWriteExecute
    ensures ' ' !in gp.group.name
  {
    GroupPermission(Group(0, RemoveSpaces(projectName)), PermissionReadWriteExecute)
  }

  /** The automatic group step as written: when nothing is attached, the
      existence check looks for a group named exactly like the project,
      while the entry it appends is named after the project without spaces. */
  function AutoGroup(groups: seq<Group>, projectGroups: seq<GroupPermission>, groupAttached: bool, projectName: string)
    : (r: Result<seq<GroupPermission>>)
    ensures groupAttached ==> r == Ok(projectGroups)
    ensures r.Err? <==> !groupAttached && HasGroupName(groups, projectName)
    ensures r.Err? ==> r.error == ErrGroupPresent
    ensures r.Ok? && !groupAttached ==> r.value == projectGroups + [AutoEntry(projectName)]
  {
    if groupAttached then Ok(projectGroups)
    else if FindGroupByName(groups, projectName).Some? then Err(ErrGroupPresent)
    else Ok(projectGroups + [AutoEntry(projectName)])
  }

  /** The discrepancy: with a group "MyProj" in the store, a project named
      "My Proj" passes the check, and its automatic entry names the existing
      group, which AddGroup then reuses instead of creating a group for the
      project and its creator. */
  lemma AutoGroupNamesAnExistingGroup()
    ensures var groups := [Group(1, "MyProj")];
      var r := AutoGroup(groups, [], false, "My Proj");
      && r.Ok? && |r.value| == 1
      && r.value[0].group.name == "MyProj"
      && HasGroupName(groups, r.value[0].group.name)
  {
    MyProjWithoutSpaces();
    var groups := [Group(1, "MyProj")];
    assert groups[0].name == "MyProj";
    assert !HasGroupName(groups, "My Proj") by {
      assert groups[0].name != "My Proj";
    }
  }

  lemma MyProjWithoutSpaces()
    ensures RemoveSpaces("My Proj") == "MyProj"
  {
    RemoveSpacesNone("Proj");
    RemoveSpacesNone("My");
    assert "My Proj" == ("My" + " ") + "Proj" && "My" + "" + "Proj" == "MyProj" by {
      assert "My" + " " == "My ";
      assert "My " + "Proj" == "My Proj";
    }
    RemoveSpacesSpace();
    RemoveSpacesConcat("My" + " ", "Proj");
    RemoveSpacesConcat("My", " ");
  }

  /** The automatic group step with the existence check on the name the
      appended entry carries. */
  function AutoGroupIntended(groups: seq<Group>, projectGroups: seq<GroupPermission>, groupAttached: bool, projectName: string)
    : (r: Result<seq<GroupPermission>>)
    ensures groupAttached ==> r == Ok(projectGroups)
    ensures r.Err? <==> !groupAttached && HasGroupName(groups, RemoveSpaces(projectName))
    ensures r.Err? ==> r.error == ErrGroupPresent
    ensures r.Ok? && !groupAttached ==> r.value == projectGroups + [AutoEntry(projectName)]
  {
    if groupAttached then Ok(projectGroups)
    else if FindGroupByName(groups, RemoveSpaces(projectName)).Some? then Err(ErrGroupPresent)
    else Ok(projectGroups + [AutoEntry(projectName)])
  }

  /** What the corrected check guarantees: whenever an automatic entry is
      appended, no group of the store carries its name, so AddGroup creates
      it rather than reusing a group that belongs to someone else. */
  lemma AutoGroupIntendedIsFresh(groups: seq<Group>, projectGroups: seq<GroupPermission>, groupAttached: bool, projectName: string)
    ensures var r := AutoGroupIntended(groups, projectGroups, groupAttached, projectName);
      r.Ok? && |r.value| > |projectGroups| ==>
        && |r.value| == |projectGroups| + 1
        && !HasGroupName(groups, r.value[|projectGroups|].group.name)
        && r.value[|projectGroups|].permission == PermissionReadWriteExecute
  {
  }

  // ---------------------------------------------------------------------
  // Creation: the group loop inside the transaction

  /** One iteration of postProjectHandler's group loop: resolve (or create)
      the group by name, force Read on the default group, grant the group on
      the project, and make the requester admin of a group created here.
      On an error the tables are left as the failing statement left them;
      the caller's rollback discards them. */
  method AddProjectGroup(db: Db, projectID: int, entry: GroupPermission, callerID: int, namePattern: string -> bool)
    returns (resolved: GroupPermission, err: Option<Error>)
    requires db.Valid()
    modifies db
    ensures db.Valid()
    ensures !namePattern(entry.group.name) ==> err == Some(ErrInvalidName)
    ensures && namePattern(entry.group.name) && HasProjectID(old(db.projects), projectID)
            && NotGranted(old(db.groups), old(db.grants), projectID, entry.group.name)
            && SqlInsertGrant !in db.failing
            && (!HasGroupName(old(db.groups), entry.group.name) ==>
                  SqlInsertGroup !in db.failing && SqlInsertLink !in db.failing) ==>
      err.None?
    ensures err.None? ==> Step(old(db.State()), db.State(), db.defaultGroup, projectID, callerID, entry, resolved)
    ensures err.None? ==> (HasGroupName(old(db.groups), entry.group.name) <==> resolved.group.id < old(db.nextGroupID))
    ensures err.None? && HasGroupName(old(db.groups), entry.group.name) ==>
      FindGroupByName(old(db.groups), entry.group.name) == Some(resolved.group)
    ensures err.None? && !HasGroupName(old(db.groups), entry.group.name) ==>
      db.groups == old(db.groups) + [resolved.group]
  {
    resolved := entry;
    var groupID, newGroup, errGroup := db.AddGroup(entry.group, namePattern);
    if groupID == 0 {
      return resolved, errGroup;
    }
    resolved := resolved.(group := resolved.group.(id := groupID));
    if IsDefaultGroupID(db.defaultGroup, groupID) {
      resolved := resolved.(permission := PermissionRead);
    }
    assert resolved.group in db.groups by {
      var k :| 0 <= k < |db.groups| && db.groups[k].id == groupID;
      if HasGroupName(old(db.groups), entry.group.name) {
        var f := FindGroupByName(old(db.groups), entry.group.name).value;
        assert f == Group(groupID, entry.group.name);
      } else {
        assert db.groups[|db.groups| - 1] == resolved.group;
      }
    }
    if !HasGroupName(old(db.groups), entry.group.name) {
      assert forall k :: k in db.grants ==> k.1 < groupID;
      assert HasProjectID(old(db.projects), projectID) ==> HasProjectID(db.projects, projectID);
    }
    err := db.InsertGrant(projectID, groupID, resolved.permission);
    if err.Some? {
      return resolved, err;
    }
    if newGroup {
      assert forall k :: k in db.links ==> k.0 < groupID;
      err := db.InsertLink(groupID, callerID, true);
    }
  }

  /** The grant of a resolved entry is on the project, at its level. */
  predicate Granted(grants: map<(int, int), Level>, projectID: int, gp: GroupPermission) {
    (projectID, gp.group.id) in grants && grants[(projectID, gp.group.id)] == gp.permission
  }

  /** What the group loop may do to the tables: groups are only appended
      (with ids from the counter), grants only added on the project, links
      only added as admin links of the requester to groups created here,
      projects untouched. */
  predicate Extends(before: Tables, after: Tables, projectID: int, callerID: int) {
    && before.groups <= after.groups
    && before.nextGroupID <= after.nextGroupID
    && (forall g :: g in after.groups && g !in before.groups ==> g.id >= before.nextGroupID)
    && (forall k :: k in before.grants ==> k in after.grants && after.grants[k] == before.grants[k])
    && (forall k :: k in after.grants && k !in before.grants ==> k.0 == projectID)
    && (forall k :: k in before.links ==> k in after.links && after.links[k] == before.links[k])
    && (forall k :: k in after.links && k !in before.links ==>
          k.1 == callerID && after.links[k] && k.0 >= before.nextGroupID)
    && after.projects == before.projects && after.nextProjectID == before.nextProjectID
  }

  /** Every entry resolved to a group of the tables, granted on the project
      at the requested level, or Read for the default group. */
  predicate AllResolved(t: Tables, defaultGroup: Option<Group>, projectID: int,
                        entries: seq<GroupPermission>, resolved: seq<GroupPermission>) {
    && |resolved| == |entries|
    && forall i :: 0 <= i < |resolved| ==> ResolvedEntry(t, defaultGroup, projectID, entries[i], resolved[i])
  }

  predicate ResolvedEntry(t: Tables, defaultGroup: Option<Group>, projectID: int, entry: GroupPermission, r: GroupPermission) {
    && r.group.name == entry.group.name && r.group.id != 0
    && r.group in t.groups
    && r.permission == (if IsDefaultGroupID(defaultGroup, r.group.id) then PermissionRead else entry.permission)
    && Granted(t.grants, projectID, r)
  }

  /** No two entries resolved to the same group. */
  predicate DistinctGroups(resolved: seq<GroupPermission>) {
    forall i, j :: 0 <= i < j < |resolved| ==> resolved[i].group.id != resolved[j].group.id
  }

  /** An entry resolved to an id older than the loop resolved to an old group. */
  predicate OldIdsAreOldGroups(before: Tables, resolved: seq<GroupPermission>) {
    forall i :: 0 <= i < |resolved| && resolved[i].group.id < before.nextGroupID ==> resolved[i].group in before.groups
  }

  /** Every group the loop created is one of the resolved ones and has the
      requester as admin. */
  predicate CreatedWithAdmin(before: Tables, after: Tables, callerID: int, resolved: seq<GroupPermission>) {
    forall g :: g in after.groups && g !in before.groups ==>
      && (g.id, callerID) in after.links && after.links[(g.id, callerID)]
      && exists j :: 0 <= j < |resolved| && resolved[j].group == g
  }

  /** Every grant the loop added is on a resolved group. */
  predicate NewGrantsResolved(before: Tables, after: Tables, resolved: seq<GroupPermission>) {
    forall k :: k in after.grants && k !in before.grants ==>
      exists j :: 0 <= j < |resolved| && resolved[j].group.id == k.1
  }

  /** The outcome of the group loop over `entries`, from `before` to `after`. */
  predicate Resolution(before: Tables, after: Tables, defaultGroup: Option<Group>, projectID: int, callerID: int,
                       entries: seq<GroupPermission>, resolved: seq<GroupPermission>) {
    && Extends(before, after, projectID, callerID)
    && AllResolved(after, defaultGroup, projectID, entries, resolved)
    && DistinctGroups(resolved)
    && OldIdsAreOldGroups(before, resolved)
    && CreatedWithAdmin(before, after, callerID, resolved)
    && NewGrantsResolved(before, after, resolved)
  }

  /** The effect of one iteration on the tables, as AddProjectGroup states it:
      a grant for a group that had none on the project, and either an
      existing group or a new one with its admin link. */
  predicate Step(t1: Tables, t2: Tables, defaultGroup: Option<Group>, projectID: int, callerID: int,
                 entry: GroupPermission, r: GroupPermission) {
    && r.group.name == entry.group.name && r.group.id != 0
    && r.permission == (if IsDefaultGroupID(defaultGroup, r.group.id) then PermissionRead else entry.permission)
    && (projectID, r.group.id) !in t1.grants
    && t2.grants == t1.grants[(projectID, r.group.id) := r.permission]
    && t2.projects == t1.projects && t2.nextProjectID == t1.nextProjectID
    && (|| (r.group in t1.groups && t2.groups == t1.groups && t2.links == t1.links && t2.nextGroupID == t1.nextGroupID)
        || (&& r.group.id == t1.nextGroupID
            && t2.groups == t1.groups + [r.group] && t2.nextGroupID == r.group.id + 1
            && (r.group.id, callerID) !in t1.links
            && t2.links == t1.links[(r.group.id, callerID) := true]))
  }

  lemma StepExtends(t0: Tables, t1: Tables, t2: Tables, defaultGroup: Option<Group>, projectID: int, callerID: int,
                    entry: GroupPermission, r: GroupPermission)
    requires Extends(t0, t1, projectID, callerID)
    requires Step(t1, t2, defaultGroup, projectID, callerID, entry, r)
    ensures Extends(t0, t2, projectID, callerID)
  {
    if r.group !in t1.groups {
      assert r.group.id >= t0.nextGroupID;
    }
  }

  lemma StepAllResolved(t1: Tables, t2: Tables, defaultGroup: Option<Group>, projectID: int, callerID: int,
                        entries: seq<GroupPermission>, resolved: seq<GroupPermission>, entry: GroupPermission, r: GroupPermission)
    requires AllResolved(t1, defaultGroup, projectID, entries, resolved)
    requires Step(t1, t2, defaultGroup, projectID, callerID, entry, r)
    ensures AllResolved(t2, defaultGroup, projectID, entries + [entry], resolved + [r])
    ensures forall i :: 0 <= i < |resolved| ==> resolved[i].group.id != r.group.id
  {
    var es, rs := entries + [entry], resolved + [r];
    assert t1.groups <= t2.groups;
    forall i | 0 <= i < |resolved| ensures resolved[i].group.id != r.group.id {
      assert ResolvedEntry(t1, defaultGroup, projectID, entries[i], resolved[i]);
    }
    forall i | 0 <= i < |rs| ensures ResolvedEntry(t2, defaultGroup, projectID, es[i], rs[i]) {
      if i < |resolved| {
        assert ResolvedEntry(t1, defaultGroup, projectID, entries[i], resolved[i]);
        assert es[i] == entries[i] && rs[i] == resolved[i];
      } else {
        assert es[i] == entry && rs[i] == r;
      }
    }
  }

  lemma StepCreatedWithAdmin(t0: Tables, t1: Tables, t2: Tables, defaultGroup: Option<Group>, projectID: int, callerID: int,
                             resolved: seq<GroupPermission>, entry: GroupPermission, r: GroupPermission)
    requires CreatedWithAdmin(t0, t1, callerID, resolved)
    requires Step(t1, t2, defaultGroup, projectID, callerID, entry, r)
    ensures CreatedWithAdmin(t0, t2, callerID, resolved + [r])
  {
    var rs := resolved + [r];
    forall g | g in t2.groups && g !in t0.groups
      ensures (g.id, callerID) in t2.links && t2.links[(g.id, callerID)]
      ensures exists j :: 0 <= j < |rs| && rs[j].group == g
    {
      if g in t1.groups {
        var j :| 0 <= j < |resolved| && resolved[j].group == g;
        assert rs[j] == resolved[j];
      } else {
        assert rs[|resolved|] == r;
      }
    }
  }

  lemma StepNewGrantsResolved(t0: Tables, t1: Tables, t2: Tables, defaultGroup: Option<Group>, projectID: int, callerID: int,
                              resolved: seq<GroupPermission>, entry: GroupPermission, r: GroupPermission)
    requires NewGrantsResolved(t0, t1, resolved)
    requires Step(t1, t2, defaultGroup, projectID, callerID, entry, r)
    ensures NewGrantsResolved(t0, t2, resolved + [r])
  {
    var rs := resolved + [r];
    forall k | k in t2.grants && k !in t0.grants ensures exists j :: 0 <= j < |rs| && rs[j].group.id == k.1 {
      if k in t1.grants {
        var j :| 0 <= j < |resolved| && resolved[j].group.id == k.1;
        assert rs[j] == resolved[j];
      } else {
        assert rs[|resolved|] == r;
      }
    }
  }

  lemma StepDistinct(t1: Tables, t2: Tables, defaultGroup: Option<Group>, projectID: int, callerID: int,
                     entries: seq<GroupPermission>, resolved: seq<GroupPermission>, entry: GroupPermission, r: GroupPermission)
    requires AllResolved(t1, defaultGroup, projectID, entries, resolved) && DistinctGroups(resolved)
    requires Step(t1, t2, defaultGroup, projectID, callerID, entry, r)
    ensures DistinctGroups(resolved + [r])
  {
    StepAllResolved(t1, t2, defaultGroup, projectID, callerID, entries, resolved, entry, r);
    var rs := resolved + [r];
    forall i, j | 0 <= i < j < |rs| ensures rs[i].group.id != rs[j].group.id {
      if j < |resolved| {
        assert rs[i] == resolved[i] && rs[j] == resolved[j];
      } else {
        assert rs[i] == resolved[i] && rs[j] == r;
      }
    }
  }

  lemma StepOldIds(t0: Tables, t1: Tables, t2: Tables, defaultGroup: Option<Group>, projectID: int, callerID: int,
                   resolved: seq<GroupPermission>, entry: GroupPermission, r: GroupPermission)
    requires Extends(t0, t1, projectID, callerID) && OldIdsAreOldGroups(t0, resolved)
    requires Step(t1, t2, defaultGroup, projectID, callerID, entry, r)
    ensures OldIdsAreOldGroups(t0, resolved + [r])
  {
    var rs := resolved + [r];
    forall i | 0 <= i < |rs| && rs[i].group.id < t0.nextGroupID ensures rs[i].group in t0.groups {
      if i < |resolved| {
        assert rs[i] == resolved[i];
      } else {
        assert rs[i] == r;
        assert r.group in t1.groups;
      }
    }
  }

  /** One iteration extends the resolution by its entry. */
  lemma ResolutionStep(t0: Tables, t1: Tables, t2: Tables, defaultGroup: Option<Group>, projectID: int, callerID: int,
                       entries: seq<GroupPermission>, resolved: seq<GroupPermission>, entry: GroupPermission, r: GroupPermission,
                       entries': seq<GroupPermission>, resolved': seq<GroupPermission>)
    requires Resolution(t0, t1, defaultGroup, projectID, callerID, entries, resolved)
    requires Step(t1, t2, defaultGroup, projectID, callerID, entry, r)
    requires entries' == entries + [entry] && resolved' == resolved + [r]
    ensures Resolution(t0, t2, defaultGroup, projectID, callerID, entries', resolved')
  {
    StepExtends(t0, t1, t2, defaultGroup, projectID, callerID, entry, r);
    StepAllResolved(t1, t2, defaultGroup, projectID, callerID, entries, resolved, entry, r);
    StepCreatedWithAdmin(t0, t1, t2, defaultGroup, projectID, callerID, resolved, entry, r);
    StepNewGrantsResolved(t0, t1, t2, defaultGroup, projectID, callerID, resolved, entry, r);
    StepDistinct(t1, t2, defaultGroup, projectID, callerID, entries, resolved, entry, r);
    StepOldIds(t0, t1, t2, defaultGroup, projectID, callerID, resolved, entry, r);
  }

  /** No group with this name has a grant on the project yet. */
  predicate NotGranted(groups: seq<Group>, grants: map<(int, int), Level>, projectID: int, name: string) {
    forall g :: g in groups && g.name == name ==> (projectID, g.id) !in grants
  }

  /** The entries carry valid names, no two the same: with no requested
      group granted on the project yet, the group loop then succeeds. */
  predicate ValidNames(entries: seq<GroupPermission>, namePattern: string -> bool) {
    && (forall i :: 0 <= i < |entries| ==> namePattern(entries[i].group.name))
    && (forall i, j :: 0 <= i < j < |entries| ==> entries[i].group.name != entries[j].group.name)
  }

  /** No group named like entry i or a later entry has a grant on the project. */
  predicate UngrantedFrom(groups: seq<Group>, grants: map<(int, int), Level>, entries: seq<GroupPermission>,
                          i: nat, projectID: int) {
    forall j :: i <= j < |entries| ==> NotGranted(groups, grants, projectID, entries[j].group.name)
  }

  /** One iteration grants only the group of its own entry, so the later,
      differently named entries stay ungranted. */
  lemma UngrantedAfterStep(t1: Tables, t2: Tables, defaultGroup: Option<Group>, projectID: int, callerID: int,
                           entries: seq<GroupPermission>, namePattern: string -> bool, i: nat, r: GroupPermission)
    requires ValidTables(t1) && i < |entries| && ValidNames(entries, namePattern)
    requires UngrantedFrom(t1.groups, t1.grants, entries, i, projectID)
    requires Step(t1, t2, defaultGroup, projectID, callerID, entries[i], r)
    ensures UngrantedFrom(t2.groups, t2.grants, entries, i + 1, projectID)
  {
    forall j, g | i + 1 <= j < |entries| && g in t2.groups && g.name == entries[j].group.name
      ensures (projectID, g.id) !in t2.grants
    {
      assert entries[i].group.name != entries[j].group.name;
      assert g in t1.groups;
      assert NotGranted(t1.groups, t1.grants, projectID, entries[j].group.name);
      if r.group in t1.groups {
        GroupIdsDiffer(t1.groups, g, r.group);
      }
    }
  }

  /** The loop body of postProjectHandler's group loop on entry i, as a step
      of the resolution: AddProjectGroup on the entry, with its effect folded
      into Resolution. */
  method ResolveNext(db: Db, ghost t0: Tables, projectID: int, callerID: int, namePattern: string -> bool,
                     entries: seq<GroupPermission>, i: nat, resolved: seq<GroupPermission>)
    returns (resolved': seq<GroupPermission>, err: Option<Error>)
    requires db.Valid() && 0 <= i < |entries|
    requires Resolution(t0, db.State(), db.defaultGroup, projectID, callerID, entries[..i], resolved)
    modifies db
    ensures db.Valid()
    ensures err.None? ==> Resolution(t0, db.State(), db.defaultGroup, projectID, callerID, entries[..i + 1], resolved')
    ensures && ValidNames(entries, namePattern) && UngrantedFrom(old(db.groups), old(db.grants), entries, i, projectID)
            && HasProjectID(old(db.projects), projectID)
            && SqlInsertGroup !in db.failing && SqlInsertGrant !in db.failing && SqlInsertLink !in db.failing ==>
      && err.None? && UngrantedFrom(db.groups, db.grants, entries, i + 1, projectID) && HasProjectID(db.projects, projectID)
  {
    resolved' := resolved;
    ghost var before := db.State();
    var r;
    r, err := AddProjectGroup(db, projectID, entries[i], callerID, namePattern);
    if err.Some? {
      return;
    }
    resolved' := resolved + [r];
    assert entries[..i + 1] == entries[..i] + [entries[i]];
    ResolutionStep(t0, before, db.State(), db.defaultGroup, projectID, callerID, entries[..i], resolved, entries[i], r,
                   entries[..i + 1], resolved');
    if && ValidNames(entries, namePattern) && UngrantedFrom(before.groups, before.grants, entries, i, projectID) {
      UngrantedAfterStep(before, db.State(), db.defaultGroup, projectID, callerID, entries, namePattern, i, r);
    }
  }

  /** postProjectHandler's group loop over every entry of the request. On
      success the entries are resolved as Resolution states: each to a
      distinct group of the store, granted on the project at its level
      (Read for the default group); every group created here has the
      requester as admin; nothing else of the tables changed. On an existing
      project, with valid, pairwise distinct names none of whose groups is
      granted on it yet, only a storage fault can make it fail. */
  method AddProjectGroups(db: Db, projectID: int, entries: seq<GroupPermission>, callerID: int, namePattern: string -> bool)
    returns (resolved: seq<GroupPermission>, err: Option<Error>)
    requires db.Valid()
    modifies db
    ensures db.Valid()
    ensures err.None? ==> Resolution(old(db.State()), db.State(), db.defaultGroup, projectID, callerID, entries, resolved)
    ensures && ValidNames(entries, namePattern) && HasProjectID(old(db.projects), projectID)
            && UngrantedFrom(old(db.groups), old(db.grants), entries, 0, projectID)
            && SqlInsertGroup !in db.failing && SqlInsertGrant !in db.failing && SqlInsertLink !in db.failing ==>
      err.None?
  {
    resolved := [];
    ghost var t0 := db.State();
    ghost var canSucceed := && ValidNames(entries, namePattern) && HasProjectID(t0.projects, projectID)
                            && UngrantedFrom(t0.groups, t0.grants, entries, 0, projectID)
                            && SqlInsertGroup !in db.failing && SqlInsertGrant !in db.failing && SqlInsertLink !in db.failing;
    var i := 0;
    while i < |entries|
      invariant 0 <= i <= |entries|
      invariant db.Valid()
      invariant Resolution(t0, db.State(), db.defaultGroup, projectID, callerID, entries[..i], resolved)
      invariant canSucceed ==> HasProjectID(db.projects, projectID) && UngrantedFrom(db.groups, db.grants, entries, i, projectID)
    {
      resolved, err := ResolveNext(db, t0, projectID, callerID, namePattern, entries, i, resolved);
      if err.Some? {
        return;
      }
      i := i + 1;
    }
    assert entries[..i] == entries;
    err := None;
  }

  // ---------------------------------------------------------------------
  // Creation: default keys

  predicate HasKeyType(keys: seq<ProjectKey>, keyType: string) {
    exists i :: 0 <= i < |keys| && keys[i].keyType == keyType
  }

  /** The name given to a missing key: "proj-<type>-<lower-case key>". */
  function DefaultKeyName(keyType: string, projectKey: string): string {
    "proj-" + keyType + "-" + ToLower(projectKey)
  }

  /** postProjectHandler's key defaulting: a scan for an SSH and a PGP key,
      then one generated entry appended for each type that is missing. */
  method DefaultKeys(keys: seq<ProjectKey>, projectKey: string) returns (result: seq<ProjectKey>)
    ensures result ==
      keys
      + (if HasKeyType(keys, KeyTypeSSH) then [] else [ProjectKey(DefaultKeyName(KeyTypeSSH, projectKey), KeyTypeSSH, 0)])
      + (if HasKeyType(keys, KeyTypePGP) then [] else [ProjectKey(DefaultKeyName(KeyTypePGP, projectKey), KeyTypePGP, 0)])
    ensures HasKeyType(result, KeyTypeSSH) && HasKeyType(result, KeyTypePGP)
    ensures |keys| <= |result| <= |keys| + 2 && result[..|keys|] == keys
  {
    var sshExists, gpgExists := false, false;
    var i := 0;
    while i < |keys|
      invariant 0 <= i <= |keys|
      invariant sshExists <==> exists j :: 0 <= j < i && keys[j].keyType == KeyTypeSSH
      invariant gpgExists <==> exists j :: 0 <= j < i && keys[j].keyType == KeyTypePGP
    {
      if keys[i].keyType == KeyTypeSSH {
        sshExists := true;
      } else if keys[i].keyType == KeyTypePGP {
        gpgExists := true;
      }
      i := i + 1;
    }
    result := keys;
    if !sshExists {
      result := result + [ProjectKey(DefaultKeyName(KeyTypeSSH, projectKey), KeyTypeSSH, 0)];
    }
    if !gpgExists {
      result := result + [ProjectKey(DefaultKeyName(KeyTypePGP, projectKey), KeyTypePGP, 0)];
    }
    assert HasKeyType(result, KeyTypeSSH) by {
      if sshExists {
        var j :| 0 <= j < |keys| && keys[j].keyType == KeyTypeSSH;
        assert result[j] == keys[j];
      } else {
        assert result[|keys|].keyType == KeyTypeSSH;
      }
    }
    assert HasKeyType(result, KeyTypePGP) by {
      if gpgExists {
        var j :| 0 <= j < |keys| && keys[j].keyType == KeyTypePGP;
        assert result[j] == keys[j];
      } else {
        assert result[|result| - 1].keyType == KeyTypePGP;
      }
    }
  }

  // ---------------------------------------------------------------------
  // Creation: the handler

  /** Some entry of the request counts as attached. */
  predicate AnyAttached(defaultGroup: Option<Group>, projectGroups: seq<GroupPermission>) {
    exists i :: 0 <= i < |projectGroups| && Attaches(defaultGroup, projectGroups[i])
  }

  /** The group entries the transaction works through, with the automatic
      group step as postProjectHandler writes it: the request's entries, plus
      the automatic group when nothing is attached, or ErrGroupPresent. */
  function RequestedGroups(defaultGroup: Option<Group>, groups: seq<Group>, p: Project): (r: Result<seq<GroupPermission>>)
    ensures r.Ok? ==> p.projectGroups <= r.value && 1 <= |r.value|
  {
    AutoGroup(groups, p.projectGroups, AnyAttached(defaultGroup, p.projectGroups), p.name)
  }

  /** The same with the corrected automatic group check. */
  function RequestedGroupsIntended(defaultGroup: Option<Group>, groups: seq<Group>, p: Project)
    : (r: Result<seq<GroupPermission>>)
    ensures r.Ok? ==> p.projectGroups <= r.value && 1 <= |r.value|
  {
    AutoGroupIntended(groups, p.projectGroups, AnyAttached(defaultGroup, p.projectGroups), p.name)
  }

  /** The tables after the project insert: the row under its key with the
      next project id, and the counter advanced. */
  function WithProject(t: Tables, key: string, name: string): (r: Tables)
    ensures r.groups == t.groups && r.links == t.links && r.grants == t.grants && r.nextGroupID == t.nextGroupID
    ensures key in r.projects && r.projects[key].id == t.nextProjectID && r.nextProjectID == t.nextProjectID + 1
    ensures forall k :: k in t.projects && k != key ==> k in r.projects && r.projects[k] == t.projects[k]
  {
    t.(projects := t.projects[key := ProjectRow(t.nextProjectID, name, 0, 0)], nextProjectID := t.nextProjectID + 1)
  }

  /** The transaction of postProjectHandler: insert the project, then run
      the group loop on it; on any error the rollback restores the tables. */
  method InsertProjectWithGroups(db: Db, key: string, name: string, entries: seq<GroupPermission>,
                                 callerID: int, namePattern: string -> bool)
    returns (id: int, resolved: seq<GroupPermission>, err: Option<Error>)
    requires db.Valid()
    modifies db
    ensures db.Valid()
    ensures err.Some? ==> db.State() == old(db.State())
    ensures err.None? ==>
      && id == old(db.nextProjectID)
      && Resolution(WithProject(old(db.State()), key, name), db.State(), db.defaultGroup, id, callerID, entries, resolved)
    ensures && key !in old(db.projects) && ValidNames(entries, namePattern)
            && SqlInsertProject !in db.failing && SqlInsertGroup !in db.failing
            && SqlInsertGrant !in db.failing && SqlInsertLink !in db.failing ==>
      err.None?
  {
    resolved := [];
    var snapshot := db.State();
    id, err := db.InsertProject(key, name);
    if err.Some? {
      return;
    }
    assert db.State() == WithProject(snapshot, key, name);
    assert HasProjectID(db.projects, id) by {
      assert db.projects[key].id == id;
    }
    assert UngrantedFrom(db.groups, db.grants, entries, 0, id) by {
      assert forall k :: k in db.grants ==> k.0 < id;
    }
    resolved, err := AddProjectGroups(db, id, entries, callerID, namePattern);
    if err.Some? {
      db.Restore(snapshot);
    }
  }

  /** The transaction of postProjectHandler on the checked request and its
      group entries, then the defaulted keys: the returned project carries
      the resolved groups. */
  method CreateProject(db: Db, p: Project, entries: seq<GroupPermission>, callerID: int, namePattern: string -> bool)
    returns (created: Project, err: Option<Error>)
    requires db.Valid()
    modifies db
    ensures db.Valid()
    ensures err.Some? ==> db.State() == old(db.State())
    ensures && p.key !in old(db.projects) && ValidNames(entries, namePattern)
            && SqlInsertProject !in db.failing && SqlInsertGroup !in db.failing
            && SqlInsertGrant !in db.failing && SqlInsertLink !in db.failing ==>
      err.None?
    ensures err.None? ==>
      && created.key == p.key && created.name == p.name
      && Resolution(WithProject(old(db.State()), p.key, p.name), db.State(),
                    db.defaultGroup, old(db.nextProjectID), callerID, entries, created.projectGroups)
      && HasKeyType(created.keys, KeyTypeSSH) && HasKeyType(created.keys, KeyTypePGP)
  {
    created := p;
    var id, resolved;
    id, resolved, err := InsertProjectWithGroups(db, p.key, p.name, entries, callerID, namePattern);
    if err.Some? {
      return;
    }
    var keys := DefaultKeys(p.keys, p.key);
    created := Project(p.key, p.name, resolved, keys);
  }

  /** postProjectHandler as written. The validation reads run outside the
      transaction and change nothing; the project insert and the group loop
      run in it and are discarded on any error. Key material, variables and
      integrations are not modelled. The automatic group step checks the
      project name with its spaces, so an existing group named like the
      name without spaces is reused (ExistingGroupIsReused). */
  method PostProjectHandler(db: Db, p: Project, callerID: int, keyPattern: string -> bool, namePattern: string -> bool)
    returns (created: Project, err: Option<Error>)
    requires db.Valid()
    modifies db
    ensures db.Valid()
    ensures err.Some? ==> db.State() == old(db.State())
    ensures CreationError(p.key, p.name, old(db.projects), keyPattern).Some? ==>
      err == CreationError(p.key, p.name, old(db.projects), keyPattern)
    ensures CreationError(p.key, p.name, old(db.projects), keyPattern).None?
            && RequestedGroups(db.defaultGroup, old(db.groups), p).Err? ==>
      err == Some(ErrGroupPresent)
    ensures && CreationError(p.key, p.name, old(db.projects), keyPattern).None?
            && RequestedGroups(db.defaultGroup, old(db.groups), p).Ok?
            && ValidNames(RequestedGroups(db.defaultGroup, old(db.groups), p).value, namePattern)
            && SqlInsertProject !in db.failing && SqlInsertGroup !in db.failing
            && SqlInsertGrant !in db.failing && SqlInsertLink !in db.failing ==>
      err.None?
    ensures err.None? ==>
      && CreationError(p.key, p.name, old(db.projects), keyPattern).None?
      && RequestedGroups(db.defaultGroup, old(db.groups), p).Ok?
      && created.key == p.key && created.name == p.name
      && Resolution(WithProject(old(db.State()), p.key, p.name), db.State(),
                    db.defaultGroup, old(db.nextProjectID), callerID,
                    RequestedGroups(db.defaultGroup, old(db.groups), p).value, created.projectGroups)
      && HasKeyType(created.keys, KeyTypeSSH) && HasKeyType(created.keys, KeyTypePGP)
  {
    created := p;
    err := CreationError(p.key, p.name, db.projects, keyPattern);
    if err.Some? {
      return;
    }
    var groupAttached := GroupAttached(db.defaultGroup, p.projectGroups);
    var auto := AutoGroup(db.groups, p.projectGroups, groupAttached, p.name);
    if auto.Err? {
      return created, Some(auto.error);
    }
    created, err := CreateProject(db, p, auto.value, callerID, namePattern);
  }

  /** postProjectHandler with the corrected automatic group check: the
      automatic group is refused when a group of its own name exists. */
  method PostProjectHandlerIntended(db: Db, p: Project, callerID: int, keyPattern: string -> bool, namePattern: string -> bool)
    returns (created: Project, err: Option<Error>)
    requires db.Valid()
    modifies db
    ensures db.Valid()
    ensures err.Some? ==> db.State() == old(db.State())
    ensures CreationError(p.key, p.name, old(db.projects), keyPattern).Some? ==>
      err == CreationError(p.key, p.name, old(db.projects), keyPattern)
    ensures CreationError(p.key, p.name, old(db.projects), keyPattern).None?
            && RequestedGroupsIntended(db.defaultGroup, old(db.groups), p).Err? ==>
      err == Some(ErrGroupPresent)
    ensures && CreationError(p.key, p.name, old(db.projects), keyPattern).None?
            && RequestedGroupsIntended(db.defaultGroup, old(db.groups), p).Ok?
            && ValidNames(RequestedGroupsIntended(db.defaultGroup, old(db.groups), p).value, namePattern)
            && SqlInsertProject !in db.failing && SqlInsertGroup !in db.failing
            && SqlInsertGrant !in db.failing && SqlInsertLink !in db.failing ==>
      err.None?
    ensures err.None? ==>
      && CreationError(p.key, p.name, old(db.projects), keyPattern).None?
      && RequestedGroupsIntended(db.defaultGroup, old(db.groups), p).Ok?
      && created.key == p.key && created.name == p.name
      && Resolution(WithProject(old(db.State()), p.key, p.name), db.State(),
                    db.defaultGroup, old(db.nextProjectID), callerID,
                    RequestedGroupsIntended(db.defaultGroup, old(db.groups), p).value, created.projectGroups)
      && HasKeyType(created.keys, KeyTypeSSH) && HasKeyType(created.keys, KeyTypePGP)
  {
    created := p;
    err := CreationError(p.key, p.name, db.projects, keyPattern);
    if err.Some? {
      return;
    }
    var groupAttached := GroupAttached(db.defaultGroup, p.projectGroups);
    var auto := AutoGroupIntended(db.groups, p.projectGroups, groupAttached, p.name);
    if auto.Err? {
      return created, Some(auto.error);
    }
    created, err := CreateProject(db, p, auto.value, callerID, namePattern);
  }

  /** An entry named like a group that was in the store before the loop
      resolves to that very group, and the requester's link to it is what it
      was: the loop does not make the requester admin of a group it reuses. */
  lemma ExistingGroupIsReused(before: Tables, after: Tables, defaultGroup: Option<Group>, projectID: int, callerID: int,
                              entries: seq<GroupPermission>, resolved: seq<GroupPermission>, i: nat, g: Group)
    requires ValidTables(after)
    requires Resolution(before, after, defaultGroup, projectID, callerID, entries, resolved)
    requires i < |entries| && g in before.groups && g.name == entries[i].group.name && g.id < before.nextGroupID
    ensures resolved[i].group == g
    ensures (g.id, callerID) in after.links <==> (g.id, callerID) in before.links
    ensures (g.id, callerID) in before.links ==> after.links[(g.id, callerID)] == before.links[(g.id, callerID)]
    ensures AdminsOf(after.links, g.id) == AdminsOf(before.links, g.id)
  {
    assert ResolvedEntry(after, defaultGroup, projectID, entries[i], resolved[i]);
    assert g in after.groups;
    if resolved[i].group != g {
      GroupNamesDiffer(after.groups, resolved[i].group, g);
    }
    OldGroupAdmins(before, after, projectID, callerID, g.id);
  }

  /** The loop leaves the admins of every group older than it as they were. */
  lemma OldGroupAdmins(before: Tables, after: Tables, projectID: int, callerID: int, groupID: int)
    requires Extends(before, after, projectID, callerID) && groupID < before.nextGroupID
    ensures AdminsOf(after.links, groupID) == AdminsOf(before.links, groupID)
  {
    forall u | u in AdminsOf(after.links, groupID) ensures u in AdminsOf(before.links, groupID) {
      var k :| k in after.links && k.0 == groupID && after.links[k] && k.1 == u;
      assert k in before.links;
    }
    forall u | u in AdminsOf(before.links, groupID) ensures u in AdminsOf(after.links, groupID) {
      var k :| k in before.links && k.0 == groupID && before.links[k] && k.1 == u;
      assert k in after.links && after.links[k];
    }
  }

  /** A created project is granted to at least one group: the request's
      groups, or the automatic one. */
  lemma CreatedProjectIsGranted(before: Tables, after: Tables, defaultGroup: Option<Group>, projectID: int, callerID: int,
                                entries: seq<GroupPermission>, resolved: seq<GroupPermission>)
    requires Resolution(before, after, defaultGroup, projectID, callerID, entries, resolved)
    requires 1 <= |entries|
    ensures exists k :: k in after.grants && k.0 == projectID
  {
    assert ResolvedEntry(after, defaultGroup, projectID, entries[0], resolved[0]);
    assert (projectID, resolved[0].group.id) in after.grants;
  }

  /** The grants the loop leaves on a project that had none are exactly one
      per resolved entry, at the entry's level. */
  lemma ResolutionGrants(before: Tables, after: Tables, defaultGroup: Option<Group>, projectID: int, callerID: int,
                         entries: seq<GroupPermission>, resolved: seq<GroupPermission>, k: (int, int))
    requires Resolution(before, after, defaultGroup, projectID, callerID, entries, resolved)
    requires forall k' :: k' in before.grants ==> k'.0 != projectID
    ensures k in after.grants && k.0 == projectID <==>
              exists i :: 0 <= i < |resolved| && k == (projectID, resolved[i].group.id)
    ensures forall i :: 0 <= i < |resolved| ==> after.grants[(projectID, resolved[i].group.id)] == resolved[i].permission
  {
    if k in after.grants && k.0 == projectID {
      assert k !in before.grants;
      var j :| 0 <= j < |resolved| && resolved[j].group.id == k.1;
    }
    if exists i :: 0 <= i < |resolved| && k == (projectID, resolved[i].group.id) {
      var i :| 0 <= i < |resolved| && k == (projectID, resolved[i].group.id);
      assert ResolvedEntry(after, defaultGroup, projectID, entries[i], resolved[i]);
    }
    forall i | 0 <= i < |resolved| ensures after.grants[(projectID, resolved[i].group.id)] == resolved[i].permission {
      assert ResolvedEntry(after, defaultGroup, projectID, entries[i], resolved[i]);
    }
  }

  // ---------------------------------------------------------------------
  // Labels

  predicate HasLabelID(labels: seq<Label>, id: int) {
    exists i :: 0 <= i < |labels| && labels[i].id == id
  }

  function KnownIn(labels: seq<Label>): Label -> bool {
    (l: Label) => HasLabelID(labels, l.id)
  }

  function UnknownIn(labels: seq<Label>): Label -> bool {
    (l: Label) => !HasLabelID(labels, l.id)
  }

  /** The labels with their project id set to the project's. */
  function Stamped(labels: seq<Label>, projectID: int): (r: seq<Label>)
    ensures |r| == |labels|
    ensures forall i :: 0 <= i < |r| ==> r[i] == labels[i].(projectID := projectID)
  {
    seq(|labels|, i requires 0 <= i < |labels| => labels[i].(projectID := projectID))
  }

  lemma StampedSnoc(labels: seq<Label>, l: Label, projectID: int)
    ensures Stamped(labels + [l], projectID) == Stamped(labels, projectID) + [l.(projectID := projectID)]
  {
  }

  /** One more label considered by a partition loop: it is stamped and
      appended exactly when the condition holds. */
  lemma StampedFilterStep(labels: seq<Label>, i: int, p: Label -> bool, projectID: int)
    requires 0 <= i < |labels|
    ensures Stamped(Seqs.Filter(labels[..i + 1], p), projectID)
            == Stamped(Seqs.Filter(labels[..i], p), projectID)
               + (if p(labels[i]) then [labels[i].(projectID := projectID)] else [])
  {
    Seqs.FilterPrefix(labels, i, p);
    StampedSnoc(Seqs.Filter(labels[..i], p), labels[i], projectID);
  }

  /** An inner loop of putProjectLabelsHandler: does any label carry this id? */
  method ContainsLabelID(labels: seq<Label>, id: int) returns (lblFound: bool)
    ensures lblFound <==> HasLabelID(labels, id)
  {
    lblFound := false;
    var i := 0;
    while i < |labels|
      invariant 0 <= i <= |labels|
      invariant lblFound <==> exists j :: 0 <= j < i && labels[j].id == id
    {
      if labels[i].id == id {
        lblFound := true;
      }
      i := i + 1;
    }
  }

  /** The first loop of putProjectLabelsHandler's partition: submitted
      labels whose id exists go to update, the others to add, in their
      order, stamped with the project id. */
  method SplitSubmitted(existing: seq<Label>, submitted: seq<Label>, projectID: int)
    returns (labelsToUpdate: seq<Label>, labelsToAdd: seq<Label>)
    ensures labelsToUpdate == Stamped(Seqs.Filter(submitted, KnownIn(existing)), projectID)
    ensures labelsToAdd == Stamped(Seqs.Filter(submitted, UnknownIn(existing)), projectID)
  {
    labelsToUpdate, labelsToAdd := [], [];
    var i := 0;
    while i < |submitted|
      invariant 0 <= i <= |submitted|
      invariant labelsToUpdate == Stamped(Seqs.Filter(submitted[..i], KnownIn(existing)), projectID)
      invariant labelsToAdd == Stamped(Seqs.Filter(submitted[..i], UnknownIn(existing)), projectID)
    {
      var lblUpdated := submitted[i];
      var lblFound := ContainsLabelID(existing, lblUpdated.id);
      StampedFilterStep(submitted, i, KnownIn(existing), projectID);
      StampedFilterStep(submitted, i, UnknownIn(existing), projectID);
      lblUpdated := lblUpdated.(projectID := projectID);
      if lblFound {
        labelsToUpdate := labelsToUpdate + [lblUpdated];
      } else {
        labelsToAdd := labelsToAdd + [lblUpdated];
      }
      i := i + 1;
    }
    assert submitted[..i] == submitted;
  }

  /** The second loop of the partition: existing labels whose id was not
      submitted go to delete, in their order, stamped with the project id. */
  method LabelsToDelete(existing: seq<Label>, submitted: seq<Label>, projectID: int)
    returns (labelsToDelete: seq<Label>)
    ensures labelsToDelete == Stamped(Seqs.Filter(existing, UnknownIn(submitted)), projectID)
  {
    labelsToDelete := [];
    var i := 0;
    while i < |existing|
      invariant 0 <= i <= |existing|
      invariant labelsToDelete == Stamped(Seqs.Filter(existing[..i], UnknownIn(submitted)), projectID)
    {
      var lbl := existing[i];
      var lblFound := ContainsLabelID(submitted, lbl.id);
      StampedFilterStep(existing, i, UnknownIn(submitted), projectID);
      if !lblFound {
        lbl := lbl.(projectID := projectID);
        labelsToDelete := labelsToDelete + [lbl];
      }
      i := i + 1;
    }
    assert existing[..i] == existing;
  }

  /** putProjectLabelsHandler's partition of the submitted labels against the
      project's labels: submitted labels whose id exists go to update, the
      others to add, and existing labels whose id was not submitted go to
      delete; all keep their order and carry the project id. */
  method PartitionLabels(existing: seq<Label>, submitted: seq<Label>, projectID: int)
    returns (labelsToUpdate: seq<Label>, labelsToAdd: seq<Label>, labelsToDelete: seq<Label>)
    ensures labelsToUpdate == Stamped(Seqs.Filter(submitted, KnownIn(existing)), projectID)
    ensures labelsToAdd == Stamped(Seqs.Filter(submitted, UnknownIn(existing)), projectID)
    ensures labelsToDelete == Stamped(Seqs.Filter(existing, UnknownIn(submitted)), projectID)
  {
    labelsToUpdate, labelsToAdd := SplitSubmitted(existing, submitted, projectID);
    labelsToDelete := LabelsToDelete(existing, submitted, projectID);
  }

  /** Update and add together take every submitted label once. */
  lemma LabelUpdateAddCount(existing: seq<Label>, submitted: seq<Label>, projectID: int)
    ensures |Stamped(Seqs.Filter(submitted, KnownIn(existing)), projectID)|
            + |Stamped(Seqs.Filter(submitted, UnknownIn(existing)), projectID)| == |submitted|
  {
    Seqs.FilterPartition(submitted, KnownIn(existing), UnknownIn(existing));
  }

  /** A label selected by `known` is stamped into the selection exactly
      when it is one of `labels`; every stamped label carries the project
      id and an id `known` accepts. */
  lemma StampedSelection(labels: seq<Label>, known: seq<Label>, keep: bool, projectID: int)
    ensures var sel := Stamped(Seqs.Filter(labels, if keep then KnownIn(known) else UnknownIn(known)), projectID);
      && (forall l :: l in labels && HasLabelID(known, l.id) == keep ==> l.(projectID := projectID) in sel)
      && (forall l :: l in sel ==> l.projectID == projectID && HasLabelID(known, l.id) == keep)
  {
    var p := if keep then KnownIn(known) else UnknownIn(known);
    var f := Seqs.Filter(labels, p);
    var sel := Stamped(f, projectID);
    forall l | l in labels && HasLabelID(known, l.id) == keep ensures l.(projectID := projectID) in sel {
      assert p(l);
      var i :| 0 <= i < |f| && f[i] == l;
      assert sel[i] == l.(projectID := projectID);
    }
    forall l | l in sel ensures l.projectID == projectID && HasLabelID(known, l.id) == keep {
      var i :| 0 <= i < |sel| && sel[i] == l;
      assert p(f[i]);
    }
  }

  /** The partition is exact: every submitted label lands in update when
      its id exists and in add otherwise, and never in the other one; an
      existing label is deleted exactly when its id was not submitted;
      every label carries the project id. */
  lemma LabelPartitionIsExact(existing: seq<Label>, submitted: seq<Label>, projectID: int)
    ensures var u := Stamped(Seqs.Filter(submitted, KnownIn(existing)), projectID);
      var a := Stamped(Seqs.Filter(submitted, UnknownIn(existing)), projectID);
      var d := Stamped(Seqs.Filter(existing, UnknownIn(submitted)), projectID);
      && |u| + |a| == |submitted|
      && (forall l :: l in submitted && HasLabelID(existing, l.id) ==> l.(projectID := projectID) in u)
      && (forall l :: l in submitted && !HasLabelID(existing, l.id) ==> l.(projectID := projectID) in a)
      && (forall l :: l in u ==> l.projectID == projectID && HasLabelID(existing, l.id))
      && (forall l :: l in a ==> l.projectID == projectID && !HasLabelID(existing, l.id))
      && (forall l :: l in existing && !HasLabelID(submitted, l.id) ==> l.(projectID := projectID) in d)
      && (forall l :: l in d ==> l.projectID == projectID && !HasLabelID(submitted, l.id))
  {
    LabelUpdateAddCount(existing, submitted, projectID);
    StampedSelection(submitted, existing, true, projectID);
    StampedSelection(submitted, existing, false, projectID);
    StampedSelection(existing, submitted, false, projectID);
  }

  // ---------------------------------------------------------------------
  // Listing, update, deletion

  predicate IsWritable(p: ListedProject) { p.writable }

  /** The withPermissions filter of getProjectsHandler: with "W" in either
      case, only the writable projects, in their order; otherwise all. */
  method FilterWritable(projects: seq<ListedProject>, withPermissions: string) returns (result: seq<ListedProject>)
    ensures (withPermissions == "W" || withPermissions == "w") ==> result == Seqs.Filter(projects, IsWritable)
    ensures !(withPermissions == "W" || withPermissions == "w") ==> result == projects
    ensures forall q :: q in result ==> q in projects
  {
    UpperIsW(withPermissions);
    if ToUpper(withPermissions) != "W" {
      return projects;
    }
    var res: seq<ListedProject> := [];
    var i := 0;
    while i < |projects|
      invariant 0 <= i <= |projects|
      invariant res == Seqs.Filter(projects[..i], IsWritable)
    {
      Seqs.FilterPrefix(projects, i, IsWritable);
      if projects[i].writable {
        res := res + [projects[i]];
      }
      i := i + 1;
    }
    assert projects[..i] == projects;
    result := res;
  }

  /** updateProjectHandler: a non-empty name, a body key equal to the URL
      key and an existing project are required, in that order; the update
      keeps the project's id and takes the new name. */
  method UpdateProjectHandler(db: Db, key: string, proj: Project) returns (err: Option<Error>)
    requires db.Valid()
    modifies db
    ensures db.Valid()
    ensures err.Some? ==> db.State() == old(db.State())
    ensures proj.name == "" ==> err == Some(ErrInvalidProjectName)
    ensures proj.name != "" && key != proj.key ==> err == Some(ErrWrongRequest)
    ensures proj.name != "" && key == proj.key && key !in old(db.projects) ==> err == Some(ErrNoProject)
    ensures proj.name != "" && key == proj.key && key in old(db.projects) ==>
      err == (if SqlUpdateProject in db.failing then Some(StorageFailure(SqlUpdateProject)) else None)
    ensures err.None? ==>
      && key in old(db.projects)
      && db.State() == old(db.State()).(projects := old(db.projects)[key := old(db.projects)[key].(name := proj.name)])
      && db.projects[key].id == old(db.projects)[key].id
      && db.projects[key].name == proj.name
  {
    if proj.name == "" {
      return Some(ErrInvalidProjectName);
    }
    if key != proj.key {
      return Some(ErrWrongRequest);
    }
    if key !in db.projects {
      return Some(ErrNoProject);
    }
    err := db.UpdateProjectName(key, proj.name);
  }

  /** deleteProjectHandler: an existing project with no pipeline and no
      application is deleted, together with the grants on it. */
  method DeleteProjectHandler(db: Db, key: string) returns (err: Option<Error>)
    requires db.Valid()
    modifies db
    ensures db.Valid()
    ensures err.Some? ==> db.State() == old(db.State())
    ensures key !in old(db.projects) ==> err == Some(ErrNoProject)
    ensures key in old(db.projects) && old(db.projects)[key].pipelines > 0 ==> err == Some(ErrProjectHasPipeline)
    ensures key in old(db.projects) && old(db.projects)[key].pipelines == 0 && old(db.projects)[key].applications > 0 ==>
      err == Some(ErrProjectHasApplication)
    ensures key in old(db.projects) && old(db.projects)[key].pipelines == 0 && old(db.projects)[key].applications == 0 ==>
      err == (if SqlDeleteProject in db.failing then Some(StorageFailure(SqlDeleteProject)) else None)
    ensures err.None? ==>
      var id := old(db.projects)[key].id;
      && db.projects == old(db.projects) - {key}
      && (forall k :: k in db.grants ==> k.0 != id)
      && (forall k :: k in old(db.grants) && k.0 != id ==> k in db.grants && db.grants[k] == old(db.grants)[k])
      && db.groups == old(db.groups) && db.links == old(db.links)
  {
    if key !in db.projects {
      return Some(ErrNoProject);
    }
    var p := db.projects[key];
    if p.pipelines > 0 {
      return Some(ErrProjectHasPipeline);
    }
    if p.applications > 0 {
      return Some(ErrProjectHasApplication);
    }
    err := db.DeleteProject(key);
  }

  /** A resolution of one entry from tables without groups or grants: the
      one resolved group is the only group, has the only grant, and has the
      requester as admin. */
  lemma SoleGroupResolved(t1: Tables, t2: Tables, projectID: int, callerID: int,
                          entry: GroupPermission, resolved: seq<GroupPermission>)
    requires t1.groups == [] && t1.grants == map[]
    requires Resolution(t1, t2, None, projectID, callerID, [entry], resolved)
    ensures |resolved| == 1 && resolved[0].group.name == entry.group.name
    ensures forall h :: h in t2.groups <==> h == resolved[0].group
    ensures t2.grants == map[(projectID, resolved[0].group.id) := entry.permission]
    ensures callerID in AdminsOf(t2.links, resolved[0].group.id)
  {
    var g := resolved[0].group;
    assert ResolvedEntry(t2, None, projectID, entry, resolved[0]);
    forall h | h in t2.groups ensures h == g {
      assert h !in t1.groups;
      var j :| 0 <= j < |resolved| && resolved[j].group == h;
    }
    forall k | k in t2.grants ensures k == (projectID, g.id) {
      assert k !in t1.grants;
      var j :| 0 <= j < |resolved| && resolved[j].group.id == k.1;
    }
    assert g !in t1.groups;
    assert (g.id, callerID) in t2.links && t2.links[(g.id, callerID)];
  }

  /** A request for "Proj" without groups on a store without groups asks
      for the one automatic group "Proj", whose name is valid. */
  lemma LoneProjectRequest(namePattern: string -> bool)
    requires namePattern("Proj")
    ensures RequestedGroups(None, [], Project("PRJ", "Proj", [], [])) == Ok([AutoEntry("Proj")])
    ensures AutoEntry("Proj").group.name == "Proj"
    ensures ValidNames([AutoEntry("Proj")], namePattern)
  {
    RemoveSpacesNone("Proj");
    var entry := AutoEntry("Proj");
    assert !AnyAttached(None, []);
    assert [] + [entry] == [entry];
  }

  /** Creating project "PRJ" named "Proj" with no group on an empty store
      succeeds and leaves exactly one grant on it: to a new group named
      "Proj", the only group of the store, at ReadWriteExecute, with the
      requester as that group's admin. */
  method CreateWithoutGroups(keyPattern: string -> bool, namePattern: string -> bool)
    returns (err: Option<Error>, g: Group, grants: map<(int, int), Level>, groups: seq<Group>, admins: set<int>)
    requires keyPattern("PRJ") && namePattern("Proj")
    ensures err.None?
    ensures g.name == "Proj" && forall h :: h in groups <==> h == g
    ensures grants == map[(1, g.id) := PermissionReadWriteExecute]
    ensures 7 in admins
  {
    var db := new Db(None, map[], {});
    ghost var t0 := db.State();
    var p := Project("PRJ", "Proj", [], []);
    var entry := AutoEntry("Proj");
    LoneProjectRequest(namePattern);
    var created;
    created, err := PostProjectHandler(db, p, 7, keyPattern, namePattern);
    SoleGroupResolved(WithProject(t0, "PRJ", "Proj"), db.State(), 1, 7, entry, created.projectGroups);
    g := created.projectGroups[0].group;
    grants, groups := db.grants, db.groups;
    admins := AdminsOf(db.links, g.id);
  }

  /** The store of the "My Proj" scenarios: one group "MyProj", whose only
      member is user 5, as its admin. */
  method MyProjStore() returns (db: Db, g: Group)
    ensures fresh(db) && db.Valid()
    ensures db.groups == [g] && g == Group(1, "MyProj")
    ensures db.links == map[(1, 5) := true] && db.grants == map[] && db.projects == map[]
    ensures db.defaultGroup == None && db.failing == {}
  {
    db := new Db(None, map[], {});
    var err;
    g, err := db.InsertGroup("MyProj");
    err := db.InsertLink(g.id, 5, true);
  }

  /** The request of the "My Proj" scenarios, as written: nothing is
      attached and no group is named "My Proj", so the automatic entry is
      appended, and it names the group "MyProj". */
  lemma MyProjRequest(namePattern: string -> bool)
    requires namePattern("MyProj")
    ensures RequestedGroups(None, [Group(1, "MyProj")], Project("MP", "My Proj", [], [])) == Ok([AutoEntry("My Proj")])
    ensures AutoEntry("My Proj").group.name == "MyProj"
    ensures ValidNames([AutoEntry("My Proj")], namePattern)
  {
    AutoGroupNamesAnExistingGroup();
    assert !AnyAttached(None, []);
    assert [] + [AutoEntry("My Proj")] == [AutoEntry("My Proj")];
  }

  lemma MyProjAdmins()
    ensures AdminsOf(map[(1, 5) := true], 1) == {5}
  {
    var links := map[(1, 5) := true];
    assert (1, 5) in links && links[(1, 5)];
  }

  /** As written, user 7 creating project "My Proj" without groups on that
      store succeeds: the automatic entry reuses the group "MyProj", which
      gets the grant, and its admins stay user 5 alone. */
  method MyProjReusesForeignGroup(keyPattern: string -> bool, namePattern: string -> bool)
    returns (err: Option<Error>, reused: Group, admins: set<int>)
    requires keyPattern("MP") && namePattern("MyProj")
    ensures err.None?
    ensures reused == Group(1, "MyProj")
    ensures admins == {5}
  {
    var db, g := MyProjStore();
    ghost var t0 := db.State();
    var p := Project("MP", "My Proj", [], []);
    MyProjRequest(namePattern);
    MyProjAdmins();
    var created;
    assert CreationError(p.key, p.name, db.projects, keyPattern).None?;
    ghost var entries := RequestedGroups(db.defaultGroup, db.groups, p).value;
    assert entries == [AutoEntry("My Proj")];
    created, err := PostProjectHandler(db, p, 7, keyPattern, namePattern);
    ExistingGroupIsReused(WithProject(t0, p.key, p.name), db.State(), db.defaultGroup, t0.nextProjectID, 7,
                          entries, created.projectGroups, 0, g);
    reused := created.projectGroups[0].group;
    admins := AdminsOf(db.links, 1);
  }

  /** With the corrected check the same request is refused with
      ErrGroupPresent and the store is left as it was. */
  method MyProjRefusedIntended(keyPattern: string -> bool, namePattern: string -> bool)
    returns (err: Option<Error>, untouched: bool)
    requires keyPattern("MP")
    ensures err == Some(ErrGroupPresent)
    ensures untouched
  {
    var db, g := MyProjStore();
    ghost var t0 := db.State();
    var p := Project("MP", "My Proj", [], []);
    MyProjWithoutSpaces();
    assert HasGroupName(db.groups, RemoveSpaces("My Proj")) by {
      assert db.groups[0].name == "MyProj";
    }
    assert !AnyAttached(None, []);
    var created;
    created, err := PostProjectHandlerIntended(db, p, 7, keyPattern, namePattern);
    untouched := db.groups == [g] && db.grants == map[] && db.projects == map[];
  }
}
