# CDS groups and project permissions, modelled in Dafny

This project models the group and permission bookkeeping of the CDS API server
(package `engine/api/group` and the group and project handlers of
`engine/api`). Everything runs over an abstract in-memory store with three
tables:

- groups: id and name, both unique, ids from a serial counter;
- `group_user` links: keyed by (group id, user id), carrying the admin flag;
- `project_group` grants: keyed by (project id, group id), carrying the level, an unchecked integer.

The store also holds the project rows and an optional default group.

The store is the class `Store.Db`. Each SQL statement of the source becomes a
method of `Db` that changes exactly the rows the statement touches. The set
`failing` names the write statements the storage executor rejects, so every
storage fault is an explicit error path. A transaction is a snapshot. The
handler takes one before the first write and restores it when a later step
fails (`Db.Restore`). Statements that the source runs on the plain connection
(`api.mustDB()`) instead of the transaction are not undone.

Modules follow the source files:

- `Sdk`: rows, requests, level and error values.
- `Seqs`: an order-preserving `Filter` and its lemmas.
- `Text`: Go's `unicode.IsSpace`, `strings.Replace(s, " ", "", -1)`, ASCII
  `ToLower`/`ToUpper`, and code-point order on names (`ORDER BY name` under
  the C collation).
- `Store`: the tables and the storage statements.
- `LinkUser`: `engine/api/group/link_user.go`.
- `Groups`: `engine/api/group/group.go`.
- `GroupCrud`: `engine/api/group/crud.go`.
- `GroupApi`: `engine/api/group.go`.
- `ProjectApi`: `engine/api/project.go`.

Most state-changing methods state their whole new state as a function of the
old one (`Promoted`, `Demoted`, `Cascaded`, `Renamed`, ...). The group loops
are stated by relations instead. `Resolution` relates the tables before and
after postProjectHandler's group loop. GroupApi.AddMembers and
GroupApi.AddUserInGroupHandlerIntended bound their new links: each is a
non-admin link of the group to a user the request lists. Lemmas then prove
what the source promises about these functions and relations:

- a removal never takes a group's last admin;
- a demotion can;
- promotion is idempotent;
- after a cascade nothing references the group;
- a rename touches one row.

## Model

| member | source | states |
|---|---|---|
| Text.IsSpace | engine/api/project.go:423 | Go's `unicode.IsSpace`: the ASCII white space characters (tab to carriage return, space) and the Unicode ones (U+0085, U+00A0, U+1680, U+2000-U+200A, U+2028, U+2029, U+202F, U+205F, U+3000). |
| Text.IsBlank | engine/api/project.go:423 | `strings.TrimSpace(s) == ""`: every character is white space. |
| Text.ToLower | engine/api/project.go:514 | Same length; each ASCII capital is mapped to its small letter, and every other character is kept. |
| Text.ToUpper | engine/api/project.go:94 | Same length; each ASCII small letter is mapped to its capital, and every other character is kept. |
| Text.RemoveSpaces | engine/api/project.go:442 | The result holds no space and exactly the other characters of the input. |
| Text.UpperIsW | engine/api/project.go:94 | `strings.ToUpper(s) == "W"` holds exactly for "W" and "w". |
| Text.NameLess | engine/api/group/group.go:110 | `ORDER BY "group".name ASC` under the C collation: strict lexicographic order on code points. |
| Text.NameLessIrreflexive | engine/api/group/group.go:110 | No name sorts before itself. |
| Text.NameLessTransitive | engine/api/group/group.go:110 | The order is transitive. |
| Text.NameLessTotal | engine/api/group/group.go:110 | Of two different names, one sorts before the other. |
| Store.IsDefaultGroupID | engine/api/project.go:427 | `group.IsDefaultGroupID`: a default group is set and has this id. |
| Store.IsDefaultGroupName | engine/api/project.go:431 | `group.IsDefaultGroupName`: a default group is set and has this name. |
| Store.AdminsOf | engine/api/group/group.go:36-43 | The users whose link to the group carries the admin flag. |
| Store.MembersOf | engine/api/group/link_user.go:30-36 | The users linked to the group. |
| Store.FindGroupByName | engine/api/group.go:77-83 | The `LoadByName` lookup finds a row with that name exactly when one exists. |
| Store.FindLink | engine/api/group/link_user.go:13-19 | The link of a (group, user) pair is found exactly when the pair is linked, with its admin flag. |
| Store.MembersOfIff | engine/api/group/link_user.go:30-36 | A user is a member of a group exactly when the pair's link exists. |
| Store.AdminCount | engine/api/group/group.go:43 | The `SELECT COUNT(id) ... group_admin = true` of a group: the number of its admin users. |
| Store.GroupIdsDiffer | engine/api/group/crud.go:11 | Two different rows of the store never share an id. |
| Store.GroupNamesDiffer | engine/api/group/group.go:96 | Two different rows of the store never share a name (the `idx_group_name` index). |
| Store.AdminsOfInsert | engine/api/group/crud.go:15-19 | A new link adds its user to the admins of its group exactly when it is an admin link; no other group's admins change. |
| Store.AdminsOfFresh | engine/api/group/crud.go:15-19 | An admin link to a freshly inserted group makes its user the group's only admin. |
| Store.Db.constructor | engine/api/user_groups_test.go:19 | Scenario setup, like the fresh test database: an empty store with both counters at 1 and the given default group, users and faults. |
| Store.Db.Restore | engine/api/project.go:455-456 | The rollback puts every table back to the snapshot. |
| Store.Db.LoadUserID | engine/api/group.go:231-234 | `user.LoadByUsername` gives the user's id exactly when the username is registered. |
| Store.Db.InsertGroup | engine/api/group/crud.go:11-13 | `group.Insert`: a fault or a taken name is an error that changes nothing, the id counter included; otherwise the row is appended with the next serial id. |
| Store.Db.InsertLink | engine/api/group.go:286 | `InsertUserInGroup`: succeeds exactly when there is no fault, the group exists and the pair is unlinked; it then adds exactly that link; a duplicate is a unique violation. |
| Store.Db.UpdateLink | engine/api/group/link_user.go:24-26 | `UpdateLinkGroupUser` rewrites the flag of an existing link and nothing else; a fault changes nothing. |
| Store.Db.InsertGrant | engine/api/project.go:483-485 | `InsertGroupInProject` succeeds exactly when the group and project exist and the pair has no grant; it then adds exactly that grant. |
| Store.Db.InsertProject | engine/api/project.go:461-463 | `project.Insert` succeeds exactly when the key is free and there is no fault; the row gets the next project id. |
| Store.Db.UpdateProjectName | engine/api/project.go:197-199 | `project.Update` changes only the project's name. |
| Store.Db.DeleteProject | engine/api/project.go:610-612 | `project.Delete` removes the row and the grants on it, nothing else. |
| Store.Db.LoadPermissions | engine/api/group.go:118-121 | `project.LoadPermissions` returns exactly the projects the group has a grant on, each once, by ascending id. |
| Store.Db.AddGroup | engine/api/project.go:472-476 | `group.AddGroup`. A name failing the pattern gives id 0 and an error. An existing name gives its row's id, with nothing changed. A new name gets a new row (`isNew`) unless the insert faults. A nonzero id names a group of the store. |
| LinkUser.SetUserGroupAdmin | engine/api/group/link_user.go:12-27 | No link gives ErrForbidden, with nothing changed. An admin link succeeds with nothing changed. A non-admin link gets its flag set (`Promoted`); only a fault fails it. |
| LinkUser.Promoted | engine/api/group/link_user.go:24-26 | The tables after the update: a link of the pair, if there is one, has its admin flag set. Nothing else changes. |
| LinkUser.PromotedFrame | engine/api/group/link_user.go:24-26 | Promotion sets the pair's flag and leaves every other link and table unchanged. |
| LinkUser.PromotedIdempotent | engine/api/group/link_user.go:21-26 | Promoting twice gives the same tables as promoting once. |
| LinkUser.CheckUserInGroup | engine/api/group/link_user.go:30-36 | As written: true exactly when the user is NOT a member; reads only. |
| LinkUser.IsMember | engine/api/group/link_user.go:29 | The check the comment describes: true exactly when the user is a member. |
| LinkUser.CheckUserInGroupIsInverted | engine/api/group/link_user.go:35 | The written check is always the negation of membership. |
| LinkUser.PromoteInOneOfTwoGroups | engine/api/user_groups_test.go:23-44 | A non-admin member of g1 and g2 promoted in g2 is admin in g2 and not in g1. |
| Groups.LinksWithoutGroup | engine/api/group/group.go:80-84 | `DELETE FROM group_user WHERE group_id`: exactly the links of other groups, with their flags. |
| Groups.GrantsWithoutGroup | engine/api/group/group.go:19-21 | The grant delete: exactly the grants of other groups, with their levels. |
| Groups.GroupsWithout | engine/api/group/group.go:132-136 | `DELETE FROM "group" WHERE id`: the other rows, in order. |
| Groups.Cascaded | engine/api/group/group.go:14-30 | The tables after the cascade: all three deletes applied; projects and counters unchanged. |
| Groups.Demoted | engine/api/group/group.go:140 | The tables after the update: a link of the pair, if there is one, has its admin flag cleared. Nothing else changes. |
| Groups.Renamed | engine/api/group/group.go:93 | `UPDATE "group" SET name WHERE name = oldName`: every row named `oldName` takes the new name, in place. |
| Groups.NameClash | engine/api/group/group.go:96 | The update would violate the unique name index: the old name exists, the new one differs from it and is already taken. |
| Groups.GroupsWithoutValid | engine/api/group/group.go:132-136 | Deleting the group row keeps ids and names unique. |
| Groups.DeleteGroupUserByGroup | engine/api/group/group.go:80-84 | Every link of the group goes, admins included; a fault changes nothing. |
| Groups.DeleteGroupProjectByGroup | engine/api/group/group.go:19-21 | Every grant of the group goes; a fault changes nothing. |
| Groups.DeleteGroup | engine/api/group/group.go:132-136 | The group's row goes; a fault changes nothing. |
| Groups.DeleteGroupAndDependencies | engine/api/group/group.go:14-30 | Links, then grants, then the row. The first failing step returns its error with exactly the earlier steps applied. Success is exactly when no step faults, and leaves `Cascaded`. |
| Groups.CascadeLeavesNoReference | engine/api/group/group.go:14-30 | After the cascade no link, grant or row mentions the group. Other groups' links, grants and rows, and the projects, are unchanged, in the same order. |
| Groups.DeleteUserFromGroup | engine/api/group/group.go:33-56 | No link gives ErrNoRows. An admin with at most one admin in the group gives ErrNotEnoughAdmin. Otherwise exactly that link is deleted, unless the delete faults. Errors change nothing. |
| Groups.RemovalKeepsAnAdmin | engine/api/group/group.go:41-51 | A removal the guard lets through never leaves a group that had an admin without one. |
| Groups.RemovalAdminCount | engine/api/group/group.go:41-55 | A removal lowers the admin count by one for an admin and by zero otherwise. |
| Groups.RemoveUserGroupAdmin | engine/api/group/group.go:139-143 | The flag is cleared with no admin count check; an absent link is not an error; only a fault fails. |
| Groups.DemotedAdmins | engine/api/group/group.go:139-143 | Demotion removes exactly the demoted user from the admins. |
| Groups.DemotionCanLeaveNoAdmin | engine/api/group/group.go:139-143 | Demoting the only admin leaves a group with that member and no admin. |
| Groups.UpdateGroup | engine/api/group/group.go:87-101 | A name failing the pattern gives ErrInvalidName. A clash on the unique name index gives ErrGroupExists. Otherwise the row named `oldName` is renamed. Errors change nothing. |
| Groups.RenamedValid | engine/api/group/group.go:93-100 | A rename without a clash keeps ids and names unique. |
| Groups.RenamedFrame | engine/api/group/group.go:93 | Only the row named `oldName` changes, and only its name; ids and order stay. |
| Groups.SortedByName | engine/api/group/group.go:110 | Strictly ascending by group name. |
| Groups.JoinRows | engine/api/group/group.go:104-110 | The rows of the join of "group" and "project_group" for the project: each granted group with its level. |
| Groups.InsertByName | engine/api/group/group.go:110 | Insertion into a name-ordered list keeps it strictly ordered and adds exactly the one entry. |
| Groups.LoadGroupByProject | engine/api/group/group.go:104-130 | The given entries are kept as a prefix, in order. After them comes exactly one entry per grant of the project, carrying the grant's level, in ascending name order. |
| Groups.CheckUserInDefaultGroup | engine/api/group/group.go:59-77 | As written, it never changes the store. With the default group unset or id 0 it succeeds. Otherwise it fails exactly when the user is already a member, because the insert is a duplicate. |
| Groups.CheckUserInDefaultGroupIntended | engine/api/group/group.go:58-77 | A user not in the set, nonzero default group joins it as a non-admin member. A member is left alone. Without a default group it does nothing. |
| GroupCrud.Create | engine/api/group/crud.go:10-24 | A fault or a taken name gives an error with nothing changed. A failed link insert returns an error and leaves the group row for the enclosing rollback. On success there is one new row with the serial id and one admin link under that id, and the creator is the only admin. |
| GroupApi.FilterGroups | engine/api/group.go:33-43 | With `withoutDefault`, the groups minus the default group, in order; otherwise all of them. |
| GroupApi.AddCallerAsAdmin | engine/api/group.go:90-97 | A non-admin link, then promotion. Success is exactly when neither statement faults, and leaves the caller the fresh group's only admin. |
| GroupApi.PostGroupHandler | engine/api/group.go:61-105 | A taken name gives ErrGroupPresent. Success is exactly when the name is free and no statement faults. It adds one row and the caller's admin link, and the caller is the only admin. An error rolls everything back. |
| GroupApi.DeleteGroupHandler | engine/api/group.go:107-144 | An unknown name gives ErrNotFound. Success is exactly when no cascade step faults, and leaves `Cascaded`. Then exactly one event is emitted per project that had a grant before the cascade. An error restores the tables and emits nothing. |
| GroupApi.UpdateGroupHandler | engine/api/group.go:146-216 | ErrNotFound, ErrInvalidName and ErrGroupExists as in UpdateGroup, with nothing changed. A fault of the rename or of the link delete gives its storage error. For an existing group and a valid name without a clash, it succeeds exactly when neither statement faults. On success the group keeps its id, takes the new name and has no member at all. |
| GroupApi.RemoveUserFromGroupHandler | engine/api/group.go:218-250 | As written, it always fails and changes nothing. A member gets ErrWrongRequest from the inverted check. A non-member gets ErrNoRows from DeleteUserFromGroup. |
| GroupApi.RemoveUserFromGroupHandlerIntended | engine/api/group.go:218-250 | ErrNotFound and ErrUserNotFound as in the source. A non-member gets ErrWrongRequest. A member gets exactly the outcome of DeleteUserFromGroup. |
| GroupApi.AddUserInGroupHandler | engine/api/group.go:252-294 | As written, it never changes the store. It succeeds exactly when every username resolves to a non-member. |
| GroupApi.EnsureMember | engine/api/group.go:285-289 | A non-member gets a non-admin link unless the insert faults; a member is left alone. |
| GroupApi.AddMembers | engine/api/group.go:276-290 | Earlier links are unchanged. Each new link is a non-admin link of the group to the id of a listed, registered username. Success is exactly when every username resolves and no needed insert faults, and then every user is a member. |
| GroupApi.AddUserInGroupHandlerIntended | engine/api/group.go:252-294 | An unknown group gives ErrNotFound. Otherwise it behaves as AddMembers on the group: earlier links stay, each new link is a non-admin link to a listed user, and success is exactly when every username resolves and no needed insert faults. |
| GroupApi.SetUserGroupAdminHandler | engine/api/group.go:296-321 | The user is loaded first (ErrUserNotFound), then the group (ErrNotFound). An unlinked user gets ErrForbidden. A linked user succeeds unless the flag has to be written and the update faults. On success the user is an admin, per `Promoted`. |
| GroupApi.RemoveUserGroupAdminHandler | engine/api/group.go:323-348 | The user, then the group. The demotion has no admin-count guard and fails only on a fault; the user is then not an admin. |
| GroupApi.ScenarioAdmins | engine/api/group/group.go:41-55 | Scenario helper for LastAdminScenario: the admin sets of its link tables, one table at a time. |
| GroupApi.LastAdminScenario | engine/api/group/group.go:41-55 | With a sole admin u1, removing u1 gives ErrNotEnoughAdmin. Once u2 is also an admin, removing u1 succeeds and u2 is the only admin. |
| ProjectApi.CreationError | engine/api/project.go:401-418 | The key pattern is checked first (ErrInvalidProjectKey), then a non-empty name (ErrInvalidProjectName), then a free key (ErrConflict). No error exactly when all three hold. |
| ProjectApi.GroupAttached | engine/api/project.go:420-434 | True exactly when some entry has a non-blank name and either a nonzero non-default id or a non-empty non-default name. |
| ProjectApi.Attaches | engine/api/project.go:423-433 | One entry counts as attached: a non-blank name, and either a nonzero id that is not the default group's or a non-empty name that is not the default group's. |
| ProjectApi.DefaultOrBlankNeverAttaches | engine/api/project.go:423-433 | A blank entry, or one naming only the default group, never counts as attached. |
| ProjectApi.AutoEntry | engine/api/project.go:441-444 | The automatic entry has no id, ReadWriteExecute, and a name without spaces. |
| ProjectApi.AutoGroup | engine/api/project.go:436-452 | As written: with a group attached the list is unchanged. Otherwise ErrGroupPresent exactly when a group is named like the project. Otherwise the automatic entry is appended. |
| ProjectApi.AutoGroupNamesAnExistingGroup | engine/api/project.go:438-445 | With a group "MyProj", project "My Proj" passes the check and its automatic entry names that existing group. |
| ProjectApi.MyProjWithoutSpaces | engine/api/project.go:442 | Scenario helper for the "My Proj" members: removing spaces from "My Proj" gives "MyProj". |
| ProjectApi.AutoGroupIntended | engine/api/project.go:436-452 | As AutoGroup, but ErrGroupPresent exactly when a group carries the entry's own name, the project name without spaces. |
| ProjectApi.AutoGroupIntendedIsFresh | engine/api/project.go:436-452 | When the corrected step appends an entry, exactly one is appended, at ReadWriteExecute, with a name no group has. |
| ProjectApi.AddProjectGroup | engine/api/project.go:468-493 | A name failing the pattern gives ErrInvalidName. On success the group is resolved: an existing one by name, or a new one with the requester as admin. The default group is forced to Read. Exactly one grant is added at the entry's level. It succeeds when the name is valid, the project exists, no group of that name is granted on it yet, and the grant insert does not fault (nor, for a new group, the group and link inserts). |
| ProjectApi.Extends | engine/api/project.go:467-493 | The frame of the group loop: groups only appended with ids from the counter, grants only added on the project, links only added as requester-admin links to new groups, projects unchanged. |
| ProjectApi.ResolvedEntry | engine/api/project.go:472-485 | An entry resolved to a group of the store with its name, granted on the project at the entry's level, or Read for the default group. |
| ProjectApi.Resolution | engine/api/project.go:467-493 | The outcome of the group loop: within the frame, every entry resolved, no two on one group, old ids on old groups, every new group with the requester as admin, and every new grant on a resolved group. |
| ProjectApi.Step | engine/api/project.go:468-493 | One iteration: one new grant on the entry's group, which is an existing group, or a new one with the next id and the requester's admin link. |
| ProjectApi.StepExtends | engine/api/project.go:468-493 | One iteration keeps the loop within its frame. Groups are only appended, grants only added on the project, and links only added as requester-admin links to new groups. |
| ProjectApi.StepAllResolved | engine/api/project.go:476-485 | One iteration resolves its entry. The entries resolved earlier stay resolved and granted. |
| ProjectApi.StepCreatedWithAdmin | engine/api/project.go:488-492 | Every group the loop created has the requester as admin and is one of the resolved entries. |
| ProjectApi.StepNewGrantsResolved | engine/api/project.go:483 | Every grant the loop added is on a resolved group. |
| ProjectApi.StepDistinct | engine/api/project.go:483 | Resolved entries never share a group: a second grant on the same pair would be refused. |
| ProjectApi.StepOldIds | engine/api/project.go:472 | An entry resolved to an id from before the loop names a group that existed before it. |
| ProjectApi.ResolutionStep | engine/api/project.go:468-493 | One iteration extends the loop's `Resolution` by its entry. |
| ProjectApi.NotGranted | engine/api/project.go:483 | No group of the name has a grant on the project yet. |
| ProjectApi.ValidNames | engine/api/project.go:472 | Every entry's name passes the pattern, and no two entries share a name. |
| ProjectApi.UngrantedFrom | engine/api/project.go:467-483 | The entries from position i on name no group granted on the project. |
| ProjectApi.UngrantedAfterStep | engine/api/project.go:472-485 | One iteration grants only its own entry's group. So the later, differently named entries stay ungranted. |
| ProjectApi.ResolveNext | engine/api/project.go:469-492 | The loop body as a step of `Resolution`. With valid distinct names, none granted from entry i on, on an existing project, it succeeds unless an insert faults, and the entries after i stay ungranted. |
| ProjectApi.AddProjectGroups | engine/api/project.go:467-493 | On success every entry is resolved to a distinct group granted on the project at its level (Read for the default group). Every new group has the requester as admin, and nothing else changed. On an existing project, with valid distinct names none of which is granted on it yet, only a fault fails it. |
| ProjectApi.DefaultKeyName | engine/api/project.go:514-519 | The name of a defaulted key: "proj-", the key type, "-", and the lower-cased project key. |
| ProjectApi.DefaultKeys | engine/api/project.go:501-522 | The result holds an SSH and a PGP key. The original keys come first, unchanged. Exactly the missing types are appended, SSH before PGP, named "proj-<type>-<lower-case key>". |
| ProjectApi.RequestedGroups | engine/api/project.go:420-452 | The entries with the as-written automatic group step. The requested entries are a prefix of the loop's entries, and there is at least one entry. |
| ProjectApi.RequestedGroupsIntended | engine/api/project.go:420-452 | The same with the corrected automatic group step. |
| ProjectApi.WithProject | engine/api/project.go:461-463 | The project row goes under its key with the next id, the counter advances, and nothing else changes. |
| ProjectApi.InsertProjectWithGroups | engine/api/project.go:454-493 | The project insert, then the group loop. Any error restores the tables. On success the tables are the loop's `Resolution` from the inserted project. A free key with valid distinct names fails only on a fault; the new project has no grant yet, so none of the names is granted on it. |
| ProjectApi.CreateProject | engine/api/project.go:454-522 | The transaction, then the defaulted keys. Errors change nothing. A free key with valid distinct names fails only on a fault. On success the returned project carries the resolved groups of `Resolution` and an SSH and a PGP key. |
| ProjectApi.PostProjectHandler | engine/api/project.go:393-580 | As written. Validation errors come first, in their order, then ErrGroupPresent when a group carries the project name itself. Errors change nothing. With valid distinct entry names it fails only on a fault. On success the project is created with its groups resolved as `Resolution` states, and the keys include SSH and PGP. |
| ProjectApi.PostProjectHandlerIntended | engine/api/project.go:393-580 | As PostProjectHandler, with ErrGroupPresent when a group carries the automatic entry's own name. |
| ProjectApi.ExistingGroupIsReused | engine/api/project.go:472-492 | An entry named like a group that was already in the store resolves to that group. The requester's link to it and its admin set are as they were. |
| ProjectApi.OldGroupAdmins | engine/api/project.go:488-492 | The loop adds admin links to new groups only, so every older group keeps its admins. |
| ProjectApi.CreatedProjectIsGranted | engine/api/project.go:436-493 | A created project always has at least one grant. |
| ProjectApi.ResolutionGrants | engine/api/project.go:483 | On a new project the grants are exactly one per resolved entry, at its level. |
| ProjectApi.SoleGroupResolved | engine/api/project.go:467-493 | From an empty store, one entry resolves to the only group, which has the only grant and the requester as admin. |
| ProjectApi.LoneProjectRequest | engine/api/project.go:436-446 | A request for "Proj" without groups asks for the one automatic group "Proj", whose name is valid. |
| ProjectApi.CreateWithoutGroups | engine/api/project.go:393-493 | Creating "Proj" on an empty store gives a single group "Proj". Its only grant is ReadWriteExecute on the project, and the requester is its admin. |
| ProjectApi.MyProjStore | engine/api/group/crud.go:10-24 | Scenario setup: one group "MyProj" (id 1) whose only member is user 5, as its admin. |
| ProjectApi.MyProjRequest | engine/api/project.go:436-446 | As written, the request for "My Proj" without groups on that store gets one automatic entry, and it names "MyProj". |
| ProjectApi.MyProjAdmins | engine/api/group/crud.go:15-19 | Scenario helper for MyProjReusesForeignGroup: the admins of group 1 with the one admin link of user 5 are {5}. |
| ProjectApi.MyProjReusesForeignGroup | engine/api/project.go:436-492 | As written, user 7 creating "My Proj" on that store succeeds. The project is granted to the existing group "MyProj", whose admins stay {5}. |
| ProjectApi.MyProjRefusedIntended | engine/api/project.go:436-452 | With the corrected check, the same request gets ErrGroupPresent and the store is as it was. |
| ProjectApi.Stamped | engine/api/project.go:328 | Each label, in order, with the project id set. |
| ProjectApi.StampedSnoc | engine/api/project.go:328-333 | Stamping commutes with appending one label. |
| ProjectApi.StampedFilterStep | engine/api/project.go:321-347 | One more label considered by a partition loop is stamped and appended exactly when it qualifies. |
| ProjectApi.ContainsLabelID | engine/api/project.go:322-327 | The inner loop finds a label with the id exactly when one exists. |
| ProjectApi.SplitSubmitted | engine/api/project.go:320-334 | Submitted labels with a known id go to update and the others to add. Both keep their order and are stamped. |
| ProjectApi.LabelsToDelete | engine/api/project.go:336-348 | Existing labels whose id was not submitted go to delete, in order, stamped. |
| ProjectApi.PartitionLabels | engine/api/project.go:320-348 | The three lists are the stamped order-preserving selections above. |
| ProjectApi.LabelUpdateAddCount | engine/api/project.go:320-334 | Update and add together hold every submitted label once. |
| ProjectApi.StampedSelection | engine/api/project.go:320-348 | A label is in a selection exactly when its id qualifies, and carries the project id. |
| ProjectApi.LabelPartitionIsExact | engine/api/project.go:320-348 | Every submitted label lands in update when its id exists and in add otherwise. An existing label is deleted exactly when its id was not submitted. Every label carries the project id. |
| ProjectApi.FilterWritable | engine/api/project.go:93-102 | With "W" or "w", exactly the writable projects, in order; otherwise all of them. |
| ProjectApi.UpdateProjectHandler | engine/api/project.go:166-207 | An empty name gives ErrInvalidProjectName. A body/URL key mismatch then gives ErrWrongRequest. An unknown key then gives ErrNoProject. Otherwise only the name changes, and the id is kept. |
| ProjectApi.DeleteProjectHandler | engine/api/project.go:582-623 | An unknown key gives ErrNoProject. Pipelines give ErrProjectHasPipeline, then applications give ErrProjectHasApplication. Otherwise the project and its grants go and groups and links stay. Errors change nothing. |

## Left out

- HTTP plumbing (mux variables, body unmarshalling, JSON writing, status codes) is transport glue. Handlers take their inputs as parameters and return an error value.
- SQL text, gorp executors and transaction begin/commit are modelled as table operations and snapshots. A commit never fails, and reads (`LoadByName`, `Exist`, `Load`, the link lookups) never fault; only the write statements in `failing` can.
- Events are fire-and-forget foreign calls. Only deleteGroupHandler's notification list is modelled, as a returned list of `Event`s. Events of updateProjectHandler, postProjectHandler, deleteProjectHandler and the label handler are not modelled.
- getGroupHandler (engine/api/group.go:47-59), getGroupsHandler's loading (engine/api/group.go:17-31) and getProjectHandler are loaders with no decision logic. Only the `withoutDefault` filter is modelled.
- getProjectsHandler: the repository filter (engine/api/project.go:107-137), the loaders, user loading and `permission.LoadProjectMaxLevelPermission` (engine/api/project.go:85) are not shown, so left out. The writable flag of each project is an input of FilterWritable.
- putProjectLabelsHandler: only the partition is modelled. The label deletes, updates and inserts in the transaction (engine/api/project.go:350-374) and the reload after them are left out, because the label table is not one of the modelled tables.
- postProjectHandler: variables (engine/api/project.go:495-499), key material generation and `project.InsertKey` (engine/api/project.go:523-542) and integration propagation (engine/api/project.go:544-554) are foreign calls. The model stops at the defaulted key list.
- Store.Db.UpdateProjectName: project.Update is reduced to the name; icon and VCS-server handling (engine/api/project.go:192-196) is not modelled.
- Store.Db.DeleteProject: project.Delete is not part of this model. It is taken to remove the project row and the grants on it.
- Store.Db.AddGroup, Store.Db.InsertGroup, Store.Db.InsertLink, Store.Db.InsertGrant, Store.Db.InsertProject, Store.Db.LoadPermissions: their Go bodies are not part of this model. Each does what its SQL and the schema's unique and foreign keys evidently do.
- Groups.DeleteGroupProjectByGroup: deleteGroupProjectByGroup is called at engine/api/group/group.go:19 but not defined in the file. It is taken to delete the group's grants.
- `sdk.NamePatternRegex` and `sdk.ProjectKeyPattern` are not shown. They are parameters `string -> bool`.
- Text.ToLower and Text.ToUpper map ASCII letters only, not the full Unicode case mapping of Go's `strings` package.
- The source does not compile as it stands, and the model takes the evident meaning. `var groupIDs bool` is declared but `groupAttached` is used (engine/api/project.go:420-433). `CheckUserInGroup` and `SetUserGroupAdmin` are called without their `ctx` argument (engine/api/group.go:236, 281, 315).
- ProjectApi.PostProjectHandler models the as-written automatic-group check (ProjectApi.AutoGroup). ProjectApi.PostProjectHandlerIntended uses the corrected one (ProjectApi.AutoGroupIntended; see Findings).
- Groups.LoadGroupByProject, Groups.InsertByName and Text.NameLess assume the C collation: `ORDER BY name` as code-point order. Under another database collation the listing order differs.
- `failing` is a set of statement kinds, fixed for the whole call. So one statement kind cannot succeed in one iteration and fault in a later one of the same call.
- Behaviour of the code that one might expect otherwise:
  - Demotion is not guarded by the last-admin rule.
  - Create leaves the group row when the link insert fails; the enclosing transaction undoes it.
  - The project key checks run before the transaction, and the key pattern and name checks come before the existence check.
  - A second grant for the same (project, group) pair is a unique violation, not an overwrite.
- Listing order of memberships (by name, admins first) is a display convention and is not modelled.
- engine/api/user.go and engine/api/bookmark.go are not part of this model.
- Store.Db.Restore: the rollback also resets `nextGroupID` and `nextProjectID`. Real ids come from Postgres serial sequences, and a rollback does not return the values `nextval` handed out. So after a failed transaction the real store may skip ids that the model hands out again. Only the id values differ; which rows exist and how they relate are the same.
- Store.Db.InsertGroup: an insert refused by the unique name index leaves `nextGroupID` as it was. In Postgres the serial default has already used a value, so the next real id may be one higher than the model's.
- Levels are `int`s taken from the request unchecked and stored as they come (engine/api/project.go:483); the listing scans them back as a plain `int` (engine/api/group/group.go:119-126). Only the default group's level is overwritten, with Read (engine/api/project.go:478-480). The sdk constants are not part of this model. PermissionRead, PermissionReadExecute and PermissionReadWriteExecute take the values 4, 5 and 7 of the CDS sdk.
- Concurrency and isolation between requests are not modelled. Each handler runs alone on the store.

## Findings

| source | as written | input that shows it | evidently intended | confidence | as-written member | corrected member |
|---|---|---|---|---|---|---|
| engine/api/group/link_user.go:35 | `return l == nil`: true when the user has no link | a user linked to the group: the check returns false | true exactly when the link exists, as the function's comment says | not executed | LinkUser.CheckUserInGroupIsInverted | LinkUser.IsMember |
| engine/api/group/group.go:64-73 | the link is inserted when the inverted check says "not in group", that is when the link already exists | a user who is not in the default group is never added; a member gets a duplicate-key error | add a user who is not yet a member | not executed | Groups.CheckUserInDefaultGroup | Groups.CheckUserInDefaultGroupIntended |
| engine/api/group.go:236-244 | a member is refused with ErrWrongRequest, and a non-member reaches DeleteUserFromGroup, which fails | any remove request: it always fails | refuse non-members and remove members under the last-admin rule | not executed | GroupApi.RemoveUserFromGroupHandler | GroupApi.RemoveUserFromGroupHandlerIntended |
| engine/api/group.go:281-289 | the insert runs for users already in the group and fails; others are skipped | usernames of non-members: the request succeeds and adds nobody | add every listed user who is not yet a member | not executed | GroupApi.AddUserInGroupHandler | GroupApi.AddUserInGroupHandlerIntended |
| engine/api/project.go:438-445 | the existence check uses `p.Name`, while the appended group is named `p.Name` without spaces | a group "MyProj" exists and project "My Proj" is created: the check passes and AddGroup reuses "MyProj" | check the name the appended group carries | not executed | ProjectApi.MyProjReusesForeignGroup | ProjectApi.AutoGroupIntendedIsFresh |
