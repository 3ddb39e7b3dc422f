/** Value types shared by the group and project packages: the rows of the
    three tables, the request bodies the handlers receive and the error
    values they return. */
module Sdk {

  datatype Option<T> = None | Some(value: T)

  datatype Result<T> = Ok(value: T) | Err(error: Error)

  /** The write statements the storage executor may reject (a connectivity or
      transaction failure, not a constraint violation). */
  datatype Stmt =
    | SqlDeleteLinksOfGroup
    | SqlDeleteGrantsOfGroup
    | SqlDeleteGroup
    | SqlInsertGroup
    | SqlInsertLink
    | SqlUpdateLink
    | SqlDeleteLink
    | SqlUpdateGroupName
    | SqlInsertGrant
    | SqlInsertProject
    | SqlUpdateProject
    | SqlDeleteProject

  /** Unique indexes of the schema; a violation is reported with the index name. */
  datatype Index = IdxGroupName | IdxGroupUser | IdxProjectGroup | IdxProjectKey

  datatype Error =
    | ErrNoRows                 // sql.ErrNoRows from a Scan on an empty result
    | ErrNotFound
    | ErrNotEnoughAdmin
    | ErrInvalidName
    | ErrGroupExists
    | ErrForbidden
    | ErrGroupPresent
    | ErrWrongRequest
    | ErrInvalidProjectKey
    | ErrInvalidProjectName
    | ErrConflict
    | ErrProjectHasPipeline
    | ErrProjectHasApplication
    | ErrUserNotFound
    | ErrNoProject
    | ErrUniqueViolation(index: Index)
    | ErrForeignKeyViolation
    | StorageFailure(stmt: Stmt)

  /** A permission level: a Go `int` that the core stores and copies as it
      comes, without checking it against the constants below. */
  type Level = int

  const PermissionRead: Level := 4
  const PermissionReadExecute: Level := 5
  const PermissionReadWriteExecute: Level := 7

  datatype Group = Group(id: int, name: string)

  /** A group attached to a project, with the level of the grant. */
  datatype GroupPermission = GroupPermission(group: Group, permission: Level)

  datatype Label = Label(id: int, name: string, color: string, projectID: int)

  datatype ProjectKey = ProjectKey(name: string, keyType: string, projectID: int)

  const KeyTypeSSH: string := "ssh"
  const KeyTypePGP: string := "pgp"

  /** The body of a project creation or update request. */
  datatype Project = Project(key: string, name: string, projectGroups: seq<GroupPermission>, keys: seq<ProjectKey>)

  /** A project as listed to a caller, with the caller's write permission on it. */
  datatype ListedProject = ListedProject(key: string, name: string, writable: bool)
}
