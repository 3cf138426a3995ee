/** Small value types shared by the repository-engine modules. */
module Common {

  /** A value that may be absent; `None` stands for Java's `null`. */
  datatype Option<+T> = None | Some(value: T)

  /** The change kinds JGit's diff scan reports for one path. */
  datatype ChangeType = Add | Modify | Delete | Rename | Copy

  /** Commit, tree and blob ids: opaque strings that are only ever compared. */
  type ObjectId = string

  /** A hosted project, identified by its owner's login and its name. */
  datatype Project = Project(owner: string, name: string)

  /**
   * The fields of a pull request the engine reads: the sending and the
   * receiving project and branch (full ref names such as `refs/heads/main`),
   * and the head id recorded when the sending branch was deleted.
   */
  datatype PullRequest = PullRequest(
    fromProject: Project, fromBranch: string,
    toProject: Project, toBranch: string,
    lastCommitId: Option<ObjectId>)
}
