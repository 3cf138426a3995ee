/**
 * Where repositories live on disk and how the merge workspace names the refs
 * it fetches into. The path prefixes are configuration (`repoPrefix`,
 * `repoForMergingPrefix`, "repo/git/" and "repo/git-merging/" by default), so
 * they are parameters here.
 */
module RepoNames {
  import opened Common
  import opened Strings

  /** JGit's `Constants.R_HEADS` and `Constants.R_REMOTES`. */
  const RefsHeads := "refs/heads/"
  const RefsRemotes := "refs/remotes/"

  function RepoPath(prefix: string, owner: string, project: string): string {
    prefix + owner + "/" + project + ".git"
  }

  /** `getGitDirectory`: the bare repository of a project. */
  function GitDirectory(repoPrefix: string, owner: string, project: string): (r: string)
    ensures StartsWith(r, repoPrefix + owner + "/")
  {
    RepoPath(repoPrefix, owner, project)
  }

  /** `getDirectoryForMerging`: the working copy used to stage merges into a project. */
  function DirectoryForMerging(mergingPrefix: string, owner: string, project: string): (r: string)
    ensures StartsWith(r, mergingPrefix + owner + "/")
  {
    RepoPath(mergingPrefix, owner, project)
  }

  /** `getDirectoryForMergingObjects`: the object database inside that working copy. */
  function DirectoryForMergingObjects(mergingPrefix: string, owner: string, project: string): (r: string)
    ensures StartsWith(r, DirectoryForMerging(mergingPrefix, owner, project))
    ensures |r| >= 13 && r[|r| - 13..] == "/.git/objects"
  {
    DirectoryForMerging(mergingPrefix, owner, project) + "/.git/objects"
  }

  /**
   * A repository path is keyed by (owner, project): two projects get the
   * same directory only if they are the same project, as long as owner
   * logins contain no '/'.
   */
  lemma RepoPathInjective(prefix: string, o1: string, p1: string, o2: string, p2: string)
    requires '/' !in o1 && '/' !in o2
    requires RepoPath(prefix, o1, p1) == RepoPath(prefix, o2, p2)
    ensures o1 == o2 && p1 == p2
  {
    var s1, s2 := o1 + "/" + p1 + ".git", o2 + "/" + p2 + ".git";
    assert RepoPath(prefix, o1, p1) == prefix + s1;
    assert RepoPath(prefix, o2, p2) == prefix + s2;
    assert s1 == (prefix + s1)[|prefix|..];
    assert s2 == (prefix + s2)[|prefix|..];
    assert s1 == s2;
    assert s1 == o1 + "/" + (p1 + ".git");
    assert s2 == o2 + "/" + (p2 + ".git");
    SplitAtFirstSlash(o1, p1 + ".git", o2, p2 + ".git");
    assert p1 + ".git" == p2 + ".git";
    assert p1 == (p1 + ".git")[..|p1|];
    assert p2 == (p2 + ".git")[..|p2|];
  }

  lemma SplitAtFirstSlash(a: string, x: string, b: string, y: string)
    requires '/' !in a && '/' !in b
    requires a + "/" + x == b + "/" + y
    ensures a == b && x == y
  {
    var s := a + "/" + x;
    FirstIndexAfterPlain(a, '/', x);
    FirstIndexAfterPlain(b, '/', y);
    assert a == s[..|a|];
    assert b == s[..|b|];
    assert x == s[|a| + 1..];
    assert y == (b + "/" + y)[|b| + 1..];
  }

  /** The remote-tracking ref the merge workspace fetches a project's branch into. */
  function RemoteTrackingRef(project: Project, branch: string): string {
    RefsRemotes + project.owner + "/" + project.name + "/" + ReplaceFirst(branch, RefsHeads, "")
  }

  /** `makeDestToBranchName`: where the receiving branch is fetched to. */
  function DestToBranchName(pr: PullRequest): (r: string)
    ensures StartsWith(r, RefsRemotes + pr.toProject.owner + "/" + pr.toProject.name + "/")
  {
    RemoteTrackingRef(pr.toProject, pr.toBranch)
  }

  /** `makeDestFromBranchName`: where the sending branch is fetched to. */
  function DestFromBranchName(pr: PullRequest): (r: string)
    ensures StartsWith(r, RefsRemotes + pr.fromProject.owner + "/" + pr.fromProject.name + "/")
  {
    RemoteTrackingRef(pr.fromProject, pr.fromBranch)
  }

  /** A branch given as `refs/heads/<b>` is tracked as `refs/remotes/<owner>/<project>/<b>`. */
  lemma RemoteTrackingRefOfHead(project: Project, b: string)
    ensures RemoteTrackingRef(project, RefsHeads + b)
         == RefsRemotes + project.owner + "/" + project.name + "/" + b
  {
    StripHeadsPrefix(b);
  }

  /** A branch name that does not mention `refs/heads/` at all is used as it is. */
  lemma RemoteTrackingRefOfShortName(project: Project, b: string)
    requires !Contains(b, RefsHeads)
    ensures RemoteTrackingRef(project, b) == RefsRemotes + project.owner + "/" + project.name + "/" + b
  {
    ReplaceFirstWithoutMatch(b, RefsHeads, "");
  }

  lemma StripHeadsPrefix(b: string)
    ensures ReplaceFirst(RefsHeads + b, RefsHeads, "") == b
  {
    assert StartsWith(RefsHeads + b, RefsHeads);
    assert (RefsHeads + b)[|RefsHeads|..] == b;
  }

  /** The ephemeral branch a merge attempt works on (`CloneAndFetch`'s `mergingBranchName`). */
  function MergingBranchRef(name: string): (r: string)
    ensures StartsWith(r, RefsHeads)
  {
    RefsHeads + name
  }

  /** Stripping `refs/heads/` from the ephemeral branch gives back the name it was made from. */
  lemma MergingBranchRefRoundTrip(name: string)
    ensures ReplaceFirst(MergingBranchRef(name), RefsHeads, "") == name
  {
    StripHeadsPrefix(name);
  }
}
