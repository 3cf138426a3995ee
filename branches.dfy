/**
 * The life cycle of a pull request's source branch once the request is
 * closed: `canDeleteFromBranch`, `deleteFromBranch`, `canRestoreBranch` and
 * `restoreBranch`. The source repository is its branch map (full ref names
 * such as `refs/heads/feature` to head commit ids), its current branch and
 * the commit ids it stores; the target repository enters only through the
 * commit ids it stores.
 */
module BranchLifecycle {
  import opened Common
  import opened Strings
  import opened RepoNames

  /**
   * `repo.resolve(name)` for a branch name: the name itself is a listed ref,
   * or it is a short name under `refs/heads/`.
   */
  predicate ResolvesIn(branches: map<string, ObjectId>, name: string) {
    name in branches || RefsHeads + name in branches
  }

  /** The short name `restoreBranch` hands to `branchCreate`: every `refs/heads/` removed. */
  function RestoredName(fromBranch: string): string {
    ReplaceAll(fromBranch, RefsHeads, "")
  }

  /** A full branch ref `refs/heads/x`, with `x` free of `refs/heads/`, restores under its own short name. */
  lemma RestoredNameOfHead(x: string)
    requires !Contains(x, RefsHeads)
    ensures RestoredName(RefsHeads + x) == x
  {
    var s := RefsHeads + x;
    assert StartsWith(s, RefsHeads);
    assert s[|RefsHeads|..] == x;
    ReplaceAllWithoutMatch(x, RefsHeads, "");
  }

  /**
   * Deleting a source branch `refs/heads/x` and restoring it from the id the
   * deletion returned gives the branch map back: after the deletion the name
   * no longer resolves, so the restore guard holds, and the restore recreates
   * the same ref at the same commit under a non-empty name, so `branchCreate`
   * has no reason to refuse it.
   */
  lemma RestoreUndoesDelete(branches: map<string, ObjectId>, x: string)
    requires RefsHeads + x in branches && x != "" && !Contains(x, RefsHeads)
    requires RefsHeads + RefsHeads + x !in branches
    ensures var deleted := branches - {RefsHeads + x};
      && !ResolvesIn(deleted, RefsHeads + x)
      && RestoredName(RefsHeads + x) != ""
      && RefsHeads + RestoredName(RefsHeads + x) !in deleted
      && deleted[RefsHeads + RestoredName(RefsHeads + x) := branches[RefsHeads + x]] == branches
  {
    assert RefsHeads + (RefsHeads + x) == RefsHeads + RefsHeads + x;
    RestoredNameOfHead(x);
  }

  datatype RestoreOutcome =
    | NotRestorable  // the guard failed; nothing happens
    | Restored       // the branch was created at `lastCommitId`
    | CreateFailed   // `branchCreate` threw (the ref exists, the id is unknown, or the name is empty)

  class SourceRepository {
    /** Full branch ref name to head commit id (`branchList`). */
    var branches: map<string, ObjectId>
    /** `getFullBranch()`: the checked-out branch, or a commit id when HEAD is detached. */
    var current: string
    /** The commit ids the repository stores. */
    var objects: set<ObjectId>

    /** Every branch points at a stored commit. */
    ghost predicate Valid()
      reads this
    {
      forall b :: b in branches ==> branches[b] in objects
    }

    constructor (branches: map<string, ObjectId>, current: string, objects: set<ObjectId>)
      requires forall b :: b in branches ==> branches[b] in objects
      ensures Valid()
      ensures this.branches == branches && this.current == current && this.objects == objects
    {
      this.branches := branches;
      this.current := current;
      this.objects := objects;
    }

    predicate Resolves(name: string)
      reads this
    {
      ResolvesIn(branches, name)
    }

    /**
     * What `canDeleteFromBranch` decides: `fromBranch` is a listed branch, it
     * is not the current branch, and the target repository stores its head.
     */
    predicate Deletable(pr: PullRequest, targetObjects: set<ObjectId>)
      reads this
    {
      pr.fromBranch in branches && pr.fromBranch != current && branches[pr.fromBranch] in targetObjects
    }

    /** `canDeleteFromBranch` (lines 1420-1454): a search through the branch list. */
    method CanDeleteFromBranch(pr: PullRequest, targetObjects: set<ObjectId>) returns (b: bool)
      ensures b <==> Deletable(pr, targetObjects)
    {
      var refs := branches.Keys;
      while refs != {}
        invariant refs <= branches.Keys
        invariant Deletable(pr, targetObjects) ==> pr.fromBranch in refs
        decreases refs
      {
        var branchName :| branchName in refs;
        if branchName == pr.fromBranch && branchName != current {
          var commitName := branches[branchName];
          if commitName in targetObjects {
            return true;
          }
        }
        refs := refs - {branchName};
      }
      return false;
    }

    /**
     * `deleteFromBranch` (lines 1463-1489): nothing happens unless the branch
     * may be deleted; then it is force-deleted and its head id returned.
     */
    method DeleteFromBranch(pr: PullRequest, targetObjects: set<ObjectId>) returns (lastCommitId: Option<ObjectId>)
      requires Valid()
      modifies this
      ensures Valid() && current == old(current) && objects == old(objects)
      ensures !old(Deletable(pr, targetObjects)) ==> lastCommitId == None && branches == old(branches)
      ensures old(Deletable(pr, targetObjects)) ==>
        && lastCommitId == Some(old(branches)[pr.fromBranch])
        && branches == old(branches) - {pr.fromBranch}
    {
      var ok := CanDeleteFromBranch(pr, targetObjects);
      if !ok {
        return None;
      }
      var head := branches[pr.fromBranch];
      branches := branches - {pr.fromBranch};
      return Some(head);
    }

    /** `canRestoreBranch` (lines 1527-1544): the branch does not resolve and its last head is recorded. */
    function CanRestoreBranch(pr: PullRequest): (r: bool)
      reads this
      ensures r <==> pr.lastCommitId.Some? && forall b :: b in branches ==> b != pr.fromBranch && b != RefsHeads + pr.fromBranch
    {
      !Resolves(pr.fromBranch) && pr.lastCommitId.Some?
    }

    /**
     * `restoreBranch` (lines 1496-1515): when the guard holds, create
     * `refs/heads/` + the name with every `refs/heads/` removed, at
     * `lastCommitId`. JGit's `branchCreate` refuses an existing ref, an
     * unknown start point and an empty name, which the source turns into a
     * runtime exception; the model reports it and changes nothing.
     */
    method RestoreBranch(pr: PullRequest) returns (outcome: RestoreOutcome)
      requires Valid()
      modifies this
      ensures Valid() && current == old(current) && objects == old(objects)
      ensures outcome == NotRestorable <==> !old(CanRestoreBranch(pr))
      ensures outcome != Restored ==> branches == old(branches)
      ensures outcome == CreateFailed ==>
        var name := RestoredName(pr.fromBranch);
        name == "" || RefsHeads + name in old(branches) || pr.lastCommitId.value !in objects
      ensures outcome == Restored ==>
        var name := RestoredName(pr.fromBranch);
        && name != "" && RefsHeads + name !in old(branches) && pr.lastCommitId.value in objects
        && branches == old(branches)[RefsHeads + name := pr.lastCommitId.value]
    {
      if !CanRestoreBranch(pr) {
        return NotRestorable;
      }
      var name := RestoredName(pr.fromBranch);
      var startPoint := pr.lastCommitId.value;
      if name == "" || RefsHeads + name in branches || startPoint !in objects {
        return CreateFailed;
      }
      branches := branches[RefsHeads + name := startPoint];
      return Restored;
    }
  }

  /**
   * The life cycle through the class itself: delete the source branch
   * `refs/heads/x` of a closed pull request, record the returned head as
   * `lastCommitId`, then restore. When the branch was deletable the restore
   * succeeds and the branch map is as before; otherwise nothing was deleted,
   * no head was recorded and the restore does nothing.
   */
  method DeleteThenRestore(repo: SourceRepository, pr: PullRequest, x: string, targetObjects: set<ObjectId>)
    returns (lastCommitId: Option<ObjectId>, outcome: RestoreOutcome)
    requires repo.Valid()
    requires pr.fromBranch == RefsHeads + x && x != "" && !Contains(x, RefsHeads)
    requires RefsHeads + RefsHeads + x !in repo.branches
    modifies repo
    ensures repo.Valid() && repo.branches == old(repo.branches)
    ensures old(repo.Deletable(pr, targetObjects)) ==>
      lastCommitId == Some(old(repo.branches)[pr.fromBranch]) && outcome == Restored
    ensures !old(repo.Deletable(pr, targetObjects)) ==> lastCommitId == None && outcome == NotRestorable
  {
    ghost var before := repo.branches;
    lastCommitId := repo.DeleteFromBranch(pr, targetObjects);
    if lastCommitId.Some? {
      RestoreUndoesDelete(before, x);
    }
    outcome := repo.RestoreBranch(pr.(lastCommitId := lastCommitId));
  }
}
