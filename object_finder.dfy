/**
 * `GitRepository.ObjectFinder`: attributes every child of a directory to the
 * most recent commit that changed it, by walking the directory's commit log
 * and moving names from `targets` to `found`.
 *
 * JGit's tree walks and `LogCommand` are inputs. A commit carries the
 * children of `basePath` in its tree (name to object id, or `Missing` when the
 * tree has no such directory) and the same listing for each of its parents.
 * The log is a sequence of commits consumed through a cursor; re-deriving the
 * iterator at a commit is the function `logFrom`, whose `None` stands for the
 * `GitAPIException` the source catches.
 */
module ObjectFinding {
  import opened Common

  /** `COMMIT_HISTORY_LIMIT`. */
  const CommitHistoryLimit: nat := 1000000

  type Name = string

  /** The children of `basePath` in one tree: `TreeWalk.forPath` found nothing, or name to object id. */
  datatype Listing = Missing | Dir(children: map<Name, ObjectId>)

  /** The parts of a commit `found` records (short id, short message, author, commit time in seconds). */
  datatype CommitInfo = CommitInfo(shortId: string, shortMessage: string, authorName: string, authorEmail: string, commitTime: int)

  datatype Commit = Commit(id: ObjectId, listing: Listing, parents: seq<Listing>, info: CommitInfo)

  /** One child returned by the constructor's tree walk. */
  datatype TreeEntry = TreeEntry(name: Name, isSubtree: bool)

  datatype Kind = File | Folder

  /** The metadata stored for an attributed name: its type and the commit's data (`createdDate` in milliseconds). */
  datatype Attribution = Attribution(kind: Kind, msg: string, author: string, authorEmail: string, createdDate: int, commitId: string)

  /**
   * The two `NullPointerException`s `find` lets escape: re-deriving the log
   * at a null current commit, and taking the next commit of an empty
   * re-derived log (JGit's iterator then returns null, which
   * `fixRevCommitNoParents` dereferences).
   */
  datatype FindError = NullCurrentCommit | NullNextCommit

  /** `find` returns the `found` map, or ends with the exception the source lets escape. */
  datatype FindOutcome = Completed(entries: map<Name, Attribution>) | Threw(error: FindError)

  /** What one step of the commit iterator gives: a commit, or why there is none. */
  datatype NextResult = Yield(commit: Commit) | NoCurrentCommit | LogFailed | LogEmpty

  /** Why `find`'s loop ended, when it ended normally. */
  datatype StopReason = AllFound | SameCommitTwice | HistoryLimit | LogUnavailable

  /** How one round of `find`'s loop ended: a commit was visited, the loop stops, or an exception escapes. */
  datatype RoundOutcome = Visited(commit: Commit) | Stopped(reason: StopReason) | Failed(error: FindError)

  function KindOf(e: TreeEntry): Kind {
    if e.isSubtree then Folder else File
  }

  function Attribute(kind: Kind, info: CommitInfo): Attribution {
    Attribution(kind, info.shortMessage, info.authorName, info.authorEmail, info.commitTime * 1000, info.shortId)
  }

  /** Parent listing `p` holds `n` with the very same id: `n` did not change against that parent. */
  predicate SameIn(p: Listing, n: Name, id: ObjectId) {
    p.Dir? && n in p.children && p.children[n] == id
  }

  /** The names directly under `basePath` in `c` whose id differs from the id at that name in every parent. */
  function Changed(c: Commit): set<Name> {
    if c.listing.Missing? then {}
    else set n | n in c.listing.children
                 && forall j :: 0 <= j < |c.parents| ==> !SameIn(c.parents[j], n, c.listing.children[n])
  }

  /** A parent that lacks `basePath` removes nothing: dropping it from the parents changes nothing. */
  lemma MissingParentRemovesNothing(c: Commit, k: nat)
    requires k < |c.parents| && c.parents[k].Missing?
    ensures Changed(c) == Changed(c.(parents := c.parents[..k] + c.parents[k + 1..]))
  {
    var d := c.(parents := c.parents[..k] + c.parents[k + 1..]);
    assert |d.parents| == |c.parents| - 1;
    assert forall j :: 0 <= j < k ==> d.parents[j] == c.parents[j];
    assert forall j :: k <= j < |d.parents| ==> d.parents[j] == c.parents[j + 1];
    if c.listing.Dir? {
      forall n | n in c.listing.children
        ensures (forall j :: 0 <= j < |c.parents| ==> !SameIn(c.parents[j], n, c.listing.children[n]))
            <==> (forall j :: 0 <= j < |d.parents| ==> !SameIn(d.parents[j], n, c.listing.children[n]))
      {
        var id := c.listing.children[n];
        if forall j :: 0 <= j < |d.parents| ==> !SameIn(d.parents[j], n, id) {
          forall j | 0 <= j < |c.parents| ensures !SameIn(c.parents[j], n, id) {
            if j < k {
              assert c.parents[j] == d.parents[j];
            } else if j > k {
              assert c.parents[j] == d.parents[j - 1];
            }
          }
        }
      }
    }
  }

  /** A commit without parents changes every name under `basePath`. */
  lemma RootChangesEverything(c: Commit)
    requires c.parents == [] && c.listing.Dir?
    ensures Changed(c) == c.listing.children.Keys
  {
  }

  /** `visited[i]` is the first visited commit that changed `n`. */
  ghost predicate FirstChangedAt(n: Name, visited: seq<Commit>, i: nat) {
    i < |visited| && n in Changed(visited[i]) && forall j :: 0 <= j < i ==> n !in Changed(visited[j])
  }

  lemma FirstChangedAtExtends(n: Name, visited: seq<Commit>, i: nat, c: Commit)
    requires FirstChangedAt(n, visited, i)
    ensures FirstChangedAt(n, visited + [c], i) && (visited + [c])[i] == visited[i]
  {
    assert forall j :: 0 <= j < |visited| ==> (visited + [c])[j] == visited[j];
  }

  /** `n` is recorded with its type and the metadata of `visited[i]`, the first visited commit that changed it. */
  ghost predicate AttributedName(n: Name, found: map<Name, Attribution>, kinds: map<Name, Kind>, visited: seq<Commit>, i: nat) {
    FirstChangedAt(n, visited, i) && n in kinds && n in found && found[n] == Attribute(kinds[n], visited[i].info)
  }

  /**
   * The attribution `find` promises after visiting `visited`: the names found
   * since `found0` are those in `at`, each attributed to the first visited
   * commit that changed it, with its type from `kinds`; earlier entries keep
   * their metadata.
   */
  ghost predicate AttributedFirst(found0: map<Name, Attribution>, found: map<Name, Attribution>, kinds: map<Name, Kind>,
                                  visited: seq<Commit>, at: map<Name, nat>)
  {
    && found0.Keys <= found.Keys
    && (forall n :: n in found0 ==> found[n] == found0[n])
    && at.Keys == found.Keys - found0.Keys
    && forall n :: n in at ==> AttributedName(n, found, kinds, visited, at[n])
  }

  /** No visited commit changed any of `names`. */
  ghost predicate Untouched(names: set<Name>, visited: seq<Commit>) {
    forall n, j :: n in names && 0 <= j < |visited| ==> n !in Changed(visited[j])
  }

  /** `at` with every one of `names` stamped with visit number `i`. */
  function Stamp(at: map<Name, nat>, names: set<Name>, i: nat): (r: map<Name, nat>)
    ensures r.Keys == at.Keys + names
    ensures forall n :: n in r ==> r[n] == if n in names then i else at[n]
  {
    at + map n | n in names :: i
  }

  /** An attribution made before visiting `c` still holds after it. */
  lemma AttributedNameStays(n: Name, found: map<Name, Attribution>, found': map<Name, Attribution>, kinds: map<Name, Kind>,
                            visited: seq<Commit>, c: Commit, i: nat)
    requires AttributedName(n, found, kinds, visited, i) && n in found' && found'[n] == found[n]
    ensures AttributedName(n, found', kinds, visited + [c], i)
  {
    FirstChangedAtExtends(n, visited, i, c);
  }

  /** A target `c` changed, which no earlier visited commit changed, is attributed to `c`. */
  lemma AttributedNameNew(n: Name, found': map<Name, Attribution>, kinds: map<Name, Kind>, visited: seq<Commit>, c: Commit)
    requires n in Changed(c) && forall j :: 0 <= j < |visited| ==> n !in Changed(visited[j])
    requires n in kinds && n in found' && found'[n] == Attribute(kinds[n], c.info)
    ensures AttributedName(n, found', kinds, visited + [c], |visited|)
  {
    NewlyChangedFirst(n, visited, c);
  }

  /** A name `c` changed, which no earlier visited commit changed, is first changed by `c`. */
  lemma NewlyChangedFirst(n: Name, visited: seq<Commit>, c: Commit)
    requires n in Changed(c) && forall j :: 0 <= j < |visited| ==> n !in Changed(visited[j])
    ensures FirstChangedAt(n, visited + [c], |visited|) && (visited + [c])[|visited|] == c
  {
    assert forall j :: 0 <= j < |visited| ==> (visited + [c])[j] == visited[j];
  }

  /** One round of `find`'s loop attributes the names `c` changed among the targets to `c`, and only those. */
  lemma {:induction false} VisitKeepsAttribution(
    found0: map<Name, Attribution>, found: map<Name, Attribution>, found': map<Name, Attribution>,
    targets: map<Name, Kind>, kinds: map<Name, Kind>,
    visited: seq<Commit>, at: map<Name, nat>, c: Commit, objects: map<Name, ObjectId>)
    requires AttributedFirst(found0, found, kinds, visited, at) && Untouched(targets.Keys, visited)
    requires found.Keys !! targets.Keys && forall n :: n in targets ==> n in kinds && targets[n] == kinds[n]
    requires objects.Keys == Changed(c) * targets.Keys
    requires found'.Keys == found.Keys + objects.Keys
    requires forall n :: n in objects ==> found'[n] == Attribute(targets[n], c.info)
    requires forall n :: n in found ==> found'[n] == found[n]
    ensures AttributedFirst(found0, found', kinds, visited + [c], Stamp(at, objects.Keys, |visited|))
  {
    var at' := Stamp(at, objects.Keys, |visited|);
    assert objects.Keys !! found.Keys;
    assert found'.Keys - found0.Keys == (found.Keys - found0.Keys) + objects.Keys;
    forall n | n in at' ensures AttributedName(n, found', kinds, visited + [c], at'[n]) {
      if n in objects {
        AttributedNameNew(n, found', kinds, visited, c);
      } else {
        AttributedNameStays(n, found, found', kinds, visited, c, at[n]);
      }
    }
  }

  /** The targets that remain after visiting `c` were changed by no visited commit, `c` included. */
  lemma {:induction false} VisitKeepsUntouched(targets: map<Name, Kind>, visited: seq<Commit>, c: Commit, objects: map<Name, ObjectId>)
    requires Untouched(targets.Keys, visited)
    requires objects.Keys == Changed(c) * targets.Keys
    ensures Untouched((targets - objects.Keys).Keys, visited + [c])
  {
    var v := visited + [c];
    forall n, j | n in (targets - objects.Keys).Keys && 0 <= j < |v| ensures n !in Changed(v[j]) {
      if j < |visited| {
        assert v[j] == visited[j];
      }
    }
  }

  /** `found` and `targets` split the names of `kinds` between them, each name keeping its type. */
  ghost predicate Partition(found: map<Name, Attribution>, targets: map<Name, Kind>, kinds: map<Name, Kind>) {
    && found.Keys !! targets.Keys
    && found.Keys + targets.Keys == kinds.Keys
    && (forall n :: n in targets ==> targets[n] == kinds[n])
    && (forall n :: n in found ==> found[n].kind == kinds[n])
  }

  /** Moving some targets into `found`, each with its own type, keeps the split. */
  lemma MoveKeepsPartition(found: map<Name, Attribution>, targets: map<Name, Kind>, kinds: map<Name, Kind>,
                           moved: set<Name>, info: CommitInfo, found': map<Name, Attribution>)
    requires Partition(found, targets, kinds) && moved <= targets.Keys
    requires found'.Keys == found.Keys + moved
    requires forall n :: n in moved ==> found'[n] == Attribute(targets[n], info)
    requires forall n :: n in found ==> found'[n] == found[n]
    ensures Partition(found', targets - moved, kinds)
  {
  }

  /**
   * Every re-derived log begins with the commit it was derived from, as a
   * `git log` started at a commit that touches the path does.
   */
  ghost predicate LogStartsAtItself(logFrom: ObjectId -> Option<seq<Commit>>) {
    forall id :: logFrom(id).Some? ==> logFrom(id).value != [] && logFrom(id).value[0].id == id
  }

  /** Extending a slice of `s` by one position appends the element there. */
  lemma SliceSnoc<T>(s: seq<T>, lo: nat, hi: nat)
    requires lo <= hi < |s|
    ensures s[lo..hi + 1] == s[lo..hi] + [s[hi]]
  {
  }

  class ObjectFinder {
    /** Names already attributed, with their metadata (`found`, a `TreeMap`). */
    var found: map<Name, Attribution>
    /** Names still to attribute, with their type (`targets`, a `HashMap`). */
    var targets: map<Name, Kind>
    /** The commit iterator: a log and the position of its next commit. */
    var commitLog: seq<Commit>
    var cursor: nat
    /** Re-deriving the path-filtered log at a commit (`getCommitIterator`). */
    const logFrom: ObjectId -> Option<seq<Commit>>
    /** Every child name the constructor collected, with its type. */
    ghost var Kinds: map<Name, Kind>

    /** `found` and `targets` split the collected names between them, each name keeping its type. */
    ghost predicate Valid()
      reads this
    {
      Partition(found, targets, Kinds) && cursor <= |commitLog|
    }

    /**
     * Lines 414-423: one target per child the tree walk returns, tagged file
     * or folder, and the log that starts at `untilCommitId`.
     */
    constructor (entries: seq<TreeEntry>, log: seq<Commit>, logFrom: ObjectId -> Option<seq<Commit>>)
      ensures Valid() && found == map[] && targets == Kinds
      ensures targets.Keys == set k | 0 <= k < |entries| :: entries[k].name
      ensures forall n :: n in targets ==> exists k :: 0 <= k < |entries| && entries[k].name == n && targets[n] == KindOf(entries[k])
      ensures commitLog == log && cursor == 0 && this.logFrom == logFrom
    {
      var t: map<Name, Kind> := map[];
      for k := 0 to |entries|
        invariant t.Keys == set j | 0 <= j < k :: entries[j].name
        invariant forall n :: n in t ==> exists j :: 0 <= j < k && entries[j].name == n && t[n] == KindOf(entries[j])
      {
        t := t[entries[k].name := KindOf(entries[k])];
      }
      found := map[];
      targets := t;
      Kinds := t;
      commitLog := log;
      cursor := 0;
      this.logFrom := logFrom;
    }

    /**
     * `findObjects` (lines 501-536): collect the id of every still-targeted
     * name under `basePath` in `c`, then drop each name some parent holds with
     * the same id.
     */
    method FindObjects(c: Commit) returns (objects: map<Name, ObjectId>)
      ensures objects.Keys == Changed(c) * targets.Keys
      ensures forall n :: n in objects ==> c.listing.Dir? && n in c.listing.children && objects[n] == c.listing.children[n]
    {
      objects := map[];
      if c.listing.Missing? {
        return;
      }
      var children := c.listing.children;
      var todo := children.Keys;
      while todo != {}
        invariant todo <= children.Keys
        invariant objects.Keys == (children.Keys - todo) * targets.Keys
        invariant forall n :: n in objects ==> objects[n] == children[n]
        decreases todo
      {
        var n :| n in todo;
        if n in targets {
          objects := objects[n := children[n]];
        }
        todo := todo - {n};
      }
      for j := 0 to |c.parents|
        invariant forall n :: n in objects ==> n in children && objects[n] == children[n]
        invariant forall n :: n in objects <==> (n in children && n in targets
                    && forall i :: 0 <= i < j ==> !SameIn(c.parents[i], n, children[n]))
      {
        var p := c.parents[j];
        if p.Dir? {
          ghost var before := objects;
          var rest := p.children.Keys;
          while rest != {}
            invariant rest <= p.children.Keys
            invariant forall n :: n in objects ==> n in before && objects[n] == before[n]
            invariant forall n :: n in objects <==> n in before && !(n in p.children.Keys - rest && p.children[n] == before[n])
            decreases rest
          {
            var n :| n in rest;
            if n in objects && objects[n] == p.children[n] {
              objects := objects - {n};
            }
            rest := rest - {n};
          }
        }
      }
    }

    /**
     * `found` (lines 591-607): every name in `objects` gets `c`'s metadata,
     * goes into `found` and leaves `targets`.
     */
    method Found(c: Commit, objects: map<Name, ObjectId>)
      requires Valid() && objects.Keys <= targets.Keys
      modifies this
      ensures Valid() && Kinds == old(Kinds)
      ensures commitLog == old(commitLog) && cursor == old(cursor)
      ensures targets == old(targets) - objects.Keys
      ensures found.Keys == old(found).Keys + objects.Keys
      ensures forall n :: n in objects ==> found[n] == Attribute(old(targets)[n], c.info)
      ensures forall n :: n in old(found) ==> found[n] == old(found)[n]
    {
      var f, t := found, targets;
      var todo := objects.Keys;
      while todo != {}
        invariant todo <= objects.Keys
        invariant t == old(targets) - (objects.Keys - todo)
        invariant f.Keys == old(found).Keys + (objects.Keys - todo)
        invariant forall n :: n in objects && n !in todo ==> f[n] == Attribute(old(targets)[n], c.info)
        invariant forall n :: n in old(found) ==> f[n] == old(found)[n]
        decreases todo
      {
        var path :| path in todo;
        var data := Attribute(t[path], c.info);
        f := f[path := data];
        t := t - {path};
        todo := todo - {path};
      }
      MoveKeepsPartition(found, targets, Kinds, objects.Keys, c.info, f);
      found, targets := f, t;
    }

    /** One round of `find`'s loop body: `findObjects` on `c`, then `found`. */
    method Visit(c: Commit, ghost found0: map<Name, Attribution>, ghost visited: seq<Commit>, ghost at: map<Name, nat>)
      returns (ghost at': map<Name, nat>)
      requires Valid() && AttributedFirst(found0, found, Kinds, visited, at) && Untouched(targets.Keys, visited)
      modifies this
      ensures Valid() && Kinds == old(Kinds) && commitLog == old(commitLog) && cursor == old(cursor)
      ensures targets.Keys <= old(targets).Keys
      ensures AttributedFirst(found0, found, Kinds, visited + [c], at')
      ensures Untouched(targets.Keys, visited + [c])
    {
      var objects := FindObjects(c);
      ghost var found1, targets1 := found, targets;
      Found(c, objects);
      VisitKeepsAttribution(found0, found1, found, targets1, Kinds, visited, at, c, objects);
      VisitKeepsUntouched(targets1, visited, c, objects);
      at' := Stamp(at, objects.Keys, |visited|);
    }

    /**
     * `commitIterator.hasNext()` and `next()` in `find` (lines 442-458): the
     * next commit of the log; when the log is used up, the log re-derived at
     * `curr` replaces it first. A null `curr`, a `GitAPIException` and an
     * empty re-derived log give no commit.
     */
    method NextCommit(curr: Option<Commit>) returns (next: NextResult)
      requires Valid()
      modifies this
      ensures Valid() && found == old(found) && targets == old(targets) && Kinds == old(Kinds)
      ensures old(cursor) < |old(commitLog)| ==>
        next == Yield(old(commitLog)[old(cursor)]) && commitLog == old(commitLog) && cursor == old(cursor) + 1
      ensures old(cursor) >= |old(commitLog)| && curr.None? ==> next == NoCurrentCommit
      ensures old(cursor) >= |old(commitLog)| && curr.Some? ==>
        match logFrom(curr.value.id)
        case None => next == LogFailed
        case Some(log) =>
          if log == [] then next == LogEmpty
          else next == Yield(log[0]) && commitLog == log && cursor == 1
      ensures next == NoCurrentCommit || next == LogFailed ==> commitLog == old(commitLog) && cursor == old(cursor)
      ensures next.Yield? ==> 0 < cursor <= |commitLog| && next.commit == commitLog[cursor - 1]
      ensures LogStartsAtItself(logFrom) ==> next != LogEmpty
      ensures LogStartsAtItself(logFrom) && next.Yield? && old(cursor) >= |old(commitLog)| ==>
        curr.Some? && next.commit.id == curr.value.id
    {
      if cursor >= |commitLog| {
        if curr.None? {
          return NoCurrentCommit;
        }
        var rederived := logFrom(curr.value.id);
        if rederived.None? {
          return LogFailed;
        }
        commitLog, cursor := rederived.value, 0;
      }
      if cursor >= |commitLog| {
        return LogEmpty;
      }
      next := Yield(commitLog[cursor]);
      cursor := cursor + 1;
    }

    /**
     * The iterator half of a round (lines 442-458): take the next commit
     * (re-deriving the log when it is used up) and stop when it is the commit
     * visited last; otherwise hand it out to be visited. `prev` is the commit
     * visited last, which is also `curr` when a round starts; `visited` are
     * the commits visited so far, and `log0` and `cursor0` the iterator
     * `find` started with.
     */
    method Advance(prev: Option<Commit>, ghost visited: seq<Commit>, ghost log0: seq<Commit>, ghost cursor0: nat)
      returns (o: RoundOutcome)
      requires Valid() && prev == (if visited == [] then None else Some(visited[|visited| - 1]))
      requires visited == [] ==> commitLog == log0 && cursor == cursor0
      requires LogStartsAtItself(logFrom) ==>
        commitLog == log0 && cursor == cursor0 + |visited| && visited == log0[cursor0..cursor]
      modifies this
      ensures Valid() && found == old(found) && targets == old(targets) && Kinds == old(Kinds)
      ensures o.Visited? && LogStartsAtItself(logFrom) ==>
        commitLog == log0 && cursor == cursor0 + |visited| + 1 && visited + [o.commit] == log0[cursor0..cursor]
      ensures o == Stopped(LogUnavailable) ==>
        && visited != [] && logFrom(visited[|visited| - 1].id).None? && cursor == |commitLog|
        && (LogStartsAtItself(logFrom) ==> cursor0 + |visited| == |log0|)
      ensures o == Stopped(SameCommitTwice) ==>
        && visited != [] && 0 < cursor <= |commitLog| && commitLog[cursor - 1].id == visited[|visited| - 1].id
        && (LogStartsAtItself(logFrom) ==>
              || cursor0 + |visited| == |log0|
              || (cursor0 + |visited| < |log0| && log0[cursor0 + |visited|].id == visited[|visited| - 1].id))
      ensures o != Stopped(HistoryLimit) && o != Stopped(AllFound)
      ensures o == Failed(NullCurrentCommit) ==> visited == [] && cursor0 >= |log0|
      ensures o == Failed(NullNextCommit) ==>
        visited != [] && logFrom(visited[|visited| - 1].id) == Some([]) && !LogStartsAtItself(logFrom)
    {
      var next := NextCommit(prev);
      if next == NoCurrentCommit {
        return Failed(NullCurrentCommit);
      } else if next == LogFailed {
        return Stopped(LogUnavailable);
      } else if next == LogEmpty {
        return Failed(NullNextCommit);
      }
      var curr := next.commit;
      if prev.Some? && curr.id == prev.value.id {
        return Stopped(SameCommitTwice);
      }
      if LogStartsAtItself(logFrom) {
        assert commitLog == log0 && cursor == cursor0 + |visited| + 1 && curr == log0[cursor0 + |visited|];
        SliceSnoc(log0, cursor0, cursor0 + |visited|);
      }
      o := Visited(curr);
    }

    /**
     * One round of `find`'s loop (lines 433-461): stop when no target is
     * left; otherwise advance the iterator and visit the commit it gives.
     */
    method Round(prev: Option<Commit>, ghost found0: map<Name, Attribution>, ghost visited: seq<Commit>,
                 ghost at: map<Name, nat>, ghost log0: seq<Commit>, ghost cursor0: nat)
      returns (o: RoundOutcome, ghost at': map<Name, nat>)
      requires Valid() && prev == (if visited == [] then None else Some(visited[|visited| - 1]))
      requires AttributedFirst(found0, found, Kinds, visited, at) && Untouched(targets.Keys, visited)
      requires visited == [] ==> commitLog == log0 && cursor == cursor0
      requires LogStartsAtItself(logFrom) ==>
        commitLog == log0 && cursor == cursor0 + |visited| && visited == log0[cursor0..cursor]
      modifies this
      ensures Valid() && Kinds == old(Kinds) && targets.Keys <= old(targets).Keys
      ensures !o.Visited? ==> found == old(found) && targets == old(targets) && at' == at
      ensures o.Visited? ==>
        && AttributedFirst(found0, found, Kinds, visited + [o.commit], at')
        && Untouched(targets.Keys, visited + [o.commit])
        && (LogStartsAtItself(logFrom) ==>
              commitLog == log0 && cursor == cursor0 + |visited| + 1 && visited + [o.commit] == log0[cursor0..cursor])
      ensures o == Stopped(AllFound) ==> targets == map[]
      ensures o == Stopped(LogUnavailable) ==>
        && visited != [] && logFrom(visited[|visited| - 1].id).None? && cursor == |commitLog|
        && (LogStartsAtItself(logFrom) ==> cursor0 + |visited| == |log0|)
      ensures o == Stopped(SameCommitTwice) ==>
        && visited != [] && 0 < cursor <= |commitLog| && commitLog[cursor - 1].id == visited[|visited| - 1].id
        && (LogStartsAtItself(logFrom) ==>
              || cursor0 + |visited| == |log0|
              || (cursor0 + |visited| < |log0| && log0[cursor0 + |visited|].id == visited[|visited| - 1].id))
      ensures o != Stopped(HistoryLimit)
      ensures o == Failed(NullCurrentCommit) ==> visited == [] && targets != map[] && cursor0 >= |log0|
      ensures o == Failed(NullNextCommit) ==>
        visited != [] && logFrom(visited[|visited| - 1].id) == Some([]) && !LogStartsAtItself(logFrom)
    {
      at' := at;
      if targets == map[] {
        return Stopped(AllFound), at;
      }
      o := Advance(prev, visited, log0, cursor0);
      if o.Visited? {
        at' := Visit(o.commit, found0, visited, at);
      }
    }

    /**
     * `find` (lines 425-470). The loop stops when no target is left, when the
     * iterator yields the same commit twice in a row, or after
     * `COMMIT_HISTORY_LIMIT` visited commits. When the log runs out while
     * targets remain, it is re-derived at the last visited commit; re-deriving
     * before any commit was visited dereferences a null commit, and taking the
     * next commit of an empty re-derived log dereferences a null one.
     *
     * Each newly found name is attributed to the first visited commit that
     * changed it, and no visited commit changed a name still targeted. When
     * every log starts at its own commit, the visited commits are the next
     * ones of the log `find` started with, and unless every target was found
     * or the limit was reached, the walk went to the end of that log (or the
     * log itself listed the last commit twice in a row).
     */
    method Find() returns (r: FindOutcome, ghost reason: StopReason, ghost visited: seq<Commit>, ghost at: map<Name, nat>)
      requires Valid()
      modifies this
      ensures Valid() && Kinds == old(Kinds)
      ensures r.Completed? ==> r.entries == found
      ensures targets.Keys <= old(targets).Keys
      ensures AttributedFirst(old(found), found, Kinds, visited, at)
      ensures Untouched(targets.Keys, visited)
      ensures |visited| <= CommitHistoryLimit
      ensures r.Completed? && reason == AllFound ==> targets == map[]
      ensures r.Completed? && reason == HistoryLimit ==> |visited| == CommitHistoryLimit
      ensures r.Completed? && reason == LogUnavailable ==>
        visited != [] && logFrom(visited[|visited| - 1].id).None? && cursor == |commitLog|
      ensures r.Completed? && reason == SameCommitTwice ==>
        visited != [] && 0 < cursor <= |commitLog| && commitLog[cursor - 1].id == visited[|visited| - 1].id
      ensures r == Threw(NullCurrentCommit) ==> visited == [] && targets != map[] && old(cursor) >= |old(commitLog)|
      ensures r == Threw(NullNextCommit) ==> visited != [] && logFrom(visited[|visited| - 1].id) == Some([])
      ensures LogStartsAtItself(logFrom) ==>
        && r != Threw(NullNextCommit)
        && old(cursor) + |visited| <= |old(commitLog)|
        && visited == old(commitLog)[old(cursor)..old(cursor) + |visited|]
      ensures LogStartsAtItself(logFrom) && r.Completed? && reason == LogUnavailable ==>
        old(cursor) + |visited| == |old(commitLog)|
      ensures LogStartsAtItself(logFrom) && r.Completed? && reason == SameCommitTwice ==>
        || old(cursor) + |visited| == |old(commitLog)|
        || (old(cursor) + |visited| < |old(commitLog)|
            && old(commitLog)[old(cursor) + |visited|].id == visited[|visited| - 1].id)
    {
      ghost var log0, cursor0 := commitLog, cursor;
      var prev: Option<Commit> := None;
      var i := 0;
      visited, at := [], map[];
      reason := HistoryLimit;
      while i < CommitHistoryLimit
        invariant 0 <= i <= CommitHistoryLimit && |visited| == i
        invariant Valid() && Kinds == old(Kinds)
        invariant prev == (if visited == [] then None else Some(visited[|visited| - 1]))
        invariant targets.Keys <= old(targets).Keys
        invariant AttributedFirst(old(found), found, Kinds, visited, at)
        invariant Untouched(targets.Keys, visited)
        invariant visited == [] ==> commitLog == log0 && cursor == cursor0
        invariant LogStartsAtItself(logFrom) ==>
          commitLog == log0 && cursor == cursor0 + |visited| && visited == log0[cursor0..cursor]
        decreases CommitHistoryLimit - i
      {
        var o;
        o, at := Round(prev, old(found), visited, at, log0, cursor0);
        if o.Failed? {
          r := Threw(o.error);
          return;
        } else if o.Stopped? {
          reason := o.reason;
          break;
        }
        visited := visited + [o.commit];
        prev := Some(o.commit);
        i := i + 1;
      }
      r := Completed(found);
    }
  }

  // A directory with children `a` and `b`: commit 1 creates both, commit 3
  // changes `b` only, and the path-filtered log from commit 3 is [3, 1].

  const Info1 := CommitInfo("1", "create", "kim", "kim@example.com", 100)
  const Info3 := CommitInfo("3", "edit b", "lee", "lee@example.com", 300)
  const Tree1 := Dir(map["a" := "x1", "b" := "y1"])
  const Commit1 := Commit("1", Tree1, [], Info1)
  const Commit3 := Commit("3", Dir(map["a" := "x1", "b" := "y3"]), [Tree1], Info3)
  const ExampleEntries := [TreeEntry("a", false), TreeEntry("b", false)]
  const ExampleKinds := map["a" := File, "b" := File]

  /** The constructor's targets for the two files. */
  lemma ExampleTargets(t: map<Name, Kind>)
    requires t.Keys == set k | 0 <= k < |ExampleEntries| :: ExampleEntries[k].name
    requires forall n :: n in t ==> exists k :: 0 <= k < |ExampleEntries| && ExampleEntries[k].name == n && t[n] == KindOf(ExampleEntries[k])
    ensures t == ExampleKinds
  {
    assert ExampleEntries[0].name == "a" && ExampleEntries[1].name == "b";
    assert t.Keys == {"a", "b"};
  }

  /** Commit 3 changes `b` only; commit 1 changes both. */
  lemma ExampleChanges()
    ensures Changed(Commit3) == {"b"} && Changed(Commit1) == {"a", "b"}
  {
    RootChangesEverything(Commit1);
    assert SameIn(Commit3.parents[0], "a", "x1");
    assert !SameIn(Commit3.parents[0], "b", "y3");
  }

  /**
   * Whatever prefix of the log was walked, if the walk ended with every
   * target found or with the whole log visited, `a` is attributed to commit
   * 1 and `b` to commit 3.
   */
  lemma ExampleAttribution(found: map<Name, Attribution>, targets: map<Name, Kind>, visited: seq<Commit>, at: map<Name, nat>)
    requires Partition(found, targets, ExampleKinds)
    requires AttributedFirst(map[], found, ExampleKinds, visited, at) && Untouched(targets.Keys, visited)
    requires visited == [] || visited == [Commit3] || visited == [Commit3, Commit1]
    requires targets == map[] || |visited| == 2
    ensures found == map["a" := Attribute(File, Info1), "b" := Attribute(File, Info3)]
  {
    ExampleChanges();
    if visited != [Commit3, Commit1] {
      assert false;
    }
    assert ExampleKinds.Keys == {"a", "b"};
    assert "a" in Changed(visited[1]) && "b" in Changed(visited[1]);
    assert "a" !in targets && "b" !in targets;
    assert targets.Keys == {};
    assert found.Keys == {"a", "b"};
    assert at["a"] == 1 by { assert "a" !in Changed(visited[0]); }
    assert at["b"] == 0 by { assert "b" in Changed(visited[0]); }
  }

  /** `find` on the example attributes `a` to commit 1 and `b` to commit 3. */
  method TwoNamesExample() returns (r: FindOutcome)
    ensures r == Completed(map["a" := Attribute(File, Info1), "b" := Attribute(File, Info3)])
  {
    var log := [Commit3, Commit1];
    var finder := new ObjectFinder(ExampleEntries, log, (id: ObjectId) => None);
    ExampleTargets(finder.targets);
    assert LogStartsAtItself(finder.logFrom);
    assert finder.cursor == 0 && |finder.commitLog| == 2;
    ghost var reason, visited, at;
    r, reason, visited, at := finder.Find();
    assert |visited| <= 2 && visited == log[..|visited|];
    assert r.Completed? by {
      match r
      case Completed(_) =>
      case Threw(NullCurrentCommit) =>
      case Threw(NullNextCommit) =>
    }
    assert finder.targets == map[] || |visited| == 2 by {
      if |visited| == 1 {
        assert reason != SameCommitTwice by { assert log[1].id != visited[0].id; }
      }
    }
    assert visited == [] || visited == [Commit3] || visited == [Commit3, Commit1];
    ExampleAttribution(finder.found, finder.targets, visited, at);
  }
}
