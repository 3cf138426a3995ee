# Git repository bookkeeping and HTTP helpers, in Dafny

This project models the logic inside `GitRepository` and `HttpUtil` of a
Play-based code hosting service. JGit's object store is replaced by plain
values.

- **Directory last-commit attribution** (`ObjectFinder`, module
  `ObjectFinding`). A class holds:
  - `found`, the names already attributed;
  - `targets`, the names still to attribute;
  - the commit log with its cursor.

  `Find` walks the log until every child of the directory is attributed to
  the most recent commit that changed it. It also stops when a commit
  repeats, or when `COMMIT_HISTORY_LIMIT` commits have been visited.
- **Diff budget** (`getFileDiffs`, module `FileDiffs`). The loop with the
  `size` and `lines` counters is a method. It is proved equal to a
  step-by-step specification function, `Scan`, and lemmas about `Scan`
  state which entries:
  - get an edit list;
  - are flagged as over budget;
  - make the scan stop.
- **History paging** (`getHistory`, module `History`). The `LinkedList`
  sliding window is proved to return one page of the log.
- **Blame authors** (`getAuthorsFromBlameResult` and `getRelatedAuthors`,
  module `BlameAuthors`). Nested set-building loops are proved equal to
  set specifications with membership characterisations.
- **Branch life cycle** (`canDeleteFromBranch`, `deleteFromBranch`,
  `canRestoreBranch`, `restoreBranch`, module `BranchLifecycle`). A source
  repository is a class over its branch map. Deleting a branch and then
  restoring it gives the branch map back.
- **Path and ref-name builders** (module `RepoNames`).
- **HttpUtil** (module `HttpUtil`):
  - query lookup, append and filter;
  - content-type preference;
  - `Content-Disposition` file names (section 4 of RFC 2231);
  - the `X-Requested-With` and `X-PJAX` header tests.

`Strings` holds Java string semantics the models share:
- `String.split` on one character, which drops trailing empty fields;
- literal `replaceFirst` and `replaceAll`;
- `StringUtils.join`;
- `toLowerCase` and `equalsIgnoreCase`.

`Common` holds the shared data: `Option`, the change types, projects and
pull requests.

Where JGit, the user database or `java.net` do the work, their results are
inputs:
- the commit log is a sequence of commits, each with the children of the
  directory in its tree and in each parent's tree;
- each diff entry carries what loading either side yields and its hunk
  totals;
- the blame is a sequence of author e-mails indexed by line;
- `User.findByEmail`, `URLEncoder.encode`, `URLDecoder.decode` and
  `MediaRange.accepts` are function parameters.

Two behaviours of `find` follow the code closely:
- **When the log runs out while targets remain.** The code re-derives the
  log at the last visited commit every time the log is exhausted, not just
  once. A log started at a commit yields that commit first, so the next
  round sees the same commit twice and stops: the result is partial.
  `Find` states this under `LogStartsAtItself`.
- **Errors instead of a partial result.** When the log is exhausted before
  any commit was visited, `curr` is null and the code throws a
  `NullPointerException` (`NullCurrentCommit`). When a re-derived log is
  empty, JGit's iterator returns null for the next commit, and
  `fixRevCommitNoParents` dereferences it
  (app/playRepository/GitRepository.java:491, 562), again a
  `NullPointerException` (`NullNextCommit`). The model returns `Threw(...)`
  for these.

## Model

| member | source | states |
|---|---|---|
| ObjectFinding.ObjectFinder.constructor | app/playRepository/GitRepository.java:414-423 | targets holds exactly the child names the tree walk returned, each tagged folder or file as its entry is a subtree; found is empty; the log is the one started at `untilCommitId` |
| ObjectFinding.ObjectFinder.FindObjects | app/playRepository/GitRepository.java:501-553 | the returned names are exactly the targets under `basePath` in the commit whose id differs from the id at that name in every parent, each with its id in the commit |
| ObjectFinding.MissingParentRemovesNothing | app/playRepository/GitRepository.java:531-548 | a parent whose tree lacks `basePath` (the tree walk returns early) removes nothing: dropping it leaves the changed set as it was |
| ObjectFinding.RootChangesEverything | app/playRepository/GitRepository.java:530-535 | a commit without parents changes every name under `basePath` |
| ObjectFinding.ObjectFinder.Found | app/playRepository/GitRepository.java:591-607 | the moved names leave targets and enter found with the commit's metadata (createdDate = commit time × 1000) and their own type; earlier entries are untouched; found and targets keep partitioning the collected names |
| ObjectFinding.MoveKeepsPartition | app/playRepository/GitRepository.java:591-607 | moving targets to found, each with its own type, keeps found and targets disjoint with the constructor's names as their union |
| ObjectFinding.VisitKeepsAttribution | app/playRepository/GitRepository.java:459-461 | after one round, every name found since the start is attributed to the first visited commit that changed it, and earlier entries keep their metadata |
| ObjectFinding.VisitKeepsUntouched | app/playRepository/GitRepository.java:501-536 | the targets left after visiting a commit were changed by no visited commit |
| ObjectFinding.ObjectFinder.Visit | app/playRepository/GitRepository.java:459-461 | one round (`found(curr, findObjects(curr))`) keeps the partition, only removes targets and keeps first-change attribution for everything found so far |
| ObjectFinding.ObjectFinder.NextCommit | app/playRepository/GitRepository.java:437-453 | a yielded commit is the one just before the new cursor in the (possibly re-derived) log; an exhausted log is replaced by the log re-derived at the current commit; no current commit, a failing re-derivation and an empty re-derived log each give no commit and leave log and cursor as they were; under `LogStartsAtItself` the re-derived log is never empty and restarts at the current commit |
| ObjectFinding.ObjectFinder.Advance | app/playRepository/GitRepository.java:442-458 | the iterator half of a round: a failing re-derivation stops with the log used up; the same id as the commit visited last stops with `SameCommitTwice`; a null current commit throws only before any visit with the starting log used up, an empty re-derived log only after a visit and never under `LogStartsAtItself`; a handed-out commit is, under `LogStartsAtItself`, the next entry of the original log; found and targets are untouched |
| ObjectFinding.ObjectFinder.Round | app/playRepository/GitRepository.java:433-461 | one pass of the loop body: no target left stops with `AllFound`; a failing re-derivation stops with the log used up; the same id as the commit visited last stops with `SameCommitTwice`; a null current commit throws only before any visit and with the log used up, an empty re-derived log only after one; otherwise the commit is visited, attribution and untouched targets are kept, and under `LogStartsAtItself` it is the next entry of the original log |
| ObjectFinding.ObjectFinder.Find | app/playRepository/GitRepository.java:425-470 | returns found; each stop reason comes with its cause: no target left, the commit visited last came again, `COMMIT_HISTORY_LIMIT` commits visited, or the re-derivation failed once the log was used up; every newly found name is attributed to the first visited commit that changed it and no visited commit changed a remaining target; `NullCurrentCommit` only when nothing was visited with targets left and the log already used up, `NullNextCommit` only when the log re-derived at the last visited commit is empty; under `LogStartsAtItself` the visited commits are the next entries of the original log from the starting cursor, `NullNextCommit` cannot happen, and the walk ends early only with every target found or the history limit, otherwise having reached the end of the log or met a log listing a commit twice in a row |
| ObjectFinding.ExampleTargets | app/playRepository/GitRepository.java:414-423 | for a directory holding two files `a` and `b`, the constructor's targets are both names, each a file |
| ObjectFinding.ExampleChanges | app/playRepository/GitRepository.java:501-553 | for commit 1 creating `a` and `b` and commit 3 changing only `b`, commit 3 changes `{b}` and commit 1 changes `{a, b}` |
| ObjectFinding.ExampleAttribution | app/playRepository/GitRepository.java:425-470 | on that log, any walk that ends with every target found or the whole log visited attributes `a` to commit 1 and `b` to commit 3 |
| ObjectFinding.TwoNamesExample | app/playRepository/GitRepository.java:414-470 | `find` on that directory and the log [3, 1] completes and returns `a` with commit 1's metadata and `b` with commit 3's |
| FileDiffs.Prepare | app/playRepository/GitRepository.java:1784-1814 | the old side is read exactly when commit A exists and the change is DELETE, MODIFY, RENAME or COPY, and the new side when commit B exists and the change is ADD, MODIFY, RENAME or COPY; a side too large to load is flagged with its own error |
| FileDiffs.Step | app/playRepository/GitRepository.java:1771-1856 | counters never decrease and entries are only appended; over budget the entry is appended flagged without edit list and the counters stay; within budget the scan stops exactly when more than `DIFF_FILE_LIMIT` entries are held, and stops without appending; COPY adds nothing to the counters |
| FileDiffs.GetFileDiffs | app/playRepository/GitRepository.java:1767-1858 | the loop with `continue` and `break` returns exactly the list the specification `Scan` builds from the empty state |
| FileDiffs.ScanGrows | app/playRepository/GitRepository.java:1816-1856 | over a whole scan the counters never decrease, the list only grows by appending, and by at most one entry per scanned entry |
| FileDiffs.StepOverBudget | app/playRepository/GitRepository.java:1816-1820 | over budget, a step appends the flagged entry and changes nothing else |
| FileDiffs.ScanOverBudget | app/playRepository/GitRepository.java:1816-1820 | once over budget, every later entry is appended flagged, in order, the counters stay and the file limit no longer ends the scan |
| FileDiffs.StepEmits | app/playRepository/GitRepository.java:1816-1856 | an appended entry has its change type, paths and sides as read; it carries `OTHERS_SIZE_EXCEEDED` exactly when the step began over budget, its other errors are the read errors, and it has an edit list exactly when within budget with both sides text and MODIFY or RENAME |
| FileDiffs.StepCounters | app/playRepository/GitRepository.java:1822-1848 | within budget, ADD adds the new side's size and line count when it loads as text, DELETE the old side's, MODIFY and RENAME the hunk totals when both sides load as text, and COPY nothing |
| FileDiffs.ScanEmits | app/playRepository/GitRepository.java:1771-1856 | every returned entry k is the k-th input entry as read, flagged exactly when the scan of the entries before it ended over budget, and with an edit list exactly when it did not and the entry is MODIFY or RENAME with both sides text |
| FileDiffs.ScanStopsAtFileLimit | app/playRepository/GitRepository.java:1850-1856 | a scan either returns one entry per input entry, or was stopped by the file limit holding exactly `DIFF_FILE_LIMIT + 1` entries |
| FileDiffs.ScanStopsFrom | app/playRepository/GitRepository.java:1850-1856 | the same from any state within the file-count invariant |
| History.VisitCount | app/playRepository/GitRepository.java:801 | the walk visits the whole log when `pageNumber * pageSize + pageSize` is negative (JGit applies no maximum then); otherwise the whole log or exactly that many commits, whichever is fewer |
| History.Window | app/playRepository/GitRepository.java:802-808 | the `LinkedList` window over the first n commits throws exactly when it sees a commit with a size below one (`remove(0)` on an empty list); otherwise it ends as the last `min(pageSize, n)` of them, in log order |
| History.GetHistory | app/playRepository/GitRepository.java:787-816 | null exactly when the start revision does not resolve; `IndexOutOfBoundsException` exactly when `WindowThrows`; otherwise `Page`, the last `min(pageSize, n)` of the first n visited commits |
| History.WindowThrowsIff | app/playRepository/GitRepository.java:801-808 | the window throws exactly for a non-empty log, a negative size and a page number other than -1 |
| History.NegativePageIsLogTail | app/playRepository/GitRepository.java:801-808 | a page number below -1 with a positive size gives the last `pageSize` commits of the whole log, since the maximum count is then negative |
| History.PageMinusOneIsEmpty | app/playRepository/GitRepository.java:801-808 | page -1 visits nothing and gives an empty page, whatever the size |
| History.PageIsSlice | app/playRepository/GitRepository.java:801-809 | on a long enough log page p is entries `p*size .. p*size+size` |
| History.PagesConcatenate | app/playRepository/GitRepository.java:801-809 | consecutive pages cover the log prefix without gap or overlap |
| History.LinearHistoryExample | app/playRepository/GitRepository.java:787-816 | for A→B→C, page 0 of size 2 until C is [C, B] |
| BlameAuthors.AuthorOf | app/playRepository/GitRepository.java:1219-1224 | a line without a person ident is the anonymous user; otherwise the author is the user the e-mail lookup returns |
| BlameAuthors.LineAuthorsMember | app/playRepository/GitRepository.java:1171-1173 | a user is among the line authors of a range exactly when some line in it is theirs |
| BlameAuthors.BlamedAuthorsMember | app/playRepository/GitRepository.java:1168-1178 | a user is collected exactly when they are the blamed author of an old line `beginA <= i < endA` of some REPLACE or DELETE edit |
| BlameAuthors.AuthorsFromBlameResult | app/playRepository/GitRepository.java:1168-1178 | the nested loops return exactly that set |
| BlameAuthors.AllPathAuthorsMember | app/playRepository/GitRepository.java:1084-1091 | a user is collected over the changed paths exactly when one path contributes them |
| BlameAuthors.GetRelatedAuthors | app/playRepository/GitRepository.java:1073-1100 | the union of the blamed authors of MODIFY and DELETE paths and the first-commit author of RENAME paths, without the anonymous user, which is never in the result |
| BlameAuthors.RelatedAuthorsMember | app/playRepository/GitRepository.java:1084-1099 | a known user is related exactly when some changed path contributes them |
| BranchLifecycle.SourceRepository.CanDeleteFromBranch | app/playRepository/GitRepository.java:1420-1454 | true exactly when `fromBranch` is a listed branch, is not the current branch, and the target repository stores its head |
| BranchLifecycle.SourceRepository.DeleteFromBranch | app/playRepository/GitRepository.java:1463-1489 | unless deletable, returns null and changes nothing; otherwise returns the branch's head id and removes exactly that branch |
| BranchLifecycle.SourceRepository.CanRestoreBranch | app/playRepository/GitRepository.java:1527-1544 | true exactly when `lastCommitId` is recorded and no listed branch is `fromBranch` or `refs/heads/` plus it |
| BranchLifecycle.SourceRepository.RestoreBranch | app/playRepository/GitRepository.java:1496-1544 | nothing happens exactly when `canRestoreBranch` fails (the name resolves or `lastCommitId` is null); otherwise `refs/heads/` plus the name with every `refs/heads/` removed is created at `lastCommitId`, or creation fails and nothing changes when that name is empty, exists or the commit is unknown |
| BranchLifecycle.RestoredNameOfHead | app/playRepository/GitRepository.java:1505 | `refs/heads/x` restores under the short name x |
| BranchLifecycle.RestoreUndoesDelete | app/playRepository/GitRepository.java:1463-1515 | after deleting `refs/heads/x` (x non-empty), the name no longer resolves, the restore guard holds, the restored name is non-empty and not listed, and restoring at the returned id gives back the branch map |
| BranchLifecycle.DeleteThenRestore | app/playRepository/GitRepository.java:1463-1515 | calling `deleteFromBranch` and then `restoreBranch` with the returned head recorded as `lastCommitId`, on `refs/heads/x`: a deletable branch is restored at its old head and the branch map ends as it began; otherwise no head is returned, the restore does nothing, and the map is unchanged |
| RepoNames.GitDirectory | app/playRepository/GitRepository.java:933-935 | the repository directory lies under the prefix and the owner's directory |
| RepoNames.DirectoryForMerging | app/playRepository/GitRepository.java:1024-1026 | the merging working copy lies under the merging prefix and the owner's directory |
| RepoNames.DirectoryForMergingObjects | app/playRepository/GitRepository.java:1028-1030 | the object database lies inside the merging working copy and ends in `/.git/objects` |
| RepoNames.RepoPathInjective | app/playRepository/GitRepository.java:933-935 | two projects share a directory only when they are the same project, if owner names have no '/' |
| RepoNames.DestToBranchName | app/playRepository/GitRepository.java:1346-1351 | lies under `refs/remotes/<owner>/<project>/` of the receiving project |
| RepoNames.DestFromBranchName | app/playRepository/GitRepository.java:1353-1358 | lies under `refs/remotes/<owner>/<project>/` of the sending project |
| RepoNames.RemoteTrackingRefOfHead | app/playRepository/GitRepository.java:1346-1358 | a branch `refs/heads/b` is tracked as `refs/remotes/<owner>/<project>/b` |
| RepoNames.RemoteTrackingRefOfShortName | app/playRepository/GitRepository.java:1346-1358 | a branch name without `refs/heads/` is tracked under its own name |
| RepoNames.MergingBranchRef | app/playRepository/GitRepository.java:1974 | the merging branch is a ref under `refs/heads/` |
| RepoNames.MergingBranchRefRoundTrip | app/playRepository/GitRepository.java:1974 | stripping `refs/heads/` gives back the merging branch's name |
| HttpUtil.GetFirstValueFromQuery | app/utils/HttpUtil.java:41-53 | "" when the map is null, the key is missing or its array is empty; otherwise the first value |
| HttpUtil.Sanitize | app/utils/HttpUtil.java:66 | same length, each of `:` `\` `/` `{` `?` replaced by `_` and every other character kept, so no such character remains |
| HttpUtil.SanitizeMergesReserved | app/utils/HttpUtil.java:66 | names that differ only in which reserved characters they hold sanitise alike |
| HttpUtil.SanitizeIdempotent | app/utils/HttpUtil.java:66 | sanitising twice is sanitising once |
| HttpUtil.ReplacePlusExpands | app/utils/HttpUtil.java:67 | `replaceAll("\\+", "%20")` equals `PlusAsPercent20`, which spells each `+` as `%20` and keeps every other character |
| HttpUtil.PlusReplaced | app/utils/HttpUtil.java:67 | replacing `+` by `%20` is the character-by-character expansion `PlusAsPercent20`, leaves no `+`, and changes nothing when there was none |
| HttpUtil.EncodeContentDisposition | app/utils/HttpUtil.java:64-70 | the RFC 2231 prefix `filename*=UTF-8''` followed by the encoded sanitised name with each `+` spelled `%20`, character by character; so the encoded part has no `+`, and it is the encoder's output itself when that has no `+` |
| HttpUtil.PreferType | app/utils/HttpUtil.java:79-89 | a returned type is one of the supported types |
| HttpUtil.PreferTypeIsFirstMatch | app/utils/HttpUtil.java:79-89 | null exactly when no range accepts any type; otherwise the returned type is accepted by the earliest range that accepts anything, and is the first such type in argument order |
| HttpUtil.FirstMatchUnique | app/utils/HttpUtil.java:79-89 | that first match is unique |
| HttpUtil.GetPreferType | app/utils/HttpUtil.java:79-89 | the nested loops with early return compute `PreferType` |
| HttpUtil.IsJSONPreferredAsWritten | app/utils/HttpUtil.java:98-100 | throws exactly when no range accepts HTML or JSON |
| HttpUtil.JSONPreferredThrowsForOtherTypes | app/utils/HttpUtil.java:98-100 | a client accepting only `image/png` makes the as-written test throw |
| HttpUtil.IsJSONPreferred | app/utils/HttpUtil.java:98-100 | agrees with the as-written test wherever that answers, and is false where it throws |
| HttpUtil.JSONPreferredIff | app/utils/HttpUtil.java:98-100 | JSON is preferred exactly when some range accepts JSON but not HTML and every earlier range accepts neither |
| HttpUtil.AddQueryString | app/utils/HttpUtil.java:112-120 | scheme, authority, path and fragment are kept and the new query begins with the old one |
| HttpUtil.AddQueryStringAppendsPairs | app/utils/HttpUtil.java:112-120 | split at `&`, the new query's pairs are the old pairs followed by the given ones |
| HttpUtil.AddQueryStringNoPairs | app/utils/HttpUtil.java:112-120 | with no pairs to add, a non-empty old query still gets the `&`, so the new query ends in one empty pair |
| HttpUtil.KeptMember | app/utils/HttpUtil.java:144-152 | a pair string is kept exactly when it was in the query, splits into at least one part and its decoded key is not removed |
| HttpUtil.KeptAppend | app/utils/HttpUtil.java:144-152 | the filter keeps the query's order |
| HttpUtil.SplitEmptyIff | app/utils/HttpUtil.java:145-147 | a pair splits into no part exactly when it is made only of `=`, so such a pair is dropped |
| HttpUtil.RemoveQueryString | app/utils/HttpUtil.java:133-156 | a URL without a query is returned as it is; otherwise the query becomes the kept pairs joined by `&`, other components kept |
| HttpUtil.IsRequestedWithXHR | app/utils/HttpUtil.java:168-171 | true only for a present header with as many characters as `xmlhttprequest` |
| HttpUtil.RequestedWithXHRIff | app/utils/HttpUtil.java:168-171 | true exactly when the header is present and equals `XMLHttpRequest` ignoring case |
| HttpUtil.ParseBoolean | app/utils/HttpUtil.java:180 | true only for a present four-character value |
| HttpUtil.ParseBooleanIff | app/utils/HttpUtil.java:180 | `parseBoolean` is true exactly for a present value that lower-cases to `true` |
| HttpUtil.IsPJAXRequest | app/utils/HttpUtil.java:179-181 | true exactly when `X-PJAX` is present and lower-cases to `true` |

## Left out

- JGit itself is not modelled; its results are inputs:
  - tree walks and path filters;
  - `RevWalk` ordering and `LogCommand`;
  - rename detection and the histogram diff;
  - blame;
  - `DiffFormatter` patch text.
- I/O exceptions wrapped into `RuntimeException` are not modelled.
- `fixRevCommitNoParents` and `fixRevCommitNoTree` are not modelled. They re-parse commits whose parents or trees JGit left empty; the model's commits always carry their parents' listings.
- The ObjectFinder's JSON payload is reduced to the fields a commit supplies. The avatar, the user name and login id looked up by e-mail, and `routes` URLs are left out.
- `cloneAndFetch` is left out: it is locking and fetch/reset/checkout I/O. Its `finally` block checks out `destFromBranchName` and force-deletes the merging branch a second time (app/playRepository/GitRepository.java:1331, 1335).
- The clone, create, move and delete helpers are left out: they are filesystem and network work.
- `MultipleRepositoryObjectReader` and the fake repository for cross-repository diffs are left out: they are adapters over JGit's object readers.
- app/models/Unwatch.java is left out: it only delegates to the ORM finder.
- `User.findByEmail` and other database lookups are function parameters.
- `URLEncoder`, `URLDecoder`, `java.net.URI` parsing and re-encoding, and Play's `MediaRange` are parameters or pre-parsed values. `RemoveQueryString` returns the parsed URI, not the original string.
- 32-bit `int` overflow is not modelled, for example `pageNumber * pageSize + pageSize` or the diff counters. Integers are unbounded.
- BranchLifecycle.SourceRepository.CanDeleteFromBranch: the target repository's check is modelled as "the target stores the head commit", which is its evident purpose.
  - JGit's `Repository.resolve` returns any 40-digit hex id without checking that the object exists, so the source's check may accept more.
  - `resolve` is modelled for branch names only (the name itself or under `refs/heads/`); tags, remotes and revision expressions are not.
- ObjectFinding.ObjectFinder.Find: the three stop reasons and the two exceptions hold for any log. The facts about re-derived logs hold under `LogStartsAtItself`: a log started at a commit yields that commit first, which JGit's `LogCommand` does for a commit that touches the path.
- HttpUtil.IsRequestedWithXHR: `toLowerCase` is modelled for ASCII letters only; locale-dependent and non-ASCII case mappings are not modelled.
- FileDiffs.Prepare: the `commitA` and `commitB` names and the `oldMode` and `newMode` file modes (app/playRepository/GitRepository.java:1773-1779) are copied from the inputs unchanged and are not modelled; no budget, error or edit-list decision depends on them.
- FileDiffs.GetFileDiffs: `FileDiff.SIZE_LIMIT` and `FileDiff.LINE_LIMIT` are not part of this model. `DIFF_SIZE_LIMIT` and `DIFF_LINE_LIMIT` are therefore the `Limits` parameter; `DIFF_FILE_LIMIT` is the constant 2000.

## Findings

| source | as written | input that shows it | evidently intended | confidence | as-written member | corrected member |
|---|---|---|---|---|---|---|
| app/utils/HttpUtil.java:98-100 | `isJSONPreferred` calls `equals` on the result of `getPreferType`, which is null when no accepted range matches HTML or JSON, so it throws `NullPointerException` | an `Accept` header of only `image/png` | answer false when the client accepts neither type | not executed | HttpUtil.IsJSONPreferredAsWritten, HttpUtil.JSONPreferredThrowsForOtherTypes | HttpUtil.IsJSONPreferred |
