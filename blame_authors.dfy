/**
 * `getRelatedAuthors` and `getAuthorsFromBlameResult`: who wrote the lines a
 * change between two revisions replaces or removes. JGit computes the edit
 * lists, the blame and the first commit of a renamed path; here they are
 * inputs. A blame result is the author e-mail of each line of the old file
 * (`None` where JGit has no author), and the user lookup by e-mail is a
 * function parameter.
 */
module BlameAuthors {
  import opened Common

  /** A user of the system; `Anonymous` is the sentinel `User.anonymous`. */
  datatype User = Anonymous | Known(loginId: string)

  /** JGit's `Edit.Type`, which an edit derives from its two ranges. */
  datatype EditType = Insert | Delete | Replace | Empty

  /** A JGit edit: lines `beginA .. endA` of the old file become lines `beginB .. endB` of the new one. */
  datatype Edit = Edit(beginA: nat, endA: nat, beginB: nat, endB: nat) {
    function Type(): EditType {
      if beginA < endA then (if beginB < endB then Replace else EditType.Delete)
      else if beginB < endB then Insert else Empty
    }

    /** The edit replaces or deletes old lines (`isTypeMatching(type, REPLACE, DELETE)`). */
    predicate RemovesLines() {
      Type() == Replace || Type() == EditType.Delete
    }
  }

  /** `findAuthorByPersonIdent`: no ident means the anonymous user, otherwise the user with that e-mail. */
  function AuthorOf(ident: Option<string>, findByEmail: string -> User): (u: User)
    ensures ident.None? ==> u == Anonymous
    ensures ident.Some? ==> u == findByEmail(ident.value)
  {
    if ident.None? then Anonymous else findByEmail(ident.value)
  }

  /** The authors of old lines `lo .. hi` according to `blame`. */
  function LineAuthors(blame: seq<Option<string>>, lo: nat, hi: nat, findByEmail: string -> User): set<User>
    requires hi <= |blame|
    decreases hi
  {
    if hi <= lo then {}
    else LineAuthors(blame, lo, hi - 1, findByEmail) + {AuthorOf(blame[hi - 1], findByEmail)}
  }

  lemma {:induction false} LineAuthorsMember(blame: seq<Option<string>>, lo: nat, hi: nat, findByEmail: string -> User, u: User)
    requires hi <= |blame|
    ensures u in LineAuthors(blame, lo, hi, findByEmail)
        <==> exists i :: lo <= i < hi && u == AuthorOf(blame[i], findByEmail)
    decreases hi
  {
    if hi > lo {
      LineAuthorsMember(blame, lo, hi - 1, findByEmail, u);
    }
  }

  predicate InBlame(edits: seq<Edit>, blame: seq<Option<string>>) {
    forall k :: 0 <= k < |edits| && edits[k].RemovesLines() ==> edits[k].endA <= |blame|
  }

  /** The authors collected from the first `n` edits. */
  function BlamedAuthors(edits: seq<Edit>, n: nat, blame: seq<Option<string>>, findByEmail: string -> User): set<User>
    requires n <= |edits| && InBlame(edits, blame)
    decreases n
  {
    if n == 0 then {}
    else
      var e := edits[n - 1];
      BlamedAuthors(edits, n - 1, blame, findByEmail)
        + (if e.RemovesLines() then LineAuthors(blame, e.beginA, e.endA, findByEmail) else {})
  }

  /**
   * The collected authors are exactly the blamed authors of the old lines
   * `beginA <= i < endA` of the REPLACE and DELETE edits.
   */
  lemma {:induction false} BlamedAuthorsMember(edits: seq<Edit>, n: nat, blame: seq<Option<string>>, findByEmail: string -> User, u: User)
    requires n <= |edits| && InBlame(edits, blame)
    ensures u in BlamedAuthors(edits, n, blame, findByEmail)
        <==> exists k, i :: 0 <= k < n && edits[k].RemovesLines() && edits[k].beginA <= i < edits[k].endA
                            && u == AuthorOf(blame[i], findByEmail)
    decreases n
  {
    if n > 0 {
      var e := edits[n - 1];
      BlamedAuthorsMember(edits, n - 1, blame, findByEmail, u);
      if e.RemovesLines() {
        LineAuthorsMember(blame, e.beginA, e.endA, findByEmail, u);
      }
    }
  }

  /** `getAuthorsFromBlameResult`: nested loops over the edits and the old lines each removes. */
  method AuthorsFromBlameResult(edits: seq<Edit>, blame: seq<Option<string>>, findByEmail: string -> User)
    returns (authors: set<User>)
    requires InBlame(edits, blame)
    ensures authors == BlamedAuthors(edits, |edits|, blame, findByEmail)
  {
    authors := {};
    for k := 0 to |edits|
      invariant authors == BlamedAuthors(edits, k, blame, findByEmail)
    {
      var e := edits[k];
      if e.RemovesLines() {
        ghost var before := authors;
        for i := e.beginA to e.endA
          invariant authors == before + LineAuthors(blame, e.beginA, i, findByEmail)
        {
          authors := authors + {AuthorOf(blame[i], findByEmail)};
        }
      }
    }
  }

  /**
   * One changed path between the two revisions, with what JGit computed for
   * it: its edit list, the blame of the old file, and for a rename the author
   * e-mail of the first commit of the old path (`None` when that walk found
   * no commit).
   */
  datatype ChangedPath = ChangedPath(
    changeType: ChangeType, edits: seq<Edit>, blame: seq<Option<string>>,
    firstCommitAuthor: Option<string>)

  predicate BlameFits(diffs: seq<ChangedPath>) {
    forall k :: 0 <= k < |diffs| ==> InBlame(diffs[k].edits, diffs[k].blame)
  }

  /** What one changed path contributes: blamed authors for MODIFY/DELETE, the first author for RENAME. */
  function PathAuthors(d: ChangedPath, findByEmail: string -> User): set<User>
    requires InBlame(d.edits, d.blame)
  {
    if d.changeType == Modify || d.changeType == ChangeType.Delete then BlamedAuthors(d.edits, |d.edits|, d.blame, findByEmail)
    else if d.changeType == Rename then {AuthorOf(d.firstCommitAuthor, findByEmail)}
    else {}
  }

  function AllPathAuthors(diffs: seq<ChangedPath>, n: nat, findByEmail: string -> User): set<User>
    requires n <= |diffs| && BlameFits(diffs)
    decreases n
  {
    if n == 0 then {} else AllPathAuthors(diffs, n - 1, findByEmail) + PathAuthors(diffs[n - 1], findByEmail)
  }

  lemma {:induction false} AllPathAuthorsMember(diffs: seq<ChangedPath>, n: nat, findByEmail: string -> User, u: User)
    requires n <= |diffs| && BlameFits(diffs)
    ensures u in AllPathAuthors(diffs, n, findByEmail) <==> exists k :: 0 <= k < n && u in PathAuthors(diffs[k], findByEmail)
    decreases n
  {
    if n > 0 {
      AllPathAuthorsMember(diffs, n - 1, findByEmail, u);
    }
  }

  /**
   * `getRelatedAuthors`: the union of what every changed path contributes,
   * without the anonymous sentinel. ADD and COPY contribute nothing.
   */
  method GetRelatedAuthors(diffs: seq<ChangedPath>, findByEmail: string -> User) returns (authors: set<User>)
    requires BlameFits(diffs)
    ensures authors == AllPathAuthors(diffs, |diffs|, findByEmail) - {Anonymous}
    ensures Anonymous !in authors
  {
    authors := {};
    for k := 0 to |diffs|
      invariant authors == AllPathAuthors(diffs, k, findByEmail)
    {
      var d := diffs[k];
      if d.changeType == Modify || d.changeType == ChangeType.Delete {
        var blamed := AuthorsFromBlameResult(d.edits, d.blame, findByEmail);
        authors := authors + blamed;
      }
      if d.changeType == Rename {
        authors := authors + {AuthorOf(d.firstCommitAuthor, findByEmail)};
      }
    }
    authors := authors - {Anonymous};
  }

  /** A known user is related exactly when some changed path attributes something to them. */
  lemma RelatedAuthorsMember(diffs: seq<ChangedPath>, findByEmail: string -> User, u: User)
    requires BlameFits(diffs) && u != Anonymous
    ensures u in AllPathAuthors(diffs, |diffs|, findByEmail) - {Anonymous}
        <==> exists k :: 0 <= k < |diffs| && u in PathAuthors(diffs[k], findByEmail)
  {
    AllPathAuthorsMember(diffs, |diffs|, findByEmail, u);
  }
}
