/**
 * The chain rebuilder of `borkbak()` and `create_commit`: one new commit per
 * kept snapshot, oldest first, each with the previous new commit as parent,
 * dated with the snapshot's original time; then the ref is pointed at the last
 * one. `Run` is the whole program from git's log output to the ref update.
 */
module Rebuild {
  import opened Optional
  import opened Git
  import opened History
  import opened Selector

  /** The default of `--ref`. */
  const DefaultRef: string := "refs/heads/borkbak"

  /** The fixed identity entries of `MY_ENVIRON` (`PWD` and `PATH` come from the process and are not modelled). */
  const Identity: map<string, string> := map[
    "GIT_AUTHOR_NAME" := "borkbak",
    "GIT_AUTHOR_EMAIL" := "borkbak@feinheit.ch",
    "GIT_COMMITTER_NAME" := "borkbak",
    "GIT_COMMITTER_EMAIL" := "borkbak@feinheit.ch"]

  /** `MY_ENVIRON` after `create_commit` set both dates: the identity entries keep their values. */
  function DatedEnvironment(timestamp: string): map<string, string>
  {
    Identity["GIT_COMMITTER_DATE" := timestamp]["GIT_AUTHOR_DATE" := timestamp]
  }

  /** `if parent:` for a value that is `None` or a string: the empty string is false too. */
  predicate Truthy(parent: Option<string>) {
    parent.Some? && parent.value != ""
  }

  /** The parent a `git commit-tree` argument vector names with `-p`, if any. */
  function ParentOf(req: CommitRequest): Option<string> {
    if |req.args| == 5 && req.args[3] == "-p" then Some(req.args[4]) else None
  }

  /** The request `create_commit(tree_id, timestamp, key, parent)` sends to git. */
  function CommitRequestFor(tree: string, timestamp: string, key: string, parent: Option<string>): CommitRequest
  {
    var args := if Truthy(parent) then ["git", "commit-tree", tree, "-p", parent.value] else ["git", "commit-tree", tree];
    CommitRequest(args, DatedEnvironment(timestamp), key + "\n")
  }

  /**
   * What `create_commit` asks git for: `git commit-tree <tree>`, followed by
   * `-p <parent>` exactly when the parent is truthy; both dates set to the
   * snapshot's original timestamp on top of the fixed identity; and the key
   * plus a newline as the commit message.
   */
  lemma CommitRequestShape(tree: string, timestamp: string, key: string, parent: Option<string>)
    ensures var req := CommitRequestFor(tree, timestamp, key, parent);
      && |req.args| >= 3 && req.args[..3] == ["git", "commit-tree", tree]
      && ParentOf(req) == (if Truthy(parent) then parent else None)
      && (|req.args| == 3 <==> !Truthy(parent))
      && "GIT_AUTHOR_DATE" in req.env && req.env["GIT_AUTHOR_DATE"] == timestamp
      && "GIT_COMMITTER_DATE" in req.env && req.env["GIT_COMMITTER_DATE"] == timestamp
      && (forall name :: name in Identity ==> name in req.env && req.env[name] == Identity[name])
      && req.env.Keys == Identity.Keys + {"GIT_AUTHOR_DATE", "GIT_COMMITTER_DATE"}
      && req.input == key + "\n"
  {
  }

  /** `create_commit`: one `git commit-tree` run; the new commit's id is git's output stripped of whitespace. */
  method CreateCommit(repo: Repository, tree: string, timestamp: string, key: string, parent: Option<string>)
    returns (id: string)
    modifies repo
    ensures repo.commitRequests == old(repo.commitRequests) + [CommitRequestFor(tree, timestamp, key, parent)]
    ensures repo.refUpdates == old(repo.refUpdates)
    ensures id == Strip(repo.answer(|old(repo.commitRequests)|, CommitRequestFor(tree, timestamp, key, parent)))
  {
    var args := ["git", "commit-tree", tree];
    if parent.Some? && parent.value != "" {
      args := args + ["-p", parent.value];
    }
    var env := Identity;
    env := env["GIT_COMMITTER_DATE" := timestamp];
    env := env["GIT_AUTHOR_DATE" := timestamp];
    assert CommitRequest(args, env, key + "\n") == CommitRequestFor(tree, timestamp, key, parent);
    var out := repo.CommitTree(CommitRequest(args, env, key + "\n"));
    id := Strip(out);
  }

  /** What `create_commit(e.tree, e.original, e.key, parent)` returns on git's `n`-th run. */
  function CommitIds(answer: (nat, CommitRequest) -> string): (nat, KeepEntry, Option<string>) -> string {
    (n: nat, e: KeepEntry, parent: Option<string>) => Strip(answer(n, CommitRequestFor(e.tree, e.original, e.key, parent)))
  }

  /** For each kept entry, the `commit_id` it was committed on top of, and the id its commit got. */
  datatype Chain = Chain(parents: seq<Option<string>>, ids: seq<string>)

  /**
   * The rebuild loop over `keep`, where `idOf(base + n, e, parent)` is what the
   * `n`-th `create_commit` call returns: `commit_id` starts as `None` and
   * becomes each new commit's id in turn.
   */
  function Thread(keep: seq<KeepEntry>, idOf: (nat, KeepEntry, Option<string>) -> string, base: nat): (c: Chain)
    ensures |c.parents| == |keep| && |c.ids| == |keep|
    decreases |keep|
  {
    if keep == [] then Chain([], [])
    else
      var prev := Thread(keep[..|keep| - 1], idOf, base);
      var parent := if prev.ids == [] then None else Some(prev.ids[|prev.ids| - 1]);
      Chain(prev.parents + [parent], prev.ids + [idOf(base + |keep| - 1, keep[|keep| - 1], parent)])
  }

  /** `commit_id` before the `i`-th call: `None` for the first, then the id the call before returned. */
  function ParentAt(ids: seq<string>, i: nat): Option<string>
    requires i <= |ids|
  {
    if i == 0 then None else Some(ids[i - 1])
  }

  /** `commit_id` after the loop: `None` when nothing was kept, else the last id returned. */
  function Tip(c: Chain): Option<string> {
    if c.ids == [] then None else Some(c.ids[|c.ids| - 1])
  }

  /**
   * The `i`-th call is made on top of the id the call before it returned (the
   * first on top of `None`), and returns what the id oracle gives for entry i.
   */
  lemma {:induction false} ThreadAt(keep: seq<KeepEntry>, idOf: (nat, KeepEntry, Option<string>) -> string, base: nat, i: nat)
    requires i < |keep|
    ensures Thread(keep, idOf, base).parents[i] == ParentAt(Thread(keep, idOf, base).ids, i)
    ensures Thread(keep, idOf, base).ids[i] == idOf(base + i, keep[i], Thread(keep, idOf, base).parents[i])
    decreases |keep|
  {
    var n := |keep| - 1;
    var init := keep[..n];
    var c, prev := Thread(keep, idOf, base), Thread(init, idOf, base);
    if i < n {
      ThreadAt(init, idOf, base, i);
      assert init[i] == keep[i];
      assert c.ids[i] == prev.ids[i];
      assert ParentAt(c.ids, i) == ParentAt(prev.ids, i);
    }
  }

  /** Each call is made on top of the id the call before returned, and returns what the oracle gives. */
  predicate Linked(keep: seq<KeepEntry>, idOf: (nat, KeepEntry, Option<string>) -> string, base: nat, c: Chain) {
    && |c.parents| == |keep| && |c.ids| == |keep|
    && forall i {:trigger c.parents[i]} :: 0 <= i < |keep| ==>
         c.parents[i] == ParentAt(c.ids, i) && c.ids[i] == idOf(base + i, keep[i], c.parents[i])
  }

  /** `Thread` is the one chain with those links: any parents and ids that obey them are the loop's. */
  lemma ThreadUnique(keep: seq<KeepEntry>, idOf: (nat, KeepEntry, Option<string>) -> string, base: nat, c: Chain)
    ensures Linked(keep, idOf, base, c) <==> c == Thread(keep, idOf, base)
  {
    var t := Thread(keep, idOf, base);
    forall i | 0 <= i < |keep|
      ensures t.parents[i] == ParentAt(t.ids, i) && t.ids[i] == idOf(base + i, keep[i], t.parents[i])
    {
      ThreadAt(keep, idOf, base, i);
    }
    assert Linked(keep, idOf, base, t);
    if Linked(keep, idOf, base, c) {
      LinkedAgree(keep, idOf, base, c, t, |keep|);
      assert c.parents == t.parents;
      assert c.ids == t.ids;
    }
  }

  lemma {:induction false} LinkedAgree(keep: seq<KeepEntry>, idOf: (nat, KeepEntry, Option<string>) -> string, base: nat, c: Chain, d: Chain, k: nat)
    requires Linked(keep, idOf, base, c) && Linked(keep, idOf, base, d) && k <= |keep|
    ensures forall i :: 0 <= i < k ==> c.parents[i] == d.parents[i] && c.ids[i] == d.ids[i]
    decreases k
  {
    if k > 0 {
      var j := k - 1;
      LinkedAgree(keep, idOf, base, c, d, j);
      assert c.parents[j] == ParentAt(c.ids, j) && d.parents[j] == ParentAt(d.ids, j);
      assert ParentAt(c.ids, j) == ParentAt(d.ids, j);
    }
  }

  /** The `git commit-tree` requests of a rebuild, one per kept entry, on the parents the loop threaded. */
  function Requests(keep: seq<KeepEntry>, parents: seq<Option<string>>): (reqs: seq<CommitRequest>)
    requires |parents| == |keep|
    ensures |reqs| == |keep|
    ensures forall i :: 0 <= i < |keep| ==> reqs[i] == CommitRequestFor(keep[i].tree, keep[i].original, keep[i].key, parents[i])
  {
    seq(|keep|, i requires 0 <= i < |keep| => CommitRequestFor(keep[i].tree, keep[i].original, keep[i].key, parents[i]))
  }

  /**
   * What git is asked for: entry i's tree, dated with its original timestamp,
   * with message `key + "\n"`; no parent for the first commit, and for the
   * others the id of the commit before it, unless that id came back empty, in
   * which case the commit silently starts a new root.
   */
  lemma ParentLinks(keep: seq<KeepEntry>, idOf: (nat, KeepEntry, Option<string>) -> string, base: nat)
    ensures |keep| > 0 ==> ParentOf(Requests(keep, Thread(keep, idOf, base).parents)[0]) == None
    ensures forall i :: 0 < i < |keep| ==>
      var c := Thread(keep, idOf, base);
      ParentOf(Requests(keep, c.parents)[i]) == (if c.ids[i - 1] == "" then None else Some(c.ids[i - 1]))
    ensures forall i :: 0 <= i < |keep| ==>
      var req := Requests(keep, Thread(keep, idOf, base).parents)[i];
      req.args[..3] == ["git", "commit-tree", keep[i].tree] && req.input == keep[i].key + "\n"
      && req.env["GIT_AUTHOR_DATE"] == keep[i].original && req.env["GIT_COMMITTER_DATE"] == keep[i].original
  {
    var c := Thread(keep, idOf, base);
    forall i | 0 <= i < |keep|
      ensures c.parents[i] == ParentAt(c.ids, i)
    {
      ThreadAt(keep, idOf, base, i);
      CommitRequestShape(keep[i].tree, keep[i].original, keep[i].key, c.parents[i]);
    }
  }

  /** As written: a `git commit-tree` run that prints nothing gives the next commit no parent at all. */
  lemma EmptyIdStartsNewRoot(keep: seq<KeepEntry>, idOf: (nat, KeepEntry, Option<string>) -> string, base: nat, i: nat)
    requires i + 1 < |keep| && Thread(keep, idOf, base).ids[i] == ""
    ensures ParentOf(Requests(keep, Thread(keep, idOf, base).parents)[i + 1]) == None
  {
    ParentLinks(keep, idOf, base);
  }

  /** The `i`-th `git commit-tree` run of a rebuild, made with the `commit_id` left by the run before it. */
  lemma RunAt(answer: (nat, CommitRequest) -> string, keep: seq<KeepEntry>, base: nat, i: nat)
    requires i < |keep|
    ensures var c := Thread(keep, CommitIds(answer), base);
      var req := Requests(keep, c.parents)[i];
      && req == CommitRequestFor(keep[i].tree, keep[i].original, keep[i].key, ParentAt(c.ids, i))
      && c.ids[i] == Strip(answer(base + i, req))
  {
    ThreadAt(keep, CommitIds(answer), base, i);
  }

  /** One turn of the rebuild loop: `commit_id = create_commit(tree_id, original_timestamp, key, commit_id)`. */
  method CommitEntry(repo: Repository, keep: seq<KeepEntry>, ghost base: nat, i: nat, commitId: Option<string>) returns (id: string)
    requires i < |keep| && |repo.commitRequests| == base + i
    requires commitId == ParentAt(Thread(keep, CommitIds(repo.answer), base).ids, i)
    modifies repo
    ensures var c := Thread(keep, CommitIds(repo.answer), base);
      && repo.commitRequests == old(repo.commitRequests) + [Requests(keep, c.parents)[i]]
      && id == c.ids[i]
    ensures repo.refUpdates == old(repo.refUpdates)
  {
    RunAt(repo.answer, keep, base, i);
    id := CreateCommit(repo, keep[i].tree, keep[i].original, keep[i].key, commitId);
  }

  lemma TakeOneMore<T>(done: seq<T>, s: seq<T>, i: nat)
    requires i < |s|
    ensures done + s[..i] + [s[i]] == done + s[..i + 1]
  {
    assert s[..i + 1] == s[..i] + [s[i]];
  }

  /**
   * The rebuild loop of `borkbak()` as written: `commit_id` is threaded through
   * every `create_commit` call, whatever they return.
   */
  method ThreadCommits(repo: Repository, keep: seq<KeepEntry>) returns (commitId: Option<string>)
    modifies repo
    ensures var c := Thread(keep, CommitIds(repo.answer), |old(repo.commitRequests)|);
      && repo.commitRequests == old(repo.commitRequests) + Requests(keep, c.parents)
      && commitId == Tip(c)
    ensures repo.refUpdates == old(repo.refUpdates)
  {
    ghost var base := |repo.commitRequests|;
    ghost var c := Thread(keep, CommitIds(repo.answer), base);
    ghost var reqs := Requests(keep, c.parents);
    commitId := None;
    var i := 0;
    while i < |keep|
      invariant 0 <= i <= |keep|
      invariant commitId == ParentAt(c.ids, i)
      invariant repo.commitRequests == old(repo.commitRequests) + reqs[..i]
      invariant repo.refUpdates == old(repo.refUpdates)
    {
      var id := CommitEntry(repo, keep, base, i, commitId);
      TakeOneMore(old(repo.commitRequests), reqs, i);
      commitId := Some(id);
      i := i + 1;
    }
    assert reqs[..i] == reqs;
  }

  /** How a run ends. */
  datatype Outcome =
    | RefUpdated(target: string)   // `git update-ref <ref> <target>` was run
    | TypeErrorRaised              // `subprocess.call` was handed `None` as an argument
    | NothingToKeep                // nothing to rebuild, nothing run
    | CommitFailed(index: nat)     // `git commit-tree` printed no id for the entry at `index`

  /** As written: the end of `borkbak()` passes `commit_id` to `git update-ref`, even when it is still `None`. */
  function OutcomeAsWritten(keep: seq<KeepEntry>, idOf: (nat, KeepEntry, Option<string>) -> string, base: nat): Outcome {
    match Tip(Thread(keep, idOf, base))
    case None => TypeErrorRaised
    case Some(id) => RefUpdated(id)
  }

  /** The index of the first empty id, or `|ids|` when there is none. */
  function FirstEmpty(ids: seq<string>): (n: nat)
    ensures n <= |ids| && (n < |ids| ==> ids[n] == "")
    ensures forall j :: 0 <= j < n ==> ids[j] != ""
    decreases |ids|
  {
    if ids == [] then 0
    else if ids[0] == "" then 0
    else 1 + FirstEmpty(ids[1..])
  }

  /**
   * Corrected: an empty keep-list is a no-op, and a `git commit-tree` run that
   * prints no id stops the rebuild before any later commit or the ref update.
   */
  function OutcomeChecked(keep: seq<KeepEntry>, idOf: (nat, KeepEntry, Option<string>) -> string, base: nat): Outcome {
    var c := Thread(keep, idOf, base);
    if keep == [] then NothingToKeep
    else if FirstEmpty(c.ids) < |keep| then CommitFailed(FirstEmpty(c.ids))
    else RefUpdated(c.ids[|keep| - 1])
  }

  /** How many `git commit-tree` runs the corrected rebuild makes. */
  function RunsChecked(keep: seq<KeepEntry>, idOf: (nat, KeepEntry, Option<string>) -> string, base: nat): nat {
    var n := FirstEmpty(Thread(keep, idOf, base).ids);
    if n < |keep| then n + 1 else |keep|
  }

  /** The corrected rebuild stops right after the first call that returns no id. */
  lemma StopsAt(keep: seq<KeepEntry>, idOf: (nat, KeepEntry, Option<string>) -> string, base: nat, i: nat)
    requires i < |keep| && i <= FirstEmpty(Thread(keep, idOf, base).ids) && Thread(keep, idOf, base).ids[i] == ""
    ensures FirstEmpty(Thread(keep, idOf, base).ids) == i && RunsChecked(keep, idOf, base) == i + 1
  {
  }

  /**
   * The corrected rebuild never hands `None` to git; it does nothing exactly when
   * nothing was kept; when it updates the ref, every kept entry has a commit
   * whose parent is the commit before it (the first has none), forming one
   * simple chain whose tip is the target; when it stops, the entry it names
   * is the first whose commit came back without an id.
   */
  lemma CheckedChainIsLinked(keep: seq<KeepEntry>, idOf: (nat, KeepEntry, Option<string>) -> string, base: nat)
    ensures OutcomeChecked(keep, idOf, base) != TypeErrorRaised
    ensures OutcomeChecked(keep, idOf, base) == NothingToKeep <==> keep == []
    ensures OutcomeChecked(keep, idOf, base).RefUpdated? ==>
      var c := Thread(keep, idOf, base);
      var reqs := Requests(keep, c.parents);
      OutcomeChecked(keep, idOf, base).target != ""
      && OutcomeChecked(keep, idOf, base).target == c.ids[|keep| - 1]
      && ParentOf(reqs[0]) == None
      && forall i :: 0 < i < |keep| ==> ParentOf(reqs[i]) == Some(c.ids[i - 1])
    ensures OutcomeChecked(keep, idOf, base).CommitFailed? ==>
      var c := Thread(keep, idOf, base);
      var k := OutcomeChecked(keep, idOf, base).index;
      k < |keep| && c.ids[k] == "" && forall j :: 0 <= j < k ==> c.ids[j] != ""
  {
    ParentLinks(keep, idOf, base);
  }

  /**
   * Corrected rebuild: the loop of `borkbak()`, stopping at the first
   * `create_commit` that returns no id.
   */
  method ThreadCommitsChecked(repo: Repository, keep: seq<KeepEntry>) returns (failedAt: Option<nat>, commitId: Option<string>)
    modifies repo
    ensures var base := |old(repo.commitRequests)|;
      var c := Thread(keep, CommitIds(repo.answer), base);
      && repo.commitRequests == old(repo.commitRequests) + Requests(keep, c.parents)[..RunsChecked(keep, CommitIds(repo.answer), base)]
      && (failedAt.Some? <==> FirstEmpty(c.ids) < |keep|)
      && (failedAt.Some? ==> failedAt.value == FirstEmpty(c.ids))
      && (failedAt.None? ==> commitId == Tip(c))
    ensures repo.refUpdates == old(repo.refUpdates)
  {
    ghost var base := |repo.commitRequests|;
    ghost var c := Thread(keep, CommitIds(repo.answer), base);
    ghost var reqs := Requests(keep, c.parents);
    failedAt, commitId := None, None;
    var i := 0;
    while i < |keep|
      invariant 0 <= i <= |keep|
      invariant i <= FirstEmpty(c.ids)
      invariant commitId == ParentAt(c.ids, i)
      invariant repo.commitRequests == old(repo.commitRequests) + reqs[..i]
      invariant repo.refUpdates == old(repo.refUpdates)
    {
      var id := CommitEntry(repo, keep, base, i, commitId);
      TakeOneMore(old(repo.commitRequests), reqs, i);
      if id == "" {
        StopsAt(keep, CommitIds(repo.answer), base, i);
        failedAt := Some(i);
        return;
      }
      commitId := Some(id);
      i := i + 1;
    }
    assert reqs[..i] == reqs;
  }

  /**
   * `borkbak()` as written, from the output of `git log` to `git update-ref`:
   * select, rebuild, and point the ref at `commit_id`, whatever it holds.
   */
  method RunAsWritten(repo: Repository, log: string, now: int, ref: string) returns (outcome: Outcome)
    modifies repo
    ensures var keep := Selection(Candidates(Reversed(Parsed(SplitLines(log))), now));
      var base := |old(repo.commitRequests)|;
      var c := Thread(keep, CommitIds(repo.answer), base);
      && repo.commitRequests == old(repo.commitRequests) + Requests(keep, c.parents)
      && outcome == OutcomeAsWritten(keep, CommitIds(repo.answer), base)
      && repo.refUpdates == old(repo.refUpdates) + (if outcome.RefUpdated? then [RefUpdate(ref, outcome.target)] else [])
  {
    var backups := GetBackups(log);
    var keep := Select(backups, now);
    var commitId := ThreadCommits(repo, keep);
    if commitId.None? {
      outcome := TypeErrorRaised;
    } else {
      repo.UpdateRef(ref, commitId.value);
      outcome := RefUpdated(commitId.value);
    }
  }

  /**
   * Corrected `borkbak()`: nothing is run when nothing is kept, and the ref is
   * updated only after every kept snapshot got a commit id.
   */
  method Run(repo: Repository, log: string, now: int, ref: string) returns (outcome: Outcome)
    modifies repo
    ensures var keep := Selection(Candidates(Reversed(Parsed(SplitLines(log))), now));
      var base := |old(repo.commitRequests)|;
      var c := Thread(keep, CommitIds(repo.answer), base);
      && outcome == OutcomeChecked(keep, CommitIds(repo.answer), base)
      && repo.commitRequests == old(repo.commitRequests) + Requests(keep, c.parents)[..RunsChecked(keep, CommitIds(repo.answer), base)]
      && repo.refUpdates == old(repo.refUpdates) + (if outcome.RefUpdated? then [RefUpdate(ref, outcome.target)] else [])
  {
    var backups := GetBackups(log);
    var keep := Select(backups, now);
    if keep == [] {
      return NothingToKeep;
    }
    var failedAt, commitId := ThreadCommitsChecked(repo, keep);
    if failedAt.Some? {
      return CommitFailed(failedAt.value);
    }
    repo.UpdateRef(ref, commitId.value);
    outcome := RefUpdated(commitId.value);
  }

  /**
   * As written, a log with no matching line (an empty history) reaches
   * `git update-ref` with `commit_id` still `None`, and `subprocess.call`
   * raises a `TypeError` instead of finishing quietly.
   */
  lemma NoMatchingLineRaises(log: string, now: int, idOf: (nat, KeepEntry, Option<string>) -> string, base: nat)
    requires forall i :: 0 <= i < |SplitLines(log)| ==> ParseLine(SplitLines(log)[i]).None?
    ensures OutcomeAsWritten(Selection(Candidates(Reversed(Parsed(SplitLines(log))), now)), idOf, base) == TypeErrorRaised
    ensures OutcomeChecked(Selection(Candidates(Reversed(Parsed(SplitLines(log))), now)), idOf, base) == NothingToKeep
  {
    ParsedFromMatchingLines(SplitLines(log));
    if Parsed(SplitLines(log)) != [] {
      assert LineOrigins(SplitLines(log))[0] in LineOrigins(SplitLines(log));
    }
  }
}
