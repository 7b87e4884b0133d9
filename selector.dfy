/**
 * The retention selector of `borkbak()`: each snapshot, in the order
 * `get_backups` returns them, gets the retention key of its age; the first
 * snapshot to claim a key is kept and every later one with that key is dropped.
 */
module Selector {
  import opened Retention
  import opened History

  /** A kept snapshot with the key it was kept under. */
  datatype KeepEntry = KeepEntry(tree: string, time: nat, original: string, key: string)

  function KeyOf(b: Backup, now: int): string {
    RetentionKey(b.time, AgeDays(now, b.time))
  }

  /** The entry `keep.append` adds for `b`: the snapshot's fields unchanged, with its key. */
  function Annotate(b: Backup, now: int): KeepEntry {
    KeepEntry(b.tree, b.time, b.original, KeyOf(b, now))
  }

  function Keys(keep: seq<KeepEntry>): set<string> {
    set i | 0 <= i < |keep| :: keep[i].key
  }

  /** Every input snapshot with the key the loop computes for it, in input order. */
  function Candidates(bs: seq<Backup>, now: int): (cs: seq<KeepEntry>)
    ensures |cs| == |bs|
    ensures forall i :: 0 <= i < |bs| ==> cs[i] == Annotate(bs[i], now)
  {
    seq(|bs|, i requires 0 <= i < |bs| => Annotate(bs[i], now))
  }

  /** The list `keep` after the selection loop has seen the candidates `cs`. */
  function Selection(cs: seq<KeepEntry>): seq<KeepEntry>
    decreases |cs|
  {
    if cs == [] then []
    else
      var prev := Selection(cs[..|cs| - 1]);
      var c := cs[|cs| - 1];
      if c.key in Keys(prev) then prev else prev + [c]
  }

  /** For each kept entry, the position of the candidate it was made from. */
  function Origins(cs: seq<KeepEntry>): seq<nat>
    decreases |cs|
  {
    if cs == [] then []
    else
      var prev := Origins(cs[..|cs| - 1]);
      if cs[|cs| - 1].key in Keys(Selection(cs[..|cs| - 1])) then prev else prev + [|cs| - 1]
  }

  lemma KeysAppend(keep: seq<KeepEntry>, e: KeepEntry)
    ensures Keys(keep + [e]) == Keys(keep) + {e.key}
  {
    var ext := keep + [e];
    assert ext[|keep|].key == e.key;
    forall k | k in Keys(ext)
      ensures k in Keys(keep) + {e.key}
    {
      var i :| 0 <= i < |ext| && ext[i].key == k;
      if i < |keep| {
        assert keep[i].key == k;
      }
    }
    forall k | k in Keys(keep)
      ensures k in Keys(ext)
    {
      var i :| 0 <= i < |keep| && keep[i].key == k;
      assert ext[i].key == k;
    }
  }

  lemma SelectionStep(cs: seq<KeepEntry>, i: nat)
    requires i < |cs|
    ensures Selection(cs[..i + 1])
      == if cs[i].key in Keys(Selection(cs[..i])) then Selection(cs[..i]) else Selection(cs[..i]) + [cs[i]]
  {
    assert cs[..i + 1][..i] == cs[..i];
  }

  /**
   * The selection loop of `borkbak()`: `occupied` holds the keys used so far,
   * and a snapshot is appended to `keep` only when its key is still free.
   */
  method Select(backups: seq<Backup>, now: int) returns (keep: seq<KeepEntry>)
    ensures keep == Selection(Candidates(backups, now))
  {
    ghost var cs := Candidates(backups, now);
    var occupied: set<string> := {};
    keep := [];
    var i := 0;
    while i < |backups|
      invariant 0 <= i <= |backups|
      invariant keep == Selection(cs[..i])
      invariant occupied == Keys(keep)
    {
      var b := backups[i];
      var days := AgeDays(now, b.time);
      var key := RetentionKey(b.time, days);
      assert cs[i] == KeepEntry(b.tree, b.time, b.original, key);
      SelectionStep(cs, i);
      if key !in occupied {
        occupied := occupied + {key};
        KeysAppend(keep, KeepEntry(b.tree, b.time, b.original, key));
        keep := keep + [KeepEntry(b.tree, b.time, b.original, key)];
      }
      i := i + 1;
    }
    assert cs[..i] == cs;
  }

  /** After the loop, `occupied` holds exactly the keys of the candidates: every key in use keeps one snapshot. */
  lemma {:induction false} SelectionCoversKeys(cs: seq<KeepEntry>)
    ensures Keys(Selection(cs)) == Keys(cs)
    decreases |cs|
  {
    if cs != [] {
      var init := cs[..|cs| - 1];
      var c := cs[|cs| - 1];
      SelectionCoversKeys(init);
      if c.key !in Keys(Selection(init)) {
        KeysAppend(Selection(init), c);
      }
      assert cs == init + [c];
      KeysAppend(init, c);
    }
  }

  /** No two kept entries share a retention key. */
  lemma {:induction false} SelectionKeysDistinct(cs: seq<KeepEntry>)
    ensures forall i, j :: 0 <= i < j < |Selection(cs)| ==> Selection(cs)[i].key != Selection(cs)[j].key
    decreases |cs|
  {
    if cs != [] {
      var init := cs[..|cs| - 1];
      var prev := Selection(init);
      SelectionKeysDistinct(init);
      var c := cs[|cs| - 1];
      if c.key !in Keys(prev) {
        var sel := Selection(cs);
        forall i | 0 <= i < |prev|
          ensures sel[i].key != sel[|prev|].key
        {
          assert prev[i].key in Keys(prev);
        }
      }
    }
  }

  /**
   * `keep` is a subsequence of the candidates: entry k is the candidate at
   * position `Origins(cs)[k]`, unchanged, and the positions increase.
   */
  lemma {:induction false} SelectionIsSubsequence(cs: seq<KeepEntry>)
    ensures |Origins(cs)| == |Selection(cs)|
    ensures forall k :: 0 <= k < |Origins(cs)| ==> Origins(cs)[k] < |cs| && Selection(cs)[k] == cs[Origins(cs)[k]]
    ensures forall k, l :: 0 <= k < l < |Origins(cs)| ==> Origins(cs)[k] < Origins(cs)[l]
    decreases |cs|
  {
    if cs != [] {
      var init := cs[..|cs| - 1];
      SelectionIsSubsequence(init);
      forall i | 0 <= i < |init|
        ensures init[i] == cs[i]
      {
      }
    }
  }

  /**
   * Oldest wins, in processing order: the candidate at position i is kept exactly
   * when no candidate before it has the same key.
   */
  lemma {:induction false} KeptIffFirstWithKey(cs: seq<KeepEntry>)
    ensures forall i :: 0 <= i < |cs| ==> (i in Origins(cs) <==> forall j :: 0 <= j < i ==> cs[j].key != cs[i].key)
    decreases |cs|
  {
    if cs != [] {
      var n := |cs| - 1;
      var init := cs[..n];
      KeptIffFirstWithKey(init);
      SelectionIsSubsequence(init);
      SelectionCoversKeys(init);
      assert forall j :: 0 <= j < n ==> init[j] == cs[j];
      assert n !in Origins(init);
      forall i | 0 <= i < |cs|
        ensures i in Origins(cs) <==> forall j :: 0 <= j < i ==> cs[j].key != cs[i].key
      {
        if i == n && cs[n].key in Keys(init) {
          var j :| 0 <= j < n && init[j].key == cs[n].key;
        }
      }
    }
  }

  predicate Ascending(cs: seq<KeepEntry>) {
    forall i, j :: 0 <= i < j < |cs| ==> cs[i].time <= cs[j].time
  }

  /**
   * With the input oldest first, as `get_backups` delivers it, `keep` is oldest
   * first too, and for every key the kept snapshot is the oldest input snapshot
   * with that key.
   */
  lemma OldestWins(cs: seq<KeepEntry>)
    requires Ascending(cs)
    ensures Ascending(Selection(cs))
    ensures forall k, i :: 0 <= k < |Selection(cs)| && 0 <= i < |cs| && cs[i].key == Selection(cs)[k].key
              ==> Selection(cs)[k].time <= cs[i].time
  {
    SelectionIsSubsequence(cs);
    KeptIffFirstWithKey(cs);
    var sel, org := Selection(cs), Origins(cs);
    forall k, i | 0 <= k < |sel| && 0 <= i < |cs| && cs[i].key == sel[k].key
      ensures sel[k].time <= cs[i].time
    {
      assert org[k] in org;
    }
  }

  /**
   * End to end from git's log: when the matching lines' times never increase
   * down the log (newest first), the snapshots reach the selection loop oldest
   * first, so `keep` is oldest first and every key keeps its oldest snapshot.
   */
  lemma NewestFirstLogKeepsOldest(lines: seq<string>, now: int)
    requires forall i, j :: 0 <= i < j < |lines| && ParseLine(lines[i]).Some? && ParseLine(lines[j]).Some?
               ==> LineTime(lines[i]) >= LineTime(lines[j])
    ensures var cs := Candidates(Reversed(Parsed(lines)), now);
      && Ascending(Selection(cs))
      && forall k, i :: 0 <= k < |Selection(cs)| && 0 <= i < |cs| && cs[i].key == Selection(cs)[k].key
           ==> Selection(cs)[k].time <= cs[i].time
  {
    OldestFirst(lines);
    OldestWins(Candidates(Reversed(Parsed(lines)), now));
  }
}
