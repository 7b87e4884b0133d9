/**
 * The history reader `get_backups`: the output of `git log --format='%T %ct'`
 * (one `<tree id> <commit time>` line per commit, newest first) is split into
 * lines, each line is searched for `(?P<tree_id>.{40}) (?P<timestamp>\d+)$`,
 * lines without a match are skipped, and the snapshots come back oldest first.
 */
module History {
  import opened Decimal
  import opened Optional

  /** One snapshot of the old history: its tree, its time, and the time as git printed it. */
  datatype Backup = Backup(tree: string, time: nat, original: string)

  /** The line boundaries of Python 2 `str.splitlines`: `\n`, `\r` and the pair `\r\n`. */
  predicate IsLineBreak(c: char) {
    c == '\n' || c == '\r'
  }

  predicate NoBreak(line: string) {
    forall i :: 0 <= i < |line| ==> !IsLineBreak(line[i])
  }

  /** Where the first line of `s` ends. */
  function LineEnd(s: string): (k: nat)
    ensures k <= |s| && NoBreak(s[..k])
    ensures k < |s| ==> IsLineBreak(s[k])
    decreases |s|
  {
    if s == [] || IsLineBreak(s[0]) then 0
    else
      var k := 1 + LineEnd(s[1..]);
      assert s[..k] == [s[0]] + s[1..][..k - 1];
      k
  }

  /** `output.splitlines()`: the lines without their terminators; a final terminator adds no empty line. */
  function SplitLines(s: string): (lines: seq<string>)
    ensures forall i :: 0 <= i < |lines| ==> NoBreak(lines[i])
    decreases |s|
  {
    if s == [] then []
    else
      var k := LineEnd(s);
      if k == |s| then [s]
      else
        var next := if s[k] == '\r' && k + 1 < |s| && s[k + 1] == '\n' then k + 2 else k + 1;
        [s[..k]] + SplitLines(s[next..])
  }

  /** What git prints: every line followed by a newline. */
  function Unlines(lines: seq<string>): string
    decreases |lines|
  {
    if lines == [] then "" else lines[0] + "\n" + Unlines(lines[1..])
  }

  /** Splitting what git printed gives back its lines, empty ones included. */
  lemma {:induction false} SplitUnlines(lines: seq<string>)
    requires forall i :: 0 <= i < |lines| ==> NoBreak(lines[i])
    ensures SplitLines(Unlines(lines)) == lines
    decreases |lines|
  {
    if lines != [] {
      var s := Unlines(lines);
      var l := lines[0];
      var rest := Unlines(lines[1..]);
      assert s == l + ("\n" + rest);
      LineEndOf(l, "\n" + rest);
      assert s[..|l|] == l;
      assert s[|l| + 1..] == rest;
      SplitUnlines(lines[1..]);
    }
  }

  lemma {:induction false} LineEndOf(l: string, rest: string)
    requires NoBreak(l) && rest != [] && IsLineBreak(rest[0])
    ensures LineEnd(l + rest) == |l|
    decreases |l|
  {
    var s := l + rest;
    if l != [] {
      assert s[0] == l[0] && !IsLineBreak(l[0]);
      assert s[1..] == l[1..] + rest;
      LineEndOf(l[1..], rest);
    } else {
      assert s == rest;
    }
  }

  /** The two groups of a match: `tree_id` and `timestamp`. */
  datatype LogFields = LogFields(tree: string, digits: string)

  /**
   * The pattern matches `line` from position `p`: forty characters, a space, and
   * one or more digits that run to the end of the line. `.` refuses only `\n`
   * and `$` is the end of the line, since no line from `splitlines` holds a
   * line break.
   */
  predicate MatchesAt(line: string, p: int) {
    0 <= p && p + 42 <= |line| && line[p + 40] == ' '
    && forall k :: p + 41 <= k < |line| ==> IsDigit(line[k])
  }

  /** The number of digits at the end of `s`. */
  function TrailingDigits(s: string): (n: nat)
    ensures n <= |s|
    ensures forall k :: |s| - n <= k < |s| ==> IsDigit(s[k])
    ensures n < |s| ==> !IsDigit(s[|s| - n - 1])
    decreases |s|
  {
    if s == [] || !IsDigit(s[|s| - 1]) then 0 else 1 + TrailingDigits(s[..|s| - 1])
  }

  /** `LOG_RE.search(line)`: the groups of the match, or `None` when the line does not match. */
  function ParseLine(line: string): (r: Option<LogFields>)
    ensures r.Some? ==> |r.value.tree| == 40 && |r.value.digits| >= 1 && AllDigits(r.value.digits)
  {
    var n := TrailingDigits(line);
    if n >= 1 && |line| >= n + 41 && line[|line| - n - 1] == ' ' then
      Some(LogFields(line[|line| - n - 41..|line| - n - 1], line[|line| - n..]))
    else
      None
  }

  /**
   * `ParseLine` is the regex search: it finds a match exactly when one exists,
   * there is at most one place where the pattern can match, and the groups are
   * the forty characters before the last space and the digits after it. The
   * line holds no line break, as every line `splitlines` yields.
   */
  lemma ParseLineIsSearch(line: string)
    requires NoBreak(line)
    ensures ParseLine(line).Some? <==> exists p :: MatchesAt(line, p)
    ensures forall p, q :: MatchesAt(line, p) && MatchesAt(line, q) ==> p == q
    ensures forall p :: MatchesAt(line, p) ==> ParseLine(line) == Some(LogFields(line[p..p + 40], line[p + 41..]))
  {
    var n := TrailingDigits(line);
    forall p | MatchesAt(line, p)
      ensures p == |line| - n - 41
    {
      // the space at p + 40 ends the run of trailing digits
    }
    if ParseLine(line).Some? {
      assert MatchesAt(line, |line| - n - 41);
    }
  }

  function ToBackup(f: LogFields): Backup
    requires AllDigits(f.digits)
  {
    Backup(f.tree, Value(f.digits), f.digits)
  }

  /** The list `ret` that the loop of `get_backups` builds: one snapshot per matching line, in line order. */
  function Parsed(lines: seq<string>): seq<Backup>
    decreases |lines|
  {
    if lines == [] then []
    else
      var prev := Parsed(lines[..|lines| - 1]);
      match ParseLine(lines[|lines| - 1])
      case None => prev
      case Some(f) => prev + [ToBackup(f)]
  }

  /** The index of the line each element of `Parsed(lines)` came from. */
  function LineOrigins(lines: seq<string>): seq<nat>
    decreases |lines|
  {
    if lines == [] then []
    else
      var prev := LineOrigins(lines[..|lines| - 1]);
      if ParseLine(lines[|lines| - 1]).Some? then prev + [|lines| - 1] else prev
  }

  /**
   * The parsed snapshots are exactly the matching lines, in line order: each one
   * is built from the groups of its own line, and a line yields a snapshot
   * exactly when the pattern matches it.
   */
  lemma {:induction false} ParsedFromMatchingLines(lines: seq<string>)
    ensures |LineOrigins(lines)| == |Parsed(lines)|
    ensures forall k :: 0 <= k < |LineOrigins(lines)| ==>
      LineOrigins(lines)[k] < |lines| && ParseLine(lines[LineOrigins(lines)[k]]).Some?
      && Parsed(lines)[k] == ToBackup(ParseLine(lines[LineOrigins(lines)[k]]).value)
    ensures forall k, l :: 0 <= k < l < |LineOrigins(lines)| ==> LineOrigins(lines)[k] < LineOrigins(lines)[l]
    ensures forall i :: 0 <= i < |lines| ==> (i in LineOrigins(lines) <==> ParseLine(lines[i]).Some?)
    decreases |lines|
  {
    if lines != [] {
      var init := lines[..|lines| - 1];
      ParsedFromMatchingLines(init);
      forall i | 0 <= i < |init|
        ensures init[i] == lines[i]
      {
      }
    }
  }

  function Reversed<T>(s: seq<T>): (r: seq<T>)
    ensures |r| == |s|
    ensures forall k :: 0 <= k < |s| ==> r[k] == s[|s| - 1 - k]
    decreases |s|
  {
    if s == [] then [] else [s[|s| - 1]] + Reversed(s[..|s| - 1])
  }

  /** `get_backups()`: the snapshots of every matching log line, oldest line last in the log and first here. */
  method GetBackups(output: string) returns (backups: seq<Backup>)
    ensures backups == Reversed(Parsed(SplitLines(output)))
  {
    var lines := SplitLines(output);
    var ret: seq<Backup> := [];
    var i := 0;
    while i < |lines|
      invariant 0 <= i <= |lines|
      invariant ret == Parsed(lines[..i])
    {
      var matches := ParseLine(lines[i]);
      assert lines[..i + 1][..i] == lines[..i];
      if matches.Some? {
        ret := ret + [Backup(matches.value.tree, Value(matches.value.digits), matches.value.digits)];
      }
      i := i + 1;
    }
    assert lines[..i] == lines;
    backups := Reversed(ret);
  }

  /** The commit time of a line that matches. */
  function LineTime(line: string): nat
    requires ParseLine(line).Some?
  {
    Value(ParseLine(line).value.digits)
  }

  /**
   * git log lists the newest commit first; when the matching lines' times never
   * increase down the log, `get_backups` returns the snapshots oldest first.
   */
  lemma OldestFirst(lines: seq<string>)
    requires forall i, j :: 0 <= i < j < |lines| && ParseLine(lines[i]).Some? && ParseLine(lines[j]).Some?
               ==> LineTime(lines[i]) >= LineTime(lines[j])
    ensures forall k, l :: 0 <= k < l < |Parsed(lines)| ==>
      Reversed(Parsed(lines))[k].time <= Reversed(Parsed(lines))[l].time
  {
    ParsedFromMatchingLines(lines);
  }
}
