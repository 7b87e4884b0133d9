# borkbak in Dafny

borkbak thins out a git repository that holds hourly snapshot commits. It does
this in three steps:

1. It reads the history with `git log --format='%T %ct'`.
2. It gives every snapshot a *retention key* that depends on its age:
   - older than 100 days: one per calendar month;
   - older than 30 days: one per `%W` week;
   - older than 7 days: one per day;
   - otherwise: one per minute.
3. It keeps the first snapshot, oldest first, for every key. Then it rebuilds a
   linear chain of new commits on the kept trees, and points a ref (by default
   `refs/heads/borkbak`) at the last one.

This project models those three pieces and proves what they promise.

- **Decimal, Calendar.** The `\d+` text that git prints, and Python's `int()` of
  it. The broken-down UTC time that `strftime` formats: `%Y`, `%m`, `%d`,
  `%H`, `%M`, and the Monday-first week number `%W` of C `strftime`.
- **Retention.** The age in whole days, the four buckets and the retention key.
  The main result: two snapshots get the same key exactly when their ages fall
  in the same bucket and their times fall in the same period of that bucket.
- **History.** `get_backups`: `splitlines`, the regex *search* for
  `(?P<tree_id>.{40}) (?P<timestamp>\d+)$`, and the reversal. The method
  `GetBackups` is the loop, proved against the function `Parsed`.
- **Selector.** The `occupied`/`keep` loop of `borkbak()`. The method `Select`
  is proved against the function `Selection`. The lemmas give distinct keys,
  that `occupied` covers every key, that the result is a subsequence, and that
  the oldest snapshot wins.
- **Git.** `str.strip()`. A `Repository` class records every `git commit-tree`
  and `git update-ref` run. git's output for the n-th `commit-tree` run is an
  oracle function `answer`.
- **Rebuild.** `create_commit` and the `commit_id` threading loop, proved
  against the function `Thread`. It also has `borkbak()` end to end, as written
  (`RunAsWritten`) and corrected (`Run`); see "Findings".

The weekly key uses `%W` of C `strftime`, not the ISO 8601 week: a week is
counted from the year's first Monday, and week 0 holds the days before it.

## Model

| member | source | states |
|---|---|---|
| Decimal.ValueOfDec | borkbak.py:117 | `int()` reads back what `Dec` writes: `Value(Dec(n)) == n` for every `n`, so distinct years print as distinct `%Y` fields |
| Decimal.Value | borkbak.py:117 | `int()` of a digit string; its contract is carried by `Decimal.ValueOfDec` |
| Decimal.Pad2Injective | borkbak.py:55-64 | two different numbers below 100 never print as the same zero-padded two-digit field |
| Calendar.DateOfDayInjective | borkbak.py:117 | two day numbers give the same calendar date if and only if they are equal |
| Calendar.MomentOf | borkbak.py:117 | the broken-down time of a timestamp is a valid date with week ≤ 53, hour < 24 and minute < 60 |
| Calendar.MondayWeek | borkbak.py:58 | `%W` of a day is at most 53; `Calendar.MondayWeekSameYear` carries what it means |
| Calendar.MondayWeekSameYear | borkbak.py:58 | within one year, `%W` is equal for two days if and only if they lie in the same Monday-to-Sunday week |
| Calendar.SameMinute | borkbak.py:64 | two timestamps agree on date, hour and minute if and only if they lie in the same minute since the epoch |
| Calendar.SameDay | borkbak.py:61 | two timestamps fall on the same date if and only if they lie in the same day since the epoch |
| Retention.AgeDays | borkbak.py:51 | the age is the floor of the elapsed seconds over 86400, so it can be negative for a snapshot from the future |
| Retention.BucketOf | borkbak.py:53-64 | monthly if and only if age > 100; weekly if and only if 30 < age ≤ 100; daily if and only if 7 < age ≤ 30; original if and only if age ≤ 7, negative ages included |
| Retention.RetentionKey | borkbak.py:53-64 | the `strftime` key of a snapshot; its contract is carried by `Retention.KeyPrefix` and `Retention.SameKeyIffSamePeriod` |
| Retention.KeyPrefix | borkbak.py:53-64 | the key starts with `monthly-`, `weekly-`, `daily-` or `original-` according to the age alone |
| Retention.SameKeyIffSamePeriod | borkbak.py:53-66 | two snapshots get the same key if and only if their ages are in the same bucket and their times in the same month, the same `%W` week of the same year, the same day, or the same minute |
| History.SplitLines | borkbak.py:110 | no line of `splitlines()` contains a line break |
| History.SplitUnlines | borkbak.py:104-110 | splitting git's newline-terminated output gives back exactly its lines, empty ones included |
| History.ParseLine | borkbak.py:107-111 | a match yields a 40-character tree id and a non-empty run of digits |
| History.ParseLineIsSearch | borkbak.py:107-113 | on a line without line breaks, `ParseLine` finds a match if and only if the pattern matches at some position; that position is unique, and the groups are the 40 characters before the space and the digits after it |
| History.ParsedFromMatchingLines | borkbak.py:109-119 | one snapshot per matching line, in line order; each is built from its own line's groups (tree id, `int` of the digits, the digit text); a line contributes if and only if it matches |
| History.Reversed | borkbak.py:121 | element k of the result is element `n-1-k` of the input |
| History.GetBackups | borkbak.py:102-121 | the loop returns the reverse of the snapshots of the matching lines |
| History.OldestFirst | borkbak.py:104-121 | when git's log is newest first, the returned snapshots are oldest first |
| Selector.Select | borkbak.py:43-70 | the `occupied`/`keep` loop returns `Selection` of the keyed snapshots; the invariant keeps `occupied` equal to the key set of `keep` |
| Selector.SelectionCoversKeys | borkbak.py:66-70 | the keys kept are exactly the keys of all input snapshots, so after the loop `occupied` holds every key that occurred |
| Selector.SelectionKeysDistinct | borkbak.py:66-70 | no two kept entries share a key |
| Selector.SelectionIsSubsequence | borkbak.py:50-70 | every kept entry is an input entry, unchanged, and the kept entries keep their input order |
| Selector.KeptIffFirstWithKey | borkbak.py:66-70 | an input snapshot is kept if and only if no earlier snapshot has the same key |
| Selector.OldestWins | borkbak.py:66-70 | on oldest-first input, `keep` is oldest first and holds, for every key, the oldest snapshot with that key |
| Selector.NewestFirstLogKeepsOldest | borkbak.py:50-70 | when git's log is newest first, the snapshots reach the loop oldest first (borkbak.py:121), so `keep` is oldest first and every key keeps its oldest snapshot |
| Git.Strip | borkbak.py:99 | `ret.strip()`; its contract is carried by `Git.StripTrims` and `Git.StripPadded` |
| Git.StripTrims | borkbak.py:99 | `strip()` leaves `s` minus whitespace at both ends, and the rest neither starts nor ends with whitespace |
| Git.StripPadded | borkbak.py:99 | an id with any whitespace around it strips back to the id |
| Git.Repository.CommitTree | borkbak.py:97-98 | one `git commit-tree` run is logged, and its output is the oracle's answer for that run |
| Git.Repository.UpdateRef | borkbak.py:86 | one `git update-ref <ref> <target>` run is logged |
| Rebuild.CommitRequestFor | borkbak.py:92-98 | the argv, environment and stdin of one `git commit-tree` run; its contract is carried by `Rebuild.CommitRequestShape` |
| Rebuild.CommitRequestShape | borkbak.py:91-98 | the request is `git commit-tree <tree>`, with `-p <parent>` if and only if the parent is truthy; both dates are the original timestamp text, the identity entries are unchanged, and stdin is `key + "\n"` |
| Rebuild.CreateCommit | borkbak.py:91-99 | logs exactly that request and returns git's output stripped |
| Rebuild.ThreadAt | borkbak.py:76-80 | call i gets `commit_id` None if i = 0, else the id call i-1 returned, and it returns what `create_commit` gives for entry i |
| Rebuild.ThreadUnique | borkbak.py:76-80 | `Thread` is the one chain whose parents and ids obey those links |
| Rebuild.ParentLinks | borkbak.py:76-80 | the first commit has no parent; commit i+1 has commit i's id as parent unless that id is empty; each request carries entry i's tree, dates and message |
| Rebuild.ThreadCommits | borkbak.py:75-84 | the loop runs `create_commit` once per kept entry, in order, logs `Thread`'s requests and leaves `commit_id` at the last id (None for an empty list) |
| Rebuild.CommitEntry | borkbak.py:79-80 | one turn of the loop logs request i and returns id i of `Thread` |
| Rebuild.RunAsWritten | borkbak.py:43-86 | from git's log to the ref: the requests are those of `Thread` on `Selection` of `get_backups`, and update-ref runs with the last id, or raises TypeError when `commit_id` is None |
| Rebuild.EmptyIdStartsNewRoot | borkbak.py:80-94 | as written: when commit i gets an empty id, commit i+1 is created with no parent |
| Rebuild.NoMatchingLineRaises | borkbak.py:76-86 | as written: a log with no matching line ends in TypeError; corrected, it ends with nothing to do |
| Rebuild.CheckedChainIsLinked | borkbak.py:75-86 | corrected: never TypeError; nothing to do if and only if nothing was kept; a ref update targets a non-empty id after a chain in which each commit's parent is the previous commit; a stop names the first empty id |
| Rebuild.ThreadCommitsChecked | borkbak.py:79-80 | corrected loop: runs `create_commit` in order up to and including the first empty id, and reports that index |
| Rebuild.Run | borkbak.py:43-88 | corrected `borkbak()`: same selection and requests, stopped at the first empty id; `update-ref` runs only on a complete chain |

## Left out

- Local time: `datetime.fromtimestamp` and `datetime.now` work in the local time zone, with its daylight saving changes. The model decomposes timestamps in UTC in the proleptic Gregorian calendar, from 1970 onwards.
- `datetime.now()` is the parameter `now`, in whole seconds. Its fraction of a second cannot change `(now - timestamp).days`, because the snapshot times are whole seconds.
- Timestamps too large for the platform's `time_t`, or past the year 9999, make Python raise an error. The model still gives them a key.
- Command-line handling is left out: `optparse`, the usage error for positional arguments, `--quiet` and the never-used `--prune`. `--ref` is the parameter `ref`, and its default is `Rebuild.DefaultRef`.
- Progress and status printing is left out; it changes nothing git sees.
- `PWD` and `PATH` come from the process environment and are not part of the modelled environment.
- The global `MY_ENVIRON` is not kept as state. Each call overwrites both date entries, so the environment of every request is a function of its timestamp.
- The `git` processes are not modelled. `git log`'s output is the parameter `log`. `git commit-tree`'s output is the oracle `Repository.answer`, indexed by run number. The exit status of `git update-ref` is ignored, as the program ignores it.
- Python 2 byte strings are `seq<char>`. `\d` and `str.strip()` follow their ASCII meaning for byte strings.
- Rebuild.RunAsWritten: the TypeError that `subprocess.call` raises for a `None` argument becomes the outcome `TypeErrorRaised`. Its traceback and exit code are not modelled.

## Findings

| source | as written | input that shows it | evidently intended | confidence | as-written member | corrected member |
|---|---|---|---|---|---|---|
| borkbak.py:76-86 | `commit_id` stays `None` when `keep` is empty, and `git update-ref <ref> None` is attempted, which makes `subprocess.call` raise TypeError | a `git log` output with no line matching `.{40} \d+$`, such as the empty output of a repository without commits | nothing to keep means nothing to do: no commit and no ref update | high, not executed | Rebuild.NoMatchingLineRaises | Rebuild.Run |
| borkbak.py:80-99 | an empty `create_commit` result (git printed no id) is passed on as the next parent; `if parent:` treats it as false, so the next commit silently starts a new root and the rebuilt history is cut in two; if the empty id is the last one, `update-ref` gets an empty target | a `git commit-tree` run that prints nothing, e.g. for a tree object that is missing, on any entry before the last | stop at the failed commit, before any later commit and before `update-ref` | medium, not executed | Rebuild.EmptyIdStartsNewRoot | Rebuild.CheckedChainIsLinked |
