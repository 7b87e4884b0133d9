/**
 * The parts of git that borkbak drives through `subprocess`: `git commit-tree`,
 * whose printed commit id comes from an oracle the model does not look into,
 * and `git update-ref`, whose exit status borkbak never reads. The repository
 * object records every request in order.
 */
module Git {

  /** The whitespace Python 2 `str.strip()` removes: space, `\t`, `\n`, `\r`, `\v`, `\f`. */
  predicate IsSpace(c: char) {
    c == ' ' || c == '\t' || c == '\n' || c == '\r' || c as int == 11 || c as int == 12
  }

  predicate AllSpace(s: string) {
    forall i :: 0 <= i < |s| ==> IsSpace(s[i])
  }

  function StripLeft(s: string): string
    decreases |s|
  {
    if s == [] || !IsSpace(s[0]) then s else StripLeft(s[1..])
  }

  function StripRight(s: string): string
    decreases |s|
  {
    if s == [] || !IsSpace(s[|s| - 1]) then s else StripRight(s[..|s| - 1])
  }

  /** `str.strip()`: the text between the leading and the trailing whitespace. */
  function Strip(s: string): string {
    StripRight(StripLeft(s))
  }

  /** `StripLeft` drops a run of whitespace from the front and stops at the first other character. */
  lemma {:induction false} StripLeftTrims(s: string)
    ensures |StripLeft(s)| <= |s| && StripLeft(s) == s[|s| - |StripLeft(s)|..]
    ensures AllSpace(s[..|s| - |StripLeft(s)|])
    ensures StripLeft(s) == [] || !IsSpace(StripLeft(s)[0])
    decreases |s|
  {
    if s != [] && IsSpace(s[0]) {
      StripLeftTrims(s[1..]);
      var r := StripLeft(s[1..]);
      assert s[..|s| - |r|] == [s[0]] + s[1..][..|s| - 1 - |r|];
    }
  }

  /** `StripRight` drops a run of whitespace from the back and stops at the last other character. */
  lemma {:induction false} StripRightTrims(s: string)
    ensures |StripRight(s)| <= |s| && StripRight(s) == s[..|StripRight(s)|]
    ensures AllSpace(s[|StripRight(s)|..])
    ensures StripRight(s) == [] || !IsSpace(StripRight(s)[|StripRight(s)| - 1])
    decreases |s|
  {
    if s != [] && IsSpace(s[|s| - 1]) {
      StripRightTrims(s[..|s| - 1]);
      var r := StripRight(s[..|s| - 1]);
      assert s[|r|..] == s[..|s| - 1][|r|..] + [s[|s| - 1]];
    }
  }

  /**
   * `Strip(s)` is `s` with whitespace cut from both ends, and what is left
   * neither starts nor ends with whitespace.
   */
  lemma StripTrims(s: string)
    ensures Strip(s) == [] || (!IsSpace(Strip(s)[0]) && !IsSpace(Strip(s)[|Strip(s)| - 1]))
    ensures exists lead, trail :: AllSpace(lead) && AllSpace(trail) && s == lead + Strip(s) + trail
  {
    var l := StripLeft(s);
    StripLeftTrims(s);
    StripRightTrims(l);
    var r := StripRight(l);
    var lead, trail := s[..|s| - |l|], l[|r|..];
    assert l == r + trail;
    assert s == lead + r + trail;
  }

  lemma {:induction false} StripLeftPadded(lead: string, rest: string)
    requires AllSpace(lead) && (rest == [] || !IsSpace(rest[0]))
    ensures StripLeft(lead + rest) == rest
    decreases |lead|
  {
    if lead != [] {
      assert (lead + rest)[1..] == lead[1..] + rest;
      StripLeftPadded(lead[1..], rest);
    } else {
      assert lead + rest == rest;
    }
  }

  lemma {:induction false} StripRightPadded(rest: string, trail: string)
    requires AllSpace(trail) && (rest == [] || !IsSpace(rest[|rest| - 1]))
    ensures StripRight(rest + trail) == rest
    decreases |trail|
  {
    if trail != [] {
      assert (rest + trail)[..|rest + trail| - 1] == rest + trail[..|trail| - 1];
      StripRightPadded(rest, trail[..|trail| - 1]);
    } else {
      assert rest + trail == rest;
    }
  }

  /**
   * The id git prints, with any whitespace around it, strips back to the id: the
   * `\n` that ends git's output never reaches the next `-p` argument.
   */
  lemma StripPadded(lead: string, id: string, trail: string)
    requires AllSpace(lead) && AllSpace(trail)
    requires id == [] || (!IsSpace(id[0]) && !IsSpace(id[|id| - 1]))
    ensures Strip(lead + id + trail) == id
  {
    assert lead + id + trail == lead + (id + trail);
    if id == [] {
      assert id + trail == trail;
      AllSpaceStripsToEmpty(trail);
      AllSpaceStripsToEmpty(lead + trail);
    } else {
      StripLeftPadded(lead, id + trail);
      StripRightPadded(id, trail);
    }
  }

  /** Whitespace alone strips to nothing. */
  lemma {:induction false} AllSpaceStripsToEmpty(s: string)
    requires AllSpace(s)
    ensures StripLeft(s) == []
    decreases |s|
  {
    if s != [] {
      AllSpaceStripsToEmpty(s[1..]);
    }
  }

  /** One run of `git commit-tree`: its argument vector, its environment and what it reads on stdin. */
  datatype CommitRequest = CommitRequest(args: seq<string>, env: map<string, string>, input: string)

  /** One run of `git update-ref <ref> <target>`. */
  datatype RefUpdate = RefUpdate(ref: string, target: string)

  class Repository {
    /** What `git commit-tree` prints on its n-th run for a request; git itself is not part of the model. */
    const answer: (nat, CommitRequest) -> string
    /** Every `git commit-tree` run so far, in order. */
    var commitRequests: seq<CommitRequest>
    /** Every `git update-ref` run so far, in order. */
    var refUpdates: seq<RefUpdate>

    constructor (answer: (nat, CommitRequest) -> string)
      ensures this.answer == answer && commitRequests == [] && refUpdates == []
    {
      this.answer := answer;
      commitRequests := [];
      refUpdates := [];
    }

    /** Runs `git commit-tree` and returns its standard output. */
    method CommitTree(req: CommitRequest) returns (out: string)
      modifies this
      ensures commitRequests == old(commitRequests) + [req]
      ensures refUpdates == old(refUpdates)
      ensures out == answer(|old(commitRequests)|, req)
    {
      out := answer(|commitRequests|, req);
      commitRequests := commitRequests + [req];
    }

    /** Runs `git update-ref`; borkbak ignores its exit status, so nothing is returned. */
    method UpdateRef(ref: string, target: string)
      modifies this
      ensures refUpdates == old(refUpdates) + [RefUpdate(ref, target)]
      ensures commitRequests == old(commitRequests)
    {
      refUpdates := refUpdates + [RefUpdate(ref, target)];
    }
  }
}
