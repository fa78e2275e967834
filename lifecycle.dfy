/**
 * Revoking and restoring a user's access through easy-rsa. The external tool is not
 * run: each invocation is recorded as a `Command`, and how it ended (an exit status, or
 * a failure to start it at all) is an input. The index file `pki/index.txt` is a list
 * of lines, absent when the file does not exist; an index that exists but cannot be read
 * or rewritten is not represented.
 */
module Lifecycle {
  import opened Wrappers
  import opened Text
  import Certificates

  /** An invocation of `./easyrsa` in the easy-rsa directory. */
  datatype Command =
    | Revoke(name: string)              // `revoke <name>`, answered with "yes\n" on its input
    | GenCrl                            // `gen-crl`
    | BuildClientFull(name: string)     // `build-client-full <name> nopass`

  /** The argument vector of a command. */
  function Argv(c: Command): (argv: seq<string>)
    ensures |argv| >= 2 && argv[0] == "./easyrsa"
    ensures c.Revoke? || c.BuildClientFull? ==> |argv| >= 3 && argv[2] == c.name
    ensures argv[1] == match c
      case Revoke(_) => "revoke"
      case GenCrl => "gen-crl"
      case BuildClientFull(_) => "build-client-full"
    ensures c.Revoke? ==> |argv| == 3
    ensures c.GenCrl? ==> |argv| == 2
    ensures c.BuildClientFull? ==> |argv| == 4 && argv[3] == "nopass"
  {
    match c
    case Revoke(n) => ["./easyrsa", "revoke", n]
    case GenCrl => ["./easyrsa", "gen-crl"]
    case BuildClientFull(n) => ["./easyrsa", "build-client-full", n, "nopass"]
  }

  /** What is written to the command's standard input: only `revoke` is answered. */
  function Stdin(c: Command): (input: Option<string>)
    ensures input.Some? <==> c.Revoke?
    ensures input.Some? ==> input.value == "yes\n"
  {
    if c.Revoke? then Some("yes\n") else None
  }

  /** How a tool invocation ended: with an exit status, or by failing to start. */
  datatype ToolRun = Exited(code: int) | LaunchFailed

  datatype Step = RevokeStep | BuildStep | CrlStep

  /** The result the manager reports. */
  datatype Outcome =
    | Done                                // every step exited with status 0
    | StepFailed(step: Step, code: int)   // a step exited with a non-zero status
    | ToolError                           // an invocation raised (the tool could not be started)
    | NoEasyRsa                           // the easy-rsa directory does not exist

  datatype Report = Report(outcome: Outcome, calls: seq<Command>)

  // ---------------------------------------------------------------------------
  // Revoking
  // ---------------------------------------------------------------------------

  /**
   * The revoke workflow: nothing runs without the easy-rsa directory; otherwise `revoke`
   * runs, and `gen-crl` follows exactly when `revoke` exits with 0.
   */
  function RevokeFlow(present: bool, name: string, revokeRun: ToolRun, crlRun: ToolRun): (r: Report)
    ensures !present <==> r.outcome == NoEasyRsa
    ensures !present ==> r.calls == []
    ensures present ==> |r.calls| >= 1 && r.calls[0] == Revoke(name)
    ensures GenCrl in r.calls <==> present && revokeRun == Exited(0)
    ensures r.outcome == Done <==> present && revokeRun == Exited(0) && crlRun == Exited(0)
    ensures r.outcome.StepFailed? ==> r.outcome.code != 0 && r.outcome.step != BuildStep
    ensures forall c :: c in r.calls ==> c == Revoke(name) || c == GenCrl
    ensures present ==> r.calls == if revokeRun == Exited(0) then [Revoke(name), GenCrl] else [Revoke(name)]
    ensures present && revokeRun.Exited? && revokeRun.code != 0 ==>
      r == Report(StepFailed(RevokeStep, revokeRun.code), [Revoke(name)])
    ensures present && revokeRun == Exited(0) && crlRun.Exited? && crlRun.code != 0 ==>
      r == Report(StepFailed(CrlStep, crlRun.code), [Revoke(name), GenCrl])
    ensures r.outcome == ToolError <==>
      present && (revokeRun.LaunchFailed? || (revokeRun == Exited(0) && crlRun.LaunchFailed?))
  {
    if !present then Report(NoEasyRsa, [])
    else
      match revokeRun
      case LaunchFailed => Report(ToolError, [Revoke(name)])
      case Exited(code) =>
        if code != 0 then Report(StepFailed(RevokeStep, code), [Revoke(name)])
        else
          var calls := [Revoke(name), GenCrl];
          match crlRun
          case LaunchFailed => Report(ToolError, calls)
          case Exited(crlCode) =>
            if crlCode == 0 then Report(Done, calls) else Report(StepFailed(CrlStep, crlCode), calls)
  }

  // ---------------------------------------------------------------------------
  // Pruning the index
  // ---------------------------------------------------------------------------

  /** The text whose presence marks an index line as belonging to `name`. */
  function NameMarker(name: string): string {
    Certificates.CnMarker + name
  }

  /**
   * The index with the lines of `name` removed: a line goes when the marker occurs
   * anywhere in it, whatever its status letter; every other line stays, unchanged.
   */
  function Pruned(lines: seq<string>, name: string): (r: seq<string>)
    ensures |r| <= |lines|
    ensures forall l :: l in r <==> l in lines && !Contains(l, NameMarker(name))
  {
    if lines == [] then []
    else
      var init := lines[..|lines| - 1];
      var last := lines[|lines| - 1];
      assert lines == init + [last];
      Pruned(init, name) + (if Contains(last, NameMarker(name)) then [] else [last])
  }

  /** Pruning works line by line: the kept lines keep their order. */
  lemma {:induction false} PrunedAppend(a: seq<string>, b: seq<string>, name: string)
    ensures Pruned(a + b, name) == Pruned(a, name) + Pruned(b, name)
    decreases |b|
  {
    if b == [] {
      assert a + b == a;
    } else {
      var b' := b[..|b| - 1];
      assert (a + b)[..|a + b| - 1] == a + b';
      assert (a + b)[|a + b| - 1] == b[|b| - 1];
      PrunedAppend(a, b', name);
    }
  }

  /** An index without a line of `name` is left exactly as it was. */
  lemma {:induction false} PrunedKeepsOthers(lines: seq<string>, name: string)
    requires forall i :: 0 <= i < |lines| ==> !Contains(lines[i], NameMarker(name))
    ensures Pruned(lines, name) == lines
  {
    if lines != [] {
      var init := lines[..|lines| - 1];
      var last := lines[|lines| - 1];
      assert lines == init + [last];
      forall i | 0 <= i < |init| ensures !Contains(init[i], NameMarker(name)) {
        assert init[i] == lines[i];
      }
      PrunedKeepsOthers(init, name);
      calc {
        Pruned(lines, name);
        Pruned(init, name) + (if Contains(last, NameMarker(name)) then [] else [last]);
        { assert !Contains(last, NameMarker(name)); }
        init + [last];
      }
    }
  }

  /** An occurrence of `p + q` is an occurrence of `p`. */
  lemma ContainsPrefixOf(s: string, p: string, q: string)
    requires Contains(s, p + q)
    ensures Contains(s, p)
  {
    var i := ContainsWitness(s, p + q);
    assert s[i..][..|p|] == (p + q)[..|p|] == p;
    ContainsAt(s, p, i);
  }

  /**
   * Pruning `name` also removes the lines of every longer name that starts with it:
   * pruning `bob` removes `bobby`.
   */
  lemma PrunedDropsLongerNames(lines: seq<string>, name: string, suffix: string)
    ensures forall l :: l in Pruned(lines, name) ==> !Contains(l, NameMarker(name + suffix))
  {
    forall l | l in Pruned(lines, name) ensures !Contains(l, NameMarker(name + suffix)) {
      assert NameMarker(name + suffix) == NameMarker(name) + suffix;
      if Contains(l, NameMarker(name + suffix)) {
        ContainsPrefixOf(l, NameMarker(name), suffix);
      }
    }
  }

  /**
   * A name that keeps its line's newline, as the revoked listing yields it, only marks
   * lines that end with `/CN=<name>`: an index line whose only newline is its last
   * character is pruned for `name + "\n"` exactly when it ends with that marker, so the
   * lines of `bobby` stay when `bob` is restored under the name `bob\n`.
   */
  lemma NewlineNameMarksOnlyLineEnds(line: string, name: string)
    requires line != [] && forall k :: 0 <= k < |line| - 1 ==> line[k] != '\n'
    ensures Contains(line, NameMarker(name + "\n")) <==> EndsWith(line, NameMarker(name) + "\n")
  {
    var m := NameMarker(name + "\n");
    assert m == NameMarker(name) + "\n";
    if Contains(line, m) {
      var i := ContainsWitness(line, m);
      assert line[i..][..|m|] == m;
      assert line[i + |m| - 1] == m[|m| - 1] == '\n';
      assert i + |m| == |line|;
      assert line[|line| - |m|..] == line[i..][..|m|];
    }
    if EndsWith(line, m) {
      assert line[|line| - |m|..][..|m|] == m;
      ContainsAt(line, m, |line| - |m|);
    }
  }

  // ---------------------------------------------------------------------------
  // Restoring
  // ---------------------------------------------------------------------------

  datatype RestoreReport = RestoreReport(outcome: Outcome, calls: seq<Command>, index: Option<seq<string>>)

  /**
   * The restore workflow: the index, when it exists, is pruned first; then
   * `build-client-full` runs whether or not there was an index, and `gen-crl` follows
   * exactly when the build exits with 0.
   */
  function RestoreFlow(index: Option<seq<string>>, name: string, buildRun: ToolRun, crlRun: ToolRun): (r: RestoreReport)
    ensures r.index.Some? <==> index.Some?
    ensures index.Some? ==> r.index.value == Pruned(index.value, name)
    ensures |r.calls| >= 1 && r.calls[0] == BuildClientFull(name)
    ensures GenCrl in r.calls <==> buildRun == Exited(0)
    ensures r.outcome == Done <==> buildRun == Exited(0) && crlRun == Exited(0)
    ensures r.outcome != NoEasyRsa
    ensures r.outcome.StepFailed? ==> r.outcome.code != 0 && r.outcome.step != RevokeStep
    ensures forall c :: c in r.calls ==> c == BuildClientFull(name) || c == GenCrl
    ensures r.calls == if buildRun == Exited(0) then [BuildClientFull(name), GenCrl] else [BuildClientFull(name)]
    ensures buildRun.Exited? && buildRun.code != 0 ==> r.outcome == StepFailed(BuildStep, buildRun.code)
    ensures buildRun == Exited(0) && crlRun.Exited? && crlRun.code != 0 ==> r.outcome == StepFailed(CrlStep, crlRun.code)
    ensures r.outcome == ToolError <==> buildRun.LaunchFailed? || (buildRun == Exited(0) && crlRun.LaunchFailed?)
  {
    var pruned := if index.Some? then Some(Pruned(index.value, name)) else None;
    match buildRun
    case LaunchFailed => RestoreReport(ToolError, [BuildClientFull(name)], pruned)
    case Exited(code) =>
      if code != 0 then RestoreReport(StepFailed(BuildStep, code), [BuildClientFull(name)], pruned)
      else
        var calls := [BuildClientFull(name), GenCrl];
        match crlRun
        case LaunchFailed => RestoreReport(ToolError, calls, pruned)
        case Exited(crlCode) =>
          if crlCode == 0 then RestoreReport(Done, calls, pruned)
          else RestoreReport(StepFailed(CrlStep, crlCode), calls, pruned)
  }

  /** The index is pruned before the build runs, so how the tools end does not change it. */
  lemma RestorePrunesWhateverTheTools(index: Option<seq<string>>, name: string,
                                      build1: ToolRun, crl1: ToolRun, build2: ToolRun, crl2: ToolRun)
    ensures RestoreFlow(index, name, build1, crl1).index == RestoreFlow(index, name, build2, crl2).index
  {
  }

  // ---------------------------------------------------------------------------
  // The easy-rsa directory as state
  // ---------------------------------------------------------------------------

  /**
   * The easy-rsa directory the manager works in: whether it exists, its index file and
   * the log of the tool invocations made in it.
   */
  class EasyRsaDir {
    var present: bool
    var index: Option<seq<string>>
    var calls: seq<Command>

    /** The index file lives inside the directory. */
    predicate Valid()
      reads this
    {
      !present ==> index.None?
    }

    constructor(present: bool, index: Option<seq<string>>)
      requires present || index.None?
      ensures Valid()
      ensures this.present == present && this.index == index && calls == []
    {
      this.present := present;
      this.index := index;
      calls := [];
    }

    /** Rewrites the index line by line, writing back only the lines without the marker of `name`. */
    method PruneIndex(name: string)
      requires Valid() && index.Some?
      modifies this
      ensures Valid()
      ensures index == Some(Pruned(old(index.value), name))
      ensures present == old(present) && calls == old(calls)
    {
      var lines := index.value;
      var kept := [];
      for i := 0 to |lines|
        invariant kept == Pruned(lines[..i], name)
        invariant present == old(present) && calls == old(calls)
      {
        var line := lines[i];
        if !Contains(line, NameMarker(name)) {
          kept := kept + [line];
        }
        assert lines[..i + 1] == lines[..i] + [line];
        PrunedAppend(lines[..i], [line], name);
        assert [line][..0] == [];
      }
      assert lines[..|lines|] == lines;
      index := Some(kept);
    }

    /** Revokes `name`'s certificate and regenerates the CRL, as `RevokeFlow` describes. */
    method RevokeUser(name: string, revokeRun: ToolRun, crlRun: ToolRun) returns (outcome: Outcome)
      requires Valid()
      modifies this
      ensures Valid()
      ensures outcome == RevokeFlow(old(present), name, revokeRun, crlRun).outcome
      ensures calls == old(calls) + RevokeFlow(old(present), name, revokeRun, crlRun).calls
      ensures present == old(present) && index == old(index)
    {
      if !present {
        return NoEasyRsa;
      }
      calls := calls + [Revoke(name)];
      if revokeRun.LaunchFailed? {
        return ToolError;
      }
      if revokeRun.code != 0 {
        return StepFailed(RevokeStep, revokeRun.code);
      }
      calls := calls + [GenCrl];
      if crlRun.LaunchFailed? {
        return ToolError;
      }
      if crlRun.code == 0 {
        outcome := Done;
      } else {
        outcome := StepFailed(CrlStep, crlRun.code);
      }
    }

    /**
     * Prunes the index, rebuilds `name`'s certificate and regenerates the CRL, as
     * `RestoreFlow` describes. Without the directory the build cannot be started.
     */
    method RestoreUser(name: string, buildRun: ToolRun, crlRun: ToolRun) returns (outcome: Outcome)
      requires Valid()
      modifies this
      ensures Valid()
      ensures var r := RestoreFlow(old(index), name, if old(present) then buildRun else LaunchFailed, crlRun);
        outcome == r.outcome && calls == old(calls) + r.calls && index == r.index
      ensures present == old(present)
    {
      if index.Some? {
        PruneIndex(name);
      }
      var run := if present then buildRun else LaunchFailed;
      calls := calls + [BuildClientFull(name)];
      if run.LaunchFailed? {
        return ToolError;
      }
      if run.code != 0 {
        return StepFailed(BuildStep, run.code);
      }
      calls := calls + [GenCrl];
      if crlRun.LaunchFailed? {
        return ToolError;
      }
      if crlRun.code == 0 {
        outcome := Done;
      } else {
        outcome := StepFailed(CrlStep, crlRun.code);
      }
    }
  }

  /** Without the easy-rsa directory, restoring runs no tool to completion: the build fails to start. */
  lemma RestoreWithoutDirectoryFails(name: string, crlRun: ToolRun)
    ensures RestoreFlow(None, name, LaunchFailed, crlRun) == RestoreReport(ToolError, [BuildClientFull(name)], None)
  {
  }
}
