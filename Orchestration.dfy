/**
 * The `release` task: the token gate, then the configured steps run one at
 * a time in the listed order until one fails. The steps are abstract
 * actions; `outcome(i)` is what the action of step i reports when it runs.
 */
module Orchestration {
  import opened Wrappers
  import opened Text
  import opened Tasks
  import Packages

  /** Idle -> Running(i) -> Succeeded | Failed(i, err). */
  datatype RunState = Idle | Running(next: nat) | Succeeded | Failed(at: nat, error: Error)

  predicate IsTerminal(s: RunState)
  {
    s.Succeeded? || s.Failed?
  }

  /** One transition of a run of `count` steps. In Running(i) the action of
      step i runs, unless all steps are done. Terminal states stay put. */
  function Advance(s: RunState, count: nat, outcome: nat -> Outcome<Error>): (r: RunState)
    ensures r != Idle
    ensures IsTerminal(s) ==> r == s
    ensures r.Failed? && !s.Failed? ==> s == Running(r.at) && outcome(r.at).Fail?
  {
    match s
    case Idle => Running(0)
    case Running(i) =>
      if i >= count then Succeeded
      else if outcome(i).Pass? then Running(i + 1)
      else Failed(i, outcome(i).error)
    case Succeeded => s
    case Failed(_, _) => s
  }

  /** `fuel` transitions from `s`. */
  function Iterate(s: RunState, count: nat, outcome: nat -> Outcome<Error>, fuel: nat): RunState
    decreases fuel
  {
    if fuel == 0 then s else Iterate(Advance(s, count, outcome), count, outcome, fuel - 1)
  }

  /** The first failing step at or after `from`, if there is one. */
  function FirstFailure(count: nat, outcome: nat -> Outcome<Error>, from: nat): (f: Option<nat>)
    ensures f.Some? ==> from <= f.value < count && outcome(f.value).Fail?
    ensures f.Some? ==> forall j :: from <= j < f.value ==> outcome(j).Pass?
    ensures f.None? ==> forall j :: from <= j < count ==> outcome(j).Pass?
    decreases count - from
  {
    if from >= count then None
    else if outcome(from).Fail? then Some(from)
    else FirstFailure(count, outcome, from + 1)
  }

  /** The terminal state of a run: failed at the first failing step, with
      that step's error, or succeeded. */
  function Final(count: nat, outcome: nat -> Outcome<Error>): (r: RunState)
    ensures IsTerminal(r)
    ensures r == Succeeded <==> forall j :: 0 <= j < count ==> outcome(j).Pass?
    ensures r.Failed? ==> r.at < count && Fail(r.error) == outcome(r.at)
    ensures r.Failed? ==> forall j :: 0 <= j < r.at ==> outcome(j).Pass?
  {
    match FirstFailure(count, outcome, 0)
    case None => Succeeded
    case Some(i) => Failed(i, outcome(i).error)
  }

  /** 0, 1, ..., n - 1. */
  function Upto(n: nat): (r: seq<nat>)
    ensures |r| == n && forall k :: 0 <= k < n ==> r[k] == k
  {
    seq(n, k requires 0 <= k => k)
  }

  /** The steps whose action runs: every step up to and including the first
      failing one, or all of them. */
  function Invoked(count: nat, outcome: nat -> Outcome<Error>): (r: seq<nat>)
    ensures |r| <= count && r == Upto(|r|)
    ensures forall k :: 0 <= k < |r| - 1 ==> outcome(r[k]).Pass?
    ensures |r| < count ==> |r| > 0 && outcome(r[|r| - 1]).Fail?
  {
    match FirstFailure(count, outcome, 0)
    case None => Upto(count)
    case Some(i) => Upto(i + 1)
  }

  /** `run-sequence` over `count` steps: from Idle, one transition at a time,
      recording each step whose action runs, until a terminal state. */
  method RunSequence(count: nat, outcome: nat -> Outcome<Error>) returns (final: RunState, invoked: seq<nat>)
    ensures IsTerminal(final)
    ensures final == Final(count, outcome)
    ensures invoked == Invoked(count, outcome)
  {
    var state := Advance(Idle, count, outcome);
    invoked := [];
    while !IsTerminal(state)
      invariant state.Running? || IsTerminal(state)
      invariant state.Running? ==> state.next <= count
      invariant state.Running? ==> invoked == Upto(state.next)
      invariant state.Running? ==> forall j :: 0 <= j < state.next ==> outcome(j).Pass?
      invariant IsTerminal(state) ==> state == Final(count, outcome) && invoked == Invoked(count, outcome)
      decreases if state.Running? then count + 1 - state.next else 0
    {
      var i := state.next;
      if i < count {
        invoked := invoked + [i];
      }
      state := Advance(state, count, outcome);
      if IsTerminal(state) {
        SkipPassingPrefix(count, outcome, i);
      }
    }
    final := state;
  }

  /** The eight active steps of `release`, in order: the two checks first,
      `checkout-master` as step 4, and the version strip last. */
  function ReleaseSteps(): (steps: seq<string>)
    ensures |steps| == 8
    ensures steps[0] == "check-github" && steps[1] == "ensure-clean"
    ensures steps[4] == "checkout-master" && steps[7] == "strip-prerelease-version"
  {
    [ "check-github", "ensure-clean", "checkout-develop", "pull-develop",
      "checkout-master", "pull-master", "merge-develop", "strip-prerelease-version" ]
  }

  /** `release`: without a token it reports MissingToken and starts no step;
      with one it runs `steps` and hands the first error, or nothing, to the
      completion callback. */
  method Release(token: Option<string>, steps: seq<string>, outcome: nat -> Outcome<Error>)
    returns (final: RunState, invoked: seq<nat>, completion: Option<Error>)
    ensures !Truthy(token) ==> final == Idle && invoked == [] && completion == Some(MissingToken)
    ensures Truthy(token) ==> final == Final(|steps|, outcome) && invoked == Invoked(|steps|, outcome)
    ensures Truthy(token) ==> (completion.None? <==> final == Succeeded)
    ensures Truthy(token) && final.Failed? ==> completion == Some(final.error)
  {
    if !Truthy(token) {
      return Idle, [], Some(MissingToken);
    }
    final, invoked := RunSequence(|steps|, outcome);
    completion := if final.Failed? then Some(final.error) else None;
  }

  /** The names of the steps at `indices`. */
  function StepNames(steps: seq<string>, indices: seq<nat>): seq<string>
    requires forall k :: 0 <= k < |indices| ==> indices[k] < |steps|
  {
    seq(|indices|, k requires 0 <= k < |indices| => steps[indices[k]])
  }

  // ---------------------------------------------------------------------
  // Properties of a run
  // ---------------------------------------------------------------------

  /** When the steps before `i` all pass, the first failure from 0 is the
      first failure from `i`. */
  lemma {:induction false} SkipPassingPrefix(count: nat, outcome: nat -> Outcome<Error>, i: nat)
    requires forall j :: 0 <= j < i ==> outcome(j).Pass?
    ensures FirstFailure(count, outcome, 0) == FirstFailure(count, outcome, i)
    decreases i
  {
    if i > 0 {
      SkipPassingPrefix(count, outcome, i - 1);
      if i - 1 < count {
        assert FirstFailure(count, outcome, i - 1) == FirstFailure(count, outcome, i);
      }
    }
  }

  /** Terminal states absorb every further transition. */
  lemma {:induction false} TerminalIsAbsorbing(s: RunState, count: nat, outcome: nat -> Outcome<Error>, fuel: nat)
    requires IsTerminal(s)
    ensures Iterate(s, count, outcome, fuel) == s
    decreases fuel
  {
    if fuel > 0 {
      TerminalIsAbsorbing(s, count, outcome, fuel - 1);
    }
  }

  lemma {:induction false} RunningReachesFinal(count: nat, outcome: nat -> Outcome<Error>, i: nat, fuel: nat)
    requires i <= count && fuel >= count - i + 1
    requires forall j :: 0 <= j < i ==> outcome(j).Pass?
    ensures Iterate(Running(i), count, outcome, fuel) == Final(count, outcome)
    decreases count - i
  {
    SkipPassingPrefix(count, outcome, i);
    var next := Advance(Running(i), count, outcome);
    if i < count && outcome(i).Pass? {
      RunningReachesFinal(count, outcome, i + 1, fuel - 1);
    } else {
      TerminalIsAbsorbing(next, count, outcome, fuel - 1);
    }
  }

  /** The state machine, started in Idle, is in the terminal state `Final`
      after `count + 2` transitions and stays there. */
  lemma MachineReachesFinal(count: nat, outcome: nat -> Outcome<Error>, fuel: nat)
    requires fuel >= count + 2
    ensures Iterate(Idle, count, outcome, fuel) == Final(count, outcome)
    ensures IsTerminal(Final(count, outcome))
  {
    RunningReachesFinal(count, outcome, 0, fuel - 1);
  }

  /** A failed run failed at its first failing step, with that step's
      error; the steps before it ran and passed; no later step ran. */
  lemma NoStepAfterFirstFailure(count: nat, outcome: nat -> Outcome<Error>)
    requires Final(count, outcome).Failed?
    ensures var i := Final(count, outcome).at;
      && i < count
      && outcome(i) == Fail(Final(count, outcome).error)
      && (forall j :: 0 <= j < i ==> outcome(j).Pass?)
      && Invoked(count, outcome) == Upto(i + 1)
      && (forall j :: j in Invoked(count, outcome) ==> j <= i)
  {
  }

  /** A run succeeds exactly when every step passes, and then every step
      ran, in order. */
  lemma SucceededIffAllPass(count: nat, outcome: nat -> Outcome<Error>)
    ensures Final(count, outcome) == Succeeded <==> forall j :: 0 <= j < count ==> outcome(j).Pass?
    ensures Final(count, outcome) == Succeeded ==> Invoked(count, outcome) == Upto(count)
    ensures Final(count, outcome).Succeeded? || Final(count, outcome).Failed?
  {
  }

  /** What the steps after the first failure would report changes nothing:
      two runs whose outcomes agree up to a failing step end alike. */
  lemma LaterStepsAreIrrelevant(count: nat, o1: nat -> Outcome<Error>, o2: nat -> Outcome<Error>, i: nat)
    requires i < count && o1(i).Fail?
    requires forall j :: 0 <= j <= i ==> o1(j) == o2(j)
    ensures Final(count, o1) == Final(count, o2)
    ensures Invoked(count, o1) == Invoked(count, o2)
  {
    FirstFailureAgrees(count, o1, o2, i, 0);
  }

  lemma {:induction false} FirstFailureAgrees(count: nat, o1: nat -> Outcome<Error>, o2: nat -> Outcome<Error>, i: nat, from: nat)
    requires from <= i < count && o1(i).Fail?
    requires forall j :: from <= j <= i ==> o1(j) == o2(j)
    ensures FirstFailure(count, o1, from) == FirstFailure(count, o2, from)
    ensures FirstFailure(count, o1, from).Some? && FirstFailure(count, o1, from).value <= i
    decreases i - from
  {
    if o1(from).Pass? {
      FirstFailureAgrees(count, o1, o2, i, from + 1);
    }
  }

  // ---------------------------------------------------------------------
  // The release run with the concrete step decisions
  // ---------------------------------------------------------------------

  /** What the outside world answers during one release: the status reply,
      the porcelain status, the results of the five git steps (indexed by
      step), the branch checked out when the version is stripped, and the
      stored package document. */
  datatype ReleaseWorld = ReleaseWorld(
    reply: StatusReply,
    porcelain: Result<string, Error>,
    git: nat -> Outcome<Error>,
    branch: string,
    package: Packages.Document)

  /** The outcome of each of the eight release steps in `world`. */
  function ReleaseOutcome(world: ReleaseWorld): nat -> Outcome<Error>
  {
    (i: nat) =>
      if i == 0 then CheckGithub(world.reply)
      else if i == 1 then EnsureClean(world.porcelain)
      else if i == 7 then Packages.StripOutcome(world.branch, world.package)
      else world.git(i)
  }

  /** A degraded status stops the release at its first step. */
  lemma GithubDownStopsRelease(world: ReleaseWorld)
    requires world.reply.status != Some("good")
    ensures Final(|ReleaseSteps()|, ReleaseOutcome(world)) == Failed(0, GithubDown(world.reply.body))
    ensures StepNames(ReleaseSteps(), Invoked(|ReleaseSteps()|, ReleaseOutcome(world))) == ["check-github"]
  {
    assert ReleaseOutcome(world)(0).Fail?;
  }

  /** A dirty working tree stops the release after `ensure-clean`: no git
      step runs. */
  lemma DirtyTreeStopsRelease(world: ReleaseWorld)
    requires world.reply.status == Some("good")
    requires EnsureClean(world.porcelain).Fail?
    ensures Final(|ReleaseSteps()|, ReleaseOutcome(world)) == Failed(1, EnsureClean(world.porcelain).error)
    ensures StepNames(ReleaseSteps(), Invoked(|ReleaseSteps()|, ReleaseOutcome(world))) == ["check-github", "ensure-clean"]
  {
    var o := ReleaseOutcome(world);
    assert o(0) == CheckGithub(world.reply);
    assert o(1) == EnsureClean(world.porcelain);
    assert FirstFailure(|ReleaseSteps()|, o, 1) == Some(1);
  }

  /** When every step before it passes, the run ends at
      `strip-prerelease-version`'s branch guard unless the branch is
      `master`; on `master` with a readable record the whole release
      succeeds, having run all eight steps in order. */
  lemma StripDecidesRelease(world: ReleaseWorld)
    requires world.reply.status == Some("good")
    requires EnsureClean(world.porcelain).Pass?
    requires forall j :: 2 <= j < 7 ==> world.git(j).Pass?
    ensures world.branch != "master" ==> Final(|ReleaseSteps()|, ReleaseOutcome(world)) == Failed(7, NotOnMaster)
    ensures world.branch == "master" && Packages.ReadPackage(world.package).Success? ==>
      Final(|ReleaseSteps()|, ReleaseOutcome(world)) == Succeeded
    ensures StepNames(ReleaseSteps(), Invoked(|ReleaseSteps()|, ReleaseOutcome(world))) == ReleaseSteps()
  {
    var o := ReleaseOutcome(world);
    forall j | 0 <= j < 7 ensures o(j).Pass? {
      if j == 0 {
        assert o(j) == CheckGithub(world.reply);
      } else if j == 1 {
        assert o(j) == EnsureClean(world.porcelain);
      } else {
        assert o(j) == world.git(j);
      }
    }
    SkipPassingPrefix(|ReleaseSteps()|, o, 7);
    assert o(7) == Packages.StripOutcome(world.branch, world.package);
    if o(7).Fail? {
      assert FirstFailure(|ReleaseSteps()|, o, 7) == Some(7);
    } else {
      assert FirstFailure(|ReleaseSteps()|, o, 7) == None;
    }
  }

  /** Once `checkout-master` has succeeded, git reports `master` as the
      branch, so the guard of `strip-prerelease-version` can never end a
      release with "not on master". */
  lemma CheckoutMasterRulesOutNotOnMaster(world: ReleaseWorld)
    requires world.git(4).Pass? ==> world.branch == "master"
    ensures Final(|ReleaseSteps()|, ReleaseOutcome(world)) != Failed(7, NotOnMaster)
  {
    var o := ReleaseOutcome(world);
    assert o(4) == world.git(4);
    assert o(7) == Packages.StripOutcome(world.branch, world.package);
  }
}
