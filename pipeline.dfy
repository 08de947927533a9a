/**
 What one build does, as functions of its inputs: the checkout outcome of
 each component and the outcome each step's command would have are given
 (checkout and the command runner are external), and from them follow
 the record's statuses, the external calls made, and the text fed to the
 fingerprint digest.
 */
module Pipeline {
  import opened Text
  import opened ProjectTypes
  import opened Records

  /** What checking out one component gave: the commit reported (on
      failure, whatever the checkout returned: the requested ref, or
      `ERROR`), whether it succeeded, and how long it took. */
  datatype CheckoutOutcome = CheckoutOutcome(commit: string, ok: bool, duration: int)

  /** What running one step's command gave, and the duration the build
      measures for the step (also measured when the step is skipped). */
  datatype StepOutcome = StepOutcome(ok: bool, duration: int)

  /** An external call the build makes. */
  datatype Effect =
    | Checkout(url: string, name: string, revision: string, root: string)
    | Run(directory: string, program: string, args: seq<string>)

  // ---------------------------------------------------------------------
  // Checkout phase

  function CheckoutStatus(outcome: CheckoutOutcome): BuildStatus
  {
    if outcome.ok then Ok else Failed
  }

  /** The components map of a finished build: every component's record
      carries its own checkout's status, duration and commit, whatever
      happened to the others. */
  function CheckoutRecords(components: map<string, Component>, checkouts: map<string, CheckoutOutcome>): (r: map<string, CheckoutRecord>)
    requires components.Keys <= checkouts.Keys
    ensures r.Keys == components.Keys
  {
    map k | k in components ::
      CheckoutRecord(checkouts[k].duration, CheckoutStatus(checkouts[k]), components[k].name, components[k].url, checkouts[k].commit)
  }

  /** Whether some component failed to check out. */
  ghost predicate CheckoutFailed(components: map<string, Component>, checkouts: map<string, CheckoutOutcome>)
    requires components.Keys <= checkouts.Keys
  {
    exists k :: k in components && !checkouts[k].ok
  }

  /** The checkout calls made for `names`, in that order. */
  function CheckoutCalls(names: seq<string>, components: map<string, Component>, root: string): (r: seq<Effect>)
    requires forall k :: k in names ==> k in components
    ensures |r| == |names|
  {
    if names == [] then
      []
    else
      var c := components[names[|names| - 1]];
      CheckoutCalls(names[..|names| - 1], components, root) + [Checkout(c.url, c.name, c.revision, root)]
  }

  /** The `i`-th checkout call checks out the component named `names[i]`
      from its declared url and revision. */
  lemma {:induction false} CheckoutCallsAt(names: seq<string>, components: map<string, Component>, root: string, i: nat)
    requires forall k :: k in names ==> k in components
    requires i < |names|
    ensures var c := components[names[i]];
            CheckoutCalls(names, components, root)[i] == Checkout(c.url, c.name, c.revision, root)
    decreases |names|
  {
    if i < |names| - 1 {
      var init := names[..|names| - 1];
      CheckoutCallsAt(init, components, root, i);
    }
  }

  /** The build makes one checkout call per component, and the `i`-th
      checks out the `i`-th component in ascending name order, whatever
      the checkouts give. */
  lemma BuildChecksOutInOrder(components: map<string, Component>, root: string, i: nat)
    requires i < |components|
    ensures var names := SortedNames(components.Keys);
            var calls := CheckoutCalls(names, components, root);
            && |calls| == |components|
            && calls[i] == Checkout(components[names[i]].url, components[names[i]].name, components[names[i]].revision, root)
            && forall j :: i < j < |names| ==> LessEq(names[i], names[j]) && names[i] != names[j]
  {
    var names := SortedNames(components.Keys);
    EnumerationLength(names, components.Keys);
    CheckoutCallsAt(names, components, root, i);
  }

  /** Whether one of the checkouts of `names` failed. */
  function AnyFailed(names: seq<string>, checkouts: map<string, CheckoutOutcome>): bool
    requires forall k :: k in names ==> k in checkouts
  {
    if names == [] then false
    else AnyFailed(names[..|names| - 1], checkouts) || !checkouts[names[|names| - 1]].ok
  }

  /** The components map after `SetRevision` has recorded the checkouts
      of `names`, one after the other, into `records`. */
  function RecordCheckouts(records: map<string, CheckoutRecord>, names: seq<string>, checkouts: map<string, CheckoutOutcome>): map<string, CheckoutRecord>
    requires forall k :: k in names ==> k in checkouts
  {
    if names == [] then
      records
    else
      var k := names[|names| - 1];
      var outcome := checkouts[k];
      WithRevision(RecordCheckouts(records, names[..|names| - 1], checkouts), k, outcome.commit, outcome.duration, CheckoutStatus(outcome))
  }

  /** Recording checkouts adds no component beyond those recorded. */
  lemma {:induction false} RecordCheckoutsKeys(records: map<string, CheckoutRecord>, names: seq<string>, checkouts: map<string, CheckoutOutcome>)
    requires forall k :: k in names ==> k in checkouts
    requires forall k :: k in names ==> k in records
    ensures RecordCheckouts(records, names, checkouts).Keys == records.Keys
    decreases |names|
  {
    if names != [] {
      RecordCheckoutsKeys(records, names[..|names| - 1], checkouts);
    }
  }

  /** Recording the checkouts of distinct components one by one gives
      component `k` its own outcome if it is among them, and leaves it
      alone otherwise. */
  lemma {:induction false} RecordCheckoutsAt(
    records: map<string, CheckoutRecord>, names: seq<string>, checkouts: map<string, CheckoutOutcome>, k: string)
    requires Distinct(names) && forall x :: x in names ==> x in checkouts
    requires k in records
    ensures var r := RecordCheckouts(records, names, checkouts);
            && k in r
            && (k in names ==> r[k] == records[k].(revision := checkouts[k].commit, duration := checkouts[k].duration,
                                                   status := CheckoutStatus(checkouts[k])))
            && (k !in names ==> r[k] == records[k])
    decreases |names|
  {
    if names != [] {
      var init := names[..|names| - 1];
      var last := names[|names| - 1];
      assert Distinct(init);
      RecordCheckoutsAt(records, init, checkouts, k);
      if k == last {
        assert k !in init by {
          forall i | 0 <= i < |init| ensures init[i] != k {
            assert names[i] != names[|names| - 1];
          }
        }
      } else {
        assert k in names <==> k in init by {
          assert names == init + [last];
        }
      }
    }
  }

  /** Recording every component's checkout into a fresh record gives the
      components map of a finished build. */
  lemma {:induction false} RecordAllCheckouts(
    records: map<string, CheckoutRecord>, names: seq<string>,
    components: map<string, Component>, checkouts: map<string, CheckoutOutcome>)
    requires Enumerates(names, components.Keys) && components.Keys <= checkouts.Keys
    requires records.Keys == components.Keys
    requires forall k :: k in components ==> records[k] == FreshCheckout(components[k])
    ensures RecordCheckouts(records, names, checkouts) == CheckoutRecords(components, checkouts)
  {
    RecordCheckoutsKeys(records, names, checkouts);
    forall k | k in components
      ensures RecordCheckouts(records, names, checkouts)[k] == CheckoutRecords(components, checkouts)[k]
    {
      RecordCheckoutsAt(records, names, checkouts, k);
    }
  }

  /** What one more checkout adds to each fold of the checkout phase. */
  lemma CheckoutFoldsSnoc(
    records: map<string, CheckoutRecord>, names: seq<string>, components: map<string, Component>,
    checkouts: map<string, CheckoutOutcome>, root: string, n: nat)
    requires forall k :: k in names ==> k in components && k in checkouts
    requires n < |names|
    ensures var k := names[n];
            && RecordCheckouts(records, names[..n + 1], checkouts)
               == WithRevision(RecordCheckouts(records, names[..n], checkouts), k, checkouts[k].commit,
                               checkouts[k].duration, CheckoutStatus(checkouts[k]))
            && AnyFailed(names[..n + 1], checkouts) == (AnyFailed(names[..n], checkouts) || !checkouts[k].ok)
            && ComponentLines(names[..n + 1], components, Commits(checkouts))
               == ComponentLines(names[..n], components, Commits(checkouts)) + ComponentLine(components[k], checkouts[k].commit)
            && CheckoutCalls(names[..n + 1], components, root)
               == CheckoutCalls(names[..n], components, root)
                  + [Checkout(components[k].url, components[k].name, components[k].revision, root)]
  {
    assert names[..n + 1][..n] == names[..n];
  }

  /** Some checkout failed exactly when one of an enumeration of the
      components did. */
  lemma {:induction false} AnyFailedExactly(names: seq<string>, checkouts: map<string, CheckoutOutcome>)
    requires forall k :: k in names ==> k in checkouts
    ensures AnyFailed(names, checkouts) <==> exists k :: k in names && !checkouts[k].ok
    decreases |names|
  {
    if names != [] {
      var init := names[..|names| - 1];
      AnyFailedExactly(init, checkouts);
      assert forall k :: k in names <==> k in init || k == names[|names| - 1];
    }
  }

  /** The commit each checkout reported. */
  function Commits(checkouts: map<string, CheckoutOutcome>): (r: map<string, string>)
    ensures r.Keys == checkouts.Keys
  {
    map k | k in checkouts :: checkouts[k].commit
  }

  // ---------------------------------------------------------------------
  // Step phase

  /** The status of a step reached with the failure flag `failed`. */
  function StepStatus(failed: bool, outcome: StepOutcome): BuildStatus
  {
    if failed then Skipped else if outcome.ok then Ok else Failed
  }

  /** The failure flag after the steps with `outcomes`, starting from `failed`. */
  function FailedAfter(failed: bool, outcomes: seq<StepOutcome>): bool
  {
    if outcomes == [] then
      failed
    else
      FailedAfter(failed, outcomes[..|outcomes| - 1]) || !outcomes[|outcomes| - 1].ok
  }

  /** The statuses the steps receive, in declaration order, when the step
      phase starts with the failure flag `failed`. */
  function StepStatuses(failed: bool, outcomes: seq<StepOutcome>): (r: seq<BuildStatus>)
    ensures |r| == |outcomes|
  {
    if outcomes == [] then
      []
    else
      var before := outcomes[..|outcomes| - 1];
      StepStatuses(failed, before) + [StepStatus(FailedAfter(failed, before), outcomes[|outcomes| - 1])]
  }

  /** The step records of a finished build. */
  function StepRecords(failed: bool, steps: seq<BuildStep>, outcomes: seq<StepOutcome>): (r: seq<StepRecord>)
    requires |outcomes| == |steps|
    ensures |r| == |steps|
  {
    var statuses := StepStatuses(failed, outcomes);
    seq(|steps|, i requires 0 <= i < |steps| => StepRecord(outcomes[i].duration, statuses[i], steps[i].directory, steps[i].command))
  }

  /** The step list after `SetStatus` has recorded the statuses of the
      first `|outcomes|` steps, one after the other, into `records`. */
  function RecordSteps(records: seq<StepRecord>, failed: bool, outcomes: seq<StepOutcome>): (r: seq<StepRecord>)
    requires |outcomes| <= |records|
    ensures |r| == |records|
  {
    if outcomes == [] then
      records
    else
      var n := |outcomes| - 1;
      var before := outcomes[..n];
      WithStatus(RecordSteps(records, failed, before), n, StepStatus(FailedAfter(failed, before), outcomes[n]), outcomes[n].duration)
  }

  /** Recording the statuses of the first steps leaves the later ones
      as they were, and gives the earlier ones their build statuses. */
  lemma {:induction false} RecordStepsEntries(records: seq<StepRecord>, failed: bool, outcomes: seq<StepOutcome>, i: nat)
    requires |outcomes| <= |records| && i < |records|
    ensures var r := RecordSteps(records, failed, outcomes);
            && r[i].directory == records[i].directory && r[i].command == records[i].command
            && (i < |outcomes| ==> r[i].status == StepStatuses(failed, outcomes)[i] && r[i].duration == outcomes[i].duration)
            && (i >= |outcomes| ==> r[i] == records[i])
    decreases |outcomes|
  {
    if outcomes != [] {
      var n := |outcomes| - 1;
      RecordStepsEntries(records, failed, outcomes[..n], i);
    }
  }

  /** Recording every step's status into a fresh step list gives the
      step records of a finished build. */
  lemma {:induction false} RecordAllSteps(steps: seq<BuildStep>, records: seq<StepRecord>, failed: bool, outcomes: seq<StepOutcome>)
    requires |records| == |steps| == |outcomes|
    requires forall i :: 0 <= i < |steps| ==> records[i] == FreshStep(steps[i])
    ensures RecordSteps(records, failed, outcomes) == StepRecords(failed, steps, outcomes)
  {
    forall i | 0 <= i < |steps|
      ensures RecordSteps(records, failed, outcomes)[i] == StepRecords(failed, steps, outcomes)[i]
    {
      RecordStepsEntries(records, failed, outcomes, i);
    }
  }

  /** The commands launched by the step phase: a step's command is run
      exactly when the failure flag is clear on reaching it. */
  function StepRuns(failed: bool, steps: seq<BuildStep>, outcomes: seq<StepOutcome>, root: string): (r: seq<Effect>)
    requires |outcomes| == |steps|
    requires forall i :: 0 <= i < |steps| ==> |steps[i].command| > 0
    ensures |r| <= |steps|
    ensures failed ==> r == []
  {
    if steps == [] then
      []
    else
      var n := |steps| - 1;
      var earlier := StepRuns(failed, steps[..n], outcomes[..n], root);
      if FailedAfter(failed, outcomes[..n]) then
        earlier
      else
        earlier + [Run(root + "/" + steps[n].directory, steps[n].command[0], steps[n].command[1..])]
  }

  /** What one more step adds to each fold of the step phase. */
  lemma StepFoldsSnoc(
    records: seq<StepRecord>, failed: bool, steps: seq<BuildStep>, outcomes: seq<StepOutcome>, root: string, n: nat)
    requires |outcomes| == |steps| == |records| && n < |steps|
    requires forall i :: 0 <= i < |steps| ==> |steps[i].command| > 0
    ensures var before := FailedAfter(failed, outcomes[..n]);
            && RecordSteps(records, failed, outcomes[..n + 1])
               == WithStatus(RecordSteps(records, failed, outcomes[..n]), n, StepStatus(before, outcomes[n]), outcomes[n].duration)
            && FailedAfter(failed, outcomes[..n + 1]) == (before || !outcomes[n].ok)
            && StepLines(steps[..n + 1]) == StepLines(steps[..n]) + steps[n].directory + CommandLines(steps[n].command) + "\n"
            && StepRuns(failed, steps[..n + 1], outcomes[..n + 1], root)
               == StepRuns(failed, steps[..n], outcomes[..n], root)
                  + if before then [] else [Run(root + "/" + steps[n].directory, steps[n].command[0], steps[n].command[1..])]
  {
    assert steps[..n + 1][..n] == steps[..n];
    assert outcomes[..n + 1][..n] == outcomes[..n];
  }

  /** The failure flag is set after some steps exactly when it was set
      before them or one of them did not succeed. */
  lemma {:induction false} FailedAfterExactly(failed: bool, outcomes: seq<StepOutcome>)
    ensures FailedAfter(failed, outcomes) <==> failed || exists j :: 0 <= j < |outcomes| && !outcomes[j].ok
    decreases |outcomes|
  {
    if outcomes != [] {
      var before := outcomes[..|outcomes| - 1];
      FailedAfterExactly(failed, before);
      assert forall j :: 0 <= j < |before| ==> before[j] == outcomes[j];
    }
  }

  /** Step `i` is skipped exactly when a checkout failed or an earlier step
      failed; otherwise it has its command's outcome. */
  lemma {:induction false} StepStatusExactly(failed: bool, outcomes: seq<StepOutcome>, i: nat)
    requires i < |outcomes|
    ensures StepStatuses(failed, outcomes)[i]
            == if failed || exists j :: 0 <= j < i && !outcomes[j].ok then Skipped
               else if outcomes[i].ok then Ok else Failed
    decreases |outcomes|
  {
    var before := outcomes[..|outcomes| - 1];
    if i < |before| {
      StepStatusExactly(failed, before, i);
      assert forall j :: 0 <= j <= i ==> before[j] == outcomes[j];
    } else {
      FailedAfterExactly(failed, before);
      assert forall j :: 0 <= j < i ==> before[j] == outcomes[j];
    }
  }

  /** Every step ends OK, failed or skipped. */
  lemma {:induction false} StatusesAreOutcomes(failed: bool, outcomes: seq<StepOutcome>, i: nat)
    requires i < |outcomes|
    ensures StepStatuses(failed, outcomes)[i].IsOutcome()
  {
    StepStatusExactly(failed, outcomes, i);
  }

  /** After a failing step every later step is skipped. */
  lemma SkipCascade(failed: bool, outcomes: seq<StepOutcome>, i: nat, j: nat)
    requires i < j < |outcomes|
    requires StepStatuses(failed, outcomes)[i] == Failed
    ensures StepStatuses(failed, outcomes)[j] == Skipped
  {
    StepStatusExactly(failed, outcomes, i);
    StepStatusExactly(failed, outcomes, j);
  }

  /** A step's status depends only on the outcomes up to it: appending
      steps leaves the statuses already given unchanged. */
  lemma {:induction false} StatusesPrefix(failed: bool, outcomes: seq<StepOutcome>, n: nat)
    requires n <= |outcomes|
    ensures StepStatuses(failed, outcomes)[..n] == StepStatuses(failed, outcomes[..n])
    decreases |outcomes|
  {
    if n < |outcomes| {
      var before := outcomes[..|outcomes| - 1];
      StatusesPrefix(failed, before, n);
      assert before[..n] == outcomes[..n];
    } else {
      assert outcomes[..n] == outcomes;
    }
  }

  /** With a failed checkout every step is skipped and no command runs. */
  lemma {:induction false} CheckoutFailureSkipsAll(steps: seq<BuildStep>, outcomes: seq<StepOutcome>, root: string)
    requires |outcomes| == |steps|
    requires forall i :: 0 <= i < |steps| ==> |steps[i].command| > 0
    ensures forall i :: 0 <= i < |outcomes| ==> StepStatuses(true, outcomes)[i] == Skipped
    ensures StepRuns(true, steps, outcomes, root) == []
    decreases |steps|
  {
    forall i | 0 <= i < |outcomes| ensures StepStatuses(true, outcomes)[i] == Skipped {
      StepStatusExactly(true, outcomes, i);
    }
    if steps != [] {
      var n := |steps| - 1;
      CheckoutFailureSkipsAll(steps[..n], outcomes[..n], root);
      FailedAfterExactly(true, outcomes[..n]);
    }
  }

  /** Once step `i` has failed no further command runs: the commands run
      are those of the steps up to `i`. */
  lemma {:induction false} NoRunAfterFailure(failed: bool, steps: seq<BuildStep>, outcomes: seq<StepOutcome>, root: string, i: nat)
    requires |outcomes| == |steps|
    requires forall k :: 0 <= k < |steps| ==> |steps[k].command| > 0
    requires i < |steps| && StepStatuses(failed, outcomes)[i] == Failed
    ensures StepRuns(failed, steps, outcomes, root) == StepRuns(failed, steps[..i + 1], outcomes[..i + 1], root)
    decreases |steps|
  {
    var n := |steps| - 1;
    if i < n {
      StatusesPrefix(failed, outcomes, n);
      assert StepStatuses(failed, outcomes[..n])[i] == Failed;
      NoRunAfterFailure(failed, steps[..n], outcomes[..n], root, i);
      assert steps[..n][..i + 1] == steps[..i + 1];
      assert outcomes[..n][..i + 1] == outcomes[..i + 1];
      StepStatusExactly(failed, outcomes, i);
      FailedAfterExactly(failed, outcomes[..n]);
      assert outcomes[..n][i] == outcomes[i];
    } else {
      assert steps[..i + 1] == steps && outcomes[..i + 1] == outcomes;
    }
  }

  // ---------------------------------------------------------------------
  // Fingerprint input

  /** `url name commit` and a newline. */
  function ComponentLine(c: Component, commit: string): string
  {
    c.url + " " + c.name + " " + commit + "\n"
  }

  function ComponentLines(names: seq<string>, components: map<string, Component>, commits: map<string, string>): string
    requires forall k :: k in names ==> k in components && k in commits
  {
    if names == [] then
      ""
    else
      var k := names[|names| - 1];
      ComponentLines(names[..|names| - 1], components, commits) + ComponentLine(components[k], commits[k])
  }

  /** `i: arg` and a newline for each element of a command. */
  function CommandLines(command: seq<string>): string
  {
    if command == [] then
      ""
    else
      var i := |command| - 1;
      CommandLines(command[..i]) + Decimal(i) + ": " + command[i] + "\n"
  }

  /** A step's directory, its command lines, and an empty line. */
  function StepLines(steps: seq<BuildStep>): string
  {
    if steps == [] then
      ""
    else
      var s := steps[|steps| - 1];
      StepLines(steps[..|steps| - 1]) + s.directory + CommandLines(s.command) + "\n"
  }

  /** The text fed to the digest: the components in ascending name order
      with the commits their checkouts reported, then every declared step.
      Step outcomes do not enter it, so it is the same whether the steps
      ran, failed or were skipped. */
  ghost function FingerprintInput(components: map<string, Component>, commits: map<string, string>, steps: seq<BuildStep>): string
    requires components.Keys <= commits.Keys
  {
    "Components:\n" + ComponentLines(SortedNames(components.Keys), components, commits) + "Steps:\n" + StepLines(steps)
  }

  /** A single component name is its own ascending order. */
  lemma SortedSingleton(name: string)
    ensures SortedNames({name}) == [name]
  {
    var names := SortedNames({name});
    DistinctOccurrences(names, name);
    assert multiset(names) == multiset{name} by {
      forall x ensures multiset(names)[x] == multiset{name}[x] {
        if x != name {
          assert x !in names;
        }
      }
    }
    assert |names| == 1;
    assert names[0] in names;
  }

  /** The component lines of a single component. */
  lemma SingleComponentLines(c: Component, commit: string)
    ensures ComponentLines([c.name], map[c.name := c], map[c.name := commit]) == ComponentLine(c, commit)
  {
    assert [c.name][..0] == [];
  }

  /** The step lines of a single one-word step. */
  lemma SingleStepLines(step: BuildStep, program: string)
    requires step.command == [program]
    ensures StepLines([step]) == step.directory + "0: " + program + "\n" + "\n"
  {
    assert CommandLines(step.command) == "0: " + program + "\n" by {
      assert step.command[..0] == [];
      assert Decimal(0) + ": " == "0: ";
    }
    assert [step][..0] == [];
  }

  /** A project with one component, checked out at `commit`, and one
      step running a single program fingerprints the text
      `Components:\n<url> <name> <commit>\nSteps:\n<dir>0: <program>\n\n`. */
  lemma FingerprintExample(c: Component, commit: string, step: BuildStep, program: string)
    requires step.command == [program]
    ensures FingerprintInput(map[c.name := c], map[c.name := commit], [step])
            == "Components:\n" + (c.url + " " + c.name + " " + commit + "\n")
               + "Steps:\n" + (step.directory + "0: " + program + "\n" + "\n")
  {
    var components := map[c.name := c];
    assert components.Keys == {c.name};
    SortedSingleton(c.name);
    SingleComponentLines(c, commit);
    SingleStepLines(step, program);
  }
}
