/**
 A build project and its build: check out every component in ascending
 name order, then run the steps in declaration order, skipping every step
 once a checkout or a step has failed, while feeding the declared inputs
 to the fingerprint digest.
 */
module Projects {
  import opened Text
  import opened ProjectTypes
  import opened Records
  import opened Environment
  import opened Pipeline

  class Project {
    var name: string
    var components: map<string, Component>
    var steps: seq<BuildStep>
    var env: map<string, string>

    /** `NewProject`: an unnamed project with nothing declared. */
    constructor ()
      ensures name == "" && components == map[] && steps == [] && env == map[]
    {
      name := "";
      components := map[];
      steps := [];
      env := map[];
    }

    /** Declares component `name`, replacing any earlier one of that name. */
    method AddComponent(name: string, url: string, revision: string)
      modifies this
      ensures components == old(components)[name := Component(name, url, revision)]
      ensures this.name == old(this.name) && steps == old(steps) && env == old(env)
    {
      var c := Component(name, url, revision);
      components := components[c.name := c];
    }

    /** Appends a step with an empty environment. */
    method AddBuildStep(description: string, directory: string, command: seq<string>)
      modifies this
      ensures steps == old(steps) + [BuildStep(description, directory, command, map[])]
      ensures name == old(name) && components == old(components) && env == old(env)
    {
      var step := BuildStep(description, directory, command, map[]);
      steps := steps + [step];
    }

    /** Builds the project under `root`. The external calls are given by
        their results: `checkouts` holds each component's checkout outcome,
        `outcomes` each step's, `host` is the host environment,
        `buildDuration` the measured total time, and `digest` the hex MD5
        of a text. `effects` lists the external calls made, in order. */
    method Build(
      root: string, host: map<string, string>,
      checkouts: map<string, CheckoutOutcome>, outcomes: seq<StepOutcome>,
      buildDuration: int, digest: string -> string)
      returns (record: BuildRecord, ghost effects: seq<Effect>)
      requires components.Keys <= checkouts.Keys
      requires |outcomes| == |steps|
      requires forall i :: 0 <= i < |steps| ==> |steps[i].command| > 0
      ensures fresh(record)
      ensures record.name == name && record.duration == buildDuration
      ensures record.components == CheckoutRecords(components, checkouts)
      ensures record.steps == StepRecords(CheckoutFailed(components, checkouts), steps, outcomes)
      ensures record.hash == digest(FingerprintInput(components, Commits(checkouts), steps))
      ensures effects == CheckoutCalls(SortedNames(components.Keys), components, root)
                         + StepRuns(CheckoutFailed(components, checkouts), steps, outcomes, root)
    {
      record := new BuildRecord(name, components, steps);
      var hashInput := "Components:\n";
      var names := ComponentNames(components);
      var buildFailed, componentLines;
      ghost var checkoutCalls;
      buildFailed, componentLines, checkoutCalls := CheckoutComponents(record, names, components, checkouts, root);
      hashInput := hashInput + componentLines + "Steps:\n";
      var stepLines;
      ghost var stepRuns;
      stepLines, stepRuns := RunBuildSteps(record, buildFailed, root, host, env, steps, outcomes);
      hashInput := hashInput + stepLines;
      effects := checkoutCalls + stepRuns;
      record.hash := digest(hashInput);
      record.duration := buildDuration;
    }
  }

  /** The component names in ascending order. Go's range over the map
      visits them in an unspecified order; sorting removes it. */
  method ComponentNames(components: map<string, Component>) returns (names: seq<string>)
    ensures names == SortedNames(components.Keys)
  {
    var collected: seq<string> := [];
    var remaining := components.Keys;
    while remaining != {}
      invariant Distinct(collected)
      invariant forall k :: k in collected <==> k in components && k !in remaining
      invariant remaining <= components.Keys
      decreases remaining
    {
      var cname :| cname in remaining;
      collected := collected + [cname];
      remaining := remaining - {cname};
    }
    names := SortStrings(collected);
    SortEnumeration(collected, components.Keys);
  }

  /** The checkout loop of `Build`: checks out every component of `names`
      in turn, whatever the earlier ones gave, and records each outcome.
      Returns whether one failed and the component lines of the
      fingerprint text. */
  method CheckoutComponents(
    record: BuildRecord, names: seq<string>, components: map<string, Component>,
    checkouts: map<string, CheckoutOutcome>, root: string)
    returns (buildFailed: bool, lines: string, ghost calls: seq<Effect>)
    requires Enumerates(names, components.Keys) && components.Keys <= checkouts.Keys
    requires record.components.Keys == components.Keys
    requires forall k :: k in components ==> record.components[k] == FreshCheckout(components[k])
    modifies record
    ensures record.name == old(record.name) && record.hash == old(record.hash)
    ensures record.duration == old(record.duration) && record.steps == old(record.steps)
    ensures record.components == CheckoutRecords(components, checkouts)
    ensures buildFailed == CheckoutFailed(components, checkouts)
    ensures lines == ComponentLines(names, components, Commits(checkouts))
    ensures calls == CheckoutCalls(names, components, root)
  {
    ghost var initial := record.components;
    ghost var commits := Commits(checkouts);
    buildFailed := false;
    lines := "";
    calls := [];
    for index := 0 to |names|
      invariant record.name == old(record.name) && record.hash == old(record.hash)
      invariant record.duration == old(record.duration) && record.steps == old(record.steps)
      invariant record.components == RecordCheckouts(initial, names[..index], checkouts)
      invariant buildFailed == AnyFailed(names[..index], checkouts)
      invariant lines == ComponentLines(names[..index], components, commits)
      invariant calls == CheckoutCalls(names[..index], components, root)
    {
      CheckoutFoldsSnoc(initial, names, components, checkouts, root, index);
      var cname := names[index];
      var component := components[cname];
      calls := calls + [Checkout(component.url, component.name, component.revision, root)];
      var line;
      buildFailed, line := CheckoutOne(record, cname, component, checkouts[cname], buildFailed);
      lines := lines + line;
    }
    assert names[..|names|] == names;
    RecordAllCheckouts(initial, names, components, checkouts);
    AnyFailedExactly(names, checkouts);
  }

  /** One pass of the checkout loop: records the outcome of checking out
      `component`, known as `cname`. Returns the new failure flag and the
      component's fingerprint line. */
  method CheckoutOne(record: BuildRecord, cname: string, component: Component, outcome: CheckoutOutcome, buildFailed: bool)
    returns (failed: bool, line: string)
    modifies record
    ensures record.name == old(record.name) && record.hash == old(record.hash)
    ensures record.duration == old(record.duration) && record.steps == old(record.steps)
    ensures record.components == WithRevision(old(record.components), cname, outcome.commit, outcome.duration, CheckoutStatus(outcome))
    ensures failed == (buildFailed || !outcome.ok)
    ensures line == ComponentLine(component, outcome.commit)
  {
    failed := buildFailed;
    if !outcome.ok {
      failed := true;
      record.SetRevision(cname, outcome.commit, outcome.duration, Failed);
    } else {
      record.SetRevision(cname, outcome.commit, outcome.duration, Ok);
    }
    line := component.url + " " + component.name + " " + outcome.commit + "\n";
  }

  /** The step loop of `Build`: runs the steps in declaration order while
      nothing has failed, skips the rest, and records each status. Returns
      the step lines of the fingerprint text. */
  method RunBuildSteps(
    record: BuildRecord, checkoutFailed: bool, root: string, host: map<string, string>,
    env: map<string, string>, steps: seq<BuildStep>, outcomes: seq<StepOutcome>)
    returns (lines: string, ghost runs: seq<Effect>)
    requires |outcomes| == |steps| && |record.steps| == |steps|
    requires forall i :: 0 <= i < |steps| ==> |steps[i].command| > 0
    requires forall i :: 0 <= i < |steps| ==> record.steps[i] == FreshStep(steps[i])
    modifies record
    ensures record.name == old(record.name) && record.hash == old(record.hash)
    ensures record.duration == old(record.duration) && record.components == old(record.components)
    ensures record.steps == StepRecords(checkoutFailed, steps, outcomes)
    ensures lines == StepLines(steps)
    ensures runs == StepRuns(checkoutFailed, steps, outcomes, root)
  {
    ghost var initial := record.steps;
    var buildFailed := checkoutFailed;
    lines := "";
    runs := [];
    for index := 0 to |steps|
      invariant record.name == old(record.name) && record.hash == old(record.hash)
      invariant record.duration == old(record.duration) && record.components == old(record.components)
      invariant record.steps == RecordSteps(initial, checkoutFailed, outcomes[..index])
      invariant buildFailed == FailedAfter(checkoutFailed, outcomes[..index])
      invariant lines == StepLines(steps[..index])
      invariant runs == StepRuns(checkoutFailed, steps[..index], outcomes[..index], root)
    {
      StepFoldsSnoc(initial, checkoutFailed, steps, outcomes, root, index);
      ghost var run;
      buildFailed, run := RunStep(record, index, buildFailed, root, host, env, steps[index], outcomes[index]);
      runs := runs + run;
      var commandText := CommandText(steps[index].command);
      lines := lines + steps[index].directory + commandText + "\n";
    }
    assert steps[..|steps|] == steps && outcomes[..|outcomes|] == outcomes;
    RecordAllSteps(steps, initial, checkoutFailed, outcomes);
  }

  /** One pass of the step loop: step `index` is skipped if `buildFailed`
      is set, and otherwise runs with its resolved environment. Returns
      the new failure flag and the command launched, if any. */
  method RunStep(
    record: BuildRecord, index: nat, buildFailed: bool, root: string, host: map<string, string>,
    env: map<string, string>, step: BuildStep, outcome: StepOutcome)
    returns (failed: bool, ghost run: seq<Effect>)
    requires index < |record.steps| && |step.command| > 0
    modifies record
    ensures record.name == old(record.name) && record.hash == old(record.hash)
    ensures record.duration == old(record.duration) && record.components == old(record.components)
    ensures record.steps == WithStatus(old(record.steps), index, StepStatus(buildFailed, outcome), outcome.duration)
    ensures failed == (buildFailed || !outcome.ok)
    ensures run == if buildFailed then [] else [Run(root + "/" + step.directory, step.command[0], step.command[1..])]
  {
    failed := buildFailed;
    run := [];
    if !buildFailed {
      var directory := root + "/" + step.directory;
      // The environment is resolved for the step; the command runner in
      // commands.go takes no environment, so it goes no further.
      var environment;
      ghost var projectOrder, stepOrder, envNames;
      environment, projectOrder, stepOrder, envNames := ExpandEnvironment(root, host, env, step.env);
      run := [Run(directory, step.command[0], step.command[1..])];
      if !outcome.ok {
        failed := true;
        record.SetStatus(index, Failed, outcome.duration);
      } else {
        record.SetStatus(index, Ok, outcome.duration);
      }
    } else {
      record.SetStatus(index, Skipped, outcome.duration);
    }
  }

  /** The fingerprint lines of one command: `i: arg` for each element. */
  method CommandText(command: seq<string>) returns (text: string)
    ensures text == CommandLines(command)
  {
    text := "";
    for i := 0 to |command|
      invariant text == CommandLines(command[..i])
    {
      text := text + Decimal(i) + ": " + command[i] + "\n";
      assert command[..i + 1][..i] == command[..i];
    }
    assert command[..|command|] == command;
  }
}
