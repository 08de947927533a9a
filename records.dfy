/**
 The record of one build: one checkout record per component, one step
 record per build step, the fingerprint and the total duration. A record
 is created from a project snapshot before anything runs and is then
 updated in place, one unit at a time, by its two setters.
 */
module Records {
  import opened ProjectTypes

  /** A unit's status. Go's `BuildStatus` is a string type; `Unset` is its
      zero value `""`, which every fresh record carries (the constant
      `BuildNotRun` exists but nothing assigns it). */
  datatype BuildStatus = Unset | NotRun | Ok | Failed | Skipped
  {
    /** The string value the status has in Go and in the JSON output. */
    function Text(): (t: string)
      ensures t == "" <==> this == Unset
    {
      match this
      case Unset => ""
      case NotRun => "BUILD_NOT_RUN"
      case Ok => "BUILD_OK"
      case Failed => "BUILD_FAILED"
      case Skipped => "BUILD_SKIPPED"
    }

    /** One of the three statuses a build assigns to a unit it has dealt with. */
    predicate IsOutcome()
    {
      this == Ok || this == Failed || this == Skipped
    }
  }

  /** The checkout of one component. Durations are nanoseconds, as Go's
      `time.Duration`. */
  datatype CheckoutRecord = CheckoutRecord(
    duration: int,
    status: BuildStatus,
    name: string,
    url: string,
    revision: string)

  /** One build step; `directory` and `command` are copied from the step
      when the record is created. */
  datatype StepRecord = StepRecord(
    duration: int,
    status: BuildStatus,
    directory: string,
    command: seq<string>)

  /** The zero `CheckoutRecord` a Go map read returns for a missing key. */
  const NoCheckout := CheckoutRecord(0, Unset, "", "", "")

  /** The checkout record a new build record holds for `c`. */
  function FreshCheckout(c: Component): CheckoutRecord
  {
    CheckoutRecord(0, Unset, c.name, c.url, "TBD")
  }

  /** The step record a new build record holds for `s`. */
  function FreshStep(s: BuildStep): StepRecord
  {
    StepRecord(0, Unset, s.directory, s.command)
  }

  /** The components map after `SetRevision(cname, ...)`: the entry for
      `cname` (the zero record if there was none) takes the new revision,
      duration and status; everything else stays. */
  function WithRevision(
    components: map<string, CheckoutRecord>,
    cname: string, revision: string, duration: int, status: BuildStatus): (r: map<string, CheckoutRecord>)
    ensures r.Keys == components.Keys + {cname}
    ensures r[cname].revision == revision && r[cname].duration == duration && r[cname].status == status
    ensures cname in components ==> r[cname].name == components[cname].name && r[cname].url == components[cname].url
    ensures cname !in components ==> r[cname].name == "" && r[cname].url == ""
    ensures forall k :: k in components && k != cname ==> r[k] == components[k]
  {
    var component := if cname in components then components[cname] else NoCheckout;
    components[cname := component.(revision := revision, duration := duration, status := status)]
  }

  /** The step list after `SetStatus(index, ...)`: entry `index` takes the
      new status and duration; everything else stays. */
  function WithStatus(steps: seq<StepRecord>, index: nat, status: BuildStatus, duration: int): (r: seq<StepRecord>)
    requires index < |steps|
    ensures |r| == |steps|
    ensures r[index].status == status && r[index].duration == duration
    ensures r[index].directory == steps[index].directory && r[index].command == steps[index].command
    ensures forall j :: 0 <= j < |steps| && j != index ==> r[j] == steps[j]
  {
    steps[index := steps[index].(status := status, duration := duration)]
  }

  /** Setting a revision twice with the same arguments is setting it once. */
  lemma WithRevisionIdempotent(
    components: map<string, CheckoutRecord>,
    cname: string, revision: string, duration: int, status: BuildStatus)
    ensures var once := WithRevision(components, cname, revision, duration, status);
            WithRevision(once, cname, revision, duration, status) == once
  {
  }

  /** Setting a step status twice with the same arguments is setting it once. */
  lemma WithStatusIdempotent(steps: seq<StepRecord>, index: nat, status: BuildStatus, duration: int)
    requires index < |steps|
    ensures var once := WithStatus(steps, index, status, duration);
            WithStatus(once, index, status, duration) == once
  {
  }

  class BuildRecord {
    var hash: string
    var name: string
    var components: map<string, CheckoutRecord>
    var steps: seq<StepRecord>
    /** Total wall-clock time of the build. */
    var duration: int

    /** `NewBuildRecord`: the record of a build of the project with this
        name, components and steps, before anything has run. */
    constructor (projectName: string, projectComponents: map<string, Component>, projectSteps: seq<BuildStep>)
      ensures name == projectName && hash == "" && duration == 0
      ensures components.Keys == projectComponents.Keys
      ensures forall k :: k in components ==> components[k] == FreshCheckout(projectComponents[k])
      ensures |steps| == |projectSteps|
      ensures forall i :: 0 <= i < |steps| ==> steps[i] == FreshStep(projectSteps[i])
    {
      var checkouts: map<string, CheckoutRecord> := map[];
      var remaining := projectComponents.Keys;
      while remaining != {}
        invariant remaining <= projectComponents.Keys
        invariant checkouts.Keys == projectComponents.Keys - remaining
        invariant forall k :: k in checkouts ==> checkouts[k] == FreshCheckout(projectComponents[k])
        decreases remaining
      {
        var cname :| cname in remaining;
        checkouts := checkouts[cname := FreshCheckout(projectComponents[cname])];
        remaining := remaining - {cname};
      }
      var stepRecords: seq<StepRecord> := [];
      for index := 0 to |projectSteps|
        invariant |stepRecords| == index
        invariant forall i :: 0 <= i < index ==> stepRecords[i] == FreshStep(projectSteps[i])
      {
        stepRecords := stepRecords + [FreshStep(projectSteps[index])];
      }
      name := projectName;
      hash := "";
      components := checkouts;
      steps := stepRecords;
      duration := 0;
    }

    /** Records the outcome of checking out component `cname`. */
    method SetRevision(cname: string, revision: string, duration: int, status: BuildStatus)
      modifies this
      ensures components == WithRevision(old(components), cname, revision, duration, status)
      ensures hash == old(hash) && name == old(name) && steps == old(steps) && this.duration == old(this.duration)
    {
      var component := if cname in components then components[cname] else NoCheckout;
      component := component.(revision := revision, duration := duration, status := status);
      components := components[cname := component];
    }

    /** Records the outcome of build step `index`. */
    method SetStatus(index: nat, status: BuildStatus, duration: int)
      requires index < |steps|
      modifies this
      ensures steps == WithStatus(old(steps), index, status, duration)
      ensures hash == old(hash) && name == old(name) && components == old(components) && this.duration == old(this.duration)
    {
      var step := steps[index];
      step := step.(status := status, duration := duration);
      steps := steps[index := step];
    }
  }
}
