/**
  `JUnitDescriptionGenerator`: the object that walks a story and builds its JUnit
  description tree. Its fields are the ones the Java class mutates (`testCases`,
  `previousNonAndStep`, the uniquifier) and the lists its constructor collects. A
  `Description` is a value here: `addChild` on a description is a method that takes
  the description's children so far and returns them with the new nodes appended.
  Every method is proved to compute what the functions of `DescriptionTree` say.
 */
module Generator {
  import opened Options
  import opened LineText
  import opened Uniquifier
  import opened JBehaveModel
  import opened DescriptionTree

  /** The step candidates of all providers, in provider order, then registration order. */
  function AllCandidates(providers: seq<CandidateSteps>): seq<StepCandidate> {
    if providers == [] then []
    else AllCandidates(providers[..|providers| - 1]) + providers[|providers| - 1].listCandidates
  }

  /** The scenario hooks of type `t` of all providers, in provider order. */
  function ScenarioHooksOf(providers: seq<CandidateSteps>, t: ScenarioType): seq<BeforeOrAfterStep> {
    if providers == [] then []
    else ScenarioHooksOf(providers[..|providers| - 1], t) + providers[|providers| - 1].listBeforeOrAfterScenario(t)
  }

  /** The story hooks of all providers, in provider order. */
  function StoryHooksOf(providers: seq<CandidateSteps>): seq<BeforeOrAfterStep> {
    if providers == [] then []
    else StoryHooksOf(providers[..|providers| - 1]) + providers[|providers| - 1].listBeforeOrAfterStory
  }

  /** Every scenario type is listed in `ScenarioTypes`. */
  lemma AllScenarioTypes()
    ensures forall t: ScenarioType :: t in ScenarioTypes
  {
    forall t: ScenarioType ensures t in ScenarioTypes {
      match t
      case Normal => assert ScenarioTypes[0] == t;
      case Example => assert ScenarioTypes[1] == t;
      case Any => assert ScenarioTypes[2] == t;
    }
  }

  /** The generator's instance initialiser: an empty hook list for every scenario type. */
  method EmptyScenarioHooks() returns (m: map<ScenarioType, seq<BeforeOrAfterStep>>)
    ensures forall t: ScenarioType :: t in m && m[t] == []
  {
    m := map[];
    for k := 0 to |ScenarioTypes|
      invariant forall t :: t in m <==> t in ScenarioTypes[..k]
      invariant forall t :: t in m ==> m[t] == []
    {
      m := m[ScenarioTypes[k] := []];
    }
    assert ScenarioTypes[..|ScenarioTypes|] == ScenarioTypes;
    AllScenarioTypes();
  }

  /** The constructor's inner loop: a provider's hooks appended for every scenario type. */
  method AddScenarioHooks(m: map<ScenarioType, seq<BeforeOrAfterStep>>, provider: CandidateSteps)
    returns (m': map<ScenarioType, seq<BeforeOrAfterStep>>)
    requires forall t: ScenarioType :: t in m
    ensures forall t: ScenarioType :: t in m' && m'[t] == m[t] + provider.listBeforeOrAfterScenario(t)
  {
    m' := m;
    for k := 0 to |ScenarioTypes|
      invariant forall t: ScenarioType :: t in m'
      invariant forall t: ScenarioType :: m'[t] == if t in ScenarioTypes[..k] then m[t] + provider.listBeforeOrAfterScenario(t) else m[t]
    {
      var t := ScenarioTypes[k];
      m' := m'[t := m'[t] + provider.listBeforeOrAfterScenario(t)];
      assert ScenarioTypes[..k + 1] == ScenarioTypes[..k] + [t];
    }
    assert ScenarioTypes[..|ScenarioTypes|] == ScenarioTypes;
    AllScenarioTypes();
  }

  /** `ExampleRows` over one more row: the row's suite is appended. */
  lemma ExampleRowsAppend(env: Env, scenario: Scenario, rows: seq<Row>, i: nat, st: State)
    requires ValidEnv(env) && WellFormedScenario(scenario) && i < |rows|
    ensures var pre := ExampleRows(env, scenario, rows[..i], st);
      var given := ScenarioGivenStories(scenario, pre.st);
      var body := ScenarioSteps(env, Example, scenario.steps, given.st);
      ExampleRows(env, scenario, rows[..i + 1], st)
        == Out(pre.nodes + [Suite(RowLabel(env.keywords, rows[i]), given.nodes + body.nodes)], body.st)
  {
    assert rows[..i + 1][..i] == rows[..i];
  }

  /** `StepsFrom` over one more step: the step's nodes are appended. */
  lemma StepsFromAppend(env: Env, steps: seq<string>, i: nat, st: State, bound: nat)
    requires ValidEnv(env) && StepsBounded(env.allCandidates, steps, bound) && i < |steps|
    ensures var pre := StepsFrom(env, steps[..i], st, bound);
      var last := Step(env, steps[i], pre.st, bound);
      StepsFrom(env, steps[..i + 1], st, bound) == Out(pre.nodes + last.nodes, last.st)
  {
    assert steps[..i + 1][..i] == steps[..i];
    assert steps[..i + 1][i] == steps[i];
  }

  /** `GivenStoryNodes` over one more path: the path's suite is appended and counted. */
  lemma GivenStoryNodesAppend(paths: seq<string>, i: nat, st: State)
    requires i < |paths| && forall j :: 0 <= j < |paths| ==> WellFormedPath(paths[j])
    ensures var pre := GivenStoryNodes(paths[..i], st);
      GivenStoryNodes(paths[..i + 1], st)
        == Out(pre.nodes + [Suite(SafeLabel(pre.st, GetFilename(paths[i])), [])], Count(Issue(pre.st, GetFilename(paths[i]))))
  {
    assert paths[..i + 1][..i] == paths[..i];
  }

  /** `ScenarioDescriptions` over one more scenario: its node is appended. */
  lemma ScenarioDescriptionsAppend(env: Env, scenarios: seq<Scenario>, i: nat, st: State)
    requires ValidEnv(env) && i < |scenarios| && forall j :: 0 <= j < |scenarios| ==> WellFormedScenario(scenarios[j])
    ensures var pre := ScenarioDescriptions(env, scenarios[..i], st);
      var last := ScenarioDescription(env, scenarios[i], pre.st);
      ScenarioDescriptions(env, scenarios[..i + 1], st) == Out(pre.nodes + [last.node], last.st)
  {
    assert scenarios[..i + 1][..i] == scenarios[..i];
  }

  class JUnitDescriptionGenerator {
    const uniq: DescriptionTextUniquefier
    var testCases: nat
    const allCandidates: seq<StepCandidate>
    const beforeOrAfterScenario: map<ScenarioType, seq<BeforeOrAfterStep>>
    const beforeOrAfterStory: seq<BeforeOrAfterStep>
    /** `configuration.keywords()`. */
    const keywords: Keywords
    var previousNonAndStep: Option<string>

    /** What the constructor collected. */
    function Environment(): Env {
      Env(allCandidates, beforeOrAfterScenario, beforeOrAfterStory, keywords)
    }

    /** The mutable state: the counter, the carried word and the issued labels. */
    function Current(): State
      reads this, uniq
    {
      State(testCases, previousNonAndStep, uniq.strings)
    }

    ghost predicate Valid() {
      ValidEnv(Environment())
    }

    constructor (candidateSteps: seq<CandidateSteps>, configuration: Keywords)
      requires WellRanked(AllCandidates(candidateSteps))
      ensures Valid()
      ensures allCandidates == AllCandidates(candidateSteps)
      ensures forall t: ScenarioType :: beforeOrAfterScenario[t] == ScenarioHooksOf(candidateSteps, t)
      ensures beforeOrAfterStory == StoryHooksOf(candidateSteps)
      ensures keywords == configuration
      ensures fresh(uniq) && Current() == State(0, None, {})
    {
      var scenarioHooks := EmptyScenarioHooks();
      var candidates: seq<StepCandidate> := [];
      var storyHooks: seq<BeforeOrAfterStep> := [];
      for i := 0 to |candidateSteps|
        invariant candidates == AllCandidates(candidateSteps[..i])
        invariant storyHooks == StoryHooksOf(candidateSteps[..i])
        invariant forall t: ScenarioType ::
          t in scenarioHooks && scenarioHooks[t] == ScenarioHooksOf(candidateSteps[..i], t)
      {
        var provider := candidateSteps[i];
        assert candidateSteps[..i + 1][..i] == candidateSteps[..i];
        candidates := candidates + provider.listCandidates;
        scenarioHooks := AddScenarioHooks(scenarioHooks, provider);
        storyHooks := storyHooks + provider.listBeforeOrAfterStory;
      }
      assert candidateSteps[..|candidateSteps|] == candidateSteps;
      uniq := new DescriptionTextUniquefier();
      testCases := 0;
      allCandidates := candidates;
      beforeOrAfterScenario := scenarioHooks;
      beforeOrAfterStory := storyHooks;
      keywords := configuration;
      previousNonAndStep := None;
    }

    function GetTestCases(): nat
      reads this
    {
      testCases
    }

    /** `getJunitSafeString`: the safe text, made unique. */
    method GetJunitSafeString(text: string) returns (r: string)
      modifies uniq
      ensures r == SafeLabel(old(Current()), text)
      ensures Current() == Issue(old(Current()), text)
    {
      r := uniq.GetUniqueDescription(SafeText(text));
    }

    /** `createDescriptionFrom(Story)`. */
    method CreateDescriptionFromStory(story: Story) returns (d: Description)
      requires Valid() && WellFormedStory(story)
      modifies this, uniq
      ensures d == StoryDescription(Environment(), story, old(Current())).node
      ensures Current() == StoryDescription(Environment(), story, old(Current())).st
    {
      ghost var env, st0 := Environment(), Current();
      var display := GetJunitSafeString(story.name);
      ghost var before := HookStep(Before, beforeOrAfterStory, BeforeStoryStepName, Issue(st0, story.name));
      var children := AddBeforeOrAfterStep(Before, beforeOrAfterStory, [], BeforeStoryStepName);
      assert children == before.nodes && Current() == before.st;
      ghost var scenarios := ScenarioDescriptions(env, story.scenarios, before.st);
      children := AddAllScenariosToDescription(story, children);
      assert children == before.nodes + scenarios.nodes && Current() == scenarios.st;
      ghost var after := HookStep(After, beforeOrAfterStory, AfterStoryStepName, scenarios.st);
      children := AddBeforeOrAfterStep(After, beforeOrAfterStory, children, AfterStoryStepName);
      assert children == before.nodes + scenarios.nodes + after.nodes && Current() == after.st;
      d := Suite(display, children);
      assert StoryDescription(env, story, st0) == NodeOut(d, after.st);
    }

    /** `createDescriptionFrom(Scenario)`. */
    method CreateDescriptionFromScenario(scenario: Scenario) returns (d: Description)
      requires Valid() && WellFormedScenario(scenario)
      modifies this, uniq
      ensures d == ScenarioDescription(Environment(), scenario, old(Current())).node
      ensures Current() == ScenarioDescription(Environment(), scenario, old(Current())).st
    {
      ghost var env, st0 := Environment(), Current();
      var title := GetJunitSafeString(scenario.title);
      var display := keywords.scenario + " " + title;
      assert display == ScenarioLabel(env, scenario, st0);
      ghost var st1 := Issue(st0, scenario.title);
      var children: seq<Description> := [];
      if HasExamples(scenario) {
        ghost var rows := ExampleRows(env, scenario, scenario.examplesTable.value.rows, st1);
        children := InsertDescriptionForExamples(scenario, children);
        assert children == rows.nodes && Current() == rows.st;
        d := Suite(display, children);
        assert ScenarioDescription(env, scenario, st0) == NodeOut(d, rows.st);
      } else {
        ghost var given := ScenarioGivenStories(scenario, st1);
        if HasGivenStories(scenario) {
          children := InsertGivenStories(scenario, children);
        }
        assert children == given.nodes && Current() == given.st;
        ghost var body := ScenarioSteps(env, Normal, scenario.steps, given.st);
        children := AddScenarioSteps(Normal, scenario, children);
        assert children == given.nodes + body.nodes && Current() == body.st;
        d := Suite(display, children);
        assert ScenarioDescription(env, scenario, st0) == NodeOut(d, body.st);
      }
    }

    /** `addScenarioSteps`. */
    method AddScenarioSteps(scenarioType: ScenarioType, scenario: Scenario, children: seq<Description>)
      returns (result: seq<Description>)
      requires Valid()
      modifies this, uniq
      ensures result == children + ScenarioSteps(Environment(), scenarioType, scenario.steps, old(Current())).nodes
      ensures Current() == ScenarioSteps(Environment(), scenarioType, scenario.steps, old(Current())).st
    {
      ghost var env, st0 := Environment(), Current();
      ghost var hooks := ScenarioHookList(env, scenarioType);
      ghost var before := HookStep(Before, hooks, BeforeScenarioStepName, st0);
      result := AddBeforeOrAfterScenarioStep(scenarioType, Before, children, BeforeScenarioStepName);
      ghost var body := Steps(env, scenario.steps, before.st, RankBound(allCandidates));
      result := AddStepsToExample(scenario, result);
      ghost var after := HookStep(After, hooks, AfterScenarioStepName, body.st);
      result := AddBeforeOrAfterScenarioStep(scenarioType, After, result, AfterScenarioStepName);
      assert ScenarioSteps(env, scenarioType, scenario.steps, st0) == Out(before.nodes + body.nodes + after.nodes, after.st);
      AppendAssociates(children, before.nodes, body.nodes);
      AppendAssociates(children, before.nodes + body.nodes, after.nodes);
    }

    /** `addBeforeOrAfterScenarioStep`: the type's hooks, then the `ANY` hooks. */
    method AddBeforeOrAfterScenarioStep(scenarioType: ScenarioType, stage: Stage,
                                        children: seq<Description>, stepName: string)
      returns (result: seq<Description>)
      requires Valid()
      modifies this, uniq
      ensures result == children + HookStep(stage, ScenarioHookList(Environment(), scenarioType), stepName, old(Current())).nodes
      ensures Current() == HookStep(stage, ScenarioHookList(Environment(), scenarioType), stepName, old(Current())).st
    {
      var hooks := beforeOrAfterScenario[scenarioType] + beforeOrAfterScenario[Any];
      result := AddBeforeOrAfterStep(stage, hooks, children, stepName);
    }

    /** `addBeforeOrAfterStep(Stage, List, Description, String)`: the first hook of the stage, if any. */
    method AddBeforeOrAfterStep(stage: Stage, hooks: seq<BeforeOrAfterStep>,
                                children: seq<Description>, stepName: string)
      returns (result: seq<Description>)
      modifies this, uniq
      ensures result == children + HookStep(stage, hooks, stepName, old(Current())).nodes
      ensures Current() == HookStep(stage, hooks, stepName, old(Current())).st
    {
      result := children;
      for i := 0 to |hooks|
        invariant forall j :: 0 <= j < i ==> hooks[j].stage != stage
        invariant Current() == old(Current())
      {
        if hooks[i].stage == stage {
          testCases := testCases + 1;
          result := AddBeforeOrAfterStepDescription(hooks[i], result, stepName);
          return;
        }
      }
    }

    /** `addBeforeOrAfterStep(BeforeOrAfterStep, Description, String)`: one test for the hook. */
    method AddBeforeOrAfterStepDescription(hook: BeforeOrAfterStep, children: seq<Description>, stepName: string)
      returns (result: seq<Description>)
      modifies uniq
      ensures result == children + [Test(SafeLabel(old(Current()), stepName), hook.owner)]
      ensures Current() == Issue(old(Current()), stepName)
    {
      var display := GetJunitSafeString(stepName);
      result := children + [Test(display, hook.owner)];
    }

    /** `insertGivenStories`: one node per given-story path, in order. */
    method InsertGivenStories(scenario: Scenario, children: seq<Description>) returns (result: seq<Description>)
      requires WellFormedScenario(scenario)
      modifies this, uniq
      ensures result == children + GivenStoryNodes(scenario.givenStories.paths, old(Current())).nodes
      ensures Current() == GivenStoryNodes(scenario.givenStories.paths, old(Current())).st
    {
      var paths := scenario.givenStories.paths;
      result := children;
      for i := 0 to |paths|
        invariant result == children + GivenStoryNodes(paths[..i], old(Current())).nodes
        invariant Current() == GivenStoryNodes(paths[..i], old(Current())).st
      {
        ghost var pre := GivenStoryNodes(paths[..i], old(Current()));
        GivenStoryNodesAppend(paths, i, old(Current()));
        AppendAssociates(children, pre.nodes, [Suite(SafeLabel(pre.st, GetFilename(paths[i])), [])]);
        result := AddGivenStoryToScenario(result, paths[i]);
      }
      assert paths[..|paths|] == paths;
    }

    /** `addGivenStoryToScenario`: a childless suite named after the story file, counted. */
    method AddGivenStoryToScenario(children: seq<Description>, path: string) returns (result: seq<Description>)
      requires WellFormedPath(path)
      modifies this, uniq
      ensures result == children + [Suite(SafeLabel(old(Current()), GetFilename(path)), [])]
      ensures Current() == Count(Issue(old(Current()), GetFilename(path)))
    {
      var display := GetJunitSafeString(GetFilename(path));
      result := children + [Suite(display, [])];
      testCases := testCases + 1;
    }

    /** `insertDescriptionForExamples`: one suite per row, each filled like a scenario. */
    method InsertDescriptionForExamples(scenario: Scenario, children: seq<Description>)
      returns (result: seq<Description>)
      requires Valid() && WellFormedScenario(scenario) && scenario.examplesTable.Some?
      modifies this, uniq
      ensures result == children + ExampleRows(Environment(), scenario, scenario.examplesTable.value.rows, old(Current())).nodes
      ensures Current() == ExampleRows(Environment(), scenario, scenario.examplesTable.value.rows, old(Current())).st
    {
      ghost var env, st0 := Environment(), Current();
      var rows := scenario.examplesTable.value.rows;
      result := children;
      for i := 0 to |rows|
        invariant result == children + ExampleRows(env, scenario, rows[..i], st0).nodes
        invariant Current() == ExampleRows(env, scenario, rows[..i], st0).st
      {
        ghost var pre := ExampleRows(env, scenario, rows[..i], st0);
        ghost var given := ScenarioGivenStories(scenario, pre.st);
        ghost var body := ScenarioSteps(env, Example, scenario.steps, given.st);
        ExampleRowsAppend(env, scenario, rows, i, st0);
        AppendAssociates(children, pre.nodes, [Suite(RowLabel(env.keywords, rows[i]), given.nodes + body.nodes)]);
        result := AddExampleRow(scenario, rows[i], result);
      }
      assert rows[..|rows|] == rows;
    }

    /** The body of `insertDescriptionForExamples`' loop: one row's suite, given stories and steps. */
    method AddExampleRow(scenario: Scenario, row: Row, children: seq<Description>) returns (result: seq<Description>)
      requires Valid() && WellFormedScenario(scenario)
      modifies this, uniq
      ensures var given := ScenarioGivenStories(scenario, old(Current()));
        var body := ScenarioSteps(Environment(), Example, scenario.steps, given.st);
        && result == children + [Suite(RowLabel(keywords, row), given.nodes + body.nodes)]
        && Current() == body.st
    {
      ghost var env, st0 := Environment(), Current();
      var rowChildren: seq<Description> := [];
      ghost var given := ScenarioGivenStories(scenario, st0);
      if HasGivenStories(scenario) {
        rowChildren := InsertGivenStories(scenario, rowChildren);
      }
      assert rowChildren == given.nodes && Current() == given.st;
      rowChildren := AddScenarioSteps(Example, scenario, rowChildren);
      var exampleRowDescription := Suite(keywords.examplesTableRow + " " + RowText(row), rowChildren);
      result := children + [exampleRowDescription];
    }

    /** `addStepsToExample`: the scenario's steps. */
    method AddStepsToExample(scenario: Scenario, children: seq<Description>) returns (result: seq<Description>)
      requires Valid()
      modifies this, uniq
      ensures result == children + Steps(Environment(), scenario.steps, old(Current()), RankBound(allCandidates)).nodes
      ensures Current() == Steps(Environment(), scenario.steps, old(Current()), RankBound(allCandidates)).st
    {
      result := AddSteps(children, scenario.steps, RankBound(allCandidates));
    }

    /** `addSteps`: resets the carried word, then adds each step in order. */
    method AddSteps(children: seq<Description>, steps: seq<string>, ghost bound: nat)
      returns (result: seq<Description>)
      requires Valid() && StepsBounded(allCandidates, steps, bound)
      modifies this, uniq
      ensures result == children + Steps(Environment(), steps, old(Current()), bound).nodes
      ensures Current() == Steps(Environment(), steps, old(Current()), bound).st
      decreases bound, 4
    {
      previousNonAndStep := None;
      result := AddStepsFrom(children, steps, bound);
    }

    /** The loop of `addSteps`: each step in order, from the current state. */
    method AddStepsFrom(children: seq<Description>, steps: seq<string>, ghost bound: nat)
      returns (result: seq<Description>)
      requires Valid() && StepsBounded(allCandidates, steps, bound)
      modifies this, uniq
      ensures result == children + StepsFrom(Environment(), steps, old(Current()), bound).nodes
      ensures Current() == StepsFrom(Environment(), steps, old(Current()), bound).st
      decreases bound, 3
    {
      ghost var start := Current();
      result := children;
      for i := 0 to |steps|
        invariant result == children + StepsFrom(Environment(), steps[..i], start, bound).nodes
        invariant Current() == StepsFrom(Environment(), steps[..i], start, bound).st
      {
        ghost var pre := StepsFrom(Environment(), steps[..i], start, bound);
        ghost var last := Step(Environment(), steps[i], pre.st, bound);
        StepsFromAppend(Environment(), steps, i, start, bound);
        result := AddStep(result, steps[i], bound);
        AppendAssociates(children, pre.nodes, last.nodes);
      }
      assert steps[..|steps|] == steps;
    }

    /** The body of `addSteps`' loop: match the step, then add it as existing or not. */
    method AddStep(children: seq<Description>, stringStep: string, ghost bound: nat)
      returns (result: seq<Description>)
      requires Valid() && TextBounded(allCandidates, stringStep, bound)
      modifies this, uniq
      ensures result == children + Step(Environment(), stringStep, old(Current()), bound).nodes
      ensures Current() == Step(Environment(), stringStep, old(Current()), bound).st
      decreases bound, 2
    {
      var stringStepOneLine := StripLinebreaks(stringStep);
      var matchingStep := FindMatchingStep(stringStep);
      if matchingStep.None? {
        result := AddNonExistingStep(children, stringStepOneLine, stringStep);
      } else {
        result := AddExistingStep(children, stringStepOneLine, matchingStep.value, bound);
      }
    }

    /** `addExistingStep`. */
    method AddExistingStep(children: seq<Description>, stringStepOneLine: string,
                           matchingStep: StepCandidate, ghost bound: nat)
      returns (result: seq<Description>)
      requires Valid() && Expandable(allCandidates, matchingStep, bound)
      modifies this, uniq
      ensures result == children + ExistingStep(Environment(), stringStepOneLine, matchingStep, old(Current()), bound).nodes
      ensures Current() == ExistingStep(Environment(), stringStepOneLine, matchingStep, old(Current()), bound).st
      decreases bound, 1
    {
      if matchingStep.isComposite {
        result := AddCompositeSteps(children, stringStepOneLine, matchingStep, bound);
      } else {
        result := AddRegularStep(children, stringStepOneLine, matchingStep);
      }
    }

    /** `addNonExistingStep`: an unknown starting word (`StartingWordNotFound`) adds nothing. */
    method AddNonExistingStep(children: seq<Description>, stringStepOneLine: string, stringStep: string)
      returns (result: seq<Description>)
      modifies this, uniq
      ensures result == children + NonExistingStep(keywords, stringStepOneLine, stringStep, old(Current())).nodes
      ensures Current() == NonExistingStep(keywords, stringStepOneLine, stringStep, old(Current())).st
    {
      var lookup := keywords.stepTypeFor(stringStep);
      if lookup.StartingWordNotFound? {
        result := children;
      } else if lookup.stepType == Ignorable {
        result := AddIgnorableStep(children, stringStepOneLine);
      } else {
        result := AddPendingStep(children, stringStepOneLine);
      }
    }

    /** `addIgnorableStep`. */
    method AddIgnorableStep(children: seq<Description>, stringStep: string) returns (result: seq<Description>)
      modifies this
      ensures result == children + IgnorableStep(stringStep, old(Current())).nodes
      ensures Current() == IgnorableStep(stringStep, old(Current())).st
    {
      testCases := testCases + 1;
      result := children + [Suite(stringStep, [])];
    }

    /** `addPendingStep`. */
    method AddPendingStep(children: seq<Description>, stringStep: string) returns (result: seq<Description>)
      modifies this, uniq
      ensures result == children + PendingStep(stringStep, old(Current())).nodes
      ensures Current() == PendingStep(stringStep, old(Current())).st
    {
      testCases := testCases + 1;
      var display := GetJunitSafeString(PendingPrefix + stringStep);
      result := children + [Suite(display, [])];
    }

    /** `addRegularStep`. */
    method AddRegularStep(children: seq<Description>, stringStep: string, step: StepCandidate)
      returns (result: seq<Description>)
      modifies this, uniq
      ensures result == children + RegularStep(stringStep, step, old(Current())).nodes
      ensures Current() == RegularStep(stringStep, step, old(Current())).st
    {
      testCases := testCases + 1;
      var display := GetJunitSafeString(stringStep);
      result := children + [Test(display, step.stepsType)];
    }

    /** `addCompositeSteps`: the composed steps go under a suite of their own. */
    method AddCompositeSteps(children: seq<Description>, stringStep: string, step: StepCandidate, ghost bound: nat)
      returns (result: seq<Description>)
      requires Valid() && step.isComposite && Expandable(allCandidates, step, bound)
      modifies this, uniq
      ensures result == children + CompositeStep(Environment(), stringStep, step, old(Current()), bound).nodes
      ensures Current() == CompositeStep(Environment(), stringStep, step, old(Current()), bound).st
      decreases bound, 0
    {
      ghost var env, st0 := Environment(), Current();
      var display := GetJunitSafeString(stringStep);
      ghost var inner := Steps(env, step.composedSteps, Issue(st0, stringStep), step.rank);
      var composed := AddSteps([], step.composedSteps, step.rank);
      assert composed == inner.nodes;
      result := children + [Suite(display, composed)];
      assert CompositeStep(env, stringStep, step, st0, bound) == Out([Suite(display, inner.nodes)], inner.st);
    }

    /** `addAllScenariosToDescription`: one node per scenario, in story order. */
    method AddAllScenariosToDescription(story: Story, children: seq<Description>) returns (result: seq<Description>)
      requires Valid() && WellFormedStory(story)
      modifies this, uniq
      ensures result == children + ScenarioDescriptions(Environment(), story.scenarios, old(Current())).nodes
      ensures Current() == ScenarioDescriptions(Environment(), story.scenarios, old(Current())).st
    {
      var scenarios := story.scenarios;
      ghost var env, st0 := Environment(), Current();
      result := children;
      for i := 0 to |scenarios|
        invariant result == children + ScenarioDescriptions(env, scenarios[..i], st0).nodes
        invariant Current() == ScenarioDescriptions(env, scenarios[..i], st0).st
      {
        ghost var pre := ScenarioDescriptions(env, scenarios[..i], st0);
        ScenarioDescriptionsAppend(env, scenarios, i, st0);
        var d := CreateDescriptionFromScenario(scenarios[i]);
        AppendAssociates(children, pre.nodes, [d]);
        result := result + [d];
      }
      assert scenarios[..|scenarios|] == scenarios;
    }

    /** `findMatchingStep`: the first matching candidate; a non-`AND` one sets the carried word. */
    method FindMatchingStep(stringStep: string) returns (m: Option<StepCandidate>)
      modifies this`previousNonAndStep
      ensures var k := FirstMatch(allCandidates, stringStep, old(previousNonAndStep));
        && (m.None? <==> k.None?)
        && (k.Some? ==> m == Some(allCandidates[k.value])
                        && previousNonAndStep == NextPrevious(allCandidates[k.value], old(previousNonAndStep)))
        && (k.None? ==> previousNonAndStep == old(previousNonAndStep))
    {
      for i := 0 to |allCandidates|
        invariant forall j :: 0 <= j < i ==> !allCandidates[j].matches(stringStep, previousNonAndStep)
        invariant previousNonAndStep == old(previousNonAndStep)
      {
        var step := allCandidates[i];
        if step.matches(stringStep, previousNonAndStep) {
          if step.stepType != And {
            previousNonAndStep := Some(step.startingWord + " ");
          }
          return Some(step);
        }
      }
      return None;
    }
  }
}
