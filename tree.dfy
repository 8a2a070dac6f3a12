/**
  The description tree the generator builds, as functions of its inputs and of the
  generator's state before the call. The state is what the Java object mutates: the
  leaf counter `testCases`, the carried `previousNonAndStep`, and the set of labels
  the uniquifier has issued. Each function returns the nodes it appends (`addChild`)
  and the state after it; the methods of `Generator.JUnitDescriptionGenerator` are
  proved to compute exactly these.
 */
module DescriptionTree {
  import opened Options
  import opened LineText
  import opened Uniquifier
  import opened JBehaveModel

  const BeforeStoryStepName: string := "@BeforeStory"
  const AfterStoryStepName: string := "@AfterStory"
  const BeforeScenarioStepName: string := "@BeforeScenario"
  const AfterScenarioStepName: string := "@AfterScenario"
  const PendingPrefix: string := "[PENDING] "

  /** What the generator collected at construction, and its keywords. */
  datatype Env = Env(
    allCandidates: seq<StepCandidate>,
    beforeOrAfterScenario: map<ScenarioType, seq<BeforeOrAfterStep>>,
    beforeOrAfterStory: seq<BeforeOrAfterStep>,
    keywords: Keywords)

  /** The generator's mutable state. */
  datatype State = State(testCases: nat, previousNonAndStep: Option<string>, issued: set<string>)

  /** Nodes appended to a parent, and the state afterwards. */
  datatype Out = Out(nodes: seq<Description>, st: State)

  /** One node built, and the state afterwards. */
  datatype NodeOut = NodeOut(node: Description, st: State)

  // ---------------------------------------------------------------------------
  // Labels: getJunitSafeString

  /** The label `getJunitSafeString(text)` returns in state `st`. */
  function SafeLabel(st: State, text: string): string {
    UniqueLabel(st.issued, SafeText(text))
  }

  /** The state after `getJunitSafeString(text)`: the label is recorded as issued. */
  function Issue(st: State, text: string): State {
    st.(issued := st.issued + {SafeLabel(st, text)})
  }

  /** The state after one leaf has been counted. */
  function Count(st: State): State {
    st.(testCases := st.testCases + 1)
  }

  // ---------------------------------------------------------------------------
  // Termination of composite expansion

  /**
    Whatever the carried word, the candidate `findMatchingStep` selects for `text` (the
    first that matches) is a regular step or a composite of rank below `bound`.
   */
  ghost predicate TextBounded(cands: seq<StepCandidate>, text: string, bound: nat) {
    forall p :: SelectedBelow(cands, FirstMatch(cands, text, p), bound)
  }

  /** The selected candidate, if any, is not a composite of rank `bound` or more. */
  ghost predicate SelectedBelow(cands: seq<StepCandidate>, m: Option<nat>, bound: nat) {
    m.Some? && m.value < |cands| && cands[m.value].isComposite ==> cands[m.value].rank < bound
  }

  ghost predicate StepsBounded(cands: seq<StepCandidate>, steps: seq<string>, bound: nat) {
    forall i :: 0 <= i < |steps| ==> TextBounded(cands, steps[i], bound)
  }

  /**
    A ranking of the composite candidates under which expansion descends: for every
    composite, under any carried word, the candidate selected for each of its composed
    steps is a regular step or a composite of smaller rank. This rules out every
    configuration on which the source recurses forever (a composite whose expansion
    selects itself again). It also rules out two kinds on which the source ends: a
    cycle that runs only through composites that no step of a story ever selects, and
    a cycle that only a carried word which never occurs would close.
   */
  ghost predicate WellRanked(cands: seq<StepCandidate>) {
    forall j :: 0 <= j < |cands| && cands[j].isComposite ==>
      StepsBounded(cands, cands[j].composedSteps, cands[j].rank)
  }

  /** A bound above every candidate's rank. */
  function RankBound(cands: seq<StepCandidate>): (b: nat)
    ensures forall j :: 0 <= j < |cands| ==> cands[j].rank < b
  {
    if cands == [] then 0
    else
      var b := RankBound(cands[..|cands| - 1]);
      var r := cands[|cands| - 1].rank;
      if r < b then b else r + 1
  }

  /**
    The constructor fills the hook map for every scenario type, and the candidates are
    `WellRanked`: the candidate selected for a composed step ranks below its composite.
   */
  ghost predicate ValidEnv(env: Env) {
    (forall t: ScenarioType :: t in env.beforeOrAfterScenario) && WellRanked(env.allCandidates)
  }

  // ---------------------------------------------------------------------------
  // Lifecycle hooks

  /** Index of the first hook whose stage is `stage`. */
  function FirstWithStage(stage: Stage, hooks: seq<BeforeOrAfterStep>): (r: Option<nat>)
    ensures r.Some? ==> r.value < |hooks| && hooks[r.value].stage == stage
    ensures r.Some? ==> forall j :: 0 <= j < r.value ==> hooks[j].stage != stage
    ensures r.None? <==> forall j :: 0 <= j < |hooks| ==> hooks[j].stage != stage
  {
    if hooks == [] then None
    else if hooks[0].stage == stage then Some(0)
    else match FirstWithStage(stage, hooks[1..])
      case None => None
      case Some(k) => Some(k + 1)
  }

  /** `addBeforeOrAfterStep(stage, steps, description, stepName)`. */
  function HookStep(stage: Stage, hooks: seq<BeforeOrAfterStep>, stepName: string, st: State): Out {
    match FirstWithStage(stage, hooks)
    case None => Out([], st)
    case Some(i) => Out([Test(SafeLabel(st, stepName), hooks[i].owner)], Count(Issue(st, stepName)))
  }

  /** The hooks `addBeforeOrAfterScenarioStep` scans: the type's own, then those for `ANY`. */
  function ScenarioHookList(env: Env, scenarioType: ScenarioType): seq<BeforeOrAfterStep>
    requires ValidEnv(env)
  {
    env.beforeOrAfterScenario[scenarioType] + env.beforeOrAfterScenario[Any]
  }

  // ---------------------------------------------------------------------------
  // Step matching

  /** Index of the first candidate that matches `text` after `previous`. */
  function FirstMatch(cands: seq<StepCandidate>, text: string, previous: Option<string>): (r: Option<nat>)
    ensures r.Some? ==> r.value < |cands| && cands[r.value].matches(text, previous)
    ensures r.Some? ==> forall j :: 0 <= j < r.value ==> !cands[j].matches(text, previous)
    ensures r.None? <==> forall j :: 0 <= j < |cands| ==> !cands[j].matches(text, previous)
  {
    if cands == [] then None
    else if cands[0].matches(text, previous) then Some(0)
    else match FirstMatch(cands[1..], text, previous)
      case None => None
      case Some(k) => Some(k + 1)
  }

  /** The carried word after `c` matched: its starting word and a space, unless it is `AND`. */
  function NextPrevious(c: StepCandidate, previous: Option<string>): Option<string> {
    if c.stepType != And then Some(c.startingWord + " ") else previous
  }

  // ---------------------------------------------------------------------------
  // Steps

  /** `addIgnorableStep`: a childless suite with the raw one-line text. */
  function IgnorableStep(oneLine: string, st: State): Out {
    Out([Suite(oneLine, [])], Count(st))
  }

  /** `addPendingStep`: a childless suite labelled `[PENDING] ` and the text. */
  function PendingStep(oneLine: string, st: State): Out {
    Out([Suite(SafeLabel(st, PendingPrefix + oneLine), [])], Count(Issue(st, PendingPrefix + oneLine)))
  }

  /** `addRegularStep`: a test tied to the candidate's steps class. */
  function RegularStep(oneLine: string, c: StepCandidate, st: State): Out {
    Out([Test(SafeLabel(st, oneLine), c.stepsType)], Count(Issue(st, oneLine)))
  }

  /** `addNonExistingStep`: classify the raw text; an unknown starting word adds nothing. */
  function NonExistingStep(keywords: Keywords, oneLine: string, text: string, st: State): Out {
    match keywords.stepTypeFor(text)
    case StartingWordNotFound => Out([], st)
    case Found(t) => if t == Ignorable then IgnorableStep(oneLine, st) else PendingStep(oneLine, st)
  }

  /** The requirement that lets a matched candidate be expanded under `bound`. */
  ghost predicate Expandable(cands: seq<StepCandidate>, c: StepCandidate, bound: nat) {
    c.isComposite ==> c.rank < bound && StepsBounded(cands, c.composedSteps, c.rank)
  }

  /** `addExistingStep`: a composite expands its composed steps; any other is a test. */
  function ExistingStep(env: Env, oneLine: string, c: StepCandidate, st: State, bound: nat): Out
    requires ValidEnv(env) && Expandable(env.allCandidates, c, bound)
    decreases bound, 0, 1
  {
    if c.isComposite then CompositeStep(env, oneLine, c, st, bound)
    else RegularStep(oneLine, c, st)
  }

  /** `addCompositeSteps`: a suite whose children are the composed steps' nodes. */
  function CompositeStep(env: Env, oneLine: string, c: StepCandidate, st: State, bound: nat): Out
    requires ValidEnv(env) && c.isComposite && Expandable(env.allCandidates, c, bound)
    decreases bound, 0, 0
  {
    var inner := Steps(env, c.composedSteps, Issue(st, oneLine), c.rank);
    Out([Suite(SafeLabel(st, oneLine), inner.nodes)], inner.st)
  }

  /** One iteration of `addSteps`' loop: match the step, then add it. */
  function Step(env: Env, text: string, st: State, bound: nat): Out
    requires ValidEnv(env) && TextBounded(env.allCandidates, text, bound)
    decreases bound, 0, 2
  {
    var oneLine := StripLinebreaks(text);
    match FirstMatch(env.allCandidates, text, st.previousNonAndStep)
    case None => NonExistingStep(env.keywords, oneLine, text, st)
    case Some(k) =>
      var c := env.allCandidates[k];
      ExistingStep(env, oneLine, c, st.(previousNonAndStep := NextPrevious(c, st.previousNonAndStep)), bound)
  }

  /** The loop of `addSteps` over `steps`, from state `st`. */
  function StepsFrom(env: Env, steps: seq<string>, st: State, bound: nat): Out
    requires ValidEnv(env) && StepsBounded(env.allCandidates, steps, bound)
    decreases bound, |steps|, 1
  {
    if steps == [] then Out([], st)
    else
      var n := |steps| - 1;
      var pre := StepsFrom(env, steps[..n], st, bound);
      var last := Step(env, steps[n], pre.st, bound);
      Out(pre.nodes + last.nodes, last.st)
  }

  /** `addSteps`: the carried word is reset, then every step is added in order. */
  function Steps(env: Env, steps: seq<string>, st: State, bound: nat): Out
    requires ValidEnv(env) && StepsBounded(env.allCandidates, steps, bound)
    decreases bound, |steps|, 2
  {
    StepsFrom(env, steps, st.(previousNonAndStep := None), bound)
  }

  /** `addScenarioSteps`: the before hook, the scenario's steps, the after hook. */
  function ScenarioSteps(env: Env, scenarioType: ScenarioType, steps: seq<string>, st: State): Out
    requires ValidEnv(env)
  {
    var hooks := ScenarioHookList(env, scenarioType);
    var before := HookStep(Before, hooks, BeforeScenarioStepName, st);
    var body := Steps(env, steps, before.st, RankBound(env.allCandidates));
    var after := HookStep(After, hooks, AfterScenarioStepName, body.st);
    Out(before.nodes + body.nodes + after.nodes, after.st)
  }

  // ---------------------------------------------------------------------------
  // Scenarios

  predicate HasGivenStories(scenario: Scenario) {
    scenario.givenStories.paths != []
  }

  predicate IsParameterized(scenario: Scenario) {
    scenario.examplesTable.Some? && |scenario.examplesTable.value.rows| > 0
  }

  predicate ParameterNeededForGivenStories(scenario: Scenario) {
    scenario.givenStories.requireParameters
  }

  /** `hasExamples`: the scenario is expanded row by row. */
  predicate HasExamples(scenario: Scenario) {
    IsParameterized(scenario) && !ParameterNeededForGivenStories(scenario)
  }

  /** Every given-story path has a file name (`getFilename` does not throw). */
  predicate WellFormedScenario(scenario: Scenario) {
    forall i :: 0 <= i < |scenario.givenStories.paths| ==> WellFormedPath(scenario.givenStories.paths[i])
  }

  predicate WellFormedStory(story: Story) {
    forall i :: 0 <= i < |story.scenarios| ==> WellFormedScenario(story.scenarios[i])
  }

  /** `insertGivenStories`: one childless suite per path, each counted. */
  function GivenStoryNodes(paths: seq<string>, st: State): Out
    requires forall i :: 0 <= i < |paths| ==> WellFormedPath(paths[i])
  {
    if paths == [] then Out([], st)
    else
      var n := |paths| - 1;
      var pre := GivenStoryNodes(paths[..n], st);
      var name := GetFilename(paths[n]);
      Out(pre.nodes + [Suite(SafeLabel(pre.st, name), [])], Count(Issue(pre.st, name)))
  }

  /** The given-story nodes a scenario places first, if it has any. */
  function ScenarioGivenStories(scenario: Scenario, st: State): Out
    requires WellFormedScenario(scenario)
  {
    if HasGivenStories(scenario) then GivenStoryNodes(scenario.givenStories.paths, st) else Out([], st)
  }

  /** The label `insertDescriptionForExamples` gives a row (not uniquified). */
  function RowLabel(keywords: Keywords, row: Row): string {
    keywords.examplesTableRow + " " + RowText(row)
  }

  /** `insertDescriptionForExamples` over `rows`: one suite per row, filled as a scenario. */
  function ExampleRows(env: Env, scenario: Scenario, rows: seq<Row>, st: State): Out
    requires ValidEnv(env) && WellFormedScenario(scenario)
  {
    if rows == [] then Out([], st)
    else
      var n := |rows| - 1;
      var pre := ExampleRows(env, scenario, rows[..n], st);
      var given := ScenarioGivenStories(scenario, pre.st);
      var body := ScenarioSteps(env, Example, scenario.steps, given.st);
      Out(pre.nodes + [Suite(RowLabel(env.keywords, rows[n]), given.nodes + body.nodes)], body.st)
  }

  /** The scenario's own label: the keyword, a space, and the uniquified title. */
  function ScenarioLabel(env: Env, scenario: Scenario, st: State): string {
    env.keywords.scenario + " " + SafeLabel(st, scenario.title)
  }

  /** `createDescriptionFrom(Scenario)`. */
  function ScenarioDescription(env: Env, scenario: Scenario, st: State): NodeOut
    requires ValidEnv(env) && WellFormedScenario(scenario)
  {
    var display := ScenarioLabel(env, scenario, st);
    var st1 := Issue(st, scenario.title);
    if HasExamples(scenario) then
      var rows := ExampleRows(env, scenario, scenario.examplesTable.value.rows, st1);
      NodeOut(Suite(display, rows.nodes), rows.st)
    else
      var given := ScenarioGivenStories(scenario, st1);
      var body := ScenarioSteps(env, Normal, scenario.steps, given.st);
      NodeOut(Suite(display, given.nodes + body.nodes), body.st)
  }

  /** `addAllScenariosToDescription`: one node per scenario, in story order. */
  function ScenarioDescriptions(env: Env, scenarios: seq<Scenario>, st: State): Out
    requires ValidEnv(env) && forall i :: 0 <= i < |scenarios| ==> WellFormedScenario(scenarios[i])
  {
    if scenarios == [] then Out([], st)
    else
      var n := |scenarios| - 1;
      var pre := ScenarioDescriptions(env, scenarios[..n], st);
      var last := ScenarioDescription(env, scenarios[n], pre.st);
      Out(pre.nodes + [last.node], last.st)
  }

  /** `createDescriptionFrom(Story)`. */
  function StoryDescription(env: Env, story: Story, st: State): NodeOut
    requires ValidEnv(env) && WellFormedStory(story)
  {
    var display := SafeLabel(st, story.name);
    var before := HookStep(Before, env.beforeOrAfterStory, BeforeStoryStepName, Issue(st, story.name));
    var scenarios := ScenarioDescriptions(env, story.scenarios, before.st);
    var after := HookStep(After, env.beforeOrAfterStory, AfterStoryStepName, scenarios.st);
    NodeOut(Suite(display, before.nodes + scenarios.nodes + after.nodes), after.st)
  }
}
