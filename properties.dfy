/**
  What the description tree promises: hook precedence and the one-node-per-hook rule,
  leaf conservation for steps (measured by JUnit's own `testCount`), the shape of the
  two scenario branches, the order of a story's children, and fresh given-story labels.
 */
module TreeProperties {
  import opened Options
  import opened LineText
  import opened Uniquifier
  import opened JBehaveModel
  import opened DescriptionTree

  // ---------------------------------------------------------------------------
  // JUnit's test count

  /** JUnit's `Description.testCount()`: a description without children counts one. */
  function TestCount(d: Description): nat
    decreases d, 1
  {
    if d.IsTest() then 1 else TestCounts(d.children)
  }

  function TestCounts(ds: seq<Description>): nat
    decreases ds, 0
  {
    if ds == [] then 0 else TestCounts(ds[..|ds| - 1]) + TestCount(ds[|ds| - 1])
  }

  lemma {:induction false} TestCountsAppend(a: seq<Description>, b: seq<Description>)
    ensures TestCounts(a + b) == TestCounts(a) + TestCounts(b)
    decreases |b|
  {
    if b != [] {
      var n := |b| - 1;
      assert (a + b)[..|a + b| - 1] == a + b[..n];
      TestCountsAppend(a, b[..n]);
    } else {
      assert a + b == a;
    }
  }

  // ---------------------------------------------------------------------------
  // Hooks

  /** `FirstWithStage` is the first occurrence: any index meeting its contract is it. */
  lemma FirstWithStageIs(stage: Stage, hooks: seq<BeforeOrAfterStep>, k: nat)
    requires k < |hooks| && hooks[k].stage == stage
    requires forall j :: 0 <= j < k ==> hooks[j].stage != stage
    ensures FirstWithStage(stage, hooks) == Some(k)
  {
  }

  /** The first hook of a stage in `a + b` is the first in `a`, or else the first in `b`. */
  lemma FirstWithStageConcat(stage: Stage, a: seq<BeforeOrAfterStep>, b: seq<BeforeOrAfterStep>)
    ensures FirstWithStage(stage, a).Some? ==> FirstWithStage(stage, a + b) == FirstWithStage(stage, a)
    ensures FirstWithStage(stage, a).None? ==>
      FirstWithStage(stage, a + b) == (match FirstWithStage(stage, b) case None => None case Some(k) => Some(|a| + k))
  {
    match FirstWithStage(stage, a)
    case Some(i) =>
      forall j | 0 <= j <= i ensures (a + b)[j] == a[j] { }
      FirstWithStageIs(stage, a + b, i);
    case None =>
      forall j | 0 <= j < |a + b| ensures (a + b)[j] == if j < |a| then a[j] else b[j - |a|] { }
      match FirstWithStage(stage, b)
      case None =>
      case Some(k) =>
        FirstWithStageIs(stage, a + b, |a| + k);
  }

  /**
    A scenario hook registered for the scenario's own type wins over one registered for
    `ANY`; an `ANY` hook is used only when the type has none of that stage.
   */
  lemma ScenarioHookPrecedence(env: Env, scenarioType: ScenarioType, stage: Stage)
    requires ValidEnv(env)
    ensures var own := env.beforeOrAfterScenario[scenarioType];
      var any := env.beforeOrAfterScenario[Any];
      var r := FirstWithStage(stage, ScenarioHookList(env, scenarioType));
      && (FirstWithStage(stage, own).Some? ==> r.Some? && ScenarioHookList(env, scenarioType)[r.value] == own[FirstWithStage(stage, own).value])
      && (FirstWithStage(stage, own).None? ==>
            (r.None? <==> FirstWithStage(stage, any).None?) &&
            (r.Some? ==> ScenarioHookList(env, scenarioType)[r.value] == any[FirstWithStage(stage, any).value]))
  {
    var own := env.beforeOrAfterScenario[scenarioType];
    var any := env.beforeOrAfterScenario[Any];
    FirstWithStageConcat(stage, own, any);
    var r := FirstWithStage(stage, own + any);
    if FirstWithStage(stage, own).Some? {
      assert (own + any)[r.value] == own[r.value];
    } else if r.Some? {
      assert (own + any)[r.value] == any[r.value - |own|];
    }
  }

  /**
    Hook insertion adds exactly one test, counted once, when some hook has the stage
    (the first such hook, with a fresh label extending the step name), and changes
    nothing at all otherwise.
   */
  lemma HookStepEffect(stage: Stage, hooks: seq<BeforeOrAfterStep>, stepName: string, st: State)
    ensures var out := HookStep(stage, hooks, stepName, st);
      && |out.nodes| <= 1
      && out.st.testCases == st.testCases + |out.nodes|
      && ((exists j :: 0 <= j < |hooks| && hooks[j].stage == stage) <==> |out.nodes| == 1)
      && (out.nodes == [] ==> out.st == st)
  {
  }

  /** The hook node, when there is one: the first hook of the stage, with a fresh label. */
  lemma HookStepNode(stage: Stage, hooks: seq<BeforeOrAfterStep>, stepName: string, st: State, j: nat)
    requires j < |hooks| && hooks[j].stage == stage
    requires forall i :: 0 <= i < j ==> hooks[i].stage != stage
    ensures var out := HookStep(stage, hooks, stepName, st);
      && |out.nodes| == 1 && out.nodes[0].Test?
      && out.nodes[0].owner == hooks[j].owner
      && SafeText(stepName) <= out.nodes[0].displayName
      && out.nodes[0].displayName !in st.issued
      && out.st.issued == st.issued + {out.nodes[0].displayName}
  {
    FirstWithStageIs(stage, hooks, j);
  }

  /** The nodes a hook insertion adds: none without a hook of the stage, else its first hook's test. */
  ghost predicate HookNodes(nodes: seq<Description>, stage: Stage, hooks: seq<BeforeOrAfterStep>, stepName: string) {
    match FirstWithStage(stage, hooks)
    case None => nodes == []
    case Some(j) =>
      |nodes| == 1 && nodes[0].Test? && nodes[0].owner == hooks[j].owner && SafeText(stepName) <= nodes[0].displayName
  }

  lemma HookStepNodes(stage: Stage, hooks: seq<BeforeOrAfterStep>, stepName: string, st: State)
    ensures HookNodes(HookStep(stage, hooks, stepName, st).nodes, stage, hooks, stepName)
  {
    match FirstWithStage(stage, hooks)
    case None =>
    case Some(j) => HookStepNode(stage, hooks, stepName, st, j);
  }

  // ---------------------------------------------------------------------------
  // Which composites must be ranked

  /**
    Only the candidate `findMatchingStep` selects is ranked: a composite behind an
    earlier regular candidate that matches every step is never expanded, so any
    composed steps and any rank are accepted for it, even steps that it would match itself.
   */
  lemma ShadowedCompositeAccepted(a: StepCandidate, b: StepCandidate)
    requires !a.isComposite && b.isComposite
    requires forall t, p :: a.matches(t, p)
    ensures WellRanked([a, b])
  {
    var cands := [a, b];
    forall j | 0 <= j < |cands| && cands[j].isComposite
      ensures StepsBounded(cands, cands[j].composedSteps, cands[j].rank)
    {
      forall i, p | 0 <= i < |cands[j].composedSteps|
        ensures SelectedBelow(cands, FirstMatch(cands, cands[j].composedSteps[i], p), cands[j].rank)
      {
        assert cands[0].matches(cands[j].composedSteps[i], p);
      }
    }
  }

  // ---------------------------------------------------------------------------
  // Leaf conservation for steps

  /**
    The keyword service classifies every text and every composite candidate composes
    at least one step: then no step vanishes from the report.
   */
  ghost predicate Complete(env: Env) {
    && (forall t :: env.keywords.stepTypeFor(t).Found?)
    && (forall j :: 0 <= j < |env.allCandidates| && env.allCandidates[j].isComposite ==>
          env.allCandidates[j].composedSteps != [])
  }

  /**
    Leaf conservation for `addSteps`: each step adds at most one child; the counter
    grows by at most JUnit's test count of the added nodes, and never shrinks; the
    uniquifier only gains labels. When no step can vanish (`Complete`), each step adds
    exactly one child and the counter grows by exactly the test count — so a composite
    step contributes exactly the recursive count of its composed steps.
   */
  lemma {:induction false} StepsLeaves(env: Env, steps: seq<string>, st: State, bound: nat)
    requires ValidEnv(env) && StepsBounded(env.allCandidates, steps, bound)
    ensures var out := Steps(env, steps, st, bound);
      && |out.nodes| <= |steps|
      && st.testCases <= out.st.testCases <= st.testCases + TestCounts(out.nodes)
      && st.issued <= out.st.issued
      && (Complete(env) ==> |out.nodes| == |steps| && out.st.testCases == st.testCases + TestCounts(out.nodes))
    decreases bound, |steps|, 2
  {
    StepsFromLeaves(env, steps, st.(previousNonAndStep := None), bound);
  }

  lemma {:induction false} StepsFromLeaves(env: Env, steps: seq<string>, st: State, bound: nat)
    requires ValidEnv(env) && StepsBounded(env.allCandidates, steps, bound)
    ensures var out := StepsFrom(env, steps, st, bound);
      && |out.nodes| <= |steps|
      && st.testCases <= out.st.testCases <= st.testCases + TestCounts(out.nodes)
      && st.issued <= out.st.issued
      && (Complete(env) ==> |out.nodes| == |steps| && out.st.testCases == st.testCases + TestCounts(out.nodes))
    decreases bound, |steps|, 1
  {
    if steps != [] {
      var n := |steps| - 1;
      assert TextBounded(env.allCandidates, steps[n], bound);
      var pre := StepsFrom(env, steps[..n], st, bound);
      StepsFromLeaves(env, steps[..n], st, bound);
      StepLeaves(env, steps[n], pre.st, bound);
      var last := Step(env, steps[n], pre.st, bound);
      TestCountsAppend(pre.nodes, last.nodes);
    }
  }

  /** One step: at most one node, the counter relation as for `StepsLeaves`. */
  lemma {:induction false} StepLeaves(env: Env, text: string, st: State, bound: nat)
    requires ValidEnv(env) && TextBounded(env.allCandidates, text, bound)
    ensures var out := Step(env, text, st, bound);
      && |out.nodes| <= 1
      && st.testCases <= out.st.testCases <= st.testCases + TestCounts(out.nodes)
      && st.issued <= out.st.issued
      && (Complete(env) ==> |out.nodes| == 1 && out.st.testCases == st.testCases + TestCounts(out.nodes))
    decreases bound, 0, 2
  {
    var oneLine := StripLinebreaks(text);
    match FirstMatch(env.allCandidates, text, st.previousNonAndStep)
    case None =>
    case Some(k) =>
      var c := env.allCandidates[k];
      assert c.matches(text, st.previousNonAndStep);
      var st1 := st.(previousNonAndStep := NextPrevious(c, st.previousNonAndStep));
      if c.isComposite {
        assert c.rank < bound;
        var inner := Steps(env, c.composedSteps, Issue(st1, oneLine), c.rank);
        StepsLeaves(env, c.composedSteps, Issue(st1, oneLine), c.rank);
        var node := Suite(SafeLabel(st1, oneLine), inner.nodes);
        assert Step(env, text, st, bound) == ExistingStep(env, oneLine, c, st1, bound);
        assert ExistingStep(env, oneLine, c, st1, bound) == CompositeStep(env, oneLine, c, st1, bound);
        assert CompositeStep(env, oneLine, c, st1, bound) == Out([node], inner.st);
        assert [node][..0] == [];
        assert TestCounts([node]) == TestCount(node);
        assert inner.nodes != [] ==> TestCount(node) == TestCounts(inner.nodes);
      }
  }

  /**
    What one step adds, case by case. Unmatched: a step whose starting word is unknown
    adds nothing and changes nothing; an ignorable one adds a childless suite with its
    raw first line; any other adds a childless `[PENDING] ` suite — both counted once.
    Matched, not composite: one test of the candidate's steps class, counted once.
    Matched composite: one suite labelled with the step, whose children are its composed
    steps' nodes (the fresh expansion starts with no carried word), adding to the counter
    what those children add — exactly their test count when no step can vanish.
   */
  lemma StepCases(env: Env, text: string, st: State, bound: nat)
    requires ValidEnv(env) && TextBounded(env.allCandidates, text, bound)
    ensures var out := Step(env, text, st, bound);
      var oneLine := StripLinebreaks(text);
      match FirstMatch(env.allCandidates, text, st.previousNonAndStep)
      case None =>
        && out.st.previousNonAndStep == st.previousNonAndStep
        && (env.keywords.stepTypeFor(text) == StartingWordNotFound ==> out == Out([], st))
        && (env.keywords.stepTypeFor(text) == Found(Ignorable) ==>
              out.nodes == [Suite(oneLine, [])] && out.st == Count(st))
        && (env.keywords.stepTypeFor(text).Found? && env.keywords.stepTypeFor(text) != Found(Ignorable) ==>
              |out.nodes| == 1 && out.nodes[0].Suite? && out.nodes[0].children == []
              && SafeText(PendingPrefix + oneLine) <= out.nodes[0].displayName
              && out.nodes[0].displayName !in st.issued
              && out.st.issued == st.issued + {out.nodes[0].displayName}
              && out.st.testCases == st.testCases + 1)
      case Some(k) =>
        var c := env.allCandidates[k];
        && |out.nodes| == 1
        && SafeText(oneLine) <= out.nodes[0].displayName
        && out.nodes[0].displayName !in st.issued
        && (!c.isComposite ==>
              out.nodes[0] == Test(out.nodes[0].displayName, c.stepsType)
              && out.st.issued == st.issued + {out.nodes[0].displayName}
              && out.st.testCases == st.testCases + 1
              && out.st.previousNonAndStep == NextPrevious(c, st.previousNonAndStep))
        && (c.isComposite ==>
              && out.nodes[0].Suite?
              && out.nodes[0].children == Steps(env, c.composedSteps, Issue(st, oneLine).(previousNonAndStep := None), c.rank).nodes
              && out.st == Steps(env, c.composedSteps, Issue(st, oneLine).(previousNonAndStep := None), c.rank).st
              && |out.nodes[0].children| <= |c.composedSteps|
              && st.testCases <= out.st.testCases <= st.testCases + TestCounts(out.nodes[0].children)
              && (Complete(env) ==> out.st.testCases == st.testCases + TestCounts(out.nodes[0].children)))
  {
    var oneLine := StripLinebreaks(text);
    match FirstMatch(env.allCandidates, text, st.previousNonAndStep)
    case None =>
    case Some(k) =>
      var c := env.allCandidates[k];
      assert c.matches(text, st.previousNonAndStep);
      var st1 := st.(previousNonAndStep := NextPrevious(c, st.previousNonAndStep));
      assert SafeLabel(st1, oneLine) == SafeLabel(st, oneLine);
      if c.isComposite {
        assert c.rank < bound;
        var st2 := Issue(st1, oneLine);
        assert st2.(previousNonAndStep := None) == Issue(st, oneLine).(previousNonAndStep := None);
        var inner := Steps(env, c.composedSteps, st2, c.rank);
        StepsLeaves(env, c.composedSteps, st2, c.rank);
        assert Step(env, text, st, bound) == ExistingStep(env, oneLine, c, st1, bound);
        assert ExistingStep(env, oneLine, c, st1, bound) == CompositeStep(env, oneLine, c, st1, bound);
        assert CompositeStep(env, oneLine, c, st1, bound) == Out([Suite(SafeLabel(st1, oneLine), inner.nodes)], inner.st);
      }
  }

  // ---------------------------------------------------------------------------
  // Given stories

  /** A childless suite whose label extends the safe text of the path's file name. */
  ghost predicate GivenStoryNode(d: Description, path: string)
    requires WellFormedPath(path)
  {
    d.Suite? && d.children == [] && SafeText(GetFilename(path)) <= d.displayName
  }

  /**
    `insertGivenStories`: one childless suite per path, in path order, each counted once
    and each under a label issued fresh — so no two of them are equal.
   */
  lemma {:induction false} GivenStoryNodesShape(paths: seq<string>, st: State)
    requires forall i :: 0 <= i < |paths| ==> WellFormedPath(paths[i])
    ensures var out := GivenStoryNodes(paths, st);
      && |out.nodes| == |paths|
      && out.st.testCases == st.testCases + |paths|
      && out.st.previousNonAndStep == st.previousNonAndStep
      && st.issued <= out.st.issued
      && (forall i :: 0 <= i < |paths| ==> GivenStoryNode(out.nodes[i], paths[i]))
      && (forall i :: 0 <= i < |paths| ==> out.nodes[i].displayName in out.st.issued - st.issued)
      && (forall i, j :: 0 <= i < j < |paths| ==> out.nodes[i].displayName != out.nodes[j].displayName)
  {
    if paths != [] {
      var n := |paths| - 1;
      var pre := GivenStoryNodes(paths[..n], st);
      GivenStoryNodesShape(paths[..n], st);
      var out := GivenStoryNodes(paths, st);
      var name := GetFilename(paths[n]);
      var last := Suite(SafeLabel(pre.st, name), []);
      assert out.nodes == pre.nodes + [last];
      assert out.st == Count(Issue(pre.st, name));
      assert last.displayName !in pre.st.issued;
      assert GivenStoryNode(last, paths[n]);
      forall i | 0 <= i < n ensures out.nodes[i] == pre.nodes[i] && paths[..n][i] == paths[i] { }
      forall i | 0 <= i <= n ensures GivenStoryNode(out.nodes[i], paths[i]) {
        if i < n { assert GivenStoryNode(pre.nodes[i], paths[..n][i]); }
      }
      forall i | 0 <= i <= n ensures out.nodes[i].displayName in out.st.issued - st.issued {
        if i < n { assert pre.nodes[i].displayName in pre.st.issued - st.issued; }
      }
      forall i, j | 0 <= i < j <= n ensures out.nodes[i].displayName != out.nodes[j].displayName {
        if j == n { assert out.nodes[i].displayName in pre.st.issued; }
        else { assert pre.nodes[i].displayName != pre.nodes[j].displayName; }
      }
    }
  }

  // ---------------------------------------------------------------------------
  // Scenarios

  /** The number of nodes a hook insertion of `stage` adds: one when some hook has the stage. */
  function HookCount(stage: Stage, hooks: seq<BeforeOrAfterStep>): nat {
    if FirstWithStage(stage, hooks).Some? then 1 else 0
  }

  /** Nodes that `addSteps` produces for `steps`, from some counter and set of issued labels. */
  ghost predicate StepNodes(nodes: seq<Description>, env: Env, steps: seq<string>)
    requires ValidEnv(env)
  {
    exists s: State :: nodes == Steps(env, steps, s, RankBound(env.allCandidates)).nodes
  }

  /**
    The nodes of `addScenarioSteps`: the before hook's test if there is one, then the
    nodes of the scenario's steps, then the after hook's test if there is one.
   */
  ghost predicate StepsFramed(nodes: seq<Description>, hooks: seq<BeforeOrAfterStep>,
                              beforeName: string, afterName: string, env: Env, steps: seq<string>)
    requires ValidEnv(env)
  {
    var b := HookCount(Before, hooks);
    var a := HookCount(After, hooks);
    && b + a <= |nodes|
    && HookNodes(nodes[..b], Before, hooks, beforeName)
    && HookNodes(nodes[|nodes| - a..], After, hooks, afterName)
    && StepNodes(nodes[b..|nodes| - a], env, steps)
  }

  lemma StepsFramedAssemble(before: seq<Description>, s: State, after: seq<Description>,
                            hooks: seq<BeforeOrAfterStep>, beforeName: string, afterName: string,
                            env: Env, steps: seq<string>)
    requires ValidEnv(env)
    requires HookNodes(before, Before, hooks, beforeName)
    requires HookNodes(after, After, hooks, afterName)
    ensures var mid := Steps(env, steps, s, RankBound(env.allCandidates)).nodes;
      StepsFramed(before + mid + after, hooks, beforeName, afterName, env, steps)
  {
    var mid := Steps(env, steps, s, RankBound(env.allCandidates)).nodes;
    assert |before| == HookCount(Before, hooks) by {
      match FirstWithStage(Before, hooks)
      case None =>
      case Some(j) =>
    }
    assert |after| == HookCount(After, hooks) by {
      match FirstWithStage(After, hooks)
      case None =>
      case Some(j) =>
    }
    SplitThree(before, mid, after);
    assert (before + mid + after)[|before + mid + after| - |after|..] == after;
  }

  /**
    `addScenarioSteps`: the before hook (the first of its stage in the type's list, then
    the `ANY` list), the nodes `addSteps` gives for the scenario's steps right after that
    hook, then the after hook. Each hook present counts once, around the steps' own count.
   */
  lemma ScenarioStepsFramed(env: Env, scenarioType: ScenarioType, steps: seq<string>, st: State)
    requires ValidEnv(env)
    ensures var out := ScenarioSteps(env, scenarioType, steps, st);
      var hooks := ScenarioHookList(env, scenarioType);
      var mid := Steps(env, steps, HookStep(Before, hooks, BeforeScenarioStepName, st).st, RankBound(env.allCandidates));
      var b := HookCount(Before, hooks);
      var a := HookCount(After, hooks);
      && StepsFramed(out.nodes, hooks, BeforeScenarioStepName, AfterScenarioStepName, env, steps)
      && |out.nodes| == b + |mid.nodes| + a
      && out.nodes[b..b + |mid.nodes|] == mid.nodes
      && HookStep(Before, hooks, BeforeScenarioStepName, st).st.testCases == st.testCases + b
      && st.testCases + b <= mid.st.testCases
      && out.st.testCases == mid.st.testCases + a
  {
    var hooks := ScenarioHookList(env, scenarioType);
    var before := HookStep(Before, hooks, BeforeScenarioStepName, st);
    var body := Steps(env, steps, before.st, RankBound(env.allCandidates));
    var after := HookStep(After, hooks, AfterScenarioStepName, body.st);
    HookStepNodes(Before, hooks, BeforeScenarioStepName, st);
    HookStepNodes(After, hooks, AfterScenarioStepName, body.st);
    HookStepEffect(Before, hooks, BeforeScenarioStepName, st);
    HookStepEffect(After, hooks, AfterScenarioStepName, body.st);
    StepsLeaves(env, steps, before.st, RankBound(env.allCandidates));
    StepsFramedAssemble(before.nodes, before.st, after.nodes, hooks, BeforeScenarioStepName, AfterScenarioStepName, env, steps);
    SplitThree(before.nodes, body.nodes, after.nodes);
    assert ScenarioSteps(env, scenarioType, steps, st) == Out(before.nodes + body.nodes + after.nodes, after.st);
  }

  /** The children a scenario's body starts with: its given-story nodes, in path order. */
  ghost predicate StartsWithGivenStories(children: seq<Description>, scenario: Scenario)
    requires WellFormedScenario(scenario)
  {
    var paths := scenario.givenStories.paths;
    |children| >= |paths| && forall i :: 0 <= i < |paths| ==> GivenStoryNode(children[i], paths[i])
  }

  /**
    The content of a scenario body: its given stories first, then the hook-framed nodes of
    its steps, with the hooks of `scenarioType`.
   */
  ghost predicate ScenarioBody(env: Env, scenario: Scenario, scenarioType: ScenarioType, children: seq<Description>)
    requires ValidEnv(env) && WellFormedScenario(scenario)
  {
    StartsWithGivenStories(children, scenario)
      && StepsFramed(children[|scenario.givenStories.paths|..], ScenarioHookList(env, scenarioType),
                     BeforeScenarioStepName, AfterScenarioStepName, env, scenario.steps)
  }

  lemma BodyOf(env: Env, scenario: Scenario, scenarioType: ScenarioType, st: State)
    requires ValidEnv(env) && WellFormedScenario(scenario)
    ensures var given := ScenarioGivenStories(scenario, st);
      var body := ScenarioSteps(env, scenarioType, scenario.steps, given.st);
      ScenarioBody(env, scenario, scenarioType, given.nodes + body.nodes)
  {
    var given := ScenarioGivenStories(scenario, st);
    var body := ScenarioSteps(env, scenarioType, scenario.steps, given.st);
    GivenStoryNodesShape(scenario.givenStories.paths, st);
    ScenarioStepsFramed(env, scenarioType, scenario.steps, given.st);
    assert |given.nodes| == |scenario.givenStories.paths|;
    assert (given.nodes + body.nodes)[|given.nodes|..] == body.nodes;
    forall i | 0 <= i < |scenario.givenStories.paths|
      ensures GivenStoryNode((given.nodes + body.nodes)[i], scenario.givenStories.paths[i])
    {
      assert (given.nodes + body.nodes)[i] == given.nodes[i];
    }
  }

  /** A row's suite: labelled with the row, holding an `EXAMPLE` body. */
  ghost predicate RowNode(d: Description, env: Env, scenario: Scenario, row: Row)
    requires ValidEnv(env) && WellFormedScenario(scenario)
  {
    d.Suite? && d.displayName == RowLabel(env.keywords, row) && ScenarioBody(env, scenario, Example, d.children)
  }

  /** One row suite per row, in row order. */
  ghost predicate RowsShaped(ds: seq<Description>, env: Env, scenario: Scenario, rows: seq<Row>)
    requires ValidEnv(env) && WellFormedScenario(scenario)
  {
    |ds| == |rows| && forall i :: 0 <= i < |rows| ==> RowNode(ds[i], env, scenario, rows[i])
  }

  lemma PointwiseAppend<T, U>(xs: seq<T>, x: T, ys: seq<U>, p: (T, U) -> bool)
    requires ys != [] && |xs| == |ys| - 1
    requires forall i :: 0 <= i < |xs| ==> p(xs[i], ys[..|xs|][i])
    requires p(x, ys[|xs|])
    ensures forall i :: 0 <= i < |ys| ==> p((xs + [x])[i], ys[i])
  {
    forall i | 0 <= i < |ys| ensures p((xs + [x])[i], ys[i]) {
      if i < |xs| {
        assert (xs + [x])[i] == xs[i] && ys[..|xs|][i] == ys[i];
      }
    }
  }

  lemma RowsShapedAppend(ds: seq<Description>, d: Description, env: Env, scenario: Scenario, rows: seq<Row>)
    requires ValidEnv(env) && WellFormedScenario(scenario)
    requires rows != [] && RowsShaped(ds, env, scenario, rows[..|rows| - 1])
    requires RowNode(d, env, scenario, rows[|rows| - 1])
    ensures RowsShaped(ds + [d], env, scenario, rows)
  {
    var p := (x, r) => RowNode(x, env, scenario, r);
    PointwiseAppend(ds, d, rows, p);
  }

  lemma {:induction false} ExampleRowsShape(env: Env, scenario: Scenario, rows: seq<Row>, st: State)
    requires ValidEnv(env) && WellFormedScenario(scenario)
    ensures RowsShaped(ExampleRows(env, scenario, rows, st).nodes, env, scenario, rows)
  {
    if rows != [] {
      var n := |rows| - 1;
      var pre := ExampleRows(env, scenario, rows[..n], st);
      ExampleRowsShape(env, scenario, rows[..n], st);
      var given := ScenarioGivenStories(scenario, pre.st);
      var body := ScenarioSteps(env, Example, scenario.steps, given.st);
      BodyOf(env, scenario, Example, pre.st);
      var d := Suite(RowLabel(env.keywords, rows[n]), given.nodes + body.nodes);
      assert ExampleRows(env, scenario, rows, st).nodes == pre.nodes + [d];
      RowsShapedAppend(pre.nodes, d, env, scenario, rows);
    }
  }

  /** The scenario's label: the scenario keyword, a space and its title's safe text. */
  ghost predicate LabelledAs(d: Description, env: Env, scenario: Scenario) {
    env.keywords.scenario + " " + SafeText(scenario.title) <= d.displayName
  }

  lemma PrefixConcat(a: string, b: string, c: string)
    requires b <= c
    ensures a + b <= a + c
  {
    assert (a + c)[..|a + b|] == a + c[..|b|];
  }

  /**
    The examples branch: when the scenario has examples (a table with rows and given
    stories that ask for no parameters) it has exactly one child per row, in row order,
    each labelled with the row and holding the given stories and the steps framed by
    the `EXAMPLE` hooks.
   */
  lemma ExamplesBranch(env: Env, scenario: Scenario, st: State)
    requires ValidEnv(env) && WellFormedScenario(scenario) && HasExamples(scenario)
    ensures var d := ScenarioDescription(env, scenario, st).node;
      && d.Suite? && LabelledAs(d, env, scenario)
      && RowsShaped(d.children, env, scenario, scenario.examplesTable.value.rows)
  {
    var st1 := Issue(st, scenario.title);
    var rows := ExampleRows(env, scenario, scenario.examplesTable.value.rows, st1);
    ExampleRowsShape(env, scenario, scenario.examplesTable.value.rows, st1);
    ScenarioDescriptionLabelled(env, scenario, st);
    assert ScenarioDescription(env, scenario, st).node.children == rows.nodes;
  }

  /**
    The plain branch: otherwise the given stories (if any) are the scenario's first
    children, followed by its steps framed by the `NORMAL` hooks; the examples table,
    if any, is not used.
   */
  lemma PlainBranch(env: Env, scenario: Scenario, st: State)
    requires ValidEnv(env) && WellFormedScenario(scenario) && !HasExamples(scenario)
    ensures var d := ScenarioDescription(env, scenario, st).node;
      && d.Suite? && LabelledAs(d, env, scenario)
      && ScenarioBody(env, scenario, Normal, d.children)
  {
    var st1 := Issue(st, scenario.title);
    var given := ScenarioGivenStories(scenario, st1);
    var body := ScenarioSteps(env, Normal, scenario.steps, given.st);
    BodyOf(env, scenario, Normal, st1);
    ScenarioDescriptionLabelled(env, scenario, st);
    assert ScenarioDescription(env, scenario, st).node.children == given.nodes + body.nodes;
  }

  // ---------------------------------------------------------------------------
  // Stories

  /** Whichever branch is taken, the scenario's node is a suite carrying the scenario label. */
  lemma ScenarioDescriptionLabelled(env: Env, scenario: Scenario, st: State)
    requires ValidEnv(env) && WellFormedScenario(scenario)
    ensures var d := ScenarioDescription(env, scenario, st).node;
      d.Suite? && LabelledAs(d, env, scenario)
  {
    var d := ScenarioDescription(env, scenario, st).node;
    assert d.displayName == ScenarioLabel(env, scenario, st);
    PrefixConcat(env.keywords.scenario + " ", SafeText(scenario.title), SafeLabel(st, scenario.title));
  }

  /** A node that `createDescriptionFrom(scenario)` builds, from some generator state. */
  ghost predicate ScenarioNode(d: Description, env: Env, scenario: Scenario) {
    && ValidEnv(env) && WellFormedScenario(scenario)
    && exists s: State :: d == ScenarioDescription(env, scenario, s).node
  }

  /** One node per scenario, in order, each built from its own scenario. */
  ghost predicate ScenarioNodes(ds: seq<Description>, env: Env, scenarios: seq<Scenario>) {
    |ds| == |scenarios| && forall i :: 0 <= i < |ds| ==> ScenarioNode(ds[i], env, scenarios[i])
  }

  /**
    What a scenario's node holds, whichever state it was built in: the scenario's label,
    and either one row suite per row or the plain body, as `hasExamples` decides.
   */
  lemma ScenarioNodeShape(d: Description, env: Env, scenario: Scenario)
    requires ScenarioNode(d, env, scenario)
    ensures d.Suite? && LabelledAs(d, env, scenario)
    ensures HasExamples(scenario) ==> RowsShaped(d.children, env, scenario, scenario.examplesTable.value.rows)
    ensures !HasExamples(scenario) ==> ScenarioBody(env, scenario, Normal, d.children)
  {
    var s: State :| d == ScenarioDescription(env, scenario, s).node;
    if HasExamples(scenario) {
      ExamplesBranch(env, scenario, s);
    } else {
      PlainBranch(env, scenario, s);
    }
  }

  lemma {:induction false} ScenarioDescriptionsShape(env: Env, scenarios: seq<Scenario>, st: State)
    requires ValidEnv(env) && forall i :: 0 <= i < |scenarios| ==> WellFormedScenario(scenarios[i])
    ensures ScenarioNodes(ScenarioDescriptions(env, scenarios, st).nodes, env, scenarios)
  {
    if scenarios != [] {
      var n := |scenarios| - 1;
      var pre := ScenarioDescriptions(env, scenarios[..n], st);
      ScenarioDescriptionsShape(env, scenarios[..n], st);
      var last := ScenarioDescription(env, scenarios[n], pre.st);
      assert ScenarioNode(last.node, env, scenarios[n]);
      assert ScenarioDescriptions(env, scenarios, st).nodes == pre.nodes + [last.node];
      PointwiseAppend(pre.nodes, last.node, scenarios, (x, sc) => ScenarioNode(x, env, sc));
    }
  }

  /**
    A story's children, in order: the before-story hook if one is registered, one node
    per scenario in story order, then the after-story hook if one is registered.
   */
  ghost predicate StoryChildren(children: seq<Description>, env: Env, scenarios: seq<Scenario>) {
    var hooks := env.beforeOrAfterStory;
    var b := if FirstWithStage(Before, hooks).Some? then 1 else 0;
    var a := if FirstWithStage(After, hooks).Some? then 1 else 0;
    && |children| == b + |scenarios| + a
    && HookNodes(children[..b], Before, hooks, BeforeStoryStepName)
    && ScenarioNodes(children[b..b + |scenarios|], env, scenarios)
    && HookNodes(children[b + |scenarios|..], After, hooks, AfterStoryStepName)
  }

  lemma StoryChildrenAssemble(before: seq<Description>, middle: seq<Description>, after: seq<Description>,
                              env: Env, scenarios: seq<Scenario>)
    requires HookNodes(before, Before, env.beforeOrAfterStory, BeforeStoryStepName)
    requires ScenarioNodes(middle, env, scenarios)
    requires HookNodes(after, After, env.beforeOrAfterStory, AfterStoryStepName)
    ensures StoryChildren(before + middle + after, env, scenarios)
  {
    var children := before + middle + after;
    var b := if FirstWithStage(Before, env.beforeOrAfterStory).Some? then 1 else 0;
    var a := if FirstWithStage(After, env.beforeOrAfterStory).Some? then 1 else 0;
    assert |before| == b by {
      match FirstWithStage(Before, env.beforeOrAfterStory)
      case None =>
      case Some(j) =>
    }
    assert |after| == a by {
      match FirstWithStage(After, env.beforeOrAfterStory)
      case None =>
      case Some(j) =>
    }
    assert |middle| == |scenarios|;
    SplitThree(before, middle, after);
  }

  lemma SplitThree<T>(x: seq<T>, y: seq<T>, z: seq<T>)
    ensures (x + y + z)[..|x|] == x
    ensures (x + y + z)[|x|..|x| + |y|] == y
    ensures (x + y + z)[|x| + |y|..] == z
  {
  }

  /** `createDescriptionFrom(Story)`: a suite labelled with the story name, its children in order. */
  lemma StoryChildrenOrder(env: Env, story: Story, st: State)
    requires ValidEnv(env) && WellFormedStory(story)
    ensures var d := StoryDescription(env, story, st).node;
      && d.Suite? && SafeText(story.name) <= d.displayName
      && StoryChildren(d.children, env, story.scenarios)
  {
    var hooks := env.beforeOrAfterStory;
    var before := HookStep(Before, hooks, BeforeStoryStepName, Issue(st, story.name));
    var scenarios := ScenarioDescriptions(env, story.scenarios, before.st);
    var after := HookStep(After, hooks, AfterStoryStepName, scenarios.st);
    ScenarioDescriptionsShape(env, story.scenarios, before.st);
    HookStepNodes(Before, hooks, BeforeStoryStepName, Issue(st, story.name));
    HookStepNodes(After, hooks, AfterStoryStepName, scenarios.st);
    StoryChildrenAssemble(before.nodes, scenarios.nodes, after.nodes, env, story.scenarios);
    assert StoryDescription(env, story, st).node == Suite(SafeLabel(st, story.name), before.nodes + scenarios.nodes + after.nodes);
  }
}
