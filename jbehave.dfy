/**
  The inputs the description generator reads (a JBehave story, its scenarios, step
  candidates, lifecycle steps and keywords) and the tree it builds (a JUnit
  `Description`). The collaborators' behaviour that is not part of this model —
  `StepCandidate.matches`, `Keywords.stepTypeFor`, the lists a step provider
  registers — is carried as an oracle (a function-valued field) or a plain value.
 */
module JBehaveModel {
  import opened Options

  /** An opaque handle for a Java class (a steps type or a hook's declaring class). */
  datatype Owner = Owner(id: nat)

  /**
   * A JUnit `Description`: a suite with ordered children, or a test tied to a class.
   * A test's `displayName` is the method label it was created with; JUnit shows it
   * followed by the class name in parentheses, and `owner` stands for that class.
   */
  datatype Description =
    | Suite(displayName: string, children: seq<Description>)
    | Test(displayName: string, owner: Owner)
  {
    /** JUnit's `isTest()`: a description without children. */
    predicate IsTest() {
      Suite? ==> children == []
    }
  }

  datatype ScenarioType = Normal | Example | Any

  /** `ScenarioType.values()`, in declaration order. */
  const ScenarioTypes: seq<ScenarioType> := [Normal, Example, Any]

  datatype Stage = Before | After

  datatype StepType = Given | When | Then | And | Ignorable

  /** The outcome of `Keywords.stepTypeFor`, which may throw `StartingWordNotFound`. */
  datatype KeywordLookup = Found(stepType: StepType) | StartingWordNotFound

  /** A `BeforeOrAfterStep`: its stage and the class declaring its method. */
  datatype BeforeOrAfterStep = BeforeOrAfterStep(stage: Stage, owner: Owner)

  /**
    A `StepCandidate`. `rank` is not part of JBehave: it is the nesting level of a
    composite step, used to show that composite expansion ends (see `WellRanked`).
   */
  datatype StepCandidate = StepCandidate(
    matches: (string, Option<string>) -> bool,
    stepType: StepType,
    startingWord: string,
    isComposite: bool,
    composedSteps: seq<string>,
    stepsType: Owner,
    rank: nat)

  /** A `CandidateSteps` provider, as the generator's constructor reads it. */
  datatype CandidateSteps = CandidateSteps(
    listCandidates: seq<StepCandidate>,
    listBeforeOrAfterScenario: ScenarioType -> seq<BeforeOrAfterStep>,
    listBeforeOrAfterStory: seq<BeforeOrAfterStep>)

  /** The part of `configuration.keywords()` the generator uses. */
  datatype Keywords = Keywords(
    scenario: string,
    examplesTableRow: string,
    stepTypeFor: string -> KeywordLookup)

  /** One examples-table row: its column names and values, in column order. */
  type Row = seq<(string, string)>

  datatype ExamplesTable = ExamplesTable(rows: seq<Row>)

  datatype GivenStories = GivenStories(paths: seq<string>, requireParameters: bool)

  /** A `Scenario`; a missing examples table (`null`) is `None`. */
  datatype Scenario = Scenario(
    title: string,
    steps: seq<string>,
    examplesTable: Option<ExamplesTable>,
    givenStories: GivenStories)

  datatype Story = Story(name: string, scenarios: seq<Scenario>)

  /** The entries of a row as `key=value`, separated by `, `. */
  function JoinEntries(row: Row): string {
    if row == [] then []
    else if |row| == 1 then row[0].0 + "=" + row[0].1
    else row[0].0 + "=" + row[0].1 + ", " + JoinEntries(row[1..])
  }

  /** A row rendered as Java's `Map.toString` renders it: `{a=1, b=2}`. */
  function RowText(row: Row): string {
    "{" + JoinEntries(row) + "}"
  }
}
