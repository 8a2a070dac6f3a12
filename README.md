# JUnit description tree of a JBehave story

This project models the report-tree builder of the JBehave JUnit runner, the class
`JUnitDescriptionGenerator`, and proves properties of it. The builder walks a
JBehave story and produces a JUnit `Description` tree:

- a suite for the story;
- a suite per scenario, and a suite per examples-table row when the scenario is
  expanded row by row;
- a childless suite per given story;
- a test per matched step, a childless suite per pending or ignorable step, and a
  suite per composite step holding its composed steps;
- a test for the first matching before/after hook of the story and of each scenario
  (or of each examples row).

While it builds, the generator counts the leaves it emits in `testCases`. It carries
the starting word of the last non-`AND` matched step in `previousNonAndStep`, which
the matchers see. Most labels (story name, scenario title, hook names, given-story names, matched and
pending steps) go through a `DescriptionTextUniquefier`.

## Layout

- `options.dfy`, module `Options`: the `Option` type. A Java `null` is `None`.
- `text.dfy`, module `LineText`: the string helpers `stripLinebreaks`,
  `replaceLinebreaks`, the parenthesis replacement of `getJunitSafeString` and
  `getFilename`. Each regular-expression `replaceAll` is written out as a function on
  characters.
- `jbehave.dfy`, module `JBehaveModel`: the inputs (story, scenario, examples table,
  given stories, step candidates, lifecycle steps, keywords) and the `Description`
  datatype. `StepCandidate.matches`, `Keywords.stepTypeFor` and
  `listBeforeOrAfterScenario` are function-valued fields, that is, uninterpreted
  oracles. The other two lists a `CandidateSteps` provider hands out,
  `listCandidates` and `listBeforeOrAfterStory`, are plain values.
- `uniquifier.dfy`, module `Uniquifier`: the label uniquifier. `UniqueLabel` is its
  specification. The class `DescriptionTextUniquefier` holds the set of labels issued
  so far, and its method is proved to return `UniqueLabel` and record the label.
- `tree.dfy`, module `DescriptionTree`: the tree as functions. Each function takes the
  generator's state before a call (`State`: the counter, the carried word, the issued
  labels). It returns the nodes the call appends with `addChild`, together with the
  state afterwards. Each follows one Java method branch by branch:
  - `HookStep` follows `addBeforeOrAfterStep`, and `ScenarioHookList` the two lists
    `addBeforeOrAfterScenarioStep` searches;
  - `Step` follows the body of the loop in `addSteps`, `StepsFrom` the loop itself and
    `Steps` the whole of `addSteps`;
  - `NonExistingStep` follows `addNonExistingStep`, `ExistingStep` `addExistingStep`
    and `CompositeStep` `addCompositeSteps`;
  - `HasGivenStories`, `IsParameterized`, `ParameterNeededForGivenStories` and
    `HasExamples` follow `hasGivenStories`, `isParameterized`,
    `parameterNeededForGivenStories` and `hasExamples`;
  - `ScenarioSteps` follows `addScenarioSteps`, `ScenarioGivenStories` and
    `GivenStoryNodes` follow `insertGivenStories`, and `ExampleRows` follows
    `insertDescriptionForExamples`;
  - `ScenarioDescription` follows `createDescriptionFrom(Scenario)`,
    `ScenarioDescriptions` `addAllScenariosToDescription` and `StoryDescription`
    `createDescriptionFrom(Story)`.
- `generator.dfy`, module `Generator`: the class `JUnitDescriptionGenerator`. Its
  mutable fields are `testCases` and `previousNonAndStep`, beside the uniquifier and
  the lists the constructor collects. Each method loops and mutates as the Java one
  does. Each is proved to append exactly the nodes, and leave exactly the state, that
  the matching function of `DescriptionTree` gives.
- `properties.dfy`, module `TreeProperties`: what the tree promises, proved about
  those functions.

Behaviour a reader might not expect (the model follows the code):

- The nested `addSteps` of a composite step resets `previousNonAndStep` as well
  (`JUnitDescriptionGenerator.java:183`). After the composite step, the carried word
  is whatever the nested loop left: the word of the last matched non-`AND` composed
  step, or none.
- A pending step becomes a childless suite, not a test
  (`JUnitDescriptionGenerator.java:224`).
- The label of an ignorable step is its raw first line. It goes through neither the
  safe-text replacements nor the uniquifier (`JUnitDescriptionGenerator.java:219`).
- The label of an examples row is the row keyword, a space and the row's map text. It
  is not uniquified (`JUnitDescriptionGenerator.java:168`).
- A scenario's label is the scenario keyword, a space and the *uniquified* safe title.
  Only the title goes through the uniquifier (`JUnitDescriptionGenerator.java:284-285`).

Leaf counting: `testCases` grows by one for each hook test, given story, regular step,
pending step and ignorable step. A composite step adds nothing of its own. JUnit's
`testCount()` counts a description without children as one test. So a composite step
whose composed steps all vanish (an unknown starting word adds nothing) adds a suite
that JUnit counts once, while `testCases` does not grow. `StepsLeaves` therefore
states the counter's growth as at most the test count of the added nodes. It states
equality exactly when no step can vanish (`Complete`).

## Model

Source paths are relative to the repository root.

| member | source | states |
|---|---|---|
| LineText.IndexOf | src/main/java/de/codecentric/jbehave/junit/monitoring/JUnitDescriptionGenerator.java:268-269 | The index is within the string. The character there is the searched one. None occurs before it (`indexOf`, with the string's length for -1). |
| LineText.IndexOfIsFirst | src/main/java/de/codecentric/jbehave/junit/monitoring/JUnitDescriptionGenerator.java:268-269 | Any index with `IndexOf`'s properties is `IndexOf`: the first occurrence is unique. |
| LineText.StripLinebreaks | src/main/java/de/codecentric/jbehave/junit/monitoring/JUnitDescriptionGenerator.java:267-272 | The result is a prefix of the step with no line feed. It ends just before the first line feed, or is the whole step when there is none. |
| LineText.CarriageReturnsToLineFeeds | src/main/java/de/codecentric/jbehave/junit/monitoring/JUnitDescriptionGenerator.java:275 | Same length. Each `\r` becomes `\n` and every other character is kept, position by position. |
| LineText.CarriageReturnsAppend | src/main/java/de/codecentric/jbehave/junit/monitoring/JUnitDescriptionGenerator.java:275 | Replacing `\r` distributes over concatenation. |
| LineText.CollapseLineFeeds | src/main/java/de/codecentric/jbehave/junit/monitoring/JUnitDescriptionGenerator.java:276 | Never longer. Adds no `\r`. Is the identity on text without line feeds. |
| LineText.CollapseLineFeedsMeaning | src/main/java/de/codecentric/jbehave/junit/monitoring/JUnitDescriptionGenerator.java:276 | Collapsing runs of line feeds keeps every other character in order and leaves no two line feeds adjacent. It leaves a line feed exactly when the input had one, and keeps the first character. |
| LineText.CollapseAppend | src/main/java/de/codecentric/jbehave/junit/monitoring/JUnitDescriptionGenerator.java:276 | Collapsing distributes over a concatenation whose front part does not end in a line feed: no run of line feeds crosses the join. |
| LineText.CollapseRun | src/main/java/de/codecentric/jbehave/junit/monitoring/JUnitDescriptionGenerator.java:276 | A non-empty run of line feeds followed by text that does not start with one collapses to a single line feed. |
| LineText.LineFeedsToCommas | src/main/java/de/codecentric/jbehave/junit/monitoring/JUnitDescriptionGenerator.java:276 | No line feed remains. Adds no `\r`. Is the identity on text without line feeds. |
| LineText.LineFeedsToCommasAppend | src/main/java/de/codecentric/jbehave/junit/monitoring/JUnitDescriptionGenerator.java:276 | Replacing line feeds distributes over concatenation. |
| LineText.LineFeedToComma | src/main/java/de/codecentric/jbehave/junit/monitoring/JUnitDescriptionGenerator.java:276 | A lone line feed becomes `, `. |
| LineText.ReplaceLinebreaks | src/main/java/de/codecentric/jbehave/junit/monitoring/JUnitDescriptionGenerator.java:274-277 | The result has neither `\r` nor `\n`. Text with neither is returned unchanged. |
| LineText.ReplaceLinebreaksJoin | src/main/java/de/codecentric/jbehave/junit/monitoring/JUnitDescriptionGenerator.java:274-277 | Any non-empty run of `\r` and `\n` between a text that does not end in one and a text that does not start with one becomes a single `, ` between the two texts' own replacements. |
| LineText.ReplaceParentheses | src/main/java/de/codecentric/jbehave/junit/monitoring/JUnitDescriptionGenerator.java:119-120 | Same length. Each `(` and `)` becomes a vertical bar, every other character is kept, and none remain. |
| LineText.SafeText | src/main/java/de/codecentric/jbehave/junit/monitoring/JUnitDescriptionGenerator.java:118-121 | The text handed to the uniquifier contains no `(`, `)`, `\r` or `\n`. |
| LineText.SafeTextIdempotent | src/main/java/de/codecentric/jbehave/junit/monitoring/JUnitDescriptionGenerator.java:118-121 | Applying the safe-text replacements twice gives the same text as once. |
| LineText.NameStart | src/main/java/de/codecentric/jbehave/junit/monitoring/JUnitDescriptionGenerator.java:160 | `lastIndexOf("/") + 1`: no `/` follows the position, and the character before it, if any, is `/`. |
| LineText.NameStartIsAfterLastSlash | src/main/java/de/codecentric/jbehave/junit/monitoring/JUnitDescriptionGenerator.java:160 | Any position with `NameStart`'s properties is `NameStart`. |
| LineText.GetFilename | src/main/java/de/codecentric/jbehave/junit/monitoring/JUnitDescriptionGenerator.java:159-162 | The file name has no `/` and no `#`. It is a prefix of the text after the last `/`, and is followed there by `#` or by the end of the path. |
| LineText.GetFilenameExample | src/main/java/de/codecentric/jbehave/junit/monitoring/JUnitDescriptionGenerator.java:159-162 | `dir/sub/story.story#frag` has the file name `story.story`: the directories and the fragment are both dropped. |
| Uniquifier.UniqueLabel | src/main/java/de/codecentric/jbehave/junit/monitoring/JUnitDescriptionGenerator.java:31 | The label was never issued before, and it extends the text. A text not yet issued is returned as it is. |
| Uniquifier.IssuedLabelsDistinct | src/main/java/de/codecentric/jbehave/junit/monitoring/JUnitDescriptionGenerator.java:31 | Over any sequence of texts, even repeated ones, every returned label differs from all earlier ones and from those issued before. Each label extends its text. |
| Uniquifier.DescriptionTextUniquefier.GetUniqueDescription | src/main/java/de/codecentric/jbehave/junit/monitoring/JUnitDescriptionGenerator.java:119 | Returns `UniqueLabel` of the issued labels and the text, and records it as issued. |
| DescriptionTree.FirstWithStage | src/main/java/de/codecentric/jbehave/junit/monitoring/JUnitDescriptionGenerator.java:101-107 | The first hook in list order whose stage is the requested one. It is absent exactly when no hook has that stage. |
| DescriptionTree.FirstMatch | src/main/java/de/codecentric/jbehave/junit/monitoring/JUnitDescriptionGenerator.java:256-264 | The first candidate in `allCandidates` order that matches the step after the carried word. It is absent exactly when none matches. |
| Generator.EmptyScenarioHooks | src/main/java/de/codecentric/jbehave/junit/monitoring/JUnitDescriptionGenerator.java:37-43 | The instance initialiser maps every scenario type to an empty hook list. |
| Generator.AddScenarioHooks | src/main/java/de/codecentric/jbehave/junit/monitoring/JUnitDescriptionGenerator.java:56-58 | Every scenario type's list is extended by exactly the provider's hooks of that type. |
| Generator.JUnitDescriptionGenerator.constructor | src/main/java/de/codecentric/jbehave/junit/monitoring/JUnitDescriptionGenerator.java:51-61 | The candidates, each type's scenario hooks and the story hooks of all providers are collected in provider order. The counter starts at 0, with no carried word and no issued label. |
| Generator.JUnitDescriptionGenerator.GetJunitSafeString | src/main/java/de/codecentric/jbehave/junit/monitoring/JUnitDescriptionGenerator.java:118-121 | Returns the unique label of the safe text and records it as issued. |
| Generator.JUnitDescriptionGenerator.CreateDescriptionFromStory | src/main/java/de/codecentric/jbehave/junit/monitoring/JUnitDescriptionGenerator.java:63-69 | Returns `StoryDescription` of the old state and leaves its state (see `TreeProperties.StoryChildrenOrder`). |
| Generator.JUnitDescriptionGenerator.CreateDescriptionFromScenario | src/main/java/de/codecentric/jbehave/junit/monitoring/JUnitDescriptionGenerator.java:71-82 | Returns `ScenarioDescription` of the old state and leaves its state (see `TreeProperties.ExamplesBranch` and `TreeProperties.PlainBranch`). |
| Generator.JUnitDescriptionGenerator.AddScenarioSteps | src/main/java/de/codecentric/jbehave/junit/monitoring/JUnitDescriptionGenerator.java:84-88 | Appends the before hook, the steps and the after hook as `ScenarioSteps` gives them, and leaves its state. |
| Generator.JUnitDescriptionGenerator.AddBeforeOrAfterScenarioStep | src/main/java/de/codecentric/jbehave/junit/monitoring/JUnitDescriptionGenerator.java:90-96 | Hook insertion over the type's own list followed by the `ANY` list. |
| Generator.JUnitDescriptionGenerator.AddBeforeOrAfterStep | src/main/java/de/codecentric/jbehave/junit/monitoring/JUnitDescriptionGenerator.java:98-108 | The loop stops at the first hook of the stage and appends exactly what `HookStep` gives (see `TreeProperties.HookStepEffect`). |
| Generator.JUnitDescriptionGenerator.AddBeforeOrAfterStepDescription | src/main/java/de/codecentric/jbehave/junit/monitoring/JUnitDescriptionGenerator.java:110-116 | Appends one test owned by the hook's class, labelled with the unique safe step name. Only the uniquifier changes. |
| Generator.JUnitDescriptionGenerator.InsertGivenStories | src/main/java/de/codecentric/jbehave/junit/monitoring/JUnitDescriptionGenerator.java:145-150 | Appends `GivenStoryNodes` of the paths and leaves its state (see `TreeProperties.GivenStoryNodesShape`). |
| Generator.JUnitDescriptionGenerator.AddGivenStoryToScenario | src/main/java/de/codecentric/jbehave/junit/monitoring/JUnitDescriptionGenerator.java:152-157 | Appends one childless suite labelled with the unique safe file name, and counts it. |
| Generator.JUnitDescriptionGenerator.InsertDescriptionForExamples | src/main/java/de/codecentric/jbehave/junit/monitoring/JUnitDescriptionGenerator.java:164-176 | Appends one row suite per table row, in row order, as `ExampleRows` gives them. |
| Generator.JUnitDescriptionGenerator.AddExampleRow | src/main/java/de/codecentric/jbehave/junit/monitoring/JUnitDescriptionGenerator.java:167-174 | One iteration of the rows loop. It appends the row suite holding the given stories and the `EXAMPLE` scenario steps. |
| Generator.JUnitDescriptionGenerator.AddStepsToExample | src/main/java/de/codecentric/jbehave/junit/monitoring/JUnitDescriptionGenerator.java:178-180 | Appends the scenario's steps as `Steps` gives them. |
| Generator.JUnitDescriptionGenerator.AddSteps | src/main/java/de/codecentric/jbehave/junit/monitoring/JUnitDescriptionGenerator.java:182-193 | Resets the carried word, then appends every step in order, as `Steps` gives them (see `TreeProperties.StepsLeaves`). |
| Generator.JUnitDescriptionGenerator.AddStepsFrom | src/main/java/de/codecentric/jbehave/junit/monitoring/JUnitDescriptionGenerator.java:184-192 | The loop of `addSteps`: appends every step in order from the current state, as `StepsFrom` gives them. |
| Generator.JUnitDescriptionGenerator.AddStep | src/main/java/de/codecentric/jbehave/junit/monitoring/JUnitDescriptionGenerator.java:185-191 | One iteration: finds the matching candidate, then appends the step as existing or non-existing, as `Step` gives it (see `TreeProperties.StepCases`). |
| Generator.JUnitDescriptionGenerator.AddExistingStep | src/main/java/de/codecentric/jbehave/junit/monitoring/JUnitDescriptionGenerator.java:195-202 | A composite candidate is expanded, any other becomes a regular step. |
| Generator.JUnitDescriptionGenerator.AddNonExistingStep | src/main/java/de/codecentric/jbehave/junit/monitoring/JUnitDescriptionGenerator.java:204-215 | An ignorable step, a pending step, or nothing at all when the starting word is unknown. |
| Generator.JUnitDescriptionGenerator.AddIgnorableStep | src/main/java/de/codecentric/jbehave/junit/monitoring/JUnitDescriptionGenerator.java:217-220 | Appends a childless suite with the raw line, and counts it. The uniquifier is untouched. |
| Generator.JUnitDescriptionGenerator.AddPendingStep | src/main/java/de/codecentric/jbehave/junit/monitoring/JUnitDescriptionGenerator.java:222-226 | Appends a childless suite labelled with the unique safe `[PENDING] ` text, and counts it. |
| Generator.JUnitDescriptionGenerator.AddRegularStep | src/main/java/de/codecentric/jbehave/junit/monitoring/JUnitDescriptionGenerator.java:228-238 | Appends a test owned by the candidate's steps class, labelled with the unique safe line, and counts it. |
| Generator.JUnitDescriptionGenerator.AddCompositeSteps | src/main/java/de/codecentric/jbehave/junit/monitoring/JUnitDescriptionGenerator.java:240-246 | Appends a suite labelled with the step, whose children are the composed steps added by a nested `addSteps`. |
| Generator.JUnitDescriptionGenerator.AddAllScenariosToDescription | src/main/java/de/codecentric/jbehave/junit/monitoring/JUnitDescriptionGenerator.java:248-253 | Appends one node per scenario, in story order. |
| Generator.JUnitDescriptionGenerator.FindMatchingStep | src/main/java/de/codecentric/jbehave/junit/monitoring/JUnitDescriptionGenerator.java:255-265 | Returns the first candidate that matches, or none exactly when no candidate matches. After a match, the carried word becomes the candidate's starting word and a space unless the candidate is `AND`. Without a match it is unchanged. |
| TreeProperties.ShadowedCompositeAccepted | src/main/java/de/codecentric/jbehave/junit/monitoring/JUnitDescriptionGenerator.java:255-265 | Only the candidate `findMatchingStep` selects needs a rank: a composite behind an earlier regular candidate that matches every step is accepted with any composed steps and any rank. |
| TreeProperties.FirstWithStageIs | src/main/java/de/codecentric/jbehave/junit/monitoring/JUnitDescriptionGenerator.java:101-107 | Any index with the first-hook properties is the one the loop stops at. |
| TreeProperties.FirstWithStageConcat | src/main/java/de/codecentric/jbehave/junit/monitoring/JUnitDescriptionGenerator.java:92-95 | In a concatenated hook list, the first hook of a stage is the first one in the front part if there is one. Otherwise it is the first one in the back part, shifted by the front part's length. |
| TreeProperties.ScenarioHookPrecedence | src/main/java/de/codecentric/jbehave/junit/monitoring/JUnitDescriptionGenerator.java:90-96 | A hook of the scenario's own type wins over an `ANY` hook. An `ANY` hook is used exactly when the type has none of that stage. |
| TreeProperties.HookStepEffect | src/main/java/de/codecentric/jbehave/junit/monitoring/JUnitDescriptionGenerator.java:98-108 | Hook insertion adds at most one child and grows the counter by exactly the number added. It adds one iff some hook has the stage. With no such hook, nothing changes. |
| TreeProperties.HookStepNode | src/main/java/de/codecentric/jbehave/junit/monitoring/JUnitDescriptionGenerator.java:98-116 | The added child is a test owned by the first matching hook's class. Its label extends the safe step name, was never issued before, and is recorded. |
| TreeProperties.HookStepNodes | src/main/java/de/codecentric/jbehave/junit/monitoring/JUnitDescriptionGenerator.java:98-116 | Hook insertion adds no node without a hook of the stage, and otherwise the first such hook's test. |
| TreeProperties.TestCountsAppend | src/main/java/de/codecentric/jbehave/junit/monitoring/JUnitDescriptionGenerator.java:33 | JUnit's test count of a sequence of descriptions is additive over concatenation. |
| TreeProperties.StepsLeaves | src/main/java/de/codecentric/jbehave/junit/monitoring/JUnitDescriptionGenerator.java:182-246 | Leaf conservation for `addSteps`. Each step adds at most one child. The counter never shrinks and grows by at most JUnit's test count of the added nodes. The uniquifier only gains labels. When no step can vanish, each step adds exactly one child and the counter grows by exactly that test count. |
| TreeProperties.StepsFromLeaves | src/main/java/de/codecentric/jbehave/junit/monitoring/JUnitDescriptionGenerator.java:184-192 | The same leaf conservation for the loop from any carried word. |
| TreeProperties.StepLeaves | src/main/java/de/codecentric/jbehave/junit/monitoring/JUnitDescriptionGenerator.java:185-191 | The same bounds for one step: at most one node, a counter that grows by at most the test count of that node, issued labels that only grow, and with no vanishing step exactly one node counted exactly. |
| TreeProperties.StepCases | src/main/java/de/codecentric/jbehave/junit/monitoring/JUnitDescriptionGenerator.java:185-246 | Case by case: an unknown starting word adds nothing and changes nothing. An ignorable step adds its raw line as a childless suite, counted once, with no label issued. A pending step adds a fresh `[PENDING] ` suite, counted once, and issues exactly its label. A regular step adds one test of its steps class, counted once, issues exactly its label and carries the candidate's word. A composite step adds one fresh suite whose children are exactly the nodes of a nested `addSteps` over its composed steps, with the carried word reset; the state afterwards is exactly the state that nested call leaves. |
| TreeProperties.GivenStoryNodesShape | src/main/java/de/codecentric/jbehave/junit/monitoring/JUnitDescriptionGenerator.java:145-162 | One childless suite per given-story path, in path order, each labelled from the path's file name. The counter grows by the number of paths. The labels are freshly issued and pairwise distinct. |
| TreeProperties.ScenarioStepsFramed | src/main/java/de/codecentric/jbehave/junit/monitoring/JUnitDescriptionGenerator.java:84-96 | The before hook's test, if any, then the nodes `addSteps` gives for the scenario's steps, then the after hook's test, if any. Each hook is the first of its stage in the type-then-`ANY` list, and each present hook counts once, around the steps' own count. |
| TreeProperties.BodyOf | src/main/java/de/codecentric/jbehave/junit/monitoring/JUnitDescriptionGenerator.java:76-79 | A scenario body is its given-story nodes in path order, then the before hook's test, the nodes of `addSteps` over the scenario's steps and the after hook's test. |
| TreeProperties.ExampleRowsShape | src/main/java/de/codecentric/jbehave/junit/monitoring/JUnitDescriptionGenerator.java:164-176 | One suite per row, in row order, labelled with the row. Each holds the given stories, then the `EXAMPLE` before hook, the nodes of the scenario's steps and the `EXAMPLE` after hook. |
| TreeProperties.ExamplesBranch | src/main/java/de/codecentric/jbehave/junit/monitoring/JUnitDescriptionGenerator.java:71-143 | When `hasExamples` holds (a table with at least one row, and given stories that need no parameters), the scenario's node is a suite labelled with the scenario keyword and safe title, with exactly one child per row, in row order. Each child is labelled with its row and holds the given stories, then the `EXAMPLE` hooks around the nodes of the scenario's steps. |
| TreeProperties.PlainBranch | src/main/java/de/codecentric/jbehave/junit/monitoring/JUnitDescriptionGenerator.java:71-143 | Otherwise (no table, an empty one, or given stories that need parameters) its node is a suite labelled with the scenario keyword and safe title whose children are the given stories, then the `NORMAL` before hook, the nodes of the scenario's steps and the `NORMAL` after hook. |
| TreeProperties.ScenarioDescriptionLabelled | src/main/java/de/codecentric/jbehave/junit/monitoring/JUnitDescriptionGenerator.java:283-286 | A scenario's node is a suite whose label starts with the scenario keyword, a space and the safe title. |
| TreeProperties.ScenarioDescriptionsShape | src/main/java/de/codecentric/jbehave/junit/monitoring/JUnitDescriptionGenerator.java:248-253 | One node per scenario, in story order: node i is the description `createDescriptionFrom` builds for scenario i, from some generator state. |
| TreeProperties.ScenarioNodeShape | src/main/java/de/codecentric/jbehave/junit/monitoring/JUnitDescriptionGenerator.java:71-82 | A scenario's node, whatever state it was built in, carries the scenario label and holds either one row suite per row or the plain body, as `hasExamples` decides. So the branch facts apply to each scenario child of a story. |
| TreeProperties.StoryChildrenOrder | src/main/java/de/codecentric/jbehave/junit/monitoring/JUnitDescriptionGenerator.java:63-69 | The story's node is a suite labelled from its name. Its children are the before-story hook if registered, then node i is scenario i's own description for each scenario in story order, then the after-story hook if registered. |

## Left out

- `Description` is a value: the model covers neither the sharing of one `Description`
  object between parents nor its identity. A row suite is added to its scenario before
  it is filled (`JUnitDescriptionGenerator.java:170`). The model appends the finished
  row, which yields the same tree.
- The `Class`, `Method` and annotation arguments of JUnit's description factories
  (`getDeclaringClass`, `getAnnotations`, `getStepsType`) are reduced to an opaque
  `Owner`. Annotations are not modelled.
- `DescriptionTextUniquefier` is not part of this model. Its contract is taken as:
  - a label is never returned twice;
  - each label extends its text;
  - a text never returned before comes back unchanged.

  `UniqueLabel`, which appends a zero-width space until the label is fresh, is one
  implementation of that contract and stands in for the real one.
- Java's `Map.toString` of an examples row is rendered as `{k=v, ...}` in column order
  (`RowText`). Its real entry order is not modelled.
- The regular-expression engine: each `replaceAll` is a character-level function.
- `testCases` is a Java `int`. The model uses an unbounded `nat` and does not model
  overflow after 2^31 - 1 leaves.
- `StepCandidate.matches`, `Keywords.stepTypeFor`, `keywords().scenario()`,
  `examplesTableRow()` and the providers' `listCandidates`,
  `listBeforeOrAfterScenario` and `listBeforeOrAfterStory(false)` are oracles or plain
  values. Their JBehave implementations are not modelled.
- Generator.JUnitDescriptionGenerator.constructor: requires `WellRanked`. Each
  candidate carries a nesting `rank`. For every composite candidate, each of its
  composed steps must select, under any carried word, a regular candidate or a
  composite of smaller rank; "select" means the first match, as `findMatchingStep`
  takes it. This excludes every configuration on which the Java code recurses without
  end. It also excludes two kinds on which the Java code ends:
  - a selection cycle that runs only through composites no story step ever selects;
  - a cycle that only a carried word which never actually occurs would close.
- LineText.GetFilename: requires `WellFormedPath`. Java's `split("#")[0]` throws when
  the part after the last `/` is non-empty and made only of `#`, because `split`
  drops trailing empty strings. That exception is not modelled, and
  `insertGivenStories`, `createDescriptionFrom` and the methods above them carry the
  same requirement.
- `getTestCases` is the plain field read `GetTestCases`.
- JUnit 4.11 and later reject an empty display name, for example an empty story name
  or a given-story path ending in `/`. The model builds such a node as it is.
- The class is single-threaded; concurrency is not modelled.
