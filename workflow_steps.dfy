/** The story and epic workflow tables of the dashboard and how a story's or
    an epic's status is turned into one status per step, with the label and
    colour tables for statuses. Statuses arrive as strings: the tables name
    the known ones and fall back to a default for anything else. */
module WorkflowSteps {

  datatype StepStatus = NotStarted | InProgress | Review | Done | Skipped

  /** A row of a step table: everything a step has but its status. */
  datatype StepTemplate = StepTemplate(
    id: string, name: string, displayName: string, isOptional: bool, agent: string,
    description: string, outputs: seq<string>, command: string)

  datatype WorkflowStep = WorkflowStep(template: StepTemplate, status: StepStatus)

  datatype StoryTask = StoryTask(id: string, title: string, status: string)

  /** The fields of a story the step derivation reads. */
  datatype Story = Story(key: string, status: string, tasks: seq<StoryTask>)

  /** The fields of an epic the step derivation reads. */
  datatype Epic = Epic(key: string, retroStatus: string, stories: seq<Story>)

  datatype Progress = Progress(currentStepIndex: int, completedSteps: int)

  const STORY_WORKFLOW_STEPS: seq<StepTemplate> := [
    StepTemplate("create-story", "*create-story", "Create Story", false, "pm",
                 "Generate initial story markdown from epic context", ["story.md"],
                 "bmad create-story --epic {epicId} --story {storyId}"),
    StepTemplate("validate-create-story", "*validate-create-story", "Validate Create Story", false, "pm",
                 "Validate story structure and completeness", ["validation-report.md"],
                 "bmad validate-create-story --story {storyId}"),
    StepTemplate("story-context", "*story-context", "Story Context", false, "architect",
                 "Build .context.xml with relevant codebase context", [".context.xml"],
                 "bmad story-context --story {storyId}"),
    StepTemplate("validate-story-context", "*validate-story-context", "Validate Story Context", false, "architect",
                 "Ensure context includes all dependencies", ["context-validation.md"],
                 "bmad validate-story-context --story {storyId}"),
    StepTemplate("atdd", "*atdd", "ATDD", false, "dev",
                 "Define acceptance tests before development", ["acceptance-tests.md", "test-scenarios.json"],
                 "bmad atdd --story {storyId}"),
    StepTemplate("develop-story", "*develop-story", "Develop Story", false, "dev",
                 "Implement the story with AI-assisted coding", ["implementation-log.md"],
                 "bmad develop-story --story {storyId}"),
    StepTemplate("automate", "*automate", "Automate", true, "dev",
                 "Add automated tests for the implementation", ["test-results.json"],
                 "bmad automate --story {storyId}"),
    StepTemplate("code-review", "*code-review", "Code Review", false, "dev",
                 "AI-assisted code review and suggestions", ["code-review.md"],
                 "bmad code-review --story {storyId}"),
    StepTemplate("test-review", "*test-review", "Test Review", false, "dev",
                 "Review test coverage and quality", ["test-review.md"],
                 "bmad test-review --story {storyId}"),
    StepTemplate("trace", "*trace", "Trace", true, "pm",
                 "Trace story completion to requirements", ["traceability-matrix.md"],
                 "bmad trace --story {storyId}")
  ]

  const EPIC_POST_STORY_STEPS: seq<StepTemplate> := [
    StepTemplate("nfr-assess", "*nfr-assess", "NFR Assessment", false, "architect",
                 "Assess non-functional requirements compliance", ["nfr-assessment.md"],
                 "bmad nfr-assess --epic {epicId}"),
    StepTemplate("epic-test-review", "*test-review", "Test Review", false, "dev",
                 "Comprehensive test review across all stories", ["epic-test-review.md"],
                 "bmad test-review --epic {epicId}"),
    StepTemplate("epic-trace", "*trace", "Trace", true, "pm",
                 "Full traceability from epic to requirements", ["epic-traceability.md"],
                 "bmad trace --epic {epicId}"),
    StepTemplate("epic-retrospective", "*epic-retrospective", "Epic Retrospective", false, "sm",
                 "Capture learnings and improvements", ["retrospective.md"],
                 "bmad epic-retrospective --epic {epicId}")
  ]

  // ---- story progress ----

  /** `tasks.filter((t) => t.status === "complete").length`. */
  function CompletedTasks(tasks: seq<StoryTask>): (n: nat)
    ensures n <= |tasks|
    ensures n == |tasks| <==> forall i :: 0 <= i < |tasks| ==> tasks[i].status == "complete"
    ensures n == 0 <==> forall i :: 0 <= i < |tasks| ==> tasks[i].status != "complete"
  {
    if tasks == [] then 0
    else CompletedTasks(tasks[1..]) + (if tasks[0].status == "complete" then 1 else 0)
  }

  /** `getStoryProgress`. For a story in progress the share of complete
      tasks, scaled to six steps and rounded down, is taken exactly rather
      than in floating point (`Sixths`). */
  function StoryProgress(story: Story): Progress {
    var n := |story.tasks|;
    if story.status == "done" then Progress(n_steps, n_steps)
    else if story.status == "backlog" || story.status == "drafted" then Progress(0, 0)
    else if story.status == "ready-for-dev" then Progress(2, 2)
    else if story.status == "in-progress" then
      var stepIndex := Sixths(CompletedTasks(story.tasks), if n > 1 then n else 1) + 4;
      Progress(if stepIndex < 7 then stepIndex else 7, stepIndex)
    else if story.status == "review" then Progress(8, 7)
    else Progress(0, 0)
  }

  const n_steps := |STORY_WORKFLOW_STEPS|

  /** An in-progress story is always at a step after the two context steps
      and no later than code review; its completed count runs from 4 (less
      than a sixth of the tasks complete, in particular none) to 10 (all
      complete). */
  lemma InProgressIndexBounds(story: Story)
    requires story.status == "in-progress"
    ensures var p := StoryProgress(story);
            && 4 <= p.currentStepIndex <= 7
            && 4 <= p.completedSteps <= 10
            && p.currentStepIndex == (if p.completedSteps < 7 then p.completedSteps else 7)
            && ((forall i :: 0 <= i < |story.tasks| ==> story.tasks[i].status != "complete") ==> p.completedSteps == 4)
            && (p.completedSteps == 4 <==> story.tasks == [] || 6 * CompletedTasks(story.tasks) < |story.tasks|)
            && (p.completedSteps == 10 <==>
                  |story.tasks| > 0 && forall i :: 0 <= i < |story.tasks| ==> story.tasks[i].status == "complete")
  {
  }

  /** `Math.floor(c / d * 6)` for `c <= d`, taken exactly: the number of
      whole sixths in `c / d`, that is of the `k` in 1..6 with
      `k * d <= 6 * c`. */
  function Sixths(c: nat, d: nat): (q: nat)
    requires 0 < d && c <= d
    ensures q <= 6
    ensures q == 0 <==> 6 * c < d
    ensures q == 6 <==> c == d
    ensures q * d <= 6 * c < (q + 1) * d
  {
    (if d <= 6 * c then 1 else 0) + (if 2 * d <= 6 * c then 1 else 0) + (if 3 * d <= 6 * c then 1 else 0)
    + (if 4 * d <= 6 * c then 1 else 0) + (if 5 * d <= 6 * c then 1 else 0) + (if 6 * d <= 6 * c then 1 else 0)
  }

  // ---- story steps ----

  /** The status of step `index` of a story with status `status` whose
      current step is `current`. */
  function StoryStepStatus(status: string, current: int, index: int, optional: bool): StepStatus {
    if status == "done" then (if optional then Skipped else Done)
    else if status == "in-progress" then
      (if index < current then Done else if index == current then InProgress else NotStarted)
    else if status == "review" then
      (if index < n_steps - 2 then Done else if index == n_steps - 2 then Review else NotStarted)
    else NotStarted
  }

  /** `getStoryWorkflowSteps`: the story table in order, each row unchanged
      but for the status it is given. */
  function StoryWorkflowSteps(story: Story): (r: seq<WorkflowStep>)
    ensures |r| == |STORY_WORKFLOW_STEPS|
    ensures forall i :: 0 <= i < |r| ==> r[i].template == STORY_WORKFLOW_STEPS[i]
  {
    var current := StoryProgress(story).currentStepIndex;
    seq(|STORY_WORKFLOW_STEPS|, i requires 0 <= i < |STORY_WORKFLOW_STEPS| =>
      WorkflowStep(STORY_WORKFLOW_STEPS[i],
                   StoryStepStatus(story.status, current, i, STORY_WORKFLOW_STEPS[i].isOptional)))
  }

  /** A done story skips the optional steps and has done all the others. */
  lemma DoneStorySteps(story: Story)
    requires story.status == "done"
    ensures var r := StoryWorkflowSteps(story);
            forall i :: 0 <= i < |r| ==>
              (r[i].status == Skipped <==> r[i].template.isOptional) && (r[i].status == Done <==> !r[i].template.isOptional)
  {
  }

  /** A story in review has done every step before the second last, which
      is in review, and has not started the last. */
  lemma ReviewStorySteps(story: Story)
    requires story.status == "review"
    ensures var r := StoryWorkflowSteps(story);
            && (forall i :: 0 <= i < |r| - 2 ==> r[i].status == Done)
            && r[|r| - 2].status == Review
            && r[|r| - 1].status == NotStarted
  {
  }

  /** An in-progress story has done every step before its current one,
      which lies between 4 and 7 and is the only step in progress, and has
      started none after it. */
  lemma InProgressStorySteps(story: Story)
    requires story.status == "in-progress"
    ensures var r := StoryWorkflowSteps(story);
            var c := StoryProgress(story).currentStepIndex;
            && 4 <= c <= 7
            && (forall i :: 0 <= i < c ==> r[i].status == Done)
            && r[c].status == InProgress
            && (forall i :: c < i < |r| ==> r[i].status == NotStarted)
            && (forall i :: 0 <= i < |r| && r[i].status == InProgress ==> i == c)
  {
    InProgressIndexBounds(story);
  }

  /** No step has started exactly when the story is neither done, in
      progress nor in review: backlog, drafted, ready-for-dev and any
      unknown status. */
  lemma NothingStartedExactly(story: Story)
    ensures var r := StoryWorkflowSteps(story);
            (forall i :: 0 <= i < |r| ==> r[i].status == NotStarted) <==>
              story.status != "done" && story.status != "in-progress" && story.status != "review"
  {
    var r := StoryWorkflowSteps(story);
    if story.status == "in-progress" {
      InProgressIndexBounds(story);
      assert r[0].status == Done;
    } else if story.status == "done" || story.status == "review" {
      assert r[0].status == Done;
    }
  }

  // ---- epic steps ----

  /** `epic.stories.every((s) => s.status === "done")`. */
  predicate AllStoriesDone(stories: seq<Story>) {
    forall i :: 0 <= i < |stories| ==> stories[i].status == "done"
  }

  /** `getEpicPostStorySteps`. */
  function EpicPostStorySteps(epic: Epic): (r: seq<WorkflowStep>)
    ensures |r| == |EPIC_POST_STORY_STEPS|
    ensures forall i :: 0 <= i < |r| ==> r[i].template == EPIC_POST_STORY_STEPS[i]
  {
    seq(|EPIC_POST_STORY_STEPS|, i requires 0 <= i < |EPIC_POST_STORY_STEPS| =>
      var step := EPIC_POST_STORY_STEPS[i];
      WorkflowStep(step,
        if !AllStoriesDone(epic.stories) then NotStarted
        else if epic.retroStatus == "completed" then (if step.isOptional then Skipped else Done)
        else if i == 0 then InProgress
        else NotStarted))
  }

  /** The three epic cases: a story not done means nothing has started;
      with every story done (vacuously so for an epic without stories) a
      completed retrospective means every step is done or skipped, and
      otherwise only the first step is in progress. */
  lemma EpicStepsRules(epic: Epic)
    ensures var r := EpicPostStorySteps(epic);
            && (!AllStoriesDone(epic.stories) ==> forall i :: 0 <= i < |r| ==> r[i].status == NotStarted)
            && (AllStoriesDone(epic.stories) && epic.retroStatus == "completed" ==>
                  forall i :: 0 <= i < |r| ==>
                    (r[i].status == Skipped <==> r[i].template.isOptional) && (r[i].status == Done <==> !r[i].template.isOptional))
            && (AllStoriesDone(epic.stories) && epic.retroStatus != "completed" ==>
                  forall i :: 0 <= i < |r| ==> (r[i].status == InProgress <==> i == 0) && (i != 0 ==> r[i].status == NotStarted))
            && (epic.stories == [] ==> r[0].status != NotStarted)
  {
  }

  // ---- labels and colours ----

  const COMPLETE_COLOR := "bg-status-complete text-status-complete"
  const ACTIVE_COLOR := "bg-status-active text-status-active"
  const REVIEW_COLOR := "bg-amber-500/20 text-amber-400"
  const BLOCKED_COLOR := "bg-status-blocked text-status-blocked"
  const PENDING_COLOR := "bg-status-pending text-status-pending"
  const SKIPPED_COLOR := "bg-secondary text-muted-foreground"

  /** The status names the label table knows, and their labels, in table order. */
  const LABELLED: seq<string> := ["done", "in-progress", "ready-for-dev", "review", "drafted", "backlog", "contexted"]
  const LABELS: seq<string> := ["Done", "In Progress", "Ready for Dev", "Review", "Drafted", "Backlog", "Contexted"]

  /** `getStatusLabel`. */
  function StatusLabel(status: string): string {
    if status == "done" then "Done"
    else if status == "in-progress" then "In Progress"
    else if status == "ready-for-dev" then "Ready for Dev"
    else if status == "review" then "Review"
    else if status == "drafted" then "Drafted"
    else if status == "backlog" then "Backlog"
    else if status == "contexted" then "Contexted"
    else status
  }

  /** A known status gets the label at its place in the table; any other
      string is its own label. */
  lemma StatusLabelTable(status: string)
    ensures forall k :: 0 <= k < |LABELLED| && status == LABELLED[k] ==> StatusLabel(status) == LABELS[k]
    ensures status !in LABELLED ==> StatusLabel(status) == status
  {
  }

  /** The label table is one-to-one on the statuses it knows, and no label
      is itself a known status. */
  lemma StatusLabelsDistinct(a: string, b: string)
    requires a in LABELLED && b in LABELLED && a != b
    ensures StatusLabel(a) != StatusLabel(b)
    ensures StatusLabel(a) !in LABELLED
  {
    StatusLabelTable(a);
    StatusLabelTable(b);
    LabelsDistinct();
  }

  /** The labels differ from each other, and each starts with a capital
      letter where every known status starts with a small one. */
  lemma LabelsDistinct()
    ensures forall i, j :: 0 <= i < j < |LABELS| ==> LABELS[i] != LABELS[j]
    ensures forall i, k :: 0 <= i < |LABELS| && 0 <= k < |LABELLED| ==> LABELS[i] != LABELLED[k]
  {
  }

  /** `getStatusColor`, for story, epic, retrospective and workflow statuses. */
  function StatusColor(status: string): string {
    if status in {"done", "complete", "completed", "contexted"} then COMPLETE_COLOR
    else if status in {"in-progress", "active", "ready-for-dev"} then ACTIVE_COLOR
    else if status == "review" then REVIEW_COLOR
    else if status == "blocked" then BLOCKED_COLOR
    else PENDING_COLOR
  }

  /** `getStepStatusColor`. */
  function StepStatusColor(status: StepStatus): string {
    match status
    case Done => COMPLETE_COLOR
    case InProgress => ACTIVE_COLOR
    case Review => REVIEW_COLOR
    case Skipped => SKIPPED_COLOR
    case NotStarted => PENDING_COLOR
  }

  /** The string a step status is written as. */
  function StepStatusName(status: StepStatus): string {
    match status
    case NotStarted => "not-started"
    case InProgress => "in-progress"
    case Review => "review"
    case Done => "done"
    case Skipped => "skipped"
  }

  /** A step is coloured as a story or epic with the same status name would
      be, except a skipped step, which has a colour of its own. */
  lemma StepColorsAgree(status: StepStatus)
    ensures status != Skipped <==> StepStatusColor(status) == StatusColor(StepStatusName(status))
  {
  }

  /** Which statuses share a colour: the complete, active, review and
      blocked groups, everything else pending. */
  lemma StatusColorGroups(status: string)
    ensures StatusColor(status) == COMPLETE_COLOR <==> status in {"done", "complete", "completed", "contexted"}
    ensures StatusColor(status) == ACTIVE_COLOR <==> status in {"in-progress", "active", "ready-for-dev"}
    ensures StatusColor(status) == REVIEW_COLOR <==> status == "review"
    ensures StatusColor(status) == BLOCKED_COLOR <==> status == "blocked"
    ensures StatusColor(status) == PENDING_COLOR <==>
              status !in {"done", "complete", "completed", "contexted", "in-progress", "active", "ready-for-dev",
                          "review", "blocked"}
  {
  }
}
