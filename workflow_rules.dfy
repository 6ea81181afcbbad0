/**
 * The maintainability rules: activities renamed from their default name
 * (STE-MRD-001), a minimum number of annotations (STE-MRD-002) and of log
 * messages (STE-DCP-001) per workflow, and the use of the Robotic Enterprise
 * Framework (STE-DBP-002).
 */
module WorkflowRules {
  import opened Wrappers
  import opened ProcessModel
  import opened Diagnostics

  // ---------------------------------------------------------------------------
  // InspectActivityRenamed

  /** The comparison of the display name with the activity type's default name.
      `defaultName` stands for GetDefaultActivityName, which is None when the
      type cannot be loaded; a missing default never equals a display name. */
  method InspectActivityRenamed(activity: Activity, defaultName: Option<string>, level: ErrorLevel)
    returns (r: InspectionResult)
    ensures WellFormed(r)
    ensures r.hasErrors <==> defaultName == Some(activity.name)
    ensures r.hasErrors ==>
      && r.messages == [DefaultActivityName(activity.name)]
      && r.advice == Some(RenameAdvice) && r.level == Some(level)
  {
    if defaultName.Some? && activity.name == defaultName.value {
      r := InspectionResult(true, [DefaultActivityName(activity.name)], Some(RenameAdvice), Some(level));
    } else {
      r := Passed();
    }
  }

  // ---------------------------------------------------------------------------
  // InspectAnnotationsInWorkflow and InspectLogsInWorkflow

  /** A minimum of zero passes at once; otherwise the annotated activities of
      the workflow's tree are counted and compared with the minimum. Because a
      count is never negative, the result is the comparison alone. */
  method InspectAnnotationsInWorkflow(workflow: Workflow, minimum: int, level: ErrorLevel)
    returns (r: InspectionResult)
    ensures WellFormed(r)
    ensures r.hasErrors <==> CountWhere(IsAnnotated, Preorder(workflow.root)) < minimum
    ensures r.hasErrors ==>
      && r.messages == [TooFewAnnotations(workflow.name, CountWhere(IsAnnotated, Preorder(workflow.root)), minimum)]
      && r.advice == Some(AnnotationAdvice) && r.level == Some(level)
  {
    if minimum == 0 {
      return Passed();
    }
    var count := AnnotatedActivities(workflow.root);
    if count >= minimum {
      r := Passed();
    } else {
      r := InspectionResult(true, [TooFewAnnotations(workflow.name, count, minimum)], Some(AnnotationAdvice), Some(level));
    }
  }

  /** The log-message activities of the workflow's tree are counted and
      compared with the minimum. */
  method InspectLogsInWorkflow(workflow: Workflow, minimum: int, level: ErrorLevel)
    returns (r: InspectionResult)
    ensures WellFormed(r)
    ensures r.hasErrors <==> CountWhere(IsLogMessage, Preorder(workflow.root)) < minimum
    ensures r.hasErrors ==>
      && r.messages == [TooFewLogs(workflow.name, CountWhere(IsLogMessage, Preorder(workflow.root)), minimum)]
      && r.advice == Some(LogAdvice) && r.level == Some(level)
  {
    var count := LogMessages(workflow.root);
    if count >= minimum {
      r := Passed();
    } else {
      r := InspectionResult(true, [TooFewLogs(workflow.name, count, minimum)], Some(LogAdvice), Some(level));
    }
  }

  /** Counting is linear in the children: an activity's count is its own
      contribution plus the counts of its children's subtrees. */
  lemma {:induction false} CountOverChildren(p: Activity -> bool, a: Activity)
    ensures CountWhere(p, Preorder(a)) == (if p(a) then 1 else 0) + SubtreeCounts(p, a, 0)
  {
    assert Preorder(a)[1..] == PreorderFrom(a, 0);
    CountsFrom(p, a, 0);
  }

  /** The summed counts of the children's subtrees from index `i` on. */
  function SubtreeCounts(p: Activity -> bool, a: Activity, i: nat): (n: nat)
    requires i <= |a.children|
    decreases |a.children| - i
  {
    if i == |a.children| then 0 else CountWhere(p, Preorder(a.children[i])) + SubtreeCounts(p, a, i + 1)
  }

  lemma {:induction false} CountsFrom(p: Activity -> bool, a: Activity, i: nat)
    requires i <= |a.children|
    ensures CountWhere(p, PreorderFrom(a, i)) == SubtreeCounts(p, a, i)
    decreases |a.children| - i
  {
    if i < |a.children| {
      CountsFrom(p, a, i + 1);
      CountWhereAppend(p, Preorder(a.children[i]), PreorderFrom(a, i + 1));
    }
  }

  // ---------------------------------------------------------------------------
  // InspectFrameworkType

  /** The workflows every REFramework project contains. */
  const FrameworkWorkflows: seq<string> :=
    ["InitAllSettings", "InitAllApplications", "KillAllProcesses", "CloseAllApplications"]

  /** The display names of the workflows, in order. */
  function WorkflowNames(workflows: seq<Workflow>): seq<string> {
    seq(|workflows|, k requires 0 <= k < |workflows| => workflows[k].name)
  }

  /** Every framework workflow is the display name of some workflow of the
      project. */
  predicate UsesFramework(project: Project) {
    forall n :: n in FrameworkWorkflows ==> exists w :: w in project.workflows && w.name == n
  }

  /** The names of the project's workflows are collected, then each framework
      workflow is looked up in them until one is missing. */
  method InspectFrameworkType(project: Project, level: ErrorLevel)
    returns (r: InspectionResult)
    ensures WellFormed(r)
    ensures r.hasErrors <==> !UsesFramework(project)
    ensures r.hasErrors ==>
      && r.messages == [FrameworkNotUsed]
      && r.advice == Some(FrameworkAdvice) && r.level == Some(level)
  {
    var names: seq<string> := [];
    var i := 0;
    while i < |project.workflows|
      invariant 0 <= i <= |project.workflows|
      invariant names == WorkflowNames(project.workflows[..i])
    {
      names := names + [project.workflows[i].name];
      i := i + 1;
    }
    assert project.workflows[..i] == project.workflows;
    NamesHaveWorkflows(project.workflows, names);
    var isFramework := true;
    var j := 0;
    while j < |FrameworkWorkflows|
      invariant 0 <= j <= |FrameworkWorkflows|
      invariant isFramework
      invariant forall k :: 0 <= k < j ==> FrameworkWorkflows[k] in names
    {
      if FrameworkWorkflows[j] !in names {
        assert !UsesFramework(project) by {
          assert FrameworkWorkflows[j] in FrameworkWorkflows;
        }
        isFramework := false;
        break;
      }
      j := j + 1;
    }
    if !isFramework {
      r := InspectionResult(true, [FrameworkNotUsed], Some(FrameworkAdvice), Some(level));
    } else {
      r := Passed();
    }
  }

  /** A name is collected exactly when some workflow carries it. */
  lemma NamesHaveWorkflows(workflows: seq<Workflow>, names: seq<string>)
    requires names == WorkflowNames(workflows)
    ensures forall n :: n in names <==> exists w :: w in workflows && w.name == n
  {
    forall n | n in names
      ensures exists w :: w in workflows && w.name == n
    {
      var k :| 0 <= k < |names| && names[k] == n;
      assert workflows[k] in workflows;
    }
    forall n | exists w :: w in workflows && w.name == n
      ensures n in names
    {
      var w :| w in workflows && w.name == n;
      var k :| 0 <= k < |workflows| && workflows[k] == w;
      assert names[k] == n;
    }
  }

  /** The display names of the workflows, as a set. */
  function NameSet(workflows: seq<Workflow>): set<string> {
    set w | w in workflows :: w.name
  }

  /** Only the names matter: projects whose workflows carry the same display
      names get the same verdict, whatever their order, number or contents. */
  lemma FrameworkDependsOnNames(p: Project, q: Project)
    requires NameSet(p.workflows) == NameSet(q.workflows)
    ensures UsesFramework(p) <==> UsesFramework(q)
  {
    if UsesFramework(p) {
      forall n | n in FrameworkWorkflows
        ensures exists w :: w in q.workflows && w.name == n
      {
        var w :| w in p.workflows && w.name == n;
        assert n in NameSet(p.workflows);
        assert n in NameSet(q.workflows);
        var v :| v in q.workflows && v.name == n;
      }
    }
    if UsesFramework(q) {
      forall n | n in FrameworkWorkflows
        ensures exists w :: w in p.workflows && w.name == n
      {
        var w :| w in q.workflows && w.name == n;
        assert n in NameSet(q.workflows);
        assert n in NameSet(p.workflows);
        var v :| v in p.workflows && v.name == n;
      }
    }
  }

  /** Adding workflows to a project that uses the framework keeps it so. */
  lemma FrameworkKeptByAdding(p: Project, more: seq<Workflow>)
    requires UsesFramework(p)
    ensures UsesFramework(Project(p.name, p.workflows + more))
  {
    forall n | n in FrameworkWorkflows
      ensures exists w :: w in p.workflows + more && w.name == n
    {
      var w :| w in p.workflows && w.name == n;
      assert w in p.workflows + more;
    }
  }

  /** A project lacking any one framework workflow does not use the framework. */
  lemma FrameworkNeedsEach(p: Project, n: string)
    requires n in FrameworkWorkflows
    requires forall w :: w in p.workflows ==> w.name != n
    ensures !UsesFramework(p)
  {
  }
}
