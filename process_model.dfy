/**
 * The read-only process tree the rules inspect (IProjectModel, IWorkflowModel,
 * IActivityModel and their variables, arguments and properties), the
 * type-name lookup that stands for Type.GetType(..).Name, and the recursive
 * activity counters of the annotation and log rules.
 */
module ProcessModel {
  import opened Wrappers
  import opened Text

  datatype Variable = Variable(name: string, typeName: string)

  /** `expression` is the argument's DefinedExpression, which may be null. */
  datatype Argument = Argument(name: string, typeName: string, expression: Option<string>)

  datatype Property = Property(name: string, expression: Option<string>)

  /** An activity node. `parentVariables` is the Variables collection of the
      parent activity, None for a node without a parent. */
  datatype Activity = Activity(
    name: string,
    typeName: string,
    toolbox: string,
    annotation: Option<string>,
    children: seq<Activity>,
    variables: seq<Variable>,
    arguments: seq<Argument>,
    properties: seq<Property>,
    parentVariables: Option<seq<Variable>>)

  datatype Workflow = Workflow(name: string, root: Activity, arguments: seq<Argument>)

  datatype Project = Project(name: string, workflows: seq<Workflow>)

  /** The loadable types, by type string, with their short names
      (Type.GetType(t).Name); a type string that is not a key does not load. */
  type TypeTable = map<string, string>

  /** Type.GetType(t)?.Name */
  function ShortTypeName(table: TypeTable, t: string): Option<string> {
    if t in table then Some(table[t]) else None
  }

  // ---------------------------------------------------------------------------
  // Pre-order traversal and counting

  /** Every node of the subtree, parent before children, children in their
      declared order: the reference listing the counters are measured against. */
  function Preorder(a: Activity): (nodes: seq<Activity>)
    ensures |nodes| >= 1 && nodes[0] == a
    decreases a, |a.children| + 1
  {
    [a] + PreorderFrom(a, 0)
  }

  /** The pre-order listings of the children from index `i` on. */
  function PreorderFrom(a: Activity, i: nat): seq<Activity>
    requires i <= |a.children|
    decreases a, |a.children| - i
  {
    if i == |a.children| then [] else Preorder(a.children[i]) + PreorderFrom(a, i + 1)
  }

  /** Number of nodes in `nodes` that satisfy `p`. */
  function CountWhere(p: Activity -> bool, nodes: seq<Activity>): (n: nat)
    ensures n <= |nodes|
  {
    if |nodes| == 0 then 0 else (if p(nodes[0]) then 1 else 0) + CountWhere(p, nodes[1..])
  }

  lemma {:induction false} CountWhereAppend(p: Activity -> bool, s: seq<Activity>, t: seq<Activity>)
    ensures CountWhere(p, s + t) == CountWhere(p, s) + CountWhere(p, t)
  {
    if |s| > 0 {
      assert (s + t)[1..] == s[1..] + t;
      CountWhereAppend(p, s[1..], t);
    } else {
      assert s + t == t;
    }
  }

  /** The counters' shape: the node adds one to the running count when it
      qualifies, then the count is threaded through the children in order. */
  function Tally(p: Activity -> bool, a: Activity, acc: int): int
    decreases a, |a.children| + 1
  {
    TallyFrom(p, a, 0, if p(a) then acc + 1 else acc)
  }

  /** The foreach over the children from index `i` on. */
  function TallyFrom(p: Activity -> bool, a: Activity, i: nat, acc: int): int
    requires i <= |a.children|
    decreases a, |a.children| - i
  {
    if i == |a.children| then acc else TallyFrom(p, a, i + 1, Tally(p, a.children[i], acc))
  }

  /** The counters visit every node of the subtree exactly once: the count they
      return is the running count plus the number of qualifying nodes in the
      pre-order listing, whatever the shape of the tree. */
  lemma {:induction false} TallyCountsPreorder(p: Activity -> bool, a: Activity, acc: int)
    ensures Tally(p, a, acc) == acc + CountWhere(p, Preorder(a))
    decreases a, |a.children| + 1
  {
    var start := if p(a) then acc + 1 else acc;
    TallyFromCountsPreorder(p, a, 0, start);
    assert Preorder(a)[1..] == PreorderFrom(a, 0);
  }

  lemma {:induction false} TallyFromCountsPreorder(p: Activity -> bool, a: Activity, i: nat, acc: int)
    requires i <= |a.children|
    ensures TallyFrom(p, a, i, acc) == acc + CountWhere(p, PreorderFrom(a, i))
    decreases a, |a.children| - i
  {
    if i < |a.children| {
      var c := a.children[i];
      TallyCountsPreorder(p, c, acc);
      TallyFromCountsPreorder(p, a, i + 1, Tally(p, c, acc));
      CountWhereAppend(p, Preorder(c), PreorderFrom(a, i + 1));
    }
  }

  /** GetNumberOfAnnotatedActivities counts nodes with annotation text that is
      not null or white space. */
  predicate IsAnnotated(a: Activity) {
    !IsBlank(a.annotation)
  }

  /** GetNumberOfLogs counts nodes whose toolbox name is "LogMessage". */
  predicate IsLogMessage(a: Activity) {
    a.toolbox == "LogMessage"
  }

  /** GetNumberOfAnnotatedActivities(root, 0) */
  function AnnotatedActivities(root: Activity): (n: int)
    ensures n == CountWhere(IsAnnotated, Preorder(root))
  {
    TallyCountsPreorder(IsAnnotated, root, 0);
    Tally(IsAnnotated, root, 0)
  }

  /** GetNumberOfLogs(root, 0) */
  function LogMessages(root: Activity): (n: int)
    ensures n == CountWhere(IsLogMessage, Preorder(root))
  {
    TallyCountsPreorder(IsLogMessage, root, 0);
    Tally(IsLogMessage, root, 0)
  }
}
