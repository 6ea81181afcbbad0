/**
 * The type deny-list rules: no variable (STE-USG-001) and no argument
 * (STE-USG-002) whose type name, up to the first comma, contains one of the
 * configured `|`-separated fragments.
 */
module TypeRules {
  import opened Wrappers
  import opened Text
  import opened ProcessModel
  import opened Diagnostics

  /** Type.Split(',')[0]: the type name without its assembly qualification. */
  function TypeSegment(t: string): (seg: string)
    ensures ',' !in seg
  {
    Split(t, ',')[0]
  }

  /** An unqualified type name is its own segment. */
  lemma TypeSegmentUnqualified(t: string)
    requires ',' !in t
    ensures TypeSegment(t) == t
  {
    SplitWithoutSeparator(t, ',');
  }

  /** An assembly-qualified name such as "System.Object, mscorlib" loses
      everything from its first comma on. */
  lemma TypeSegmentQualified(a: string, b: string)
    requires ',' !in a
    ensures TypeSegment(a + "," + b) == a
  {
    SplitFirst(a, ',', b);
  }

  /** The messages of one declaration: one per fragment its type segment
      contains, in the order of the fragments. */
  function Denials(kind: DeclKind, name: string, typeName: string, fragments: seq<string>): (msgs: seq<Message>)
    ensures |msgs| <= |fragments|
  {
    if |fragments| == 0 then []
    else
      var f := fragments[|fragments| - 1];
      Denials(kind, name, typeName, fragments[..|fragments| - 1])
        + (if Contains(TypeSegment(typeName), f) then [TypeDenied(kind, name, f)] else [])
  }

  /** A message of one declaration names that declaration and a fragment its
      type segment contains, and every such fragment has its message. */
  lemma {:induction false} DenialsMember(kind: DeclKind, name: string, typeName: string, fragments: seq<string>, m: Message)
    ensures m in Denials(kind, name, typeName, fragments) <==>
      && m.TypeDenied? && m.kind == kind && m.declaration == name
      && m.fragment in fragments && Contains(TypeSegment(typeName), m.fragment)
  {
    if |fragments| > 0 {
      var init := fragments[..|fragments| - 1];
      DenialsMember(kind, name, typeName, init, m);
      assert fragments == init + [fragments[|fragments| - 1]];
    }
  }

  /** The inner loop's step: one more fragment appends its message, if any. */
  lemma DenialsStep(kind: DeclKind, name: string, typeName: string, fragments: seq<string>, j: nat)
    requires j < |fragments|
    ensures Denials(kind, name, typeName, fragments[..j + 1])
         == Denials(kind, name, typeName, fragments[..j])
            + (if Contains(TypeSegment(typeName), fragments[j]) then [TypeDenied(kind, name, fragments[j])] else [])
  {
    assert fragments[..j + 1][..j] == fragments[..j];
  }

  /** An empty fragment (from a leading, trailing or doubled `|`) is contained
      in every type segment, so it is reported for every declaration. */
  lemma EmptyFragmentDenies(kind: DeclKind, name: string, typeName: string, fragments: seq<string>)
    requires "" in fragments
    ensures TypeDenied(kind, name, "") in Denials(kind, name, typeName, fragments)
  {
    ContainsEmpty(TypeSegment(typeName));
    DenialsMember(kind, name, typeName, fragments, TypeDenied(kind, name, ""));
  }

  // ---------------------------------------------------------------------------
  // InspectProperVariableType

  /** Some variable's type segment contains some fragment. */
  predicate SomeVariableDenied(vars: seq<Variable>, fragments: seq<string>) {
    exists k, j :: 0 <= k < |vars| && 0 <= j < |fragments| && Contains(TypeSegment(vars[k].typeName), fragments[j])
  }

  function VariableDenials(vars: seq<Variable>, fragments: seq<string>): (rows: seq<seq<Message>>)
    ensures |rows| == |vars|
  {
    seq(|vars|, k requires 0 <= k < |vars| => Denials(VariableDecl, vars[k].name, vars[k].typeName, fragments))
  }

  /** What InspectProperVariableType returns. */
  function VariableTypeOutcome(vars: seq<Variable>, config: Option<string>, level: ErrorLevel): InspectionResult {
    if IsBlank(config) then Passed()
    else Conclude(Flatten(VariableDenials(vars, Split(config.value, '|'))), VariableTypeAdvice, level)
  }

  lemma VariableDenialsStep(vars: seq<Variable>, i: nat, fragments: seq<string>)
    requires i < |vars|
    ensures Flatten(VariableDenials(vars[..i + 1], fragments))
         == Flatten(VariableDenials(vars[..i], fragments)) + Denials(VariableDecl, vars[i].name, vars[i].typeName, fragments)
  {
    assert VariableDenials(vars[..i + 1], fragments)
        == VariableDenials(vars[..i], fragments) + [Denials(VariableDecl, vars[i].name, vars[i].typeName, fragments)];
    FlattenSnoc(VariableDenials(vars[..i], fragments), Denials(VariableDecl, vars[i].name, vars[i].typeName, fragments));
  }

  /** The messages are exactly the (variable, fragment) pairs whose type
      segment contains the fragment. */
  lemma VariableTypeMessages(vars: seq<Variable>, fragments: seq<string>, m: Message)
    ensures m in Flatten(VariableDenials(vars, fragments)) <==>
      && m.TypeDenied?
      && (exists k :: 0 <= k < |vars| && m == TypeDenied(VariableDecl, vars[k].name, m.fragment)
           && m.fragment in fragments && Contains(TypeSegment(vars[k].typeName), m.fragment))
  {
    var rows := VariableDenials(vars, fragments);
    FlattenMember(rows, m);
    forall k | 0 <= k < |vars|
      ensures m in rows[k] <==> (
        && m.TypeDenied?
        && m == TypeDenied(VariableDecl, vars[k].name, m.fragment)
        && m.fragment in fragments && Contains(TypeSegment(vars[k].typeName), m.fragment))
    {
      DenialsMember(VariableDecl, vars[k].name, vars[k].typeName, fragments, m);
    }
  }

  /** The scan over the activity's variables and, for each, over the fragments. */
  method InspectProperVariableType(activity: Activity, config: Option<string>, level: ErrorLevel)
    returns (r: InspectionResult)
    ensures r == VariableTypeOutcome(activity.variables, config, level)
    ensures WellFormed(r)
    ensures IsBlank(config) ==> !r.hasErrors
    ensures r.hasErrors ==> r.advice == Some(VariableTypeAdvice) && r.level == Some(level)
    ensures !IsBlank(config) ==> (r.hasErrors <==> SomeVariableDenied(activity.variables, Split(config.value, '|')))
  {
    if IsBlank(config) {
      return Passed();
    }
    var vars := activity.variables;
    var fragments := Split(config.value, '|');
    var msgs: seq<Message> := [];
    var i := 0;
    while i < |vars|
      invariant 0 <= i <= |vars|
      invariant msgs == Flatten(VariableDenials(vars[..i], fragments))
    {
      var variable := vars[i];
      ghost var before := msgs;
      var j := 0;
      while j < |fragments|
        invariant 0 <= j <= |fragments|
        invariant msgs == before + Denials(VariableDecl, variable.name, variable.typeName, fragments[..j])
      {
        DenialsStep(VariableDecl, variable.name, variable.typeName, fragments, j);
        if Contains(TypeSegment(variable.typeName), fragments[j]) {
          msgs := msgs + [TypeDenied(VariableDecl, variable.name, fragments[j])];
        }
        j := j + 1;
      }
      assert fragments[..j] == fragments;
      VariableDenialsStep(vars, i, fragments);
      i := i + 1;
    }
    assert vars[..i] == vars;
    VariableDenialsNonEmpty(vars, fragments);
    r := Conclude(msgs, VariableTypeAdvice, level);
  }

  // ---------------------------------------------------------------------------
  // InspectProperArgumentType

  /** Some argument's type segment contains some fragment. */
  predicate SomeArgumentDenied(args: seq<Argument>, fragments: seq<string>) {
    exists k, j :: 0 <= k < |args| && 0 <= j < |fragments| && Contains(TypeSegment(args[k].typeName), fragments[j])
  }

  function ArgumentDenials(args: seq<Argument>, fragments: seq<string>): (rows: seq<seq<Message>>)
    ensures |rows| == |args|
  {
    seq(|args|, k requires 0 <= k < |args| => Denials(ArgumentDecl, args[k].name, args[k].typeName, fragments))
  }

  /** What InspectProperArgumentType returns. */
  function ArgumentTypeOutcome(args: seq<Argument>, config: Option<string>, level: ErrorLevel): InspectionResult {
    if IsBlank(config) then Passed()
    else Conclude(Flatten(ArgumentDenials(args, Split(config.value, '|'))), ArgumentTypeAdvice, level)
  }

  lemma ArgumentDenialsStep(args: seq<Argument>, i: nat, fragments: seq<string>)
    requires i < |args|
    ensures Flatten(ArgumentDenials(args[..i + 1], fragments))
         == Flatten(ArgumentDenials(args[..i], fragments)) + Denials(ArgumentDecl, args[i].name, args[i].typeName, fragments)
  {
    assert ArgumentDenials(args[..i + 1], fragments)
        == ArgumentDenials(args[..i], fragments) + [Denials(ArgumentDecl, args[i].name, args[i].typeName, fragments)];
    FlattenSnoc(ArgumentDenials(args[..i], fragments), Denials(ArgumentDecl, args[i].name, args[i].typeName, fragments));
  }

  /** The messages are exactly the (argument, fragment) pairs whose type
      segment contains the fragment. */
  lemma ArgumentTypeMessages(args: seq<Argument>, fragments: seq<string>, m: Message)
    ensures m in Flatten(ArgumentDenials(args, fragments)) <==>
      && m.TypeDenied?
      && (exists k :: 0 <= k < |args| && m == TypeDenied(ArgumentDecl, args[k].name, m.fragment)
           && m.fragment in fragments && Contains(TypeSegment(args[k].typeName), m.fragment))
  {
    var rows := ArgumentDenials(args, fragments);
    FlattenMember(rows, m);
    forall k | 0 <= k < |args|
      ensures m in rows[k] <==> (
        && m.TypeDenied?
        && m == TypeDenied(ArgumentDecl, args[k].name, m.fragment)
        && m.fragment in fragments && Contains(TypeSegment(args[k].typeName), m.fragment))
    {
      DenialsMember(ArgumentDecl, args[k].name, args[k].typeName, fragments, m);
    }
  }

  /** The scan over the workflow's arguments and, for each, over the fragments. */
  method InspectProperArgumentType(workflow: Workflow, config: Option<string>, level: ErrorLevel)
    returns (r: InspectionResult)
    ensures r == ArgumentTypeOutcome(workflow.arguments, config, level)
    ensures WellFormed(r)
    ensures IsBlank(config) ==> !r.hasErrors
    ensures r.hasErrors ==> r.advice == Some(ArgumentTypeAdvice) && r.level == Some(level)
    ensures !IsBlank(config) ==> (r.hasErrors <==> SomeArgumentDenied(workflow.arguments, Split(config.value, '|')))
  {
    if IsBlank(config) {
      return Passed();
    }
    var args := workflow.arguments;
    var fragments := Split(config.value, '|');
    var msgs: seq<Message> := [];
    var i := 0;
    while i < |args|
      invariant 0 <= i <= |args|
      invariant msgs == Flatten(ArgumentDenials(args[..i], fragments))
    {
      var argument := args[i];
      ghost var before := msgs;
      var j := 0;
      while j < |fragments|
        invariant 0 <= j <= |fragments|
        invariant msgs == before + Denials(ArgumentDecl, argument.name, argument.typeName, fragments[..j])
      {
        DenialsStep(ArgumentDecl, argument.name, argument.typeName, fragments, j);
        if Contains(TypeSegment(argument.typeName), fragments[j]) {
          msgs := msgs + [TypeDenied(ArgumentDecl, argument.name, fragments[j])];
        }
        j := j + 1;
      }
      assert fragments[..j] == fragments;
      ArgumentDenialsStep(args, i, fragments);
      i := i + 1;
    }
    assert args[..i] == args;
    ArgumentDenialsNonEmpty(args, fragments);
    r := Conclude(msgs, ArgumentTypeAdvice, level);
  }

  /** Some variable is reported exactly when some variable's type segment
      contains some fragment. */
  lemma VariableDenialsNonEmpty(vars: seq<Variable>, fragments: seq<string>)
    ensures Flatten(VariableDenials(vars, fragments)) != [] <==> SomeVariableDenied(vars, fragments)
  {
    var msgs := Flatten(VariableDenials(vars, fragments));
    if msgs != [] {
      var m := msgs[0];
      VariableTypeMessages(vars, fragments, m);
      var k :| 0 <= k < |vars| && m == TypeDenied(VariableDecl, vars[k].name, m.fragment)
        && m.fragment in fragments && Contains(TypeSegment(vars[k].typeName), m.fragment);
      var j :| 0 <= j < |fragments| && fragments[j] == m.fragment;
    }
    if exists k, j :: 0 <= k < |vars| && 0 <= j < |fragments| && Contains(TypeSegment(vars[k].typeName), fragments[j]) {
      var k, j :| 0 <= k < |vars| && 0 <= j < |fragments| && Contains(TypeSegment(vars[k].typeName), fragments[j]);
      VariableTypeMessages(vars, fragments, TypeDenied(VariableDecl, vars[k].name, fragments[j]));
    }
  }

  /** Some argument is reported exactly when some argument's type segment
      contains some fragment. */
  lemma ArgumentDenialsNonEmpty(args: seq<Argument>, fragments: seq<string>)
    ensures Flatten(ArgumentDenials(args, fragments)) != [] <==> SomeArgumentDenied(args, fragments)
  {
    var msgs := Flatten(ArgumentDenials(args, fragments));
    if msgs != [] {
      var m := msgs[0];
      ArgumentTypeMessages(args, fragments, m);
      var k :| 0 <= k < |args| && m == TypeDenied(ArgumentDecl, args[k].name, m.fragment)
        && m.fragment in fragments && Contains(TypeSegment(args[k].typeName), m.fragment);
      var j :| 0 <= j < |fragments| && fragments[j] == m.fragment;
    }
    if exists k, j :: 0 <= k < |args| && 0 <= j < |fragments| && Contains(TypeSegment(args[k].typeName), fragments[j]) {
      var k, j :| 0 <= k < |args| && 0 <= j < |fragments| && Contains(TypeSegment(args[k].typeName), fragments[j]);
      ArgumentTypeMessages(args, fragments, TypeDenied(ArgumentDecl, args[k].name, fragments[j]));
    }
  }
}
