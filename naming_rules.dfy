/**
 * The naming rules: project name (STE-NMG-001), variable names (STE-NMG-002)
 * and argument names (STE-NMG-003).
 */
module NamingRules {
  import opened Wrappers
  import opened Text
  import opened ProcessModel
  import opened Diagnostics

  /** Regex.Match(s, pattern) for the configured pattern: the value of group 1
      when the match succeeds, None when it fails. NamePattern.MatchDefault is
      the matcher of the default pattern. */
  type Matcher = string -> Option<string>

  /** Every entry trimmed, in order. */
  function TrimAll(parts: seq<string>): (r: seq<string>)
    ensures |r| == |parts|
  {
    if |parts| == 0 then [] else TrimAll(parts[..|parts| - 1]) + [Trim(parts[|parts| - 1])]
  }

  /** A name is in the trimmed list exactly when some entry trims to it. */
  lemma {:induction false} TrimAllMember(parts: seq<string>, x: string)
    ensures x in TrimAll(parts) <==> exists k :: 0 <= k < |parts| && Trim(parts[k]) == x
  {
    if |parts| > 0 {
      var init := parts[..|parts| - 1];
      TrimAllMember(init, x);
      assert forall k :: 0 <= k < |init| ==> init[k] == parts[k];
    }
  }

  /** A `|`-delimited allow-list with every entry trimmed. */
  function TrimmedList(config: string): seq<string> {
    TrimAll(Split(config, '|'))
  }

  // ---------------------------------------------------------------------------
  // InspectProjectName

  /** The project name must match the pattern, and the captured department must
      be in the trimmed department list when that list is configured. */
  method InspectProjectName(
    project: Project, pattern: Option<string>, departments: Option<string>,
    matcher: Matcher, level: ErrorLevel)
    returns (r: InspectionResult)
    ensures WellFormed(r)
    ensures IsBlank(pattern) ==> r == Passed()
    ensures !IsBlank(pattern) && matcher(project.name).None? ==>
      && r.messages == [ProjectNameMalformed]
      && r.advice == Some(ProjectNameAdvice) && r.level == Some(level)
    ensures !IsBlank(pattern) && matcher(project.name).Some? ==>
      (r.hasErrors <==>
        !IsBlank(departments) && matcher(project.name).value !in TrimmedList(departments.value))
    ensures !IsBlank(pattern) && matcher(project.name).Some? && r.hasErrors ==>
      && r.messages == [DepartmentInvalid]
      && r.advice == Some(DepartmentAdvice(departments.value)) && r.level == Some(level)
  {
    if IsBlank(pattern) {
      return Passed();
    }
    var m := matcher(project.name);
    if m.None? {
      return InspectionResult(true, [ProjectNameMalformed], Some(ProjectNameAdvice), Some(level));
    }
    var deptName := m.value;
    if !IsBlank(departments) {
      var allowed := TrimmedList(departments.value);
      if deptName in allowed {
        return Passed();
      } else {
        return InspectionResult(true, [DepartmentInvalid], Some(DepartmentAdvice(departments.value)), Some(level));
      }
    } else {
      return Passed();
    }
  }

  // ---------------------------------------------------------------------------
  // InspectVariableName

  /** The variable-type allow-list; it is only read once it is known to be set. */
  function AllowList(types: Option<string>): seq<string> {
    if types.Some? then TrimmedList(types.value) else []
  }

  /** A variable fails when its name does not match, or when the captured type
      prefix is not allowed. */
  predicate VariableFails(v: Variable, allowed: seq<string>, matcher: Matcher) {
    matcher(v.name).None? || matcher(v.name).value !in allowed
  }

  /** The message one variable adds to the list. */
  function VariableVerdict(v: Variable, allowed: seq<string>, matcher: Matcher): (msgs: seq<Message>)
    ensures |msgs| <= 1
    ensures msgs != [] <==> VariableFails(v, allowed, matcher)
  {
    match matcher(v.name)
    case None => [VariableNameMalformed(v.name)]
    case Some(g) => if g in allowed then [] else [VariableTypePrefixInvalid(g, v.name)]
  }

  function VariableVerdicts(vars: seq<Variable>, allowed: seq<string>, matcher: Matcher): (rows: seq<seq<Message>>)
    ensures |rows| == |vars|
  {
    seq(|vars|, k requires 0 <= k < |vars| => VariableVerdict(vars[k], allowed, matcher))
  }

  predicate SomeNameMatches(vars: seq<Variable>, matcher: Matcher) {
    exists k :: 0 <= k < |vars| && matcher(vars[k].name).Some?
  }

  /** What InspectVariableName returns: no pattern, no error; with a blank
      type list the first matching variable ends the scan without error, so
      messages gathered before it are dropped; otherwise one message per failing
      variable, in order. */
  function VariableNameOutcome(
    vars: seq<Variable>, pattern: Option<string>, types: Option<string>,
    matcher: Matcher, level: ErrorLevel): InspectionResult
  {
    if IsBlank(pattern) then Passed()
    else if IsBlank(types) && SomeNameMatches(vars, matcher) then Passed()
    else
      Conclude(Flatten(VariableVerdicts(vars, AllowList(types), matcher)),
               VariableNameAdvice(if types.Some? then types.value else ""), level)
  }

  /** The messages name exactly the failing variables: one that does not match
      is reported as malformed, one whose prefix is not allowed as such. */
  lemma VariableNameMessages(vars: seq<Variable>, allowed: seq<string>, matcher: Matcher, m: Message)
    ensures |Flatten(VariableVerdicts(vars, allowed, matcher))| <= |vars|
    ensures m in Flatten(VariableVerdicts(vars, allowed, matcher)) <==>
      exists k :: 0 <= k < |vars| && (
        || (matcher(vars[k].name).None? && m == VariableNameMalformed(vars[k].name))
        || (&& matcher(vars[k].name).Some? && matcher(vars[k].name).value !in allowed
            && m == VariableTypePrefixInvalid(matcher(vars[k].name).value, vars[k].name)))
  {
    var rows := VariableVerdicts(vars, allowed, matcher);
    FlattenShortRows(rows);
    FlattenMember(rows, m);
    forall k | 0 <= k < |vars|
      ensures m in rows[k] <==>
        || (matcher(vars[k].name).None? && m == VariableNameMalformed(vars[k].name))
        || (&& matcher(vars[k].name).Some? && matcher(vars[k].name).value !in allowed
            && m == VariableTypePrefixInvalid(matcher(vars[k].name).value, vars[k].name))
    {
      assert rows[k] == VariableVerdict(vars[k], allowed, matcher);
    }
  }

  lemma VariableVerdictsStep(vars: seq<Variable>, i: nat, allowed: seq<string>, matcher: Matcher)
    requires i < |vars|
    ensures Flatten(VariableVerdicts(vars[..i + 1], allowed, matcher))
         == Flatten(VariableVerdicts(vars[..i], allowed, matcher)) + VariableVerdict(vars[i], allowed, matcher)
  {
    assert VariableVerdicts(vars[..i + 1], allowed, matcher)
        == VariableVerdicts(vars[..i], allowed, matcher) + [VariableVerdict(vars[i], allowed, matcher)];
    FlattenSnoc(VariableVerdicts(vars[..i], allowed, matcher), VariableVerdict(vars[i], allowed, matcher));
  }

  /** InspectVariableName reports an error exactly when a pattern is set, the
      scan is not cut short by a blank type list, and some variable fails. */
  lemma VariableNameErrors(
    vars: seq<Variable>, pattern: Option<string>, types: Option<string>,
    matcher: Matcher, level: ErrorLevel)
    ensures var r := VariableNameOutcome(vars, pattern, types, matcher, level);
      r.hasErrors <==>
        && !IsBlank(pattern)
        && !(IsBlank(types) && SomeNameMatches(vars, matcher))
        && exists k :: 0 <= k < |vars| && VariableFails(vars[k], AllowList(types), matcher)
  {
    var rows := VariableVerdicts(vars, AllowList(types), matcher);
    FlattenEmpty(rows);
    assert forall k :: 0 <= k < |vars| ==> rows[k] == VariableVerdict(vars[k], AllowList(types), matcher);
  }

  /** The scan over the activity's variables. */
  method InspectVariableName(
    activity: Activity, pattern: Option<string>, types: Option<string>,
    matcher: Matcher, level: ErrorLevel)
    returns (r: InspectionResult)
    // the recommendation text is built from the type list, so a null list fails
    // once a message is produced
    requires !IsBlank(pattern) && types.None? && !SomeNameMatches(activity.variables, matcher)
      ==> |activity.variables| == 0
    ensures r == VariableNameOutcome(activity.variables, pattern, types, matcher, level)
    ensures WellFormed(r) && |r.messages| <= |activity.variables|
    ensures r.hasErrors <==>
      && !IsBlank(pattern)
      && !(IsBlank(types) && SomeNameMatches(activity.variables, matcher))
      && exists k :: 0 <= k < |activity.variables| &&
           VariableFails(activity.variables[k], AllowList(types), matcher)
  {
    if IsBlank(pattern) {
      return Passed();
    }
    var vars := activity.variables;
    var blankTypes := IsBlank(types);
    ghost var allowed := AllowList(types);
    var msgs: seq<Message> := [];
    var i := 0;
    while i < |vars|
      invariant 0 <= i <= |vars|
      invariant blankTypes ==> forall k :: 0 <= k < i ==> matcher(vars[k].name).None?
      invariant msgs == Flatten(VariableVerdicts(vars[..i], allowed, matcher))
    {
      var variable := vars[i];
      var m := matcher(variable.name);
      if m.None? {
        msgs := msgs + [VariableNameMalformed(variable.name)];
      } else {
        if blankTypes {
          assert SomeNameMatches(vars, matcher) by {
            assert matcher(vars[i].name).Some?;
          }
          return Passed();
        }
        var varType := m.value;
        if varType !in TrimmedList(types.value) {
          msgs := msgs + [VariableTypePrefixInvalid(varType, variable.name)];
        }
      }
      VariableVerdictsStep(vars, i, allowed, matcher);
      i := i + 1;
    }
    assert vars[..i] == vars;
    assert !(blankTypes && SomeNameMatches(vars, matcher));
    if |msgs| > 0 {
      r := InspectionResult(true, msgs, Some(VariableNameAdvice(types.value)), Some(level));
    } else {
      r := Passed();
    }
    VariableNameErrors(vars, pattern, types, matcher, level);
    VariableNameMessages(vars, allowed, matcher, ProjectNameMalformed);
  }

  // ---------------------------------------------------------------------------
  // InspectArgumentName

  /** The name starts with one of the configured prefixes (taken untrimmed). */
  predicate HasDirectionPrefix(name: string, prefixes: seq<string>) {
    exists k :: 0 <= k < |prefixes| && StartsWith(name, prefixes[k])
  }

  function ArgumentVerdict(arg: Argument, prefixes: seq<string>): seq<Message> {
    if HasDirectionPrefix(arg.name, prefixes) then [] else [ArgumentDirectionMissing(arg.name)]
  }

  function ArgumentVerdicts(args: seq<Argument>, prefixes: seq<string>): (rows: seq<seq<Message>>)
    ensures |rows| == |args|
  {
    seq(|args|, k requires 0 <= k < |args| => ArgumentVerdict(args[k], prefixes))
  }

  /** What InspectArgumentName returns: nothing to check without a prefix
      list; otherwise one message per argument that starts with none of the
      `|`-separated prefixes. */
  function ArgumentNameOutcome(args: seq<Argument>, config: Option<string>, level: ErrorLevel): InspectionResult {
    if IsBlank(config) then Passed()
    else Conclude(Flatten(ArgumentVerdicts(args, Split(config.value, '|'))), ArgumentNameAdvice(config.value), level)
  }

  /** The messages name exactly the arguments without a direction prefix,
      at most one message each. */
  lemma ArgumentNameMessages(args: seq<Argument>, prefixes: seq<string>, name: string)
    ensures |Flatten(ArgumentVerdicts(args, prefixes))| <= |args|
    ensures ArgumentDirectionMissing(name) in Flatten(ArgumentVerdicts(args, prefixes)) <==>
      exists k :: 0 <= k < |args| && args[k].name == name && !HasDirectionPrefix(name, prefixes)
    ensures Flatten(ArgumentVerdicts(args, prefixes)) == [] <==>
      forall k :: 0 <= k < |args| ==> HasDirectionPrefix(args[k].name, prefixes)
  {
    var rows := ArgumentVerdicts(args, prefixes);
    FlattenShortRows(rows);
    FlattenMember(rows, ArgumentDirectionMissing(name));
    FlattenEmpty(rows);
    assert forall k :: 0 <= k < |args| ==> rows[k] == ArgumentVerdict(args[k], prefixes);
  }

  lemma ArgumentVerdictsStep(args: seq<Argument>, i: nat, prefixes: seq<string>)
    requires i < |args|
    ensures Flatten(ArgumentVerdicts(args[..i + 1], prefixes))
         == Flatten(ArgumentVerdicts(args[..i], prefixes)) + ArgumentVerdict(args[i], prefixes)
  {
    assert ArgumentVerdicts(args[..i + 1], prefixes)
        == ArgumentVerdicts(args[..i], prefixes) + [ArgumentVerdict(args[i], prefixes)];
    FlattenSnoc(ArgumentVerdicts(args[..i], prefixes), ArgumentVerdict(args[i], prefixes));
  }

  /** The scan over the workflow's arguments, with the inner scan over the
      prefixes setting `argumentValid`. */
  method InspectArgumentName(workflow: Workflow, config: Option<string>, level: ErrorLevel)
    returns (r: InspectionResult)
    ensures r == ArgumentNameOutcome(workflow.arguments, config, level)
    ensures WellFormed(r) && |r.messages| <= |workflow.arguments|
    ensures r.hasErrors <==>
      && !IsBlank(config)
      && exists k :: 0 <= k < |workflow.arguments| &&
           !HasDirectionPrefix(workflow.arguments[k].name, Split(config.value, '|'))
  {
    if IsBlank(config) {
      return Passed();
    }
    var args := workflow.arguments;
    var prefixes := Split(config.value, '|');
    var msgs: seq<Message> := [];
    var i := 0;
    while i < |args|
      invariant 0 <= i <= |args|
      invariant msgs == Flatten(ArgumentVerdicts(args[..i], prefixes))
    {
      var argument := args[i];
      var argumentValid := false;
      var j := 0;
      while j < |prefixes|
        invariant 0 <= j <= |prefixes|
        invariant argumentValid <==> exists k :: 0 <= k < j && StartsWith(argument.name, prefixes[k])
      {
        if StartsWith(argument.name, prefixes[j]) {
          argumentValid := true;
        }
        j := j + 1;
      }
      if !argumentValid {
        msgs := msgs + [ArgumentDirectionMissing(argument.name)];
      }
      ArgumentVerdictsStep(args, i, prefixes);
      i := i + 1;
    }
    assert args[..i] == args;
    ArgumentNameMessages(args, prefixes, "");
    r := Conclude(msgs, ArgumentNameAdvice(config.value), level);
  }
}
