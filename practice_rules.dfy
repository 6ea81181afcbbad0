/**
 * The best-practice rules: no Delay activity (STE-BDP-003), Excel runs in the
 * background (STE-BDP-004), Outlook mail is read oldest first (STE-BDP-005)
 * and with a filter (STE-BDP-006).
 */
module PracticeRules {
  import opened Wrappers
  import opened Text
  import opened ProcessModel
  import opened Diagnostics

  /** Equality with a literal ignoring letter case; `lower` is the literal
      already lower-cased. */
  predicate NamedIgnoreCase(s: string, lower: string) {
    ToLower(s) == lower
  }

  // ---------------------------------------------------------------------------
  // InspectNoDelayActivity

  /** The activity's type is looked up and compared with Delay. */
  method InspectNoDelayActivity(activity: Activity, table: TypeTable, level: ErrorLevel)
    returns (r: InspectionResult)
    requires activity.typeName in table
    ensures WellFormed(r)
    ensures r.hasErrors <==> table[activity.typeName] == "Delay"
    ensures r.hasErrors ==>
      && r.messages == [DelayUsed]
      && r.advice == Some(DelayAdvice) && r.level == Some(level)
  {
    var activityType := table[activity.typeName];
    if activityType == "Delay" {
      r := InspectionResult(true, [DelayUsed], Some(DelayAdvice), Some(level));
    } else {
      r := Passed();
    }
  }

  // ---------------------------------------------------------------------------
  // InspectExcelVisible

  /** A modern Excel Process Scope property "Show Excel window" that is not
      set to false: true, or a value that does not parse ("Same as project"). */
  predicate ShowsWindow(p: Property) {
    NamedIgnoreCase(p.name, "show excel window") && ParseBool(p.expression) != Some(false)
  }

  /** A classic Excel Application Scope property "Visible" set to true. */
  predicate IsVisible(p: Property) {
    NamedIgnoreCase(p.name, "visible") && ParseBool(p.expression) == Some(true)
  }

  /** The messages one property adds: first the "Show Excel window" test,
      then the "Visible" test. */
  function ExcelVerdict(scope: string, p: Property): seq<Message> {
    (if NamedIgnoreCase(p.name, "show excel window") then
       match ParseBool(p.expression)
       case Some(true) => [ExcelWindowShown(scope, p.name)]
       case Some(false) => []
       case None => [ExcelWindowSameAsProject(scope, p.name)]
     else [])
    + (if IsVisible(p) then [ExcelVisibleSet] else [])
  }

  function ExcelVerdicts(scope: string, props: seq<Property>): (rows: seq<seq<Message>>)
    ensures |rows| == |props|
  {
    seq(|props|, k requires 0 <= k < |props| => ExcelVerdict(scope, props[k]))
  }

  /** What InspectExcelVisible returns. */
  function ExcelOutcome(activity: Activity, level: ErrorLevel): InspectionResult {
    Conclude(Flatten(ExcelVerdicts(activity.name, activity.properties)), ExcelAdvice, level)
  }

  /** A property has one name, so it adds at most one message, and it adds
      one exactly when it shows the window or is visible. */
  lemma ExcelVerdictShape(scope: string, p: Property)
    ensures |ExcelVerdict(scope, p)| <= 1
    ensures ExcelVerdict(scope, p) != [] <==> ShowsWindow(p) || IsVisible(p)
  {
    if NamedIgnoreCase(p.name, "show excel window") {
      assert !NamedIgnoreCase(p.name, "visible") by {
        assert |ToLower(p.name)| == |"show excel window"|;
      }
    }
  }

  lemma ExcelVerdictsStep(scope: string, props: seq<Property>, i: nat)
    requires i < |props|
    ensures Flatten(ExcelVerdicts(scope, props[..i + 1]))
         == Flatten(ExcelVerdicts(scope, props[..i])) + ExcelVerdict(scope, props[i])
  {
    assert ExcelVerdicts(scope, props[..i + 1]) == ExcelVerdicts(scope, props[..i]) + [ExcelVerdict(scope, props[i])];
    FlattenSnoc(ExcelVerdicts(scope, props[..i]), ExcelVerdict(scope, props[i]));
  }

  /** The scope fails exactly when one of its properties shows the window or
      is visible, with at most one message per property. */
  lemma ExcelErrors(activity: Activity, level: ErrorLevel)
    ensures |ExcelOutcome(activity, level).messages| <= |activity.properties|
    ensures ExcelOutcome(activity, level).hasErrors <==>
      exists k :: 0 <= k < |activity.properties| && (ShowsWindow(activity.properties[k]) || IsVisible(activity.properties[k]))
  {
    var rows := ExcelVerdicts(activity.name, activity.properties);
    forall k | 0 <= k < |rows|
      ensures |rows[k]| <= 1
      ensures rows[k] != [] <==> ShowsWindow(activity.properties[k]) || IsVisible(activity.properties[k])
    {
      ExcelVerdictShape(activity.name, activity.properties[k]);
    }
    FlattenShortRows(rows);
    FlattenEmpty(rows);
  }

  /** The scan over the scope's properties. */
  method InspectExcelVisible(activity: Activity, level: ErrorLevel)
    returns (r: InspectionResult)
    // Boolean.Parse of a "Visible" property is not guarded
    requires forall k :: 0 <= k < |activity.properties| && NamedIgnoreCase(activity.properties[k].name, "visible") ==>
      ParseBool(activity.properties[k].expression).Some?
    ensures r == ExcelOutcome(activity, level)
    ensures WellFormed(r)
    ensures r.hasErrors <==>
      exists k :: 0 <= k < |activity.properties| && (ShowsWindow(activity.properties[k]) || IsVisible(activity.properties[k]))
    ensures r.hasErrors ==> r.advice == Some(ExcelAdvice) && r.level == Some(level)
  {
    var props := activity.properties;
    var msgs: seq<Message> := [];
    var i := 0;
    while i < |props|
      invariant 0 <= i <= |props|
      invariant msgs == Flatten(ExcelVerdicts(activity.name, props[..i]))
    {
      var property := props[i];
      ExcelVerdictsStep(activity.name, props, i);
      if NamedIgnoreCase(property.name, "show excel window") {
        var parsed := ParseBool(property.expression);
        if parsed.Some? {
          if parsed.value {
            msgs := msgs + [ExcelWindowShown(activity.name, property.name)];
          }
        } else {
          msgs := msgs + [ExcelWindowSameAsProject(activity.name, property.name)];
        }
      }
      if NamedIgnoreCase(property.name, "visible") && ParseBool(property.expression).value {
        msgs := msgs + [ExcelVisibleSet];
      }
      i := i + 1;
    }
    assert props[..i] == props;
    ExcelErrors(activity, level);
    r := Conclude(msgs, ExcelAdvice, level);
  }

  // ---------------------------------------------------------------------------
  // InspectOutlookGetMail

  /** An OrderByDate property whose value is not OldestFirst (letter case
      ignored). */
  predicate NotOldestFirst(p: Property) {
    && NamedIgnoreCase(p.name, "orderbydate")
    && p.expression.Some? && !NamedIgnoreCase(p.expression.value, "oldestfirst")
  }

  function OrderVerdicts(activity: string, props: seq<Property>): (rows: seq<seq<Message>>)
    ensures |rows| == |props|
  {
    seq(|props|, k requires 0 <= k < |props| => if NotOldestFirst(props[k]) then [MailNotOldestFirst(activity)] else [])
  }

  /** What InspectOutlookGetMail returns. */
  function OutlookOrderOutcome(activity: Activity, level: ErrorLevel): InspectionResult {
    if !NamedIgnoreCase(activity.toolbox, "getoutlookmailmessages") then Passed()
    else Conclude(Flatten(OrderVerdicts(activity.name, activity.properties)), OutlookOrderAdvice, level)
  }

  lemma OrderVerdictsStep(activity: string, props: seq<Property>, i: nat)
    requires i < |props|
    ensures Flatten(OrderVerdicts(activity, props[..i + 1]))
         == Flatten(OrderVerdicts(activity, props[..i])) + (if NotOldestFirst(props[i]) then [MailNotOldestFirst(activity)] else [])
  {
    assert OrderVerdicts(activity, props[..i + 1])
        == OrderVerdicts(activity, props[..i]) + [if NotOldestFirst(props[i]) then [MailNotOldestFirst(activity)] else []];
    FlattenSnoc(OrderVerdicts(activity, props[..i]), if NotOldestFirst(props[i]) then [MailNotOldestFirst(activity)] else []);
  }

  /** A Get Outlook Mail Messages activity fails exactly when one of its
      OrderByDate properties is not OldestFirst, one message per such
      property; any other activity passes. */
  lemma OutlookOrderErrors(activity: Activity, level: ErrorLevel)
    ensures |OutlookOrderOutcome(activity, level).messages| <= |activity.properties|
    ensures OutlookOrderOutcome(activity, level).hasErrors <==>
      && NamedIgnoreCase(activity.toolbox, "getoutlookmailmessages")
      && exists k :: 0 <= k < |activity.properties| && NotOldestFirst(activity.properties[k])
  {
    var rows := OrderVerdicts(activity.name, activity.properties);
    assert forall k :: 0 <= k < |rows| ==> (rows[k] != [] <==> NotOldestFirst(activity.properties[k]));
    FlattenShortRows(rows);
    FlattenEmpty(rows);
  }

  /** The scan over the properties of a Get Outlook Mail Messages activity. */
  method InspectOutlookGetMail(activity: Activity, level: ErrorLevel)
    returns (r: InspectionResult)
    // the OrderByDate value is compared through a method call on it
    requires NamedIgnoreCase(activity.toolbox, "getoutlookmailmessages") ==>
      forall k :: 0 <= k < |activity.properties| && NamedIgnoreCase(activity.properties[k].name, "orderbydate") ==>
        activity.properties[k].expression.Some?
    ensures r == OutlookOrderOutcome(activity, level)
    ensures WellFormed(r)
    ensures r.hasErrors <==>
      && NamedIgnoreCase(activity.toolbox, "getoutlookmailmessages")
      && exists k :: 0 <= k < |activity.properties| && NotOldestFirst(activity.properties[k])
    ensures r.hasErrors ==> r.advice == Some(OutlookOrderAdvice) && r.level == Some(level)
  {
    var msgs: seq<Message> := [];
    if NamedIgnoreCase(activity.toolbox, "getoutlookmailmessages") {
      var props := activity.properties;
      var i := 0;
      while i < |props|
        invariant 0 <= i <= |props|
        invariant msgs == Flatten(OrderVerdicts(activity.name, props[..i]))
      {
        OrderVerdictsStep(activity.name, props, i);
        if NamedIgnoreCase(props[i].name, "orderbydate") && !NamedIgnoreCase(props[i].expression.value, "oldestfirst") {
          msgs := msgs + [MailNotOldestFirst(activity.name)];
        }
        i := i + 1;
      }
      assert props[..i] == props;
    }
    OutlookOrderErrors(activity, level);
    r := Conclude(msgs, OutlookOrderAdvice, level);
  }

  // ---------------------------------------------------------------------------
  // InspectOutlookGetMailFilters

  /** Some argument of the given name has a non-empty expression. */
  predicate ArgumentSet(args: seq<Argument>, name: string) {
    exists k :: 0 <= k < |args| && args[k].name == name && !IsNullOrEmpty(args[k].expression)
  }

  lemma ArgumentSetStep(args: seq<Argument>, name: string, i: nat)
    requires i < |args|
    ensures ArgumentSet(args[..i + 1], name) <==>
      ArgumentSet(args[..i], name) || (args[i].name == name && !IsNullOrEmpty(args[i].expression))
  {
    assert forall k :: 0 <= k < i ==> args[..i + 1][k] == args[..i][k];
    assert args[..i + 1][i] == args[i];
  }

  /** The activity's type is looked up; a Get Outlook Mail Messages activity
      is scanned for a Filter or FilterByMessageIds argument with a value. */
  method InspectOutlookGetMailFilters(activity: Activity, table: TypeTable, level: ErrorLevel)
    returns (r: InspectionResult)
    requires activity.typeName in table
    ensures WellFormed(r)
    ensures r.hasErrors <==>
      && table[activity.typeName] == "GetOutlookMailMessages"
      && !ArgumentSet(activity.arguments, "Filter")
      && !ArgumentSet(activity.arguments, "FilterByMessageIds")
    ensures r.hasErrors ==>
      && r.messages == [MailNotFiltered]
      && r.advice == Some(OutlookFilterAdvice) && r.level == Some(level)
  {
    var msgs: seq<Message> := [];
    var activityType := table[activity.typeName];
    var filterUsed := false;
    var filterByIdUsed := false;
    if activityType == "GetOutlookMailMessages" {
      var args := activity.arguments;
      var i := 0;
      while i < |args|
        invariant 0 <= i <= |args|
        invariant filterUsed <==> ArgumentSet(args[..i], "Filter")
        invariant filterByIdUsed <==> ArgumentSet(args[..i], "FilterByMessageIds")
      {
        ArgumentSetStep(args, "Filter", i);
        ArgumentSetStep(args, "FilterByMessageIds", i);
        if args[i].name == "Filter" && !IsNullOrEmpty(args[i].expression) {
          filterUsed := true;
        } else if args[i].name == "FilterByMessageIds" && !IsNullOrEmpty(args[i].expression) {
          filterByIdUsed := true;
        }
        i := i + 1;
      }
      assert args[..i] == args;
    } else {
      return Passed();
    }
    if !(filterUsed || filterByIdUsed) {
      msgs := msgs + [MailNotFiltered];
    }
    r := Conclude(msgs, OutlookFilterAdvice, level);
  }
}
