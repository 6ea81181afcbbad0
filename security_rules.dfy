/**
 * The security rules: password variables are SecureStrings (STE-SEC-001),
 * password input dialogs are consistent (STE-SEC-002), and sensitive
 * variables are not written out by Log Message or Write Line (STE-SEC-003).
 */
module SecurityRules {
  import opened Wrappers
  import opened Text
  import opened ProcessModel
  import opened Diagnostics

  // ---------------------------------------------------------------------------
  // InspectPasswordVariables

  /** The upper-cased name contains one of the upper-cased configured words. */
  predicate PasswordLike(name: string, words: seq<string>) {
    exists j :: 0 <= j < |words| && Contains(ToUpper(name), ToUpper(words[j]))
  }

  /** The short name of the variable's type is not SecureString. */
  predicate NotSecure(v: Variable, table: TypeTable) {
    ShortTypeName(table, v.typeName) != Some("SecureString")
  }

  function PasswordVerdict(v: Variable, words: seq<string>, table: TypeTable): seq<Message> {
    if PasswordLike(v.name, words) && NotSecure(v, table) then [PasswordNotSecure(v.name)] else []
  }

  function PasswordVerdicts(vars: seq<Variable>, words: seq<string>, table: TypeTable): (rows: seq<seq<Message>>)
    ensures |rows| == |vars|
  {
    seq(|vars|, k requires 0 <= k < |vars| => PasswordVerdict(vars[k], words, table))
  }

  /** What InspectPasswordVariables returns. A missing word list only occurs
      without variables, where nothing is reported. */
  function PasswordOutcome(vars: seq<Variable>, config: Option<string>, table: TypeTable, level: ErrorLevel): InspectionResult {
    if config.None? then Passed()
    else Conclude(Flatten(PasswordVerdicts(vars, Split(config.value, '|'), table)), PasswordTypeAdvice, level)
  }

  /** Some password-like variable is not a SecureString. */
  predicate SomeInsecurePassword(vars: seq<Variable>, words: seq<string>, table: TypeTable) {
    exists k :: 0 <= k < |vars| && PasswordLike(vars[k].name, words) && NotSecure(vars[k], table)
  }

  lemma PasswordVerdictsStep(vars: seq<Variable>, i: nat, words: seq<string>, table: TypeTable)
    requires i < |vars|
    ensures Flatten(PasswordVerdicts(vars[..i + 1], words, table))
         == Flatten(PasswordVerdicts(vars[..i], words, table)) + PasswordVerdict(vars[i], words, table)
  {
    assert PasswordVerdicts(vars[..i + 1], words, table)
        == PasswordVerdicts(vars[..i], words, table) + [PasswordVerdict(vars[i], words, table)];
    FlattenSnoc(PasswordVerdicts(vars[..i], words, table), PasswordVerdict(vars[i], words, table));
  }

  /** The messages name exactly the password-like variables that are not
      SecureStrings, one message per such variable. */
  lemma PasswordMessages(vars: seq<Variable>, words: seq<string>, table: TypeTable, name: string)
    ensures |Flatten(PasswordVerdicts(vars, words, table))| <= |vars|
    ensures PasswordNotSecure(name) in Flatten(PasswordVerdicts(vars, words, table)) <==>
      exists k :: 0 <= k < |vars| && vars[k].name == name && PasswordLike(name, words) && NotSecure(vars[k], table)
    ensures Flatten(PasswordVerdicts(vars, words, table)) != [] <==> SomeInsecurePassword(vars, words, table)
  {
    var rows := PasswordVerdicts(vars, words, table);
    FlattenShortRows(rows);
    FlattenMember(rows, PasswordNotSecure(name));
    FlattenEmpty(rows);
    assert forall k :: 0 <= k < |vars| ==> rows[k] == PasswordVerdict(vars[k], words, table);
  }

  /** An empty word (from a leading, trailing or doubled `|`) makes every
      variable password-like. */
  lemma EmptyWordMatchesAll(name: string, words: seq<string>)
    requires "" in words
    ensures PasswordLike(name, words)
  {
    var j :| 0 <= j < |words| && words[j] == "";
    ContainsEmpty(ToUpper(name));
  }

  /** The scan over the activity's variables; for each, the words are tried
      until one matches, and a matching variable's type is looked up. */
  method InspectPasswordVariables(activity: Activity, config: Option<string>, table: TypeTable, level: ErrorLevel)
    returns (r: InspectionResult)
    // the word list is split for every variable, so it must be set when there is one
    requires |activity.variables| > 0 ==> config.Some?
    // the type of a password-like variable is loaded and its name read
    requires config.Some? ==> forall k ::
      (0 <= k < |activity.variables| && PasswordLike(activity.variables[k].name, Split(config.value, '|'))) ==>
        activity.variables[k].typeName in table
    ensures r == PasswordOutcome(activity.variables, config, table, level)
    ensures WellFormed(r)
    ensures r.hasErrors <==> config.Some? && SomeInsecurePassword(activity.variables, Split(config.value, '|'), table)
    ensures r.hasErrors ==> r.advice == Some(PasswordTypeAdvice) && r.level == Some(level)
  {
    var vars := activity.variables;
    if |vars| == 0 {
      r := Passed();
      if config.Some? {
        PasswordMessages(vars, Split(config.value, '|'), table, "");
      }
      return;
    }
    var words := Split(config.value, '|');
    var msgs: seq<Message> := [];
    var i := 0;
    while i < |vars|
      invariant 0 <= i <= |vars|
      invariant msgs == Flatten(PasswordVerdicts(vars[..i], words, table))
    {
      var variable := vars[i];
      var varIsPass := false;
      var j := 0;
      while j < |words|
        invariant 0 <= j <= |words|
        invariant !varIsPass
        invariant forall l :: 0 <= l < j ==> !Contains(ToUpper(variable.name), ToUpper(words[l]))
      {
        if Contains(ToUpper(variable.name), ToUpper(words[j])) {
          varIsPass := true;
          break;
        }
        j := j + 1;
      }
      assert varIsPass <==> PasswordLike(variable.name, words);
      if varIsPass {
        var shortName := table[variable.typeName];
        if shortName != "SecureString" {
          msgs := msgs + [PasswordNotSecure(variable.name)];
        }
      }
      PasswordVerdictsStep(vars, i, words, table);
      i := i + 1;
    }
    assert vars[..i] == vars;
    PasswordMessages(vars, words, table, "");
    r := Conclude(msgs, PasswordTypeAdvice, level);
  }

  // ---------------------------------------------------------------------------
  // InspectPasswordInputDialogVariables

  /** The DefinedExpression of the last argument named "Result"; None when
      there is no such argument or its expression is null. */
  function ResultBinding(args: seq<Argument>): Option<string> {
    if |args| == 0 then None
    else if args[|args| - 1].name == "Result" then args[|args| - 1].expression
    else ResultBinding(args[..|args| - 1])
  }

  /** The last Result argument wins: without one the binding is None, and
      otherwise it is the expression of the Result argument that no later
      argument overrides. */
  lemma {:induction false} ResultBindingIsLast(args: seq<Argument>, k: int)
    ensures (forall l :: 0 <= l < |args| ==> args[l].name != "Result") ==> ResultBinding(args).None?
    ensures (0 <= k < |args| && args[k].name == "Result" && forall l :: k < l < |args| ==> args[l].name != "Result") ==>
      ResultBinding(args) == args[k].expression
  {
    if |args| > 0 {
      var init := args[..|args| - 1];
      ResultBindingIsLast(init, k);
      assert forall l :: 0 <= l < |init| ==> init[l] == args[l];
    }
  }

  /** Some IsPassword property parses to true. */
  predicate IsPasswordSet(props: seq<Property>) {
    exists k :: 0 <= k < |props| && props[k].name == "IsPassword" && ParseBool(props[k].expression) == Some(true)
  }

  /** Some variable of the parent scope named by the binding has a type whose
      short name is SecureString. */
  predicate ResultIsSecure(scope: seq<Variable>, binding: Option<string>, table: TypeTable) {
    exists k :: 0 <= k < |scope| && Some(scope[k].name) == binding && ShortTypeName(table, scope[k].typeName) == Some("SecureString")
  }

  lemma IsPasswordSetStep(props: seq<Property>, i: nat)
    requires i < |props|
    ensures IsPasswordSet(props[..i + 1]) <==>
      IsPasswordSet(props[..i]) || (props[i].name == "IsPassword" && ParseBool(props[i].expression) == Some(true))
  {
    assert forall k :: 0 <= k < i ==> props[..i + 1][k] == props[..i][k];
    assert props[..i + 1][i] == props[i];
  }

  lemma ResultIsSecureStep(scope: seq<Variable>, i: nat, binding: Option<string>, table: TypeTable)
    requires i < |scope|
    ensures ResultIsSecure(scope[..i + 1], binding, table) <==>
      ResultIsSecure(scope[..i], binding, table)
      || (Some(scope[i].name) == binding && ShortTypeName(table, scope[i].typeName) == Some("SecureString"))
  {
    assert forall k :: 0 <= k < i ==> scope[..i + 1][k] == scope[..i][k];
    assert scope[..i + 1][i] == scope[i];
  }

  /** The preconditions the source relies on for an input dialog: a parent
      scope, IsPassword values that Boolean.Parse accepts, and loadable types
      for the parent variables the Result binding names. */
  predicate DialogReadable(activity: Activity, table: TypeTable) {
    && activity.parentVariables.Some?
    && (forall k :: 0 <= k < |activity.properties| && activity.properties[k].name == "IsPassword" ==>
          ParseBool(activity.properties[k].expression).Some?)
    && (forall k ::
          (0 <= k < |activity.parentVariables.value| &&
           Some(activity.parentVariables.value[k].name) == ResultBinding(activity.arguments)) ==>
            activity.parentVariables.value[k].typeName in table)
  }

  /** The three scans of an input dialog (Result binding, IsPassword, parent
      variables) and the exclusive-or of the two flags. Any other activity
      passes. */
  method InspectPasswordInputDialogVariables(activity: Activity, table: TypeTable, level: ErrorLevel)
    returns (r: InspectionResult)
    requires activity.typeName in table
    requires table[activity.typeName] == "InputDialog" ==> DialogReadable(activity, table)
    ensures WellFormed(r)
    ensures table[activity.typeName] != "InputDialog" ==> !r.hasErrors
    ensures table[activity.typeName] == "InputDialog" ==>
      var binding := ResultBinding(activity.arguments);
      var secure := ResultIsSecure(activity.parentVariables.value, binding, table);
      var password := IsPasswordSet(activity.properties);
      && (r.hasErrors <==> secure != password)
      && (secure && !password ==> r.messages == [SecureResultWithoutIsPassword(activity.name, binding)])
      && (password && !secure ==> r.messages == [IsPasswordWithoutSecureResult(activity.name, binding)])
    ensures r.hasErrors ==> r.advice == Some(InputDialogAdvice) && r.level == Some(level)
  {
    var msgs: seq<Message> := [];
    var activityType := table[activity.typeName];
    var passwordArgName: Option<string> := None;
    var isSecureString := false;
    var isPasswordProperty := false;
    if activityType == "InputDialog" {
      var args := activity.arguments;
      var i := 0;
      while i < |args|
        invariant 0 <= i <= |args|
        invariant passwordArgName == ResultBinding(args[..i])
      {
        assert args[..i + 1][..i] == args[..i];
        if args[i].name == "Result" {
          passwordArgName := args[i].expression;
        }
        i := i + 1;
      }
      assert args[..i] == args;

      var props := activity.properties;
      i := 0;
      while i < |props|
        invariant 0 <= i <= |props|
        invariant isPasswordProperty <==> IsPasswordSet(props[..i])
      {
        if props[i].name == "IsPassword" && ParseBool(props[i].expression).value {
          isPasswordProperty := true;
        }
        IsPasswordSetStep(props, i);
        i := i + 1;
      }
      assert props[..i] == props;

      var scope := activity.parentVariables.value;
      i := 0;
      while i < |scope|
        invariant 0 <= i <= |scope|
        invariant isSecureString <==> ResultIsSecure(scope[..i], passwordArgName, table)
      {
        if passwordArgName == Some(scope[i].name) {
          var varType := table[scope[i].typeName];
          if varType == "SecureString" {
            isSecureString := true;
          }
        }
        ResultIsSecureStep(scope, i, passwordArgName, table);
        i := i + 1;
      }
      assert scope[..i] == scope;

      if isSecureString && !isPasswordProperty {
        msgs := msgs + [SecureResultWithoutIsPassword(activity.name, passwordArgName)];
      } else if isPasswordProperty && !isSecureString {
        msgs := msgs + [IsPasswordWithoutSecureResult(activity.name, passwordArgName)];
      }
    }
    r := Conclude(msgs, InputDialogAdvice, level);
  }

  // ---------------------------------------------------------------------------
  // InspectSensitiveNotLogged

  /** The `|`-separated pieces of an expression after lower-casing it and
      cutting out its double-quoted literals. */
  function Tokens(expression: string): (tokens: seq<string>)
    ensures |tokens| >= 1
  {
    Split(StripQuoted(ToLower(expression)), '|')
  }

  /** One message for `word` per token that contains it, lower-cased. */
  function WordHits(activity: string, word: string, tokens: seq<string>): (msgs: seq<Message>)
    ensures |msgs| <= |tokens|
  {
    if |tokens| == 0 then []
    else
      WordHits(activity, word, tokens[..|tokens| - 1])
        + (if Contains(tokens[|tokens| - 1], ToLower(word)) then [SensitiveLogged(activity, word)] else [])
  }

  /** The messages of one argument: for each word in order, its hits. */
  function WordRows(activity: string, words: seq<string>, tokens: seq<string>): (rows: seq<seq<Message>>)
    ensures |rows| == |words|
  {
    seq(|words|, i requires 0 <= i < |words| => WordHits(activity, words[i], tokens))
  }

  /** The messages of one argument, by argument: nothing for an argument
      without an expression. */
  function ArgumentHits(activity: string, arg: Argument, words: seq<string>): seq<Message> {
    if IsNullOrEmpty(arg.expression) then [] else Flatten(WordRows(activity, words, Tokens(arg.expression.value)))
  }

  function ArgumentRows(activity: string, args: seq<Argument>, words: seq<string>): (rows: seq<seq<Message>>)
    ensures |rows| == |args|
  {
    seq(|args|, k requires 0 <= k < |args| => ArgumentHits(activity, args[k], words))
  }

  /** Log Message and Write Line are the activities that write text out. */
  predicate WritesOut(activity: Activity) {
    activity.toolbox == "LogMessage" || activity.toolbox == "WriteLine"
  }

  /** What InspectSensitiveNotLogged returns. */
  function SensitiveOutcome(activity: Activity, config: string, level: ErrorLevel): InspectionResult {
    if |config| == 0 || !WritesOut(activity) then Passed()
    else Conclude(Flatten(ArgumentRows(activity.name, activity.arguments, Split(config, '|'))), SensitiveAdvice, level)
  }

  lemma WordHitsStep(activity: string, word: string, tokens: seq<string>, j: nat)
    requires j < |tokens|
    ensures WordHits(activity, word, tokens[..j + 1])
         == WordHits(activity, word, tokens[..j])
            + (if Contains(tokens[j], ToLower(word)) then [SensitiveLogged(activity, word)] else [])
  {
    assert tokens[..j + 1][..j] == tokens[..j];
  }

  lemma WordRowsStep(activity: string, words: seq<string>, tokens: seq<string>, i: nat)
    requires i < |words|
    ensures Flatten(WordRows(activity, words[..i + 1], tokens))
         == Flatten(WordRows(activity, words[..i], tokens)) + WordHits(activity, words[i], tokens)
  {
    assert WordRows(activity, words[..i + 1], tokens)
        == WordRows(activity, words[..i], tokens) + [WordHits(activity, words[i], tokens)];
    FlattenSnoc(WordRows(activity, words[..i], tokens), WordHits(activity, words[i], tokens));
  }

  lemma ArgumentRowsStep(activity: string, args: seq<Argument>, words: seq<string>, k: nat)
    requires k < |args|
    ensures Flatten(ArgumentRows(activity, args[..k + 1], words))
         == Flatten(ArgumentRows(activity, args[..k], words)) + ArgumentHits(activity, args[k], words)
  {
    assert ArgumentRows(activity, args[..k + 1], words)
        == ArgumentRows(activity, args[..k], words) + [ArgumentHits(activity, args[k], words)];
    FlattenSnoc(ArgumentRows(activity, args[..k], words), ArgumentHits(activity, args[k], words));
  }

  /** The two inner loops of the scan: for each word, for each token, one
      message when the token contains the lower-cased word. */
  method ScanTokens(activity: string, words: seq<string>, tokens: seq<string>)
    returns (hits: seq<Message>)
    ensures hits == Flatten(WordRows(activity, words, tokens))
  {
    hits := [];
    var i := 0;
    while i < |words|
      invariant 0 <= i <= |words|
      invariant hits == Flatten(WordRows(activity, words[..i], tokens))
    {
      WordRowsStep(activity, words, tokens, i);
      ghost var before := hits;
      var j := 0;
      while j < |tokens|
        invariant 0 <= j <= |tokens|
        invariant hits == before + WordHits(activity, words[i], tokens[..j])
      {
        WordHitsStep(activity, words[i], tokens, j);
        if Contains(tokens[j], ToLower(words[i])) {
          hits := hits + [SensitiveLogged(activity, words[i])];
        }
        j := j + 1;
      }
      assert tokens[..j] == tokens;
      i := i + 1;
    }
    assert words[..i] == words;
  }

  /** The scan over the arguments of a Log Message or Write Line activity and,
      for each argument with an expression, over the words and the tokens. */
  method InspectSensitiveNotLogged(activity: Activity, config: Option<string>, level: ErrorLevel)
    returns (r: InspectionResult)
    // the word list is split before it is tested for null
    requires config.Some?
    ensures r == SensitiveOutcome(activity, config.value, level)
    ensures WellFormed(r)
    ensures r.hasErrors ==> r.advice == Some(SensitiveAdvice) && r.level == Some(level)
  {
    var variableNames := Split(config.value, '|');
    if IsNullOrEmpty(config) {
      return Passed();
    }
    var msgs: seq<Message> := [];
    if activity.toolbox == "LogMessage" || activity.toolbox == "WriteLine" {
      var args := activity.arguments;
      var k := 0;
      while k < |args|
        invariant 0 <= k <= |args|
        invariant msgs == Flatten(ArgumentRows(activity.name, args[..k], variableNames))
      {
        ArgumentRowsStep(activity.name, args, variableNames, k);
        var value := args[k].expression;
        if IsNullOrEmpty(value) {
          k := k + 1;
          continue;
        }
        var arrayValue := Split(StripQuoted(ToLower(value.value)), '|');
        var hits := ScanTokens(activity.name, variableNames, arrayValue);
        msgs := msgs + hits;
        k := k + 1;
      }
      assert args[..k] == args;
    }
    r := Conclude(msgs, SensitiveAdvice, level);
  }

  /** A message for `word` from one argument means that some token contains
      the lower-cased word, and each such word is reported. */
  lemma {:induction false} WordHitsMember(activity: string, word: string, tokens: seq<string>, m: Message)
    ensures m in WordHits(activity, word, tokens) <==>
      m == SensitiveLogged(activity, word) && exists j :: 0 <= j < |tokens| && Contains(tokens[j], ToLower(word))
  {
    if |tokens| > 0 {
      var init := tokens[..|tokens| - 1];
      WordHitsMember(activity, word, init, m);
      assert forall j :: 0 <= j < |init| ==> init[j] == tokens[j];
    }
  }

  /** The argument has an expression with a token that contains some
      lower-cased word. */
  predicate ArgumentSensitive(arg: Argument, words: seq<string>) {
    && !IsNullOrEmpty(arg.expression)
    && exists i, j :: 0 <= i < |words| && 0 <= j < |Tokens(arg.expression.value)|
         && Contains(Tokens(arg.expression.value)[j], ToLower(words[i]))
  }

  /** Some argument is sensitive. */
  predicate SomeSensitiveToken(args: seq<Argument>, words: seq<string>) {
    exists k :: 0 <= k < |args| && ArgumentSensitive(args[k], words)
  }

  /** The messages of one argument are the words found in its tokens. */
  lemma ArgumentHitsMember(activity: string, arg: Argument, words: seq<string>, m: Message)
    ensures m in ArgumentHits(activity, arg, words) <==>
      && !IsNullOrEmpty(arg.expression)
      && exists i, j :: 0 <= i < |words| && 0 <= j < |Tokens(arg.expression.value)|
           && m == SensitiveLogged(activity, words[i])
           && Contains(Tokens(arg.expression.value)[j], ToLower(words[i]))
  {
    if !IsNullOrEmpty(arg.expression) {
      var tokens := Tokens(arg.expression.value);
      var rows := WordRows(activity, words, tokens);
      FlattenMember(rows, m);
      forall i | 0 <= i < |words|
        ensures m in rows[i] <==>
          m == SensitiveLogged(activity, words[i]) && exists j :: 0 <= j < |tokens| && Contains(tokens[j], ToLower(words[i]))
      {
        WordHitsMember(activity, words[i], tokens, m);
      }
    }
  }

  /** An argument produces a message exactly when it is sensitive. */
  lemma ArgumentHitsNonEmpty(activity: string, arg: Argument, words: seq<string>)
    ensures ArgumentHits(activity, arg, words) != [] <==> ArgumentSensitive(arg, words)
  {
    var hits := ArgumentHits(activity, arg, words);
    if hits != [] {
      ArgumentHitsMember(activity, arg, words, hits[0]);
    }
    if ArgumentSensitive(arg, words) {
      var tokens := Tokens(arg.expression.value);
      var i, j :| 0 <= i < |words| && 0 <= j < |tokens| && Contains(tokens[j], ToLower(words[i]));
      ArgumentHitsMember(activity, arg, words, SensitiveLogged(activity, words[i]));
    }
  }

  /** Some message is produced exactly when some argument is sensitive. */
  lemma ArgumentRowsNonEmpty(activity: string, args: seq<Argument>, words: seq<string>)
    ensures Flatten(ArgumentRows(activity, args, words)) != [] <==> SomeSensitiveToken(args, words)
  {
    var rows := ArgumentRows(activity, args, words);
    FlattenEmpty(rows);
    forall k | 0 <= k < |args|
      ensures rows[k] != [] <==> ArgumentSensitive(args[k], words)
    {
      ArgumentHitsNonEmpty(activity, args[k], words);
    }
  }

  /** With a word list and a writing activity, the rule fails exactly when some
      argument's tokens contain some lower-cased word. */
  lemma SensitiveErrors(activity: Activity, config: string, level: ErrorLevel)
    ensures SensitiveOutcome(activity, config, level).hasErrors <==>
      |config| > 0 && WritesOut(activity) && SomeSensitiveToken(activity.arguments, Split(config, '|'))
  {
    ArgumentRowsNonEmpty(activity.name, activity.arguments, Split(config, '|'));
  }

  /** A leading string literal is cut out before the search: the tokens of
      `"lit" + code`, where neither part has a double quote and the code has
      no `|`, are the lower-cased code alone. */
  lemma LeadingLiteralIgnored(lit: string, code: string)
    requires '"' !in lit && '"' !in code && '|' !in code
    ensures Tokens("\"" + lit + "\"" + code) == [ToLower(code)]
  {
    var e := "\"" + lit + "\"" + code;
    ToLowerAppend("\"" + lit + "\"", code);
    ToLowerAppend("\"" + lit, "\"");
    ToLowerAppend("\"", lit);
    assert ToLower("\"") == "\"";
    assert ToLower(e) == "\"" + ToLower(lit) + "\"" + ToLower(code);
    ToLowerKeepsSymbol(lit, '"');
    ToLowerKeepsSymbol(code, '"');
    ToLowerKeepsSymbol(code, '|');
    StripQuotedLeadingLiteral(ToLower(lit), ToLower(code));
    StripQuotedNoQuotes(ToLower(code));
    SplitWithoutSeparator(ToLower(code), '|');
  }

  /** A message text followed by a variable, as in `"Processing record " +
      strNRIC` with the word NRIC: exactly one message when the code after the
      literal contains the word, none otherwise, whatever the literal says. */
  lemma LiteralThenVariable(activity: string, arg: Argument, lit: string, code: string, word: string)
    requires '"' !in lit && '"' !in code && '|' !in code
    requires arg.expression == Some("\"" + lit + "\"" + code)
    ensures ArgumentHits(activity, arg, [word]) ==
      if Contains(ToLower(code), ToLower(word)) then [SensitiveLogged(activity, word)] else []
  {
    LeadingLiteralIgnored(lit, code);
    var tokens := [ToLower(code)];
    assert [ToLower(code)][..0] == [];
    var rows := WordRows(activity, [word], tokens);
    assert rows == [WordHits(activity, word, tokens)];
    assert Flatten(rows) == Flatten(rows[..0]) + rows[0];
  }

  /** An expression that is one string literal writes out nothing the rule
      looks for: no non-empty word is reported from it. */
  lemma LiteralNeverReported(activity: string, arg: Argument, lit: string, words: seq<string>)
    requires '"' !in lit
    requires arg.expression == Some("\"" + lit + "\"")
    requires forall i :: 0 <= i < |words| ==> words[i] != ""
    ensures ArgumentHits(activity, arg, words) == []
  {
    LeadingLiteralIgnored(lit, "");
    assert "\"" + lit + "\"" + "" == arg.expression.value;
    var hits := ArgumentHits(activity, arg, words);
    if hits != [] {
      var m := hits[0];
      ArgumentHitsMember(activity, arg, words, m);
      assert false;
    }
  }
}
