/**
 * InspectionResult and its parts. Messages are kept as values carrying what the
 * source interpolates into its message text (names, counts, fragments); the
 * English wording and the recommendation texts are opaque values.
 */
module Diagnostics {
  import opened Wrappers

  /** System.Diagnostics.TraceLevel, the configured severity of a rule. */
  datatype ErrorLevel = Off | Error | Warning | Info | Verbose

  datatype DeclKind = VariableDecl | ArgumentDecl

  /** One InspectionMessage, by the place in the source that adds it. */
  datatype Message =
    | ProjectNameMalformed
    | DepartmentInvalid
    | VariableNameMalformed(variable: string)
    | VariableTypePrefixInvalid(prefix: string, variable: string)
    | ArgumentDirectionMissing(argument: string)
    | TypeDenied(kind: DeclKind, declaration: string, fragment: string)
    | DefaultActivityName(activity: string)
    | TooFewAnnotations(workflow: string, count: int, minimum: int)
    | TooFewLogs(workflow: string, count: int, minimum: int)
    | FrameworkNotUsed
    | PasswordNotSecure(variable: string)
    | SecureResultWithoutIsPassword(dialog: string, result: Option<string>)
    | IsPasswordWithoutSecureResult(dialog: string, result: Option<string>)
    | DelayUsed
    | ExcelWindowShown(scope: string, property: string)
    | ExcelWindowSameAsProject(scope: string, property: string)
    | ExcelVisibleSet  // its text interpolates no value
    | MailNotOldestFirst(activity: string)
    | MailNotFiltered
    | SensitiveLogged(activity: string, word: string)

  /** The RecommendationMessage of a failing result; where the text quotes
      a configured list, that list is carried. */
  datatype Advice =
    | ProjectNameAdvice
    | DepartmentAdvice(departments: string)
    | VariableNameAdvice(types: string)
    | ArgumentNameAdvice(prefixes: string)
    | VariableTypeAdvice
    | ArgumentTypeAdvice
    | RenameAdvice
    | AnnotationAdvice
    | LogAdvice
    | FrameworkAdvice
    | PasswordTypeAdvice
    | InputDialogAdvice
    | DelayAdvice
    | ExcelAdvice
    | OutlookOrderAdvice
    | OutlookFilterAdvice
    | SensitiveAdvice

  /** A passing result sets only HasErrors; the other members keep their
      defaults (no messages, no recommendation, no level). */
  datatype InspectionResult = InspectionResult(
    hasErrors: bool,
    messages: seq<Message>,
    advice: Option<Advice>,
    level: Option<ErrorLevel>)

  /** The shape every rule returns: HasErrors exactly when there are messages,
      and a recommendation and level exactly on failure. */
  predicate WellFormed(r: InspectionResult) {
    && (r.hasErrors <==> |r.messages| > 0)
    && (r.hasErrors <==> r.advice.Some?)
    && (r.hasErrors <==> r.level.Some?)
  }

  /** new InspectionResult() { HasErrors = false } */
  function Passed(): (r: InspectionResult)
    ensures WellFormed(r) && !r.hasErrors
  {
    InspectionResult(false, [], None, None)
  }

  /** The closing `if (lst_Messages.Count > 0)` shared by the rules. */
  function Conclude(msgs: seq<Message>, advice: Advice, level: ErrorLevel): (r: InspectionResult)
    ensures WellFormed(r)
    ensures r.messages == msgs
    ensures r.hasErrors ==> r.advice == Some(advice) && r.level == Some(level)
  {
    if |msgs| > 0 then InspectionResult(true, msgs, Some(advice), Some(level)) else Passed()
  }

  // ---------------------------------------------------------------------------
  // Messages gathered over nested loops: a table of per-element message lists,
  // concatenated in order.

  function Flatten<T>(rows: seq<seq<T>>): seq<T> {
    if |rows| == 0 then [] else Flatten(rows[..|rows| - 1]) + rows[|rows| - 1]
  }

  /** Appending a row appends its messages. */
  lemma FlattenSnoc<T>(rows: seq<seq<T>>, row: seq<T>)
    ensures Flatten(rows + [row]) == Flatten(rows) + row
  {
    assert (rows + [row])[..|rows|] == rows;
  }

  /** The concatenation is empty exactly when every row is. */
  lemma {:induction false} FlattenEmpty<T>(rows: seq<seq<T>>)
    ensures Flatten(rows) == [] <==> forall k :: 0 <= k < |rows| ==> rows[k] == []
  {
    if |rows| > 0 {
      var init := rows[..|rows| - 1];
      FlattenEmpty(init);
      assert forall k :: 0 <= k < |init| ==> init[k] == rows[k];
    }
  }

  /** An element is in the concatenation exactly when it is in some row. */
  lemma {:induction false} FlattenMember<T>(rows: seq<seq<T>>, x: T)
    ensures x in Flatten(rows) <==> exists k :: 0 <= k < |rows| && x in rows[k]
  {
    if |rows| > 0 {
      var init := rows[..|rows| - 1];
      FlattenMember(init, x);
      assert forall k :: 0 <= k < |init| ==> init[k] == rows[k];
      if x in Flatten(rows) && x !in Flatten(init) {
        assert x in rows[|rows| - 1];
      }
    }
  }

  /** Rows of at most one message give at most one message per row. */
  lemma {:induction false} FlattenShortRows<T>(rows: seq<seq<T>>)
    requires forall k :: 0 <= k < |rows| ==> |rows[k]| <= 1
    ensures |Flatten(rows)| <= |rows|
  {
    if |rows| > 0 {
      FlattenShortRows(rows[..|rows| - 1]);
    }
  }
}
