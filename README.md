# Custom Workflow Analyzer rules, modelled in Dafny

This project models the inspection methods of `STE_RuleRepository`, a set of
custom Workflow Analyzer rules for UiPath Studio. Each rule inspects one
element of an automation project and returns an `InspectionResult`:

- the project itself: its name, and whether it uses the REFramework;
- a workflow: argument names and types, annotation and log-message counts;
- an activity: variable names and types, default display names, password
  variables, input dialogs, Delay, Excel scopes, Outlook mail queries, and
  log statements that may write out sensitive data.

Rules read their settings from the configured rule parameters, which may be
null. A result either passes (`HasErrors = false` and nothing else) or fails
with a list of messages, a recommendation and the configured error level.

Modules:

- `ProcessModel`: the read-only process tree (project, workflows, activities
  with variables, arguments, properties and children). It also holds the
  lookup that stands for `Type.GetType(t).Name`, and the recursive counters
  of the annotation and log rules.
- `Diagnostics`: results, messages and recommendations. Messages carry the
  values the source interpolates into them. `WellFormed` is the shape every
  rule returns. `Flatten` joins the messages that nested loops gather.
- `Text`: the .NET string operations the rules rely on: `Split`, `Trim`,
  `StartsWith`, `Contains`, `ToUpper`/`ToLower`, `IsNullOrWhiteSpace`,
  `Boolean.Parse`, and the regex replacement that cuts out quoted literals.
- `NamePattern`: the default naming pattern `^([A-Za-z0-9]+)_([A-Za-z0-9]+)$`.
  It is matched as .NET matches it, so `$` may also stop before a final line
  feed.
- `NamingRules`, `TypeRules`, `WorkflowRules`, `SecurityRules`,
  `PracticeRules`: one method per rule.

Every rule is a method whose loops follow the source's loops. The eight
rules that gather one message per offending element are proved equal to a
declarative outcome function built from per-element verdicts:
`InspectVariableName`, `InspectArgumentName`, `InspectProperVariableType`,
`InspectProperArgumentType`, `InspectPasswordVariables`,
`InspectSensitiveNotLogged`, `InspectExcelVisible` and
`InspectOutlookGetMail`. Lemmas relate those outcome functions to the
predicates they decide. The other eight (`InspectProjectName`,
`InspectActivityRenamed`, `InspectAnnotationsInWorkflow`,
`InspectLogsInWorkflow`, `InspectFrameworkType`,
`InspectPasswordInputDialogVariables`, `InspectNoDelayActivity` and
`InspectOutlookGetMailFilters`) state their verdict directly. Every method
states when it fails, which messages it produces and what recommendation and
level it returns.

Some exceptions the source can raise are stated as preconditions. Examples: a
type that does not load, a `Boolean.Parse` of a value it rejects, or a
`Split` on a null parameter. "## Left out" lists the exceptions that are not
modelled.

## Model

| member | source | states |
|---|---|---|
| NamingRules.InspectProjectName | STE_WorkflowAnalyzerRules/Class1.cs:245-321 | A blank pattern passes. A name that does not match fails with the format message. A matching name fails only when a department list is set and the captured department is not among its trimmed entries. Each failure carries its recommendation and the level. |
| NamingRules.TrimAllMember | STE_WorkflowAnalyzerRules/Class1.cs:288-291 | A name is in the trimmed department or type list exactly when some `\|`-separated entry trims to it. |
| NamePattern.MatchDefaultSound | STE_WorkflowAnalyzerRules/Class1.cs:260-262 | Every match of the default pattern is a word, `_`, a word, and at most one final line feed. The group is the first word. |
| NamePattern.MatchDefaultComplete | STE_WorkflowAnalyzerRules/Class1.cs:260-262 | Every word `_` word name matches, with or without a final line feed. The group is the first word. |
| NamingRules.VariableVerdict | STE_WorkflowAnalyzerRules/Class1.cs:339-365 | One variable adds at most one message. It adds one exactly when its name does not match or its captured type prefix is not allowed. |
| NamingRules.VariableNameMessages | STE_WorkflowAnalyzerRules/Class1.cs:337-367 | There is at most one message per variable. A message names a variable whose name is malformed, or a variable together with its disallowed prefix, and every such variable has its message. |
| NamingRules.VariableNameErrors | STE_WorkflowAnalyzerRules/Class1.cs:331-386 | The rule fails exactly when a pattern is set, the scan is not ended early by a matching variable under a blank type list, and some variable fails. |
| NamingRules.InspectVariableName | STE_WorkflowAnalyzerRules/Class1.cs:325-390 | The scan equals the outcome function. It keeps the source's early return, which drops the messages gathered before it. It fails exactly as `VariableNameErrors` says, with at most one message per variable. |
| NamingRules.ArgumentNameMessages | STE_WorkflowAnalyzerRules/Class1.cs:403-420 | An argument is reported exactly when its name starts with none of the configured prefixes, once. There are no messages exactly when every argument has a prefix. |
| NamingRules.InspectArgumentName | STE_WorkflowAnalyzerRules/Class1.cs:394-440 | A blank prefix list passes. Otherwise the rule fails exactly when some argument starts with none of the `\|`-separated prefixes, and the nested scan equals the outcome function. |
| TypeRules.TypeSegment | STE_WorkflowAnalyzerRules/Class1.cs:457 | The part of a type string before its first comma contains no comma. |
| TypeRules.TypeSegmentUnqualified | STE_WorkflowAnalyzerRules/Class1.cs:457 | A type string without an assembly qualification is its own segment. |
| TypeRules.TypeSegmentQualified | STE_WorkflowAnalyzerRules/Class1.cs:457 | An assembly-qualified type string keeps exactly the part before its first comma. |
| TypeRules.DenialsMember | STE_WorkflowAnalyzerRules/Class1.cs:456-463 | A declaration's messages are exactly the configured fragments its type segment contains, one message each. |
| TypeRules.EmptyFragmentDenies | STE_WorkflowAnalyzerRules/Class1.cs:456-457 | An empty fragment, from a stray `\|`, is reported for every declaration. |
| TypeRules.VariableTypeMessages | STE_WorkflowAnalyzerRules/Class1.cs:454-464 | The messages are exactly the (variable, fragment) pairs where the variable's type segment contains the fragment. |
| TypeRules.VariableDenialsNonEmpty | STE_WorkflowAnalyzerRules/Class1.cs:454-466 | Some message is produced exactly when some variable's type segment contains some fragment. |
| TypeRules.InspectProperVariableType | STE_WorkflowAnalyzerRules/Class1.cs:444-485 | A blank deny-list passes. Otherwise the rule fails exactly when some variable's type segment contains some fragment. The nested scan equals the outcome function. |
| TypeRules.ArgumentTypeMessages | STE_WorkflowAnalyzerRules/Class1.cs:499-509 | The same as `VariableTypeMessages`, for the workflow's arguments. |
| TypeRules.ArgumentDenialsNonEmpty | STE_WorkflowAnalyzerRules/Class1.cs:499-511 | Some message is produced exactly when some argument's type segment contains some fragment. |
| TypeRules.InspectProperArgumentType | STE_WorkflowAnalyzerRules/Class1.cs:489-530 | The same as `InspectProperVariableType`, for the workflow's arguments. |
| WorkflowRules.InspectActivityRenamed | STE_WorkflowAnalyzerRules/Class1.cs:553-577 | The rule fails exactly when the type has a default name and the display name equals it. The message names the activity. |
| ProcessModel.TallyCountsPreorder | STE_WorkflowAnalyzerRules/Class1.cs:598-612 | The recursive counter threads its count through the tree. It returns the starting count plus the number of qualifying nodes in the pre-order listing of the subtree. |
| ProcessModel.AnnotatedActivities | STE_WorkflowAnalyzerRules/Class1.cs:598-615 | The annotation count of a workflow is the number of activities in its tree whose annotation is not blank. |
| ProcessModel.LogMessages | STE_WorkflowAnalyzerRules/Class1.cs:649-664 | The log count of a workflow is the number of activities in its tree whose toolbox name is LogMessage. |
| ProcessModel.CountWhereAppend | STE_WorkflowAnalyzerRules/Class1.cs:606-610 | Counting over two listings in sequence adds their counts. |
| WorkflowRules.CountOverChildren | STE_WorkflowAnalyzerRules/Class1.cs:602-610 | An activity's count is its own contribution plus the counts of its children's subtrees. |
| WorkflowRules.InspectAnnotationsInWorkflow | STE_WorkflowAnalyzerRules/Class1.cs:584-640 | The rule fails exactly when the annotated activities are fewer than the minimum. The message carries the workflow name, the count and the minimum. A minimum of zero passes, as the short-cut says. |
| WorkflowRules.InspectLogsInWorkflow | STE_WorkflowAnalyzerRules/Class1.cs:644-689 | The rule fails exactly when the log-message activities are fewer than the minimum. The message carries the workflow name, the count and the minimum. |
| WorkflowRules.NamesHaveWorkflows | STE_WorkflowAnalyzerRules/Class1.cs:707-714 | A name is in the collected list exactly when some workflow carries it. |
| WorkflowRules.InspectFrameworkType | STE_WorkflowAnalyzerRules/Class1.cs:693-741 | The rule fails exactly when one of the four framework workflows is not the name of any workflow of the project, with the single framework message. |
| WorkflowRules.FrameworkDependsOnNames | STE_WorkflowAnalyzerRules/Class1.cs:707-719 | Only the set of workflow names matters: order, duplicates and contents do not change the verdict. |
| WorkflowRules.FrameworkKeptByAdding | STE_WorkflowAnalyzerRules/Class1.cs:712-719 | Adding workflows to a project that uses the framework keeps it passing. |
| WorkflowRules.FrameworkNeedsEach | STE_WorkflowAnalyzerRules/Class1.cs:712-718 | Lacking any one of the four framework workflows fails the rule. |
| SecurityRules.PasswordMessages | STE_WorkflowAnalyzerRules/Class1.cs:750-774 | A variable is reported exactly when its upper-cased name contains an upper-cased word and its type is not SecureString, at most once. Some message exists exactly when such a variable exists. |
| SecurityRules.EmptyWordMatchesAll | STE_WorkflowAnalyzerRules/Class1.cs:753-755 | An empty word, from a stray `\|`, makes every variable password-like. |
| SecurityRules.InspectPasswordVariables | STE_WorkflowAnalyzerRules/Class1.cs:745-794 | The rule fails exactly when some password-like variable is not a SecureString. The scan, which stops trying words at the first match, equals the outcome function. |
| SecurityRules.ResultBindingIsLast | STE_WorkflowAnalyzerRules/Class1.cs:809-815 | Without a Result argument the binding is null. Otherwise it is the expression of the last Result argument. |
| SecurityRules.InspectPasswordInputDialogVariables | STE_WorkflowAnalyzerRules/Class1.cs:798-872 | Any activity other than an input dialog passes. A dialog fails exactly when "Result bound to a SecureString of the parent scope" differs from "IsPassword is true", with the message for the side that is set. |
| SecurityRules.Tokens | STE_WorkflowAnalyzerRules/Class1.cs:1095-1097 | An expression always yields at least one token. |
| SecurityRules.ScanTokens | STE_WorkflowAnalyzerRules/Class1.cs:1099-1111 | The two inner loops produce, for each word in order, one message per token containing the lower-cased word. |
| SecurityRules.WordHitsMember | STE_WorkflowAnalyzerRules/Class1.cs:1101-1109 | A word is reported from an argument exactly when one of its tokens contains the lower-cased word. |
| SecurityRules.ArgumentHitsMember | STE_WorkflowAnalyzerRules/Class1.cs:1086-1111 | An argument with no expression reports nothing. Otherwise its messages are exactly the words found in its tokens. |
| SecurityRules.ArgumentHitsNonEmpty | STE_WorkflowAnalyzerRules/Class1.cs:1086-1111 | An argument produces a message exactly when some token of its expression contains some word. |
| SecurityRules.ArgumentRowsNonEmpty | STE_WorkflowAnalyzerRules/Class1.cs:1083-1113 | The activity produces a message exactly when one of its arguments does. |
| SecurityRules.SensitiveErrors | STE_WorkflowAnalyzerRules/Class1.cs:1072-1126 | The rule fails exactly when the word list is non-empty, the activity is a Log Message or Write Line, and some argument's tokens contain some lower-cased word. |
| SecurityRules.InspectSensitiveNotLogged | STE_WorkflowAnalyzerRules/Class1.cs:1070-1131 | The nested scan equals the outcome function: the messages of every argument, word by word and token by token, in order. When the result fails, it carries the recommendation and the level. `SensitiveErrors` states when the outcome fails. |
| SecurityRules.LeadingLiteralIgnored | STE_WorkflowAnalyzerRules/Class1.cs:1081-1097 | A leading quoted literal is cut out before the search. The tokens of `"lit" + code` are the lower-cased code alone. |
| SecurityRules.LiteralThenVariable | STE_WorkflowAnalyzerRules/Class1.cs:1095-1109 | For `"Processing record " + strNRIC` with the word NRIC, exactly one message is produced when the code contains the word, whatever the literal says. |
| SecurityRules.LiteralNeverReported | STE_WorkflowAnalyzerRules/Class1.cs:1095-1109 | An expression that is a single string literal reports no non-empty word. |
| PracticeRules.InspectNoDelayActivity | STE_WorkflowAnalyzerRules/Class1.cs:876-901 | The rule fails exactly when the activity's type is Delay. |
| PracticeRules.ExcelVerdictShape | STE_WorkflowAnalyzerRules/Class1.cs:908-940 | A property adds at most one message. It adds one exactly when it is "Show Excel window" not set to false, or "Visible" set to true. |
| PracticeRules.ExcelErrors | STE_WorkflowAnalyzerRules/Class1.cs:908-943 | A scope fails exactly when some property shows the window or is visible, with at most one message per property. |
| PracticeRules.InspectExcelVisible | STE_WorkflowAnalyzerRules/Class1.cs:905-961 | The scan equals the outcome function and fails exactly as `ExcelErrors` says. An unparseable "Show Excel window" value counts as "Same as project" and fails. |
| PracticeRules.OutlookOrderErrors | STE_WorkflowAnalyzerRules/Class1.cs:969-984 | A Get Outlook Mail Messages activity fails exactly when some OrderByDate property is not OldestFirst, ignoring case, with one message per such property. Any other activity passes. |
| PracticeRules.InspectOutlookGetMail | STE_WorkflowAnalyzerRules/Class1.cs:965-1003 | The scan equals the outcome function and fails exactly as `OutlookOrderErrors` says. |
| PracticeRules.InspectOutlookGetMailFilters | STE_WorkflowAnalyzerRules/Class1.cs:1007-1066 | The rule fails exactly when the activity's type is GetOutlookMailMessages and neither Filter nor FilterByMessageIds has a non-empty value. The failure has the single filter message. |
| Diagnostics.Conclude | STE_WorkflowAnalyzerRules/Class1.cs:369-385 | The closing test shared by the rules: the result fails exactly when there are messages, and then carries the recommendation and the level. |
| Text.Split | STE_WorkflowAnalyzerRules/Class1.cs:402 | Splitting yields at least one part, and no part contains the separator. |
| Text.JoinSplit | STE_WorkflowAnalyzerRules/Class1.cs:402 | Joining the parts with the separator gives back the split string, so no character is lost. |
| Text.SplitWithoutSeparator | STE_WorkflowAnalyzerRules/Class1.cs:1097 | A string without the separator splits into itself alone. |
| Text.TrimIdempotent | STE_WorkflowAnalyzerRules/Class1.cs:356-358 | Trimming a trimmed entry changes nothing. |
| Text.BlankIffTrimEmpty | STE_WorkflowAnalyzerRules/Class1.cs:349 | A string is white space only exactly when trimming empties it. |
| Text.ToLower | STE_WorkflowAnalyzerRules/Class1.cs:1095 | Lower-casing keeps the length and maps each character on its own. |
| Text.ToLowerIdempotent | STE_WorkflowAnalyzerRules/Class1.cs:1104 | Lower-casing a lower-cased word changes nothing. |
| Text.ToUpper | STE_WorkflowAnalyzerRules/Class1.cs:755 | Upper-casing keeps the length and maps each character on its own. |
| Text.ParseBoolTrue | STE_WorkflowAnalyzerRules/Class1.cs:819 | A text parses to true exactly when it is "true" in some letter case, with only white space and NUL characters before and after it. |
| Text.ParseBoolFalse | STE_WorkflowAnalyzerRules/Class1.cs:915 | A text parses to false exactly when it is "false" in some letter case, with only white space and NUL characters before and after it. |
| Text.ParseBoolOther | STE_WorkflowAnalyzerRules/Class1.cs:915 | Null and every text that spells neither word give no value, the case where `Boolean.Parse` throws. |
| Text.ParseBoolPadding | STE_WorkflowAnalyzerRules/Class1.cs:933 | Adding white space or NUL characters around a text never changes what it parses to. |
| Text.StripQuotedLeavesOneQuote | STE_WorkflowAnalyzerRules/Class1.cs:1081-1095 | After the quoted literals are cut out, at most one double quote is left. |
| Text.StripQuotedKeepsSingleQuote | STE_WorkflowAnalyzerRules/Class1.cs:1081-1095 | A string with at most one double quote is left unchanged. |
| Text.StripQuotedIdempotent | STE_WorkflowAnalyzerRules/Class1.cs:1081-1095 | Cutting out literals twice is the same as once. |
| Text.StripQuotedLeadingLiteral | STE_WorkflowAnalyzerRules/Class1.cs:1081-1095 | A leading literal is removed entirely and the rest is processed on its own. |

## Left out

- Rule registration (`Initialize`, lines 24-242) is not modelled: rule identifiers, names, default parameters and the registration with the analyzer are configuration, not behaviour.
- `GetDefaultActivityName`, which reads display-name attributes through reflection, is not modelled. `InspectActivityRenamed` takes the default name as a parameter, which is None where the source returns null.
- `Type.GetType(t).Name` is a lookup table from type strings to short names. A type that does not load is a missing key, and the source's null dereference there is a precondition.
- The configured regular expression of the naming rules is a general .NET regex. It is a `Matcher` parameter (group 1 on success). Only the default pattern is modelled concretely.
- Exceptions are preconditions, not error paths:
  - `int.Parse` of the minimum counts: the minimum is passed as an integer.
  - `Boolean.Parse` of IsPassword and of classic Excel "Visible" values.
  - `Split` on a null word list, in the password and sensitive-data rules.
  - A null parent scope of an input dialog.
  - A null OrderByDate value.
  - The null type list in the variable recommendation text.
- Console output is not modelled. Message and recommendation wording is not modelled either: messages carry the values they interpolate, and recommendations are constants.
- The classic Excel message on line 938 is a plain string, not an interpolated one, so it carries no value (`ExcelVisibleSet`).
- Culture-sensitive comparisons (`CurrentCultureIgnoreCase`, `InvariantCultureIgnoreCase`, `ToUpper`, `ToLower`) are modelled as ASCII case folding. `String.StartsWith(string)` in the argument naming rule (line 408) also compares with the current culture; it is modelled ordinally, so characters the culture ignores (a soft hyphen, for example) are not skipped.
- An invalid configured naming pattern makes `Regex.Match` throw (lines 262 and 339). `Matcher` is a total function, so the model has no such error.
- AnnotatedActivities: the count is an unbounded integer; 32-bit overflow of the .NET `int` counter is not modelled.
- LogMessages: the count is an unbounded integer; 32-bit overflow of the .NET `int` counter is not modelled.
- The regex `"([^"]*)"` of the sensitive-data rule is modelled by `StripQuoted`, which removes each pair of double quotes and the text between them, left to right.
- ScanTokens: the two innermost loops of the sensitive-data rule are a separate method, not inline code.
