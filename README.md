# Accounting question: the grading core, modelled in Dafny

This project models the grading core of the ILIAS question type
`assAccountingQuestion` (booking-record questions). It covers the logic
between an author's definitions, a learner's submission and the per-part
scorer:

- **Account directory.** `setAccountsXML` builds an ordered account list
  from a parsed `<konten>` tree. It starts with an empty placeholder entry.
  `getAccount` and `getAccountText` do first-match lookups over that list.
- **Variable engine.** This covers setting the variables definition and
  the calculation run that stops at the first failure. It also covers
  restoring values from the `accqst_vars` entry of a solution, writing
  that entry back, and substituting `{name}` tokens in texts.
- **Solution codec.** `getSolutionSubmit` encodes a submission as one
  `<input part_id="…">` fragment per part, joined by `<partBreak />` under
  `accqst_input`. `getSolutionStored` folds stored rows into an array.
  `getSolutionParts` decodes both the current and the older
  `…_input_<id>` format. The encode/decode round trip is proved.
- **Scoring aggregation and the part list.** This covers the maximum
  points, the points reached for a decoded solution, and `getPart`,
  `deletePart` and `deleteParts`.
- **Solution-row table.** The `DELETE` and `SELECT` statements of
  `removeCurrentSolution`, `removeExistingSolutions` and
  `lookupForExistingSolutions` are modelled as filters over an in-memory row
  sequence, read from their `WHERE` clauses. So is the body of the
  `saveWorkingData` lock. The stored variables (`accqst_vars`) survive a
  resubmission.
- **Plugin conversions.** This is the string normalisation of `toFloat`
  and `toString`.

The question is the class `Question.AccountingQuestion`. Its fields are the
ones the PHP methods update, and its methods are proved against
specification functions in the other modules. The modules are:

- `Strings`: `strtolower`, the `(int)` cast, numeric strings and PHP 8's
  loose `==` on two strings, `strpos`, `explode`, `implode` and
  `str_replace` on `seq<char>`.
- `OrderedMap`: PHP arrays with string keys.
- `Accounts`, `Variables`, `Parts`, `SolutionCodec` and `SolutionTable`:
  the five pieces listed above.
- `Plugin`: the plugin conversions.

PHP arrays filled by the decoder are keyed by decimal strings. PHP turns a
canonical decimal string key into the integer it denotes, and that mapping
is one-to-one. So a lookup by the integer part id equals a lookup by its
decimal text, which is how the model reads `$solutionParts[$part_id]`.

**Title search.** The field comment on `accounts_search_title`
(classes/class.assAccountingQuestion.php:46-51) says it enables searching
for titles in the dropdowns. The getter's docblock (:639-645) calls it the
flag for whether title search is allowed, and `setAccountsXML` sets it from
`suche` (:575). `getAccount` (:598-609) never reads it: its title and text
comparisons always run. The lookup also tries the placeholder entry first,
and the placeholder's number casts to 0. So every input whose integer cast
is 0 finds the empty entry, and every title without leading digits is such
an input. A bare title therefore finds the empty entry whatever `suche`
says (`Accounts.PlaceholderShadowsZero`, `Accounts.TitleLookupShadowed`).

PHP 8 compares two numeric strings with `==` by value. So `getAccount`
compares titles and texts by value when both they and the input are
numeric strings, and `12.50` finds the account titled `12.5`
(`Accounts.NumericTitleFound`).


## Model

| member | source | states |
|---|---|---|
| Question.AccountingQuestion.SetAccountsXML | classes/class.assAccountingQuestion.php:520-578 | Succeeds exactly when the definition parsed and its root is `konten`. On success the directory is the placeholder followed by one account per child, the definition is stored, and the search flag is `suche` in {`beide`, `titel`}. On failure the directory is empty and the stored definition and search flag keep their old values. |
| Accounts.DirectoryEntries | classes/class.assAccountingQuestion.php:545-570 | The directory has one entry more than there are children: the empty placeholder first, then each child's account in document order. |
| Accounts.AccountFields | classes/class.assAccountingQuestion.php:551-566 | An account's number and title are the `nummer`/`titel` attributes, or `''` when missing. Its text is the number for display `nummer`, the title for `titel` (case-insensitively), and `number: title` for anything else. |
| Accounts.DisplayNumberExample | classes/class.assAccountingQuestion.php:554-557 | With display `nummer`, the text of account 7 titled Cash is `7`. |
| Accounts.DisplayDefaultExample | classes/class.assAccountingQuestion.php:563-565 | Without a display mode, the text of account 7 titled Cash is `7: Cash`. |
| Question.AccountingQuestion.GetAccount | classes/class.assAccountingQuestion.php:598-609 | Returns the first entry, in list order, that matches the input, or the empty entry when none does. An entry matches when its number casts to the input's integer, or when its lower-cased title or text equals the lower-cased input under PHP 8's `==`: by value when both are numeric strings, character by character otherwise. |
| Strings.ParseDecimal | classes/class.assAccountingQuestion.php:601-602 | A decimal `whole.fraction` with at least one digit is a numeric string. Its digits form the mantissa and its exponent is minus the number of digits after the point. |
| Strings.LooseEqualsTrailingZero | classes/class.assAccountingQuestion.php:601-602 | `whole.fraction0` and `whole.fraction` are different strings that `==` holds equal. |
| Strings.LooseEqualsEmpty | classes/class.assAccountingQuestion.php:601-602 | The empty string is not numeric, so under `==` it equals only itself. |
| Strings.IntCastOfDecimal | classes/class.assAccountingQuestion.php:600 | The integer cast of a decimal `whole.fraction` is its whole part. |
| Accounts.PlaceholderMissesDecimal | classes/class.assAccountingQuestion.php:598-606 | The placeholder does not match a decimal whose whole part is not 0. |
| Accounts.TitleMatchesByValue | classes/class.assAccountingQuestion.php:601 | An account titled `whole.fraction` matches the input `whole.fraction0`. |
| Accounts.NumericTitleFound | classes/class.assAccountingQuestion.php:598-609 | After the placeholder, the account titled `whole.fraction` is what the input `whole.fraction0` finds, when the whole part is not 0. |
| Accounts.AccountPosAt | classes/class.assAccountingQuestion.php:600-606 | The first-match search stops at a matching position that no earlier entry matches. |
| Question.AccountingQuestion.GetAccountText | classes/class.assAccountingQuestion.php:616-624 | Returns the text of the first entry whose number casts to the same integer as the input, or `''`. |
| Accounts.NumberPosAt | classes/class.assAccountingQuestion.php:618-621 | The number search of `getAccountText` stops at the first entry whose number matches. |
| Accounts.AccountTextFromDirectory | classes/class.assAccountingQuestion.php:616-624 | An account text is `''` or the text of some directory entry. |
| Accounts.PlaceholderShadowsZero | classes/class.assAccountingQuestion.php:598-624 | In a directory that starts with the placeholder, every input whose integer cast is 0 gets the empty entry from `getAccount` and `''` from `getAccountText`. |
| Accounts.TitleLookupShadowed | classes/class.assAccountingQuestion.php:598-609 | Looking up the bare title `Cash` of account 7 returns the empty entry, not the account. |
| Question.AccountingQuestion.SetVariablesXML | classes/class.assAccountingQuestion.php:652-670 | Succeeds exactly when the definition is blank or parses. On success the definition and the variables are stored: none for a blank definition. On a parse error only `analyze_error` changes, to the parser's message. |
| Question.AccountingQuestion.CalculateVariables | classes/class.assAccountingQuestion.php:698-713 | The new variables and `analyze_error` are those of a run in list order that stops at the first variable that fails. The result is true exactly when the run got through. |
| Variables.CalculationStopsAtFirstFailure | classes/class.assAccountingQuestion.php:701-710 | A run keeps names and length. Each variable it passes gets the value its calculation gave on the list as it was then. When it stops, it stops at a variable whose calculation failed, leaves that variable and the later ones untouched, and records `var_not_calculated` with that name or the exception's message. |
| Question.AccountingQuestion.AssignStoredValues | classes/class.assAccountingQuestion.php:728-735 | Each variable whose name has a stored value takes it and the others keep theirs. The flag says whether every variable had a value. |
| Question.AccountingQuestion.RestoreStored | classes/class.assAccountingQuestion.php:723-737 | The variables and the completeness flag after the loop over the solution's entries are those of `Restore`. |
| Question.RestoreFromVarsEntry | classes/class.assAccountingQuestion.php:723-737 | For a solution array, the result is complete exactly when there is an `accqst_vars` entry whose unserialised values name every variable. Those values are then assigned. Without the entry nothing changes and the result is incomplete. |
| Question.RestoreKeepsNames | classes/class.assAccountingQuestion.php:729-735 | Restoring keeps the number and the names of the variables. |
| Question.AccountingQuestion.InitVariablesFromUserSolution | classes/class.assAccountingQuestion.php:721-752 | Returns whether the stored values were complete. Calculation runs exactly when they were not. Afterwards the question text and every part text are the display substitution of the final variables. |
| Question.AccountingQuestion.SubstitutePartTexts | classes/class.assAccountingQuestion.php:746-749 | Every part keeps its key and fields except its text, which becomes the display substitution of its old text. |
| Question.AccountingQuestion.AddVariablesToUserSolution | classes/class.assAccountingQuestion.php:759-768 | The solution with `accqst_vars` set to the serialised name-to-value map of the variables. Other keys are untouched. |
| Variables.ValuesOfVariables | classes/class.assAccountingQuestion.php:761-764 | The map's keys are exactly the variable names. With distinct names each key holds its variable's value. |
| Variables.RestoreStoredValues | classes/class.assAccountingQuestion.php:728-735 | Restoring the stored map into a list with the same names finds it complete and gives back exactly the saved variables. |
| Question.StoredVariablesRoundTrip | classes/class.assAccountingQuestion.php:721-768 | With an unserialiser that undoes the serialiser, restoring the solution that `addVariablesToUserSolution` wrote gives back the saved variables, complete. |
| Question.AccountingQuestion.SubstituteVariables | classes/class.assAccountingQuestion.php:777-798 | The result is the text after each variable, in list order, had every occurrence of its token replaced by its rendering for the mode. A variable whose token does not occur is skipped. |
| Variables.SubstituteWithoutTokens | classes/class.assAccountingQuestion.php:779-781 | A text with no token of any defined variable comes back unchanged. |
| Variables.SubstituteConcat | classes/class.assAccountingQuestion.php:779-796 | Each variable is processed once, in list order: substituting a concatenated list means substituting its halves one after the other. |
| Variables.UnknownModeIsDefault | classes/class.assAccountingQuestion.php:782-792 | A mode other than `numeric` and `display` renders as `default`. |
| Variables.ReplacesEveryOccurrence | classes/class.assAccountingQuestion.php:794 | When a token occurs, the result is the text between its occurrences joined by the rendering. |
| Variables.LaterVariableRewritesEarlierValue | classes/class.assAccountingQuestion.php:779-797 | A value inserted for an earlier variable is rewritten by a later one: `{a}` rendered as `{b}` ends up as `b`'s value. |
| Strings.ReplaceAllIsJoinOfSplit | classes/class.assAccountingQuestion.php:794 | `str_replace` equals `implode` of `explode`: every non-overlapping occurrence is replaced. |
| Question.AccountingQuestion.GetSolutionSubmit | classes/class.assAccountingQuestion.php:890-922 | The single entry `accqst_input` holds the fragments of all parts, in part order, joined by `<partBreak />`. |
| Question.AccountingQuestion.PartInput | classes/class.assAccountingQuestion.php:895-915 | A part's fragment is its `<input part_id="…">` header, one row for each of its `maxLines` booking lines, and `</input>`. |
| Question.AccountingQuestion.RowInput | classes/class.assAccountingQuestion.php:901-911 | A row carries the request's right and left amounts as both money and raw values, the two account inputs, and the directory texts of those accounts. |
| SolutionCodec.FragmentFree | classes/class.assAccountingQuestion.php:899-913 | For a part with a non-negative id, no fragment contains the marker `m` when no request value and no account text does. The marker must start with `<p` and hold no `"` (`MarkerShape`, which `<partBreak />` meets). |
| SolutionCodec.FragmentPartId | classes/class.assAccountingQuestion.php:975-977 | The decoder's pattern captures, from a fragment, the id of the part the fragment was built for. |
| SolutionCodec.HeaderMatch | classes/class.assAccountingQuestion.php:975-976 | In `<input part_id="<digits>"…` the leftmost match of `part_id="([0-9]+)"` captures those digits. |
| SolutionCodec.FindPartIdNone | classes/class.assAccountingQuestion.php:975 | The search finds nothing exactly when no position of the fragment starts a match. |
| SolutionCodec.FindPartIdLeftmost | classes/class.assAccountingQuestion.php:975-976 | What the search finds is the capture of a match with no match before it. |
| Strings.SplitJoin | classes/class.assAccountingQuestion.php:972 | `explode` undoes `implode` when no piece contains the separator, for a separator whose first character does not recur in it. |
| SolutionCodec.DecodeTagged | classes/class.assAccountingQuestion.php:972-979 | Fragments that carry distinct ids are filed, in order, each under its own id. |
| SolutionCodec.RoundTrip | classes/class.assAccountingQuestion.php:890-979 | Decoding what `getSolutionSubmit` encoded maps each part id to exactly the fragment built for that part, in part order. This needs distinct, non-negative part ids and no `<partBreak />` in any request value or account text. |
| SolutionCodec.FragmentWithoutIdDropped | classes/class.assAccountingQuestion.php:975-978 | A fragment without `part_id="<digits>"` leaves the decoded parts unchanged. |
| SolutionCodec.LastFragmentWins | classes/class.assAccountingQuestion.php:973-978 | Of several fragments with the same id, the last one is kept. |
| SolutionCodec.LegacyKeyWithId | classes/class.assAccountingQuestion.php:986-992 | An old-format key `<prefix>_input_<id>…` is kept under `<id>`. |
| SolutionCodec.LegacyKeyWithoutId | classes/class.assAccountingQuestion.php:986-992 | An old-format key `<prefix>_input` is kept under part 0. |
| SolutionCodec.DecodeLegacy | classes/class.assAccountingQuestion.php:980-993 | Old-format entries `accqst_input_<id>`, with distinct ids free of `_`, decode in order, each value under its own id. |
| SolutionCodec.LegacyMatchesCurrent | classes/class.assAccountingQuestion.php:963-993 | A solution stored in the old format, one `accqst_input_<id>` entry per part, decodes to the same parts as the current format's single `accqst_input` entry. That entry holds the same fragments joined by `<partBreak />`. This needs distinct ids free of `_`, fragments that carry their ids and contain no `<partBreak />`. |
| SolutionCodec.OtherKeyIgnored | classes/class.assAccountingQuestion.php:986-992 | A key whose second `_` segment is not `input` is ignored. |
| SolutionCodec.VarsEntryIgnored | classes/class.assAccountingQuestion.php:980-993 | The `accqst_vars` entry is no part and leaves the decoded parts unchanged. |
| SolutionCodec.PlainKeyIgnored | classes/class.assAccountingQuestion.php:986-992 | A key without `_` has no second segment and is ignored. |
| Question.AccountingQuestion.GetSolutionParts | classes/class.assAccountingQuestion.php:963-996 | The result is the solution's entries decoded in order: current-format fragments under their captured ids, old-format entries under their third segment. |
| OrderedMap.GetPut | classes/class.assAccountingQuestion.php:977 | After `$a[$k] = $v`, `$a[$k]` reads `$v` and every other key reads as before. |
| OrderedMap.PutNew | classes/class.assAccountingQuestion.php:977 | Assigning to a new key appends the pair at the end. |
| OrderedMap.PutDistinct | classes/class.assAccountingQuestion.php:951 | Assignment keeps the keys distinct. |
| Question.AccountingQuestion.GetSolutionStored | classes/class.assAccountingQuestion.php:948-955 | The array folded from the selected rows: each row with a `value1` sets that key, with a NULL `value2` read as `''`. |
| SolutionTable.StoredDistinct | classes/class.assAccountingQuestion.php:948-953 | The folded solution has distinct keys. |
| SolutionTable.StoredLastRowWins | classes/class.assAccountingQuestion.php:949-953 | A key holds the value of the last row that carries it. |
| SolutionTable.StoredAbsent | classes/class.assAccountingQuestion.php:949-953 | A key that no row carries is absent. |
| Question.AccountingQuestion.CalculateMaximumPoints | classes/class.assAccountingQuestion.php:869-877 | The question's points become the sum of the parts' maxima. |
| Parts.MaxPointsBoundsParts | classes/class.assAccountingQuestion.php:869-877 | With non-negative part maxima the total is non-negative and at least each part's maximum. |
| Parts.MaxPointsConcat | classes/class.assAccountingQuestion.php:871-874 | The sum over a concatenated list is the sum of the sums over its halves. |
| Question.AccountingQuestion.CalculateReachedPointsForSolution | classes/class.assAccountingQuestion.php:1048-1061 | The sum over the parts of each part's score on the fragment decoded under its id, or on `''`. |
| Parts.ReachedWithinMaximum | classes/class.assAccountingQuestion.php:1048-1061 | When every part's score lies in `[0, maxPoints]`, the points reached lie in `[0, maximum]`. |
| Parts.ReachedDependsOnOwnFragments | classes/class.assAccountingQuestion.php:1052-1055 | Two decodings that agree on the parts' ids give the same points. |
| SolutionCodec.GradedOnOwnFragment | classes/class.assAccountingQuestion.php:1053-1055 | After the round trip each part is graded on the fragment built for it. |
| Question.AccountingQuestion.GetPart | classes/class.assAccountingQuestion.php:474-486 | Returns the first part with the id and changes nothing. When there is none, it appends the new part under the next free key and returns it. |
| Question.AccountingQuestion.DeletePart | classes/class.assAccountingQuestion.php:493-509 | Models the code as written. It succeeds exactly when some part has the id and its deletion succeeds. It then unsets the array key equal to the id, not the found part's key, and recalculates the maximum. Otherwise nothing changes. |
| Question.DeletePartRemovesWrongEntry | classes/class.assAccountingQuestion.php:499 | With part 7 under key 0 and part 9 under key 7, deleting part 7 succeeds but removes part 9 and keeps part 7. |
| Question.AccountingQuestion.DeletePartIntended | classes/class.assAccountingQuestion.php:493-509 | The corrected version: exactly the part found leaves the list, the order of the others is kept, and the maximum is recalculated. |
| Question.UnsetFound | classes/class.assAccountingQuestion.php:499 | Unsetting the key of the part at a position removes exactly that position and keeps the keys distinct and in range. |
| Question.UnsetKeeps | classes/class.assAccountingQuestion.php:499 | `unset` removes exactly the pair with that key. |
| Question.UnsetKeysBelow | classes/class.assAccountingQuestion.php:499 | `unset` keeps the keys distinct and below the next free key. |
| Question.AccountingQuestion.DeleteParts | classes/class.assAccountingQuestion.php:451-457 | The part list becomes empty and its next key restarts at 0. |
| SolutionTable.Table.RemoveCurrentSolution | classes/class.assAccountingQuestion.php:1136-1172 | Deletes exactly the rows of the learner, question, pass, step (when set) and authorized state whose `value1` is not `accqst_vars`, and returns how many there were. |
| SolutionTable.Table.RemoveExistingSolutions | classes/class.assAccountingQuestion.php:1180-1201 | The same for both the authorized and the intermediate rows. |
| SolutionTable.Table.LookupForExistingSolutions | classes/class.assAccountingQuestion.php:1210-1247 | Reports an authorized and an intermediate solution exactly when such a row exists that is not `accqst_vars`. |
| SolutionTable.KeepExactly | classes/class.assAccountingQuestion.php:1141-1149 | A `DELETE` leaves exactly the unselected rows, and the rows left plus the rows deleted make up the table. |
| SolutionTable.KeepIdempotent | classes/class.assAccountingQuestion.php:1141-1149 | Deleting a second time removes nothing more. |
| SolutionTable.CountPositive | classes/class.assAccountingQuestion.php:1239-1245 | A count is positive exactly when some row is selected. |
| SolutionTable.Table.SaveSolution | classes/class.assAccountingQuestion.php:1097-1103 | The table after the current solution was removed and each entry written as a row. |
| SolutionTable.StoredVariablesSurvive | classes/class.assAccountingQuestion.php:1097-1103 | Every `accqst_vars` row, and every row of another learner, pass, step or state, is still there after a save. |
| SolutionTable.SaveReplacesCurrent | classes/class.assAccountingQuestion.php:1097-1103 | After a save, the rows that a new save would remove are exactly the written entries other than `accqst_vars`. |
| Plugin.ToFloat | classes/class.ilassAccountingQuestionPlugin.php:93-110 | An int or a float is cast as it is, and only such a value skips normalisation. |
| Plugin.ToFloatRemovesSpaces | classes/class.ilassAccountingQuestionPlugin.php:101-104 | The normalised text has no space, whatever the separator. |
| Plugin.ToFloatDefaultSeparator | classes/class.ilassAccountingQuestionPlugin.php:99-104 | With separator `,`, every `.` and space is deleted and every `,` becomes `.`. The result has no `,`, as many `.` as the input had `,`, and is shorter by the spaces and `.` removed. |
| Plugin.ToFloatOtherSeparator | classes/class.ilassAccountingQuestionPlugin.php:99-104 | With another separator every `,` is deleted. With a one-character separator, the text is the input with spaces and `,` deleted and the separator turned into `.`. No separator other than `.` is left. When the separator is not a space, the result has as many `.` as the input had `.`, plus as many as it had separators when the separator is not `.`. It is shorter than the input by its spaces and `,`. |
| Plugin.ToString | classes/class.ilassAccountingQuestionPlugin.php:123-124 | A string is returned unchanged. |
| Plugin.ToStringFallback | classes/class.ilassAccountingQuestionPlugin.php:128-132 | Without an int precision, the text has every `.` turned into `,` and every space removed. The result holds neither, has as many `,` as the text had `,` and `.` together, and is shorter by the spaces. |
| Plugin.ToStringOfInt | classes/class.ilassAccountingQuestionPlugin.php:129-131 | An integer without a precision is shown as its decimal text. |

## Left out

- Database persistence is not modelled: `saveToDb`, `loadFromDb`, `loadParts`, the account hash table, the `saveToDB` call in `deletePart`, logging, and the SQL execution itself. `getSolutionStored` receives the rows its query selected. The row table keeps only the `WHERE` clauses. `saveCurrentSolution` is modelled as appending one row per entry.
- `assAccountingQuestionPart` (`_getOrderedParts`, scoring, `setBookingXML`, `setWorkingXML`, `delete`) is not part of this model. A part is a value with its id, number of lines, maximum and text. Its score and the outcome of its deletion are function parameters. The new part `getPart` creates is a parameter, and the constructor takes the loaded part array.
- `ilAccqstVariable` is not part of this model. Parsing, `calculateValue` and the three renderings are function parameters. A variable's value is a `real`. A calculation that returns false or throws is assumed to leave the variable unchanged. The translated `var_not_calculated` text is the datatype case `VarNotCalculated(name)`.
- `simplexml_load_string`, `serialize` and `unserialize` are parameters. An account definition arrives as a parsed tree: root name, root attributes, and each child's attributes. An `unserialize` that fails is modelled as the empty map, which `isset` treats the same way.
- The request (`$this->plugin->request()`) is a function from field name to string.
- The process locker around the `saveWorkingData` body is left out (concurrency). Only the body is modelled.
- Floating point is left out: `equals`, PHP's float printing, `floatval`, `number_format` and the thousands delimiter from the plugin configuration. Points are `real`.
- Plugin.ToFloat: does not model the `floatval` call or the `''` of its exception branch. It stops at the normalised text.
- Plugin.ToString: `number_format` is an abstract parameter, and the `''` of the exception branch is not modelled.
- Strings.LooseEquals: compares numeric strings by their exact value. PHP converts them to integers or to binary floats first. The model leaves out float rounding, for example of mantissas beyond 2^53. It also leaves out PHP's string comparison of two integer strings that both overflow the integer range.
- Strings.IntCast: simplified to leading white space, an optional sign and the leading decimal digits. PHP's handling of exponents and fractions (`"1e3"`) and its saturation at the integer range are not modelled.
- Strings.Lower: folds ASCII letters only. The model works on characters, not bytes.
- Copying and duplication (`duplicate`, `copyObject`, `syncWithOriginal`, `cloneParts`), the Excel export, the RTE/UI helpers, and the plugin's `uninstall`, `request`, `getConfig` and name getters are not part of this model.
- The key PHP gives the next appended part is the field `nextKey`. The constructor computes it from the loaded keys. `unset` leaves it alone.

## Findings

| source | as written | input that shows it | evidently intended | confidence | as-written member | corrected member |
|---|---|---|---|---|---|---|
| classes/class.assAccountingQuestion.php:499 | `deletePart` finds the part by its id but unsets the array key equal to that id | part 7 stored under key 0 and part 9 under key 7; `deletePart(7)` | unset the key of the part that was found | medium, not executed (it holds whenever the part array is not keyed by part id) | Question.DeletePartRemovesWrongEntry | Question.AccountingQuestion.DeletePartIntended |
