# climate-logger in Dafny

A model of `duncan3dc\CLImate\Logger`, a PSR-3 logger that writes to a CLImate console, with proofs
of what it prints.

The logger holds a threshold rank. The level table ranks the eight PSR-3 levels from
`emergency` (1) to `debug` (8). A logger built without a level argument has threshold `info` (7).
`setLogLevel` accepts only an exact key of the table and throws otherwise. `log($level, $message, $context)`:

1. Gates the message. A level that is not a key of the table is gated as emergency, so it is
   never dropped.
2. Gives every context entry a turn, in context order. When the message as it stands contains
   the entry's placeholder `{key}`, every occurrence is replaced by the value's string form and
   the entry is unset from the context.
3. Prints the message, then every entry left over: a tab, an inline `key: `, then the value, or
   for a nested array a `[` line, the nested entries one tab further in and a `]` line.

The console is represented by the sequence of calls made on it (`Rendering.Event`):

- `Tab(width)` for `tab($indent)`;
- `Inline(style, text)` for `{$level}()->inline($text)`;
- `Line(style, text)` for `{$level}($text)`.

Modules:

- `Text`: `strpos(...) !== false` (`Contains`) and single-pattern `str_replace` (`ReplaceAll`).
- `Levels`: the level table, the exact-key lookup and the gating rank.
- `Context`: context values, PHP's `(string)` cast of a value, and `unset`.
- `Substitution`: `Substitute`, the placeholder pass as a fold over the context, with
  index-based reference definitions (`MessageAfter`, `KeptAmong`) and the lemmas relating them.
- `Rendering`: the events printed for the residual context (`Render`), and a parser that
  reads the context back from them.
- `ClimateLogger`: `LogTrace`, everything one `log` call prints, and the class `Logger`. Its
  fields are `threshold` (PHP's `$level`) and `output` (the calls made so far). Its methods are
  proved against `LogTrace`, `Substitute` and `Render`.
  - The substitution loop of `log` (lines 104-113) is the static method `Interpolate`.
  - The loop body of `outputRecursiveContext` is `OutputEntry`. Together with
    `OutputRecursiveContext` it is one mutual recursion, as in the source.
- `Traces`: the calls the repository's tests make, and edge cases of the gate and of
  substitution. Placeholder cases are stated for any surrounding text without `{`.

## Model

| member | source | states |
|---|---|---|
| Levels.LookupLevel | src/Logger.php:22-31 | A name has a rank exactly when it is one of the eight lower-case PSR-3 names; every rank is 1..8 |
| Levels.GateRank | src/Logger.php:96-97 | The gating rank is the level's own rank for a table key and emergency's rank (1) for any other value |
| Levels.RankTableIsBijection | src/Logger.php:22-31 | No two levels share a rank, and every rank 1..8 belongs to a level |
| Levels.RanksOrdered | src/Logger.php:22-31 | Ranks increase strictly from emergency to debug |
| ClimateLogger.Logger.constructor | src/Logger.php:44-51 | A logger built without a level has threshold info's rank (7) and has printed nothing |
| ClimateLogger.Logger.Create | src/Logger.php:44-51 | Construction with a level succeeds exactly for a table key, with that key's rank as threshold; otherwise it fails with the invalid-level error |
| ClimateLogger.Logger.SetLogLevel | src/Logger.php:77-83 | Succeeds exactly when the name is a key of the table and then sets the threshold to its rank; otherwise fails with the invalid-level error and leaves the threshold unchanged |
| ClimateLogger.Logger.Log | src/Logger.php:94-122 | Appends exactly `LogTrace` to the output: nothing above the threshold, otherwise the substituted message line and the residual context; the threshold is untouched |
| ClimateLogger.Logger.Interpolate | src/Logger.php:104-113 | The loop's final message and remaining context are those of `Substitute` |
| ClimateLogger.Logger.OutputRecursiveContext | src/Logger.php:134-149 | Appends exactly `Render(level, context, indent)` to the output |
| ClimateLogger.Logger.OutputEntry | src/Logger.php:137-147 | Appends one entry's events: tab, inline key, then the scalar line or the bracketed nested entries one tab further in |
| ClimateLogger.Logger.LogTwice | src/Logger.php:94-122 | Logging a call twice prints its record twice: `log` changes neither the threshold nor its inputs |
| ClimateLogger.LogGate | src/Logger.php:96-99 | A call prints something exactly when its gating rank is at most the threshold |
| ClimateLogger.UnknownLevelNeverSuppressed | src/Logger.php:96-97 | A level outside the table is printed at every threshold, its message line first |
| ClimateLogger.LogRoundTrip | src/Logger.php:115-119 | Parsing the printed calls gives back the caller's level, the substituted message and the residual context |
| ClimateLogger.LogShape | src/Logger.php:115-119 | A record is one line plus 3 calls per residual scalar and 5 plus nested per array; a fully used context prints one line; every call is styled by the level at indentation at least 1 |
| ClimateLogger.LoopResult | src/Logger.php:104-113 | After every entry's turn, the loop's message and remaining context equal `Substitute` |
| Text.ContainsIffOccurs | src/Logger.php:108 | The scan finds the placeholder exactly when it occurs at some index |
| Text.ReplaceAbsent | src/Logger.php:110 | Replacing an absent search string leaves the message unchanged |
| Text.MatchesIffContains | src/Logger.php:108-110 | A non-empty search string is replaced at least once exactly when the scan finds it |
| Text.ReplaceLength | src/Logger.php:110 | Each replaced occurrence changes the length by the replacement's length minus the placeholder's |
| Text.ReplaceRoundTrip | src/Logger.php:110 | Replacing matches by a foreign character and back gives the original: replacements happen only at occurrences of the search string and remove nothing else |
| Text.NoOccurrenceSurvives | src/Logger.php:110 | Every occurrence is replaced: after replacing by a character foreign to the search string, the search string occurs nowhere, not even across a replacement |
| Text.ReplacedPrefix | src/Logger.php:110 | Text without the replacement character at the front of the result was copied from the front of the subject |
| Text.FirstAbsent | src/Logger.php:108 | Text lacking the placeholder's first character ("{") does not contain it |
| Text.ContainsMiddle | src/Logger.php:108 | A placeholder between any two texts is found |
| Text.ReplaceSkip | src/Logger.php:110 | A prefix without the placeholder's first character is copied unchanged; an occurrence at the front is replaced and the scan resumes after it |
| Context.UnsetMembers | src/Logger.php:111 | Unsetting a key removes exactly the entries with that key |
| Context.UnsetConcat | src/Logger.php:111 | Unsetting distributes over concatenation |
| Context.UnsetAbsent | src/Logger.php:111 | Unsetting a key no entry has changes nothing |
| Context.UnsetAtTurn | src/Logger.php:104-111 | With unique keys, unsetting entry i's key from the kept entries plus those from i on removes exactly entry i |
| Context.SubsequenceMembers | src/Logger.php:104-111 | An order-preserving selection of entries holds only original entries and keeps keys unique |
| Substitution.SubstituteSplit | src/Logger.php:104-113 | Substitution splits at any index: the first i turns give `MessageAfter(i)` and `KeptAmong(i)`, and the rest continues from there |
| Substitution.KeptStep | src/Logger.php:108-112 | After entry i's turn the array holds the kept entries followed by those after i, whether or not it was unset |
| Substitution.UnsetConsumed | src/Logger.php:111 | Unsetting a consumed entry's key leaves the kept entries and the later entries |
| Substitution.SubstituteMeaning | src/Logger.php:104-113 | The final message is the message after all turns, and the residual is exactly the kept entries in context order |
| Substitution.KeptAmongMembers | src/Logger.php:107-112 | With unique keys, an entry is among the kept entries exactly when its placeholder was absent at its turn |
| Substitution.ConsumedIffPlaceholderPresent | src/Logger.php:107-112 | With unique keys, an entry survives into the printed context exactly when its placeholder is absent from the message at its turn (both directions) |
| Substitution.ResidualIsSubsequence | src/Logger.php:104-113 | The residual keeps entries in their original order and keeps keys unique |
| Substitution.SubstituteNoPlaceholders | src/Logger.php:108 | If no key's placeholder occurs, the message (including unmatched `{...}` tokens) and the whole context are unchanged |
| Substitution.NothingConsumedNothingChanged | src/Logger.php:104-113 | The residual is never longer than the context, and if nothing was consumed the message is unchanged |
| Rendering.RenderConcat | src/Logger.php:136-148 | Rendering two runs of entries is rendering one after the other |
| Rendering.RenderSnoc | src/Logger.php:136-148 | Rendering one more entry appends that entry's events |
| Rendering.RenderLength | src/Logger.php:136-148 | The number of calls is determined by the shape of the context: 3 per scalar, 5 plus nested per array |
| Rendering.EntryEventsLength | src/Logger.php:137-147 | One entry's calls number 3 for a scalar, 5 plus nested for an array |
| Rendering.RenderStyled | src/Logger.php:136-148 | Every call is styled by the level and no tab is narrower than the starting indentation |
| Rendering.EntryEventsStyled | src/Logger.php:137-147 | The same, for one entry |
| Rendering.ParseEntries | src/Logger.php:134-149 | The parser consumes events from the front, never growing the remainder |
| Rendering.ParseRender | src/Logger.php:134-149 | Rendering loses nothing: parsing the rendered context gives it back and leaves the following events untouched |
| Rendering.ParseEntry | src/Logger.php:137-147 | One rendered entry in front of parseable events is read back in front of them |
| Rendering.ParseScalarEntry | src/Logger.php:145-147 | A rendered scalar entry reads back as its key and text |
| Rendering.ParseArrayEntry | src/Logger.php:141-144 | A rendered array entry reads back as its key and nested entries |
| Rendering.AfterEntry | src/Logger.php:136-148 | What follows a rendered entry is the next entry at the same indentation or a boundary |
| Traces.BraceFree | src/Logger.php:104-113 | A message without "{" is left unchanged and its whole context is printed |
| Traces.CriticalLogged | tests/LoggerTest.php:93-97 | `log("critical", "Testing log")` prints one critical line at the default threshold |
| Traces.EmptyContext | tests/LoggerTest.php:115-119 | An empty context prints only the message line |
| Traces.DebugDroppedByDefault | tests/LoggerTest.php:86-90 | At the default threshold every debug call prints nothing |
| Traces.EmergencyThreshold | tests/LogLevelTest.php:10-20 | With threshold emergency, a call prints exactly when it is gated as emergency; alert is dropped |
| Traces.LevelNamesAreCaseSensitive | tests/LogLevelTest.php:28-32 | "DEBUG" is not a level and is gated as emergency |
| Traces.ContextPrinted | tests/LoggerTest.php:100-112 | An unused entry prints as tab 1, inline "key: ", value line after the message |
| Traces.PlaceholderReplaced | tests/LoggerTest.php:123-129 | A placeholder is replaced by its value and its entry is not printed |
| Traces.PlaceholderAndContext | tests/LoggerTest.php:132-145 | The used entry fills the placeholder, the unused entry prints after the message |
| Traces.Fill | src/Logger.php:108-110 | A placeholder between texts without "{" is found and replaced by exactly the given text |
| Traces.RecursiveContext | tests/LoggerTest.php:148-195 | The nested context prints the exact call sequence of the recursive test |
| Traces.TurnsInContextOrder | src/Logger.php:104-113 | A placeholder introduced by a later entry's value is not filled by an earlier entry, which stays in the context |
| Traces.UserThenDate | src/Logger.php:104-113 | "{user}" with date then user="{date}" ends as "{date}", with date printed as context |
| Traces.ArrayPlaceholder | src/Logger.php:108-111 | An array value used as a placeholder is replaced by the text "Array" and consumed |

## Left out

- Creating a CLImate instance when none is given, and registering the default styles
  (src/Logger.php:46-49, 53-70). The console is represented by the calls made on it, so styles
  and colours are not modelled.
- The PHP error for a style name the console does not know. `log` with a level outside the table
  prints through a method named after that level, and CLImate's handling of unknown method names
  is outside this model. The call is recorded as an event styled with the given string.
- `$level` is `mixed` in PHP (src/Logger.php:88, 94, 96). The model takes it as a string.
  Integers, null and booleans used as a key never match a level name, so they behave like an
  unknown string: `setLogLevel` throws and `log` gates them as emergency. Arrays and objects,
  which PHP refuses as array keys, are not modelled.
- `(string) $message` for objects with `__toString` (src/Logger.php:101). Messages are strings.
- PHP's string conversion of scalar context values (integers, floats, booleans, null, objects
  with `__toString`). `Scalar` holds the value's text already converted. Only the array case
  ("Array") is modelled, by `Stringify`.
- Integer context keys. Keys are strings, so the list index 0 is the key "0". Its placeholder
  `{0}` and its printed `0: ` come out the same.
- `Logger.Log`: `UniqueKeys(context)` is the uniqueness of PHP array keys. It is a property of
  every PHP array, not a demand on callers.
- The fluent `return $this` of `setLogLevel` and `log`.
- The exception type and its message text. Every failure is `InvalidLevel`.
- The per-level methods `emergency()` ... `debug()` and the default empty context. They come
  from psr/log's `AbstractLogger`, which is not part of this model. They correspond to `Log`
  with the matching level name.

## Notes on the tests

The model follows `src/Logger.php` where the repository's tests expect something else:

- tests/LoggerTest.php:86-90 expects a debug message to be printed by a logger built with the
  default level. The code's default is info, and debug (rank 8) is above it, so nothing is
  printed (`Traces.DebugDroppedByDefault`).
- tests/LogLevelTest.php:28-59 expects level names to be case-insensitive, numeric levels to be
  clamped into 1..8, and an invalid name to set the threshold to emergency, so that emergency
  still prints and info no longer does. `setLogLevel` throws for any value that is not an exact
  key of the table (`Logger.SetLogLevel`, `Traces.LevelNamesAreCaseSensitive`).
- tests/AbstractTest.php:22 passes the level and the console to the constructor in the reverse
  order of its parameters.
