# QueryWatcher statement reconstruction, modelled in Dafny

The `QueryWatcher` of the Laravel OpenTelemetry integration turns every executed
query into a trace span. When it does, it rebuilds a readable SQL statement by
writing the bound values into the placeholders (`replaceBindings`). String
values are quoted by the driver. If the driver reports `IM001` (no native
quoting), a MySQL-style backslash escaper is used instead
(`quoteStringBinding`). The watcher also backdates the span's start by the
query's duration.

The model has one module per concern:

- `Results` (results.dfy): `Option` and `Result`. `Err` carries a driver error code.
- `Quoting` (quoting.dfy): the driver's quote as a parameter
  `native: string -> NativeQuote`, with outcomes `Quoted(text)` and `Raised(code)`.
  Also the `strtr` escaper `Escape`, the wrapped fallback `Fallback`, and a
  decoder `Unescape`/`Unquote` that is the escaper's partner.
- `Rendering` (rendering.dfy): a normalized binding value (`Null`, `Int`,
  `Float` with its PHP text, `Str`) rendered as SQL text.
- `Placeholders` (placeholders.dfy): one step, `preg_replace` with limit 1.
  The pattern's lookahead `(?=(?:[^'\\]*'[^'\\]*')*[^'\\]*$)` is written as the
  predicate `Eligible` on the text after the token. That text must hold an
  even number of `'` and no `\`.
- `Replacement` (replacement.dfy): how `preg_replace` reads its replacement
  argument. `\\` and `\$` are escapes. `\n`, `$n` and `${n}` are
  back-references; since the patterns have no groups, only group 0 exists.
- `Substitution` (substitution.dfy): the loop over the bindings (`ReplaceBindings`)
  and the fold that specifies it (`Statement`). Also `Fill`, a reference
  left-to-right scan against which the fold is compared.
- `Scenarios` (scenarios.dfy): worked statements derived from the general lemmas.
- `Timing` (timing.dfy): the start-time backdating.

A placeholder is `?` for an integer key and `:key` for a string key. Doubled
quotes (`''`) inside a literal add two to the quote count, so they keep the
parity. A backslash anywhere after a token makes that token ineligible. This
is what the code does; no dialect-specific escape tracking is modelled.

## Model

| member | source | states |
|---|---|---|
| Quoting.QuoteStringBinding | src/Watchers/QueryWatcher.php:84-102 | The native quote's text is returned as it is. On `IM001` the result is a quoted literal that decodes back to the input. Any other driver error code is the result's error, and no fallback is produced. |
| Quoting.Escape | src/Watchers/QueryWatcher.php:93-99 | Every character is translated once and the output is not rescanned. The output is as long as the input plus one character per special character. |
| Quoting.EscapeKeepsOrdinaryText | src/Watchers/QueryWatcher.php:93-99 | A string with none of the five table characters passes through unchanged. |
| Quoting.FallbackRoundTrip | src/Watchers/QueryWatcher.php:93-101 | Decoding the fallback's output (strip the wrapper, undo `\Z`, `\b`, `\"`, `\'`, `\\`) gives back the original string. |
| Quoting.FallbackInjective | src/Watchers/QueryWatcher.php:93-101 | Two strings with the same fallback quoting are equal. |
| Quoting.FallbackShape | src/Watchers/QueryWatcher.php:93-101 | The output is `'` + escaped text + `'`. Its length is the input length + 2 + the number of special characters. |
| Quoting.EscapedQuotesArePreceded | src/Watchers/QueryWatcher.php:93-101 | Inside the wrapper, every `'` is immediately preceded by `\`. |
| Rendering.Render | src/Watchers/QueryWatcher.php:65-69 | `null` gives the bare word `null`. An int gives an unquoted canonical numeral (no leading zero, no `-0`) that reads back as the same int, which by `Rendering.CanonicalNumeralUnique` is PHP's one text for it. A float gives its text unquoted. A string goes through `quoteStringBinding`. An error can only come from a string whose native quoting raised a code other than `IM001`. |
| Rendering.IntTextRoundTrip | src/Watchers/QueryWatcher.php:71 | PHP's int-to-string text is a canonical numeral (minus sign only for negatives, no leading zero) whose value is the int. |
| Rendering.CanonicalNumeralUnique | src/Watchers/QueryWatcher.php:71 | Two canonical numerals with the same value are the same text, so an int has exactly one rendering. |
| Rendering.CanonicalDigitsUnique | src/Watchers/QueryWatcher.php:71 | Two digit strings without leading zeros and with the same value are the same string. |
| Rendering.PlainRendering | src/Watchers/QueryWatcher.php:65-69 | A null or int binding always renders. Its text is non-empty and holds only a minus sign, digits and the letters of `null`. |
| Placeholders.FirstMatch | src/Watchers/QueryWatcher.php:61-63 | The search returns the first position at or after the start where the token occurs with an eligible suffix. It returns none only when no such position exists. |
| Placeholders.ReplaceFirst | src/Watchers/QueryWatcher.php:71 | With no eligible occurrence the statement is unchanged. Otherwise exactly the leftmost eligible occurrence is replaced, and the text before and after it is kept verbatim. |
| Placeholders.LeftmostExists | src/Watchers/QueryWatcher.php:71 | If any eligible occurrence exists, a leftmost one exists. |
| Placeholders.FirstOccurrenceIsLeftmost | src/Watchers/QueryWatcher.php:61-63 | An eligible occurrence with no earlier copy of the token's first character is the one matched. |
| Placeholders.InsideLiteralNeverMatched | src/Watchers/QueryWatcher.php:62 | In a statement with balanced quotes, a token after an odd number of quotes (inside an open literal) is never eligible. |
| Placeholders.ReplaceAfterPlainPrefix | src/Watchers/QueryWatcher.php:61-71 | An occurrence of the token before which the token's first character does not occur, followed by text without quotes or backslashes, is the leftmost match, and it is the occurrence replaced. |
| Placeholders.SkipsTokenInsideLiteral | src/Watchers/QueryWatcher.php:62 | A token inside a complete `'...'` literal is skipped. The first occurrence after the literal is replaced. |
| Placeholders.ReplaceFirstAddsOnlyText | src/Watchers/QueryWatcher.php:71 | The step introduces no character that is in neither the statement nor the inserted text. |
| Placeholders.NamedTokenMatchesLongerName | src/Watchers/QueryWatcher.php:63 | `:k` has no word boundary. In `:kx = :k` it replaces the start of `:kx`, not the later `:k`. |
| Placeholders.ReplaceFirstAsWritten | src/Watchers/QueryWatcher.php:71 | The step as written inserts `preg_replace`'s expansion of the rendered text, at the same leftmost eligible occurrence. |
| Placeholders.AsWrittenAgreesOnPlainText | src/Watchers/QueryWatcher.php:71 | For rendered text without `\` or `$`, the step as written and the literal step give the same statement. |
| Placeholders.AsWrittenCollapsesBackslash | src/Watchers/QueryWatcher.php:71 | The fallback-quoted `a\b` is `'a\\b'`. The step as written puts `'a\b'` in the statement, which decodes as `a` followed by a backspace. The literal step keeps `'a\\b'`, which decodes as `a\b`. |
| Replacement.BackrefAt | src/Watchers/QueryWatcher.php:71 | A back-reference found at the start of the replacement text spans at least two characters, all within the text. |
| Replacement.ExpandPlain | src/Watchers/QueryWatcher.php:71 | Replacement text without `\` or `$` is inserted as it is. |
| Substitution.ReplaceBindings | src/Watchers/QueryWatcher.php:56-75 | The loop's result equals the fold over the bindings in order: each binding renders its value and fills one placeholder of the text left by the previous ones, and the first driver error is the result. |
| Substitution.StatementStep | src/Watchers/QueryWatcher.php:60-72 | A binding that renders to `t` leaves the result of one step with `t`, on which the rest of the bindings work. |
| Substitution.StatementOkIff | src/Watchers/QueryWatcher.php:58-74 | The reconstruction succeeds if and only if every binding renders. A binding with no placeholder left is not an error. |
| Substitution.DriverErrorPropagates | src/Watchers/QueryWatcher.php:60-72 | If a string binding's native quoting raises a code other than `IM001` and every earlier binding renders, that code is the result. |
| Substitution.SameTokenFillsInOrder | src/Watchers/QueryWatcher.php:58-72 | Bindings that all fill the same token, in a statement without quotes or backslashes, fill its first occurrences left to right in binding order, whatever quotes and backslashes the inserted texts hold (natively or fallback-quoted strings included), provided each text is non-empty and shares no character with the token. |
| Substitution.FillsAfterSealed | src/Watchers/QueryWatcher.php:58-72 | After a prefix in which no occurrence of the token can start (the texts inserted so far), the remaining bindings fill the plain rest of the statement left to right. |
| Substitution.PositionalFillsLeftToRight | src/Watchers/QueryWatcher.php:58-72 | With no `'` or `\` in the statement and only null or int positional bindings, n bindings replace the first n `?` tokens, left to right. |
| Scenarios.QuotedPlaceholderIsSkipped | src/Watchers/QueryWatcher.php:62 | `select '?' , ?` with `[5]` becomes `select '?' , 5`. |
| Scenarios.RepeatedNameFilledInOrder | src/Watchers/QueryWatcher.php:63 | `where a = :x and b = :x` with x bound to 1 and then 2 becomes `where a = 1 and b = 2`. |
| Scenarios.FallbackOfName | src/Watchers/QueryWatcher.php:93-101 | The fallback quotes `O'Brien` as `'O\'Brien'`. |
| Scenarios.RenderNameByFallback | src/Watchers/QueryWatcher.php:84-101 | On a driver that raises `IM001`, the string `O'Brien` renders as `'O\'Brien'`. |
| Scenarios.FallbackScenario | src/Watchers/QueryWatcher.php:56-102 | With 7 at position 0 and `O'Brien` for `n`, on a driver without native quoting, `select * from t where id = ? and name = :n` becomes `select * from t where id = 7 and name = 'O\'Brien'`. |
| Timing.Backdate | src/Watchers/QueryWatcher.php:33-35 | Adding the duration back to each component of the start gives the captured moment's component. |
| Timing.Advance | src/Watchers/QueryWatcher.php:33-35 | Moving forward by a duration is undone by subtracting it, component by component. |
| Timing.AdvanceBackdate | src/Watchers/QueryWatcher.php:33-35 | Backdating and then advancing by the same duration returns the captured moment. |
| Timing.ZeroDurationKeepsMoment | src/Watchers/QueryWatcher.php:33-35 | A duration of 0 leaves both components unchanged. |
| Timing.BackdateKeepsOffset | src/Watchers/QueryWatcher.php:34-35 | The difference between the epoch and monotonic components is preserved. |
| Timing.BackdateComponentsIndependent | src/Watchers/QueryWatcher.php:34-35 | No borrow or carry: each start component depends only on the same component of the moment. |
| Timing.BackdateStaysInInt64 | src/Watchers/QueryWatcher.php:34-35 | For non-negative 64-bit readings and a non-negative 64-bit duration, both subtractions stay within PHP's 64-bit integers. |

## Left out

- Event wiring in `register` (lines 14-17): framework glue, outside the statement logic.
- Span naming and attributes (lines 21-29), the `Tracer` facade and `Clock::get()->moment()` (line 32): foreign tracing SDK. The moment is a `Timing.Moment` parameter.
- `prepareBindings` (line 47): driver-specific normalization. Its output is a given sequence of `Substitution.Binding`.
- `PDO::quote` itself (line 87): a foreign call. It is the parameter `native`, and an exception is `Raised(code)`.
- The float conversion `(int)($event->time * MSEC_TO_NSEC)` (line 33): floating point. The duration is an integer input in nanoseconds.
- Rendering.Render: a float binding is its PHP text, taken as given. PHP's float-to-string formatting is not modelled.
- Timing.Backdate: PHP turns an integer subtraction that leaves the 64-bit range into a float. This model subtracts unbounded integers. `Timing.BackdateStaysInInt64` gives the case in which the two agree.
- Substitution.SameTokenFillsInOrder: the in-order fill is proved for a statement without `'` or `\` of its own, and for inserted texts that are non-empty and share no character with the token. A text holding a character of the token (for example a string containing `x` bound to `:x`), or a statement that already holds literals, is outside the lemma.
- Keys: a key is a `Position` or a `Name`. `is_numeric` applied to a non-integer string key (for example `"1.5"`) is not modelled. Such a key is a `Name`.
- PCRE as an engine: the lookahead is the predicate `Eligible`. Binding names are taken to hold no regular-expression metacharacters, so `:key` matches literally. A PCRE failure (a `null` result) is not modelled.
- Exceptions other than the driver's quoting error: none are raised on the modelled path.

## Findings

| source | as written | input that shows it | evidently intended | confidence | as-written member | corrected member |
|---|---|---|---|---|---|---|
| src/Watchers/QueryWatcher.php:71 | The rendered binding is passed to `preg_replace` as its replacement template, so `\\` turns into `\`, and `$0`/`\0` turn into the matched token. | The string `a\b` on a driver raising `IM001`, for `select ?`: the fallback gives `'a\\b'`, but the statement shows `'a\b'`, which reads back as `a` + backspace. | The rendered text is inserted as it is, so the statement shows `'a\\b'`, which reads back as `a\b`. | not executed | Placeholders.AsWrittenCollapsesBackslash | Placeholders.ReplaceFirst |

`Substitution.ReplaceBindings` and the lemmas about it use the corrected step,
`Placeholders.ReplaceFirst`. `Placeholders.ReplaceFirstAsWritten` models the
line as written. `Placeholders.AsWrittenAgreesOnPlainText` shows that the two
differ only when the rendered text holds `\` or `$`.
