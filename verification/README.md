# ActionLine: script action lines and their parameter reader

A model of the action-line reader of GG-JointJustice-Unity. A scripting
line such as `<ACTION:p1,p2>` is split into an action name and an ordered
list of parameter tokens. A cursor-based reader (`NextString`, `NextInt`,
`NextFloat`, `NextOneBasedInt`, `NextOptionalString`) then hands the tokens
out left to right. Each read gives a typed value or one of three errors:
`InvalidSyntax`, `NotEnoughParameters` or `UnableToParse`.

The C# `ActionLine` object mutates its cursor. The model is an immutable
`ActionLine(action, params, cursor)` value. Every reader returns a `Step`:
the read's `Result` and the state after the call. A failing read can move
the cursor, so the error also comes with the state.

Files:
- `wrappers.dfy`: `Option` (for C# `null`) and `Result`.
- `strings.dfy`: `Split`/`Join` on one character, with .NET `String.Split(char)` semantics.
- `int_parse.dfy`: `int.TryParse` and `int.ToString()` on 32-bit values.
- `action_line.dfy`: the error kinds, construction and the five readers.
- `reading.dfy`: reading several parameters in a row, and worked lines.

Two behaviours of the C# code are easy to miss:
- `NextInt`, `NextFloat` and `NextOneBasedInt` take the token before they parse it. A token that does not parse is therefore consumed (`Reading.ParseFailureConsumesToken`). Only running out of parameters leaves the cursor in place.
- `NextOneBasedInt` reports a non-positive value through `value.ToString()`, not the raw token. So `+0` is reported as `0` (`Reading.OneBasedReportsValueText`).

`Substring` throws on lines shorter than two characters, so `FromLine` requires `|line| >= 2`.

## Model

| member | source | states |
|---|---|---|
| `ActionLines.FromLine` | Assets/Scripts/TextDecoder/ActionLine.cs:31-44 | construction fails, with `InvalidSyntax` carrying the whole line, exactly when the interior holds two or more `:`; otherwise the cursor starts at 0 and there is at least one parameter |
| `ActionLines.FromLineAction` | Assets/Scripts/TextDecoder/ActionLine.cs:34-41 | the action name is the interior text before the first `:`, or the whole interior when there is none |
| `ActionLines.FromLineParameters` | Assets/Scripts/TextDecoder/ActionLine.cs:42-43 | with a `:`, the parameters joined by `,` are the interior text after it; without one they are exactly `[""]` |
| `ActionLines.FromLineRoundTrip` | Assets/Scripts/TextDecoder/ActionLine.cs:34-43 | action name, `:` and the joined parameters rebuild the interior |
| `ActionLines.FromLineTokensFree` | Assets/Scripts/TextDecoder/ActionLine.cs:34-43 | no parameter token contains `,` or `:` |
| `ActionLines.NextToken` | Assets/Scripts/TextDecoder/ActionLine.cs:51-63 | succeeds exactly when a token remains, returning the token under the cursor and moving the cursor by one; otherwise `NotEnoughParameters(name)` with the state unchanged |
| `ActionLines.NextString` | Assets/Scripts/TextDecoder/ActionLine.cs:65-68 | returns the next token unchanged, with the same cursor and error behaviour as `NextToken` |
| `ActionLines.NextInt` | Assets/Scripts/TextDecoder/ActionLine.cs:83-94 | consumes a token whenever one remains, parse failure or not; returns its 32-bit value or `UnableToParse("integer", name, token)` |
| `ActionLines.NextFloat` | Assets/Scripts/TextDecoder/ActionLine.cs:70-81 | consumes a token whenever one remains; returns the parser's value or `UnableToParse("decimal value", name, token)` |
| `ActionLines.NextOneBasedInt` | Assets/Scripts/TextDecoder/ActionLine.cs:96-108 | a token that parses to a positive value gives that value; one that parses to a value of at most 0 gives `UnableToParse("one-based integer", name, value.ToString())`, whose text parses back to the value; `NextInt` errors pass through; the cursor moves as in `NextInt` |
| `ActionLines.NextOptionalString` | Assets/Scripts/TextDecoder/ActionLine.cs:110-120 | never fails; absent exactly when the parameters are exhausted, with the state unchanged; otherwise the same as `NextString` |
| `Strings.Split` | Assets/Scripts/TextDecoder/ActionLine.cs:43 | a string with k separators splits into k + 1 pieces, none containing the separator |
| `Strings.JoinSplit` | Assets/Scripts/TextDecoder/ActionLine.cs:42-43 | joining the pieces of a split gives back the string |
| `Strings.SplitJoin` | Assets/Scripts/TextDecoder/ActionLine.cs:43 | splitting a join of separator-free pieces gives back the pieces |
| `Strings.SplitKeepsAbsence` | Assets/Scripts/TextDecoder/ActionLine.cs:34-43 | a character missing from a string is missing from all of its pieces |
| `Strings.SplitWithoutSeparator` | Assets/Scripts/TextDecoder/ActionLine.cs:42-43 | a string without the separator, the empty string included, splits into itself alone |
| `IntParse.ParseInt` | Assets/Scripts/TextDecoder/ActionLine.cs:86 | a successful parse is a 32-bit integer |
| `IntParse.IntToString` | Assets/Scripts/TextDecoder/ActionLine.cs:106 | the text has no surrounding white space; it is digits, after a `-` for negative values, with no leading zero except for 0 itself |
| `IntParse.ParseIntToString` | Assets/Scripts/TextDecoder/ActionLine.cs:86-106 | every 32-bit integer's text parses back to that integer |
| `IntParse.ParseIntOnlyNumerals` | Assets/Scripts/TextDecoder/ActionLine.cs:86 | text parses only if, without its surrounding white space, it is an optional sign followed by at least one digit |
| `IntParse.BlankDoesNotParse` | Assets/Scripts/TextDecoder/ActionLine.cs:86 | blank text, the empty string included, does not parse |
| `IntParse.ParseIntRejectsForeign` | Assets/Scripts/TextDecoder/ActionLine.cs:86 | any character that is not white space, a sign or a digit makes the parse fail |
| `IntParse.ParseNumeral` | Assets/Scripts/TextDecoder/ActionLine.cs:86 | digits, bare or after `+` or `-`, parse to their signed value exactly when it fits in 32 bits, leading zeros allowed, and fail otherwise |
| `IntParse.PlusZeroParses` | Assets/Scripts/TextDecoder/ActionLine.cs:86 | `+0` parses to 0 |
| `IntParse.ParseIntLeadingZero` | Assets/Scripts/TextDecoder/ActionLine.cs:86 | a leading `0` before digits does not change the parse |
| `IntParse.ParseIntToStringOutOfRange` | Assets/Scripts/TextDecoder/ActionLine.cs:86 | the text of every integer outside the 32-bit range fails to parse |
| `IntParse.ParseIntIgnoresPadding` | Assets/Scripts/TextDecoder/ActionLine.cs:86 | white space of any length before and after the text does not change the parse |
| `Reading.ReadStringsInOrder` | Assets/Scripts/TextDecoder/ActionLine.cs:51-68 | k reads from cursor c return tokens c to c+k in order and leave the cursor at c+k; reading too far reports the first missing name, with every token consumed |
| `Reading.ReadersStayInBounds` | Assets/Scripts/TextDecoder/ActionLine.cs:51-120 | every reader keeps the cursor within bounds and moves it forward by zero or one; it never changes the action or the parameters |
| `Reading.ExhaustedReadsRepeat` | Assets/Scripts/TextDecoder/ActionLine.cs:51-120 | on an exhausted line every required read (string, integer, decimal value, one-based integer) fails with `NotEnoughParameters` and leaves the state alone, so repeating it gives the same error; the optional read is absent |
| `Reading.WaitHasOneEmptyParameter` | Assets/Scripts/TextDecoder/ActionLine.cs:41-43 | `<wait>` is action `wait` with parameters `[""]` |
| `Reading.CommaBeforeColonStaysInAction` | Assets/Scripts/TextDecoder/ActionLine.cs:34-43 | in `<a,b:c>` the action is `a,b` and the parameters are `["c"]` |
| `Reading.TwoColonsAreInvalid` | Assets/Scripts/TextDecoder/ActionLine.cs:36-39 | `<a:b:c>` is `InvalidSyntax` |
| `Reading.OneBasedFloatStringSequence` | Assets/Scripts/TextDecoder/ActionLine.cs:65-108 | reading `3`, `2.5`, `hello` as one-based integer, decimal value and string gives the three values and exhausts the line |
| `Reading.OneBasedBoundary` | Assets/Scripts/TextDecoder/ActionLine.cs:96-108 | `0` and `-1` are rejected as one-based integers and `1` is accepted |
| `Reading.OneBasedReportsValueText` | Assets/Scripts/TextDecoder/ActionLine.cs:96-108 | a next token `+0` is consumed and reported as `0`, not as the raw token |
| `Reading.IntOverflowIsUnparsable` | Assets/Scripts/TextDecoder/ActionLine.cs:83-94 | `NextInt` on the text of an integer outside the 32-bit range consumes it and fails with `UnableToParse("integer", name, token)` |
| `Reading.EmptyTokenIsUnparsable` | Assets/Scripts/TextDecoder/ActionLine.cs:83-94 | `NextInt` on an empty token consumes it and fails with `UnableToParse("integer", name, "")` |
| `Reading.ParseFailureConsumesToken` | Assets/Scripts/TextDecoder/ActionLine.cs:83-94 | a token that is not an integer is consumed by the failing read, so a retry reports a missing parameter |
| `Reading.ReadPastTheEnd` | Assets/Scripts/TextDecoder/ActionLine.cs:65-68 | after the only token is read, a further read is missing and an optional read is absent; the cursor stays at 1 |

## Left out

- `ActionLines.NextFloat`: `float.TryParse` is a parameter. It is called with `NumberStyles.Any` and the invariant culture over IEEE single precision, and none of that is modelled. Only the cursor and error behaviour around it are proved. In particular, that `1,5` is rejected is up to the parser. A token can never hold a `,` anyway.
- `IntParse.ParseInt`: the culture's sign symbols are fixed to `-` and `+`. The trailing NUL characters that .NET also tolerates are not accepted.
- `IntParse.ParseIntRejectsForeign`: .NET lets a numeral end in NUL characters (`5\0` parses to 5). The model rejects them, so this lemma does not hold of .NET for a trailing NUL.
- Characters: C# strings are UTF-16 code units, and `Substring` drops one code unit at each end. The model's characters are Unicode scalar values. A line ending in a character outside the Basic Multilingual Plane, such as `<a😀`, keeps half a surrogate pair in C# but loses the whole character here. A single such character is a two-unit line in C# but is excluded by `|line| >= 2` here.
- `Parameters()` hands out the internal array, so a caller could write into it and change what later reads return. The model's parameters are an immutable sequence.
- `IntParse.IntToString`: the negative sign of `value.ToString()` comes from the current culture. The model always writes `-`.
- Lines shorter than two characters: `Substring` throws on them. `FromLine` requires `|line| >= 2` instead of modelling the runtime exception.
- Exception message texts: only each error kind and its payload fields are kept.
- The public setter of `Action`: nothing in the reader uses it. The model has no mutable state.
- `AppearingDialogueController.cs`: text animation, audio and timing in the game engine.
- `ViaKeyboard.cs`, `AudioControllerTests.cs`: play-mode tests driving engine input, scenes and audio over time.
- `AssetNameTests.cs`: it tests `AssetName`, which is not part of this model.
