# PostScript Preview: the "what's new" version gate

PostScript Preview is an editor extension that converts a PostScript/EPS
document to SVG with two external tools and shows the result in a preview
panel. At start-up on Windows it may also show a one-time "what's new"
notice. Whether the notice shows depends on the previously recorded version
of the extension and the version now running. This project models that
decision and proves its properties in Dafny.

The model has five modules:

- `Wrappers` (`wrappers.dfy`): `Option`. `None` stands for a JavaScript
  `undefined` or `NaN`.
- `StringSplit` (`string_split.dfy`): `String.prototype.split` with a
  one-character separator, as the recursive `Split`. `Join` is its inverse.
- `JsNumber` (`js_number.dfy`): `Number(string)` on one dot-free piece of a
  version string, returning `Option<int>`. It trims JavaScript white space.
  The empty or all-blank string gives 0. It accepts an optionally signed run
  of decimal digits and an unsigned `0x`/`0o`/`0b` literal. Anything else
  gives `NaN`. `RenderInt` prints an integer and is the partner of `ToNumber`.
- `VersionGate` (`version_gate.dfy`): `isMajorUpdate`. A previous version
  with no `.` always notifies. Otherwise the answer is whether the current
  version's piece at index 1 (the minor number) is strictly greater than the
  previous one's. JavaScript's `>` is false whenever either side is `NaN` or
  `undefined`. `Version(major, minor, rest)` builds `major.minor` + `rest`.
  The field lemmas are stated over it, and `CutVersion` shows that every
  dotted string has this shape.
- `WhatsNew` (`whats_new.dfy`): the pure decision part of `showWhatsNew`.
  The host's global state is a `map<string, string>` keyed by the extension
  id. The running version and the Windows test are parameters.

The gate compares only the minor number. It is not Semantic Versioning
precedence (section 11 of Semantic Versioning 2.0.0). A major release that
resets the minor number (1.9.0 to 2.0.0) is silent (`MinorResetIsSilent`).
A major downgrade with a larger minor number (2.1.0 to 1.2.0) notifies
(`ExampleMajorDowngrade`).

Only a previous version with no `.` at all is treated as malformed and
notifies. One might expect every malformed previous version to count as "no
version known". The code does not do that. A dotted previous version whose
minor piece is not a number compares against `NaN` and never notifies. This
includes a suffixed or pre-release minor such as "1.2a.0" or "1.2-beta.0"
(`ExampleMinorWithSuffix`, `ExamplePreReleaseMinor`). The model follows the
code.

## Model

| member | source | states |
|---|---|---|
| StringSplit.Split | src/extension.ts:67-68 | `split(".")` gives one more piece than there are dots, and no piece contains a dot. |
| StringSplit.JoinSplit | src/extension.ts:67-68 | Joining the pieces of `split(".")` with dots gives back the input, so splitting loses nothing. |
| StringSplit.SplitJoin | src/extension.ts:67-68 | Splitting undoes joining of dot-free pieces, so `Split` and `Join` are mutual inverses. |
| StringSplit.SplitWithoutSeparator | src/extension.ts:63-68 | A string with no dot splits into a single piece: itself. |
| StringSplit.SplitWithSeparator | src/extension.ts:63-67 | A string that contains a dot splits into at least two pieces. |
| StringSplit.SplitAfterHead | src/extension.ts:67-68 | Splitting `head.tail`, with `head` dot-free, gives `head` followed by the pieces of `tail`. |
| StringSplit.FirstPiece | src/extension.ts:67-68 | The first piece of `field` + `rest` is `field` when `field` is dot-free and `rest` is empty or starts with a dot. |
| StringSplit.JoinHead | src/extension.ts:67-68 | A join starts with its first piece, followed by the separator or by nothing. |
| JsNumber.TrimStart | src/extension.ts:67 | `Number` drops leading JavaScript white space. The result is a suffix of the input. What was removed is all white space, and the result does not start with white space. |
| JsNumber.TrimEnd | src/extension.ts:67 | `Number` drops trailing white space. The result is a prefix of the input. What was removed is all white space, and the result does not end with white space. |
| JsNumber.Trim | src/extension.ts:67 | `Number` drops white space at both ends. The result is the slice of the input just after its leading white space, everything after the slice is white space, and the result neither starts nor ends with white space. |
| JsNumber.ParseTrimmed | src/extension.ts:67 | On trimmed text, only a leading `-` yields a negative number. Text that starts with something other than a sign or a digit is `NaN`. A number comes only from a `0x`/`0o`/`0b` literal, a run of decimal digits, or a sign followed by such a run; anything else is `NaN`. |
| JsNumber.ToNumber | src/extension.ts:67-68 | `Number` of an empty or all-blank piece is 0. A negative result requires a `-` in the piece. |
| JsNumber.RenderInt | src/extension.ts:67-68 | The decimal text of an integer is a run of digits, preceded by `-` exactly when the integer is negative, and contains no dot. |
| JsNumber.ToNumberRenderInt | src/extension.ts:67-68 | `Number` of the decimal rendering of any integer is that integer. |
| JsNumber.DecimalToNumber | src/extension.ts:67-68 | A non-empty run of decimal digits converts to the number it denotes in base 10. |
| JsNumber.ToNumberIgnoresPadding | src/extension.ts:67-68 | White space around a piece does not change its number. |
| JsNumber.ToNumberLeadingZeros | src/extension.ts:67-68 | Leading zeros do not change a decimal piece's number, so minor "02" equals minor "2". |
| JsNumber.ToNumberNotNumeric | src/extension.ts:67-71 | A piece whose first non-blank character is not a sign or a digit converts to `NaN`. |
| JsNumber.ToNumberNaNInside | src/extension.ts:67-71 | A trimmed piece that is not a `0x`-style literal and has a non-digit after its first character converts to `NaN`, as "2a" and "2-beta" do. |
| JsNumber.PlusSign | src/extension.ts:67 | A leading `+` before a run of decimal digits does not change its number. |
| JsNumber.RadixLiteralValue | src/extension.ts:67 | A `0x`, `0o` or `0b` literal converts to the number its digits denote in base 16, 8 or 2. |
| JsNumber.RadixValue | src/extension.ts:67 | `0` and a radix letter followed by digits of that base converts to the digits' value in that base, so minor "0x10" is 16. |
| VersionGate.Greater | src/extension.ts:71 | `>` is false when either side is `NaN` or `undefined`, is numeric `>` when both are numbers, and is false for equal values. |
| VersionGate.Minor | src/extension.ts:67-71 | Element 1 of `split(".").map(Number)` is `undefined` for a version without a dot, and a number only for a dotted version. |
| VersionGate.IsMajorUpdate | src/extension.ts:61-76 | A previous version with no dot always answers true. If a dotted previous version answers true, the current version is dotted too. |
| VersionGate.MinorOfVersion | src/extension.ts:67-71 | Element 1 of `split(".").map(Number)` of `major.minor` + `rest` is `Number(minor)`. It does not depend on `major` or `rest`. |
| VersionGate.CutVersion | src/extension.ts:63-68 | Every string with a dot can be cut into a dot-free major, a dot-free minor, and a rest that is empty or starts with a dot. |
| VersionGate.UndottedPreviousNotifies | src/extension.ts:63-65 | A previous version without a dot answers true for every current version. |
| VersionGate.DottedPreviousHasMinor | src/extension.ts:63-68 | A dotted previous version always has a piece at index 1. |
| VersionGate.IsMajorUpdateByMinor | src/extension.ts:67-75 | For dotted versions, the answer is true iff both minor pieces are numbers and the current one is strictly greater. |
| VersionGate.MajorAndPatchIgnored | src/extension.ts:67-75 | Changing the major or the patch-and-after parts of either version, keeping the previous one dotted, never changes the answer. |
| VersionGate.NonNumericPreviousMinorIsSilent | src/extension.ts:67-75 | A previous minor piece that is `NaN` answers false for every current version, without any error. |
| VersionGate.CurrentWithoutMinorIsSilent | src/extension.ts:67-75 | A current version with no piece at index 1 (`undefined`) answers false for a dotted previous version. |
| VersionGate.Irreflexive | src/extension.ts:71-75 | A dotted version is never an update over itself. |
| VersionGate.Asymmetric | src/extension.ts:71-75 | Between dotted versions, an update from a to b rules out an update from b to a. |
| VersionGate.MinorResetIsSilent | src/extension.ts:67-75 | A release whose minor piece is 0, after any version with a numeric minor of at least 0, is silent whatever the majors and patches are, as 1.9.0 to 2.0.0 is. |
| VersionGate.EmptyMinorIsZero | src/extension.ts:67-71 | An empty minor piece, as in "1..0", reads as 0 and not as NaN. |
| VersionGate.ExamplePatchRaised | src/extension.ts:67-75 | `x.2.5` to `y.2.9` is silent for any dot-free majors, as 1.2.5 to 1.2.9 is. |
| VersionGate.ExampleMinorNotANumber | src/extension.ts:67-75 | `x.x.0` to any version is silent for any dot-free major, as 1.x.0 to 1.2.0 is. |
| VersionGate.MinorRaiseNotifies | src/extension.ts:67-75 | Any strictly larger numeric minor notifies, whatever the majors and patch parts are. |
| VersionGate.ExampleMinorRaised | src/extension.ts:67-75 | `x.1.0` to `y.2.0` notifies for any dot-free majors, as 1.1.0 to 1.2.0 does. |
| VersionGate.ExampleMajorDowngrade | src/extension.ts:61-76 | 2.1.0 to 1.2.0 notifies: only the minor number is compared. |
| VersionGate.SuffixedMinorIsSilent | src/extension.ts:67-75 | A previous minor made of digits and then a non-digit suffix (not a `0x`-style literal) is `NaN`, so nothing ever notifies after it. |
| VersionGate.ExampleMinorWithSuffix | src/extension.ts:67-75 | `x.2a.0` to any version is silent. |
| VersionGate.ExamplePreReleaseMinor | src/extension.ts:67-75 | A pre-release `x.2-beta.0` to any version is silent. |
| WhatsNew.Lookup | src/extension.ts:79 | `globalState.get` gives a value exactly for a stored key, and that value is the stored one. |
| WhatsNew.Decide | src/extension.ts:79-89 | The value to store is always the running version. A missing record always notifies, and so does an undotted one. A notice for a dotted record needs a dotted running version. |
| WhatsNew.ShowWhatsNew | src/extension.ts:78-89 | After start-up the extension's key holds the running version. No other key is added, removed or changed. A missing record notifies. |
| WhatsNew.Activate | src/extension.ts:17-22 | Off Windows, nothing is shown and the state is unchanged. On Windows, the running version is stored, and a missing record notifies. |
| WhatsNew.AtMostOncePerVersion | src/extension.ts:79-89 | A second start-up with the same dotted version is silent and leaves the state as it was. |
| WhatsNew.UndottedVersionRepeats | src/extension.ts:63-65 | With an undotted running version, every later start-up notifies again. |
| WhatsNew.StoredValueIsCurrent | src/extension.ts:84 | Whatever was stored before, the record after start-up is the running version. |
| WhatsNew.StateIndependentOfRecord | src/extension.ts:84 | The state after start-up does not depend on the old record's value, or on whether there was one. |
| WhatsNew.NotifyIffMinorGrows | src/extension.ts:86-89 | With a dotted record and a dotted running version, the notice shows iff both minor pieces are numbers and the running one is strictly larger. |

## Left out

- The preview command, the webview panel, temporary files and the `ps2pdf`/`pdftocairo` invocations (src/extension.ts:29-57, 113-188). They are host and process I/O with no decision logic.
- `getWebPreview` from `./html/preview`. That file is not part of this model.
- The output channel, the `reload` flag and `handleReload` (src/extension.ts:12-13, 190-194). The save hook at line 24 returns the function without calling it, so it never runs. `reload` starts true and is never cleared, so the command always renders. Neither has a state change to model.
- The notification message, the "See Requirements" choice and opening the requirements URL (src/extension.ts:90-106). They are asynchronous host calls. The model stops at the boolean that triggers them.
- Reading the running version from the package metadata (src/extension.ts:80-81). It becomes the `current` parameter. The platform test at line 18 becomes the `isWindows` parameter.
- The order of operations in `showWhatsNew`: the state update at line 84 is not awaited and runs before the decision. Both are pure here, so the order does not matter.
- JsNumber.ToNumber: does not model JavaScript's exponent forms (`1e3`), `Infinity`, or IEEE double rounding. Exponents and `Infinity` give `None` here, but JavaScript gives a number. Integers above 2^53 are exact here, but JavaScript rounds them. A version piece at index 1 almost never takes these forms, and modelling them needs floating point.
