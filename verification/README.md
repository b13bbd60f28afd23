# Commit header field table

A git hook library checks structured header lines in commit messages. Its
`Commit` class holds a table, `mv_header_fields`. The table binds each
recognised line prefix to an anchored regular expression, and the field's value
must match that expression. How the value is cut from the line is not in the
source, for example whether the space after the colon is stripped. There are
four entries:

| prefix | pattern | Dafny predicate |
|---|---|---|
| `<prefix>:` | `^[\s\S]{0,72}$` | `Commit.IsPrefixValue` |
| `REF:` | `^#[\d]{4}$` | `Commit.IsRefValue` |
| `Description:` | `^.{72,}$` | `Commit.IsDescriptionValue` |
| `Signed-off-by:` | `^((\S+)(\s){1}){2}(\S+)@([a-z0-9-]+)(\.)([a-z]{2,4})+$` | `Commit.IsSignoffValue` |

The model has two modules:

- `PyRe` (`pyre.dfy`) holds the parts of Python's `re` semantics that the
  patterns use. These are the classes `\d`, `\s`/`\S`, `[a-z]`, `[a-z0-9-]`
  and `.`. It also holds `DollarMatch`, which gives the meaning of `^R$`
  without the MULTILINE flag: `R` must match the whole string, or the whole
  string minus one final newline.
- `Commit` (`commit.dfy`) holds the table `HeaderFields()` as a
  `map<string, string -> bool>`. Each pattern is a compiled predicate written
  in the regular expression's own structure. A choice of split points is a
  bounded existential (`SignoffSplit`). The repeated group
  `([a-z]{2,4})+` is a recursive predicate (`TldRepeat`). The lemmas then pin
  down exactly which strings each predicate accepts.

Most tests are characterised both for any string, where Python's `$` also
accepts one final newline, and for a single line with no newline. That values reach the
tests as single lines is the model's assumption; the any-string forms do not
rely on it. REF and Description have
both forms (`RefValueLanguage`/`RefValueOnLine`,
`DescriptionValueLanguage`/`DescriptionValueOnLine`). `<prefix>:` has the
any-string form only (`PrefixValueLanguage`); its single-line form is the
special case `LengthThresholdsMeet` uses. The sign-off expression is
characterised for any string it must match whole (`SignoffBodyShape`), and the
Signed-off-by test for a single line (`SignoffValueOnLine`).
`FinalNewlineTolerated` links the two readings for all four tests.

REF takes exactly four digits after `#`, and the sign-off takes no angle
brackets around the address. `RefDigitCount` and `SignoffRejectedSamples` pin
this down.

## Model

| member | source | states |
|---|---|---|
| `Commit.IsPrefixValue` | rtgitlib.py:8 | The `<prefix>:` test: every value of at most 72 characters passes, and no value longer than 73 passes. |
| `Commit.IsRefValue` | rtgitlib.py:9 | The REF test: a passing value has 5 or 6 characters, starts with `#` and has digits at positions 1 to 4. |
| `Commit.IsDescriptionValue` | rtgitlib.py:10 | The Description test: a passing value has at least 72 characters and does not start with a newline. |
| `Commit.IsSignoffValue` | rtgitlib.py:11 | The Signed-off-by test: a passing value contains an `@`. |
| `Commit.TldRepeat` | rtgitlib.py:11 | The group `([a-z]{2,4})+`: a matching string has at least two characters and starts and ends with a lowercase letter. |
| `PyRe.DollarMatch` | rtgitlib.py:8-11 | The `^...$` anchoring: a string the pattern matches whole passes, and a string that does not end in a newline passes only if the pattern matches it whole. |
| `Commit.HeaderFields` | rtgitlib.py:7-12 | The table: its keys are exactly `<prefix>:`, `REF:`, `Description:` and `Signed-off-by:`. They are bound to `IsPrefixValue`, `IsRefValue`, `IsDescriptionValue` and `IsSignoffValue`. |
| `Commit.HeaderFieldPrefixes` | rtgitlib.py:7-12 | The table recognises exactly the four prefixes `<prefix>:`, `REF:`, `Description:` and `Signed-off-by:`. Each ends with `:`. None is a leading part of another, so a line begins with at most one of them. |
| `PyRe.DollarMatchOnLine` | rtgitlib.py:8-11 | On a line without newlines, the `$` at the end of every pattern is a plain end-of-string anchor. |
| `Commit.PrefixValueLanguage` | rtgitlib.py:8 | A `<prefix>:` value is accepted iff it has at most 72 characters of any kind, or 73 characters whose last is a newline. |
| `Commit.RefValueLanguage` | rtgitlib.py:9 | A REF value is accepted iff it is `#` followed by four digits, optionally followed by one final newline. |
| `Commit.RefValueOnLine` | rtgitlib.py:9 | On a single line, a REF value is accepted iff its length is 5, its first character is `#` and the other four are decimal digits. |
| `Commit.RefDigitCount` | rtgitlib.py:9 | `#0042` is accepted. `#42` (too few digits), `#12345` (too many) and `0042` (no `#`) are rejected. |
| `Commit.DescriptionValueLanguage` | rtgitlib.py:10 | A Description value is accepted iff it has at least 72 characters and no newline before its last character, and a final newline needs 72 characters before it. |
| `Commit.DescriptionValueOnLine` | rtgitlib.py:10 | On a single line, a Description value is accepted iff it has at least 72 characters. |
| `Commit.LengthThresholdsMeet` | rtgitlib.py:8-10 | Every single line passes the `<prefix>:` test or the Description test. It passes both iff its length is exactly 72. Length 71 passes only `<prefix>:` and length 73 passes only Description. |
| `Commit.FinalNewlineTolerated` | rtgitlib.py:8-11 | Adding one final newline to a single line changes none of the four verdicts, because of how `$` behaves. |
| `Commit.TldRepeatIsLowerRun` | rtgitlib.py:11 | `([a-z]{2,4})+` accepts exactly the runs of two or more lowercase letters, so the upper bound 4 has no effect. |
| `Commit.SignoffBodyShape` | rtgitlib.py:11 | The sign-off expression matches a whole string iff the string has the character-level shape `SignoffShape`. The string has exactly two whitespace characters, each ending a non-empty token. Next come a non-empty token, `@`, a non-empty `[a-z0-9-]` label, `.`, and two or more lowercase letters at the end. |
| `Commit.SignoffValueOnLine` | rtgitlib.py:11 | On a single line, the Signed-off-by test accepts exactly the lines of that shape. |
| `Commit.SignoffNeedsAt` | rtgitlib.py:11 | A sign-off value with no `@` is rejected. |
| `Commit.SignoffEndsInTopLevelPart` | rtgitlib.py:11 | An accepted sign-off line ends in `.` followed by two or more lowercase letters. |
| `Commit.SignoffRejectsClosingBracket` | rtgitlib.py:11 | A sign-off value ending in `>` is rejected, whether or not it has a final newline. |
| `Commit.SignoffSingleLabelDomain` | rtgitlib.py:11 | In an accepted sign-off line, nothing after the last `@` is an `@`, and everything after it is a `[a-z0-9-]` character except exactly one `.`. |
| `Commit.SignoffRejectsDottedDomain` | rtgitlib.py:11 | A line with two dots after its last `@` is rejected, for example `a@x.co.uk`. |
| `Commit.SignoffLineSpaces` | rtgitlib.py:11 | An accepted sign-off line has exactly two whitespace characters. The first is not at the start, and the two are not adjacent. |
| `Commit.SignoffRejectsAdjacentSpaces` | rtgitlib.py:11 | Two whitespace characters in a row are rejected. |
| `Commit.SignoffRejectsSingleName` | rtgitlib.py:11 | A line with fewer than two whitespace characters, that is with only one name token, is rejected. |
| `Commit.SignoffRejectsThirdName` | rtgitlib.py:11 | A line with three or more whitespace characters, for example with a middle name, is rejected. |
| `Commit.SignoffRejectsLeadingSpace` | rtgitlib.py:11 | A line that begins with whitespace is rejected. |
| `Commit.SignoffAcceptedSample` | rtgitlib.py:11 | `A B a@x.co` is accepted. |
| `Commit.SignoffLongTopLevelSample` | rtgitlib.py:11 | `A B a.b@x.museum` is accepted. Dots are allowed before the `@`, and a top-level part longer than four letters is allowed. |
| `Commit.SignoffRejectedSamples` | rtgitlib.py:11 | These are rejected: `A B <a@x.co>`, `A B a@x.co.uk`, `A  B a@x.co`, `A a@x.co` and `A B ax.co`. |

## Left out

- Whatever applies the table is not in the modelled source and is not modelled. The table is all that the modelled file contains.
- Revision enumeration, process pipelines and an external command runner are not in the modelled source and are not modelled.
- `re.compile` and the regular-expression engine are not modelled. Each pattern's language is written directly as a predicate.
- `\d`, `\s` and `\S` are taken over ASCII. The model assumes Python 3 and `str` values. On ASCII they agree with a Python 3 `str` pattern, including the separators 0x1C to 0x1F as `\s`. Python 3 also treats non-ASCII Unicode digits and whitespace (for example U+0085 and U+00A0) as `\d` and `\s`, and the model does not cover those characters.
- The iteration order of the dictionary is not modelled, because the source gives it no meaning. The table is a Dafny `map`.
- Commit.IsPrefixValue: its own contract states only necessary or sufficient conditions, because its body is the pattern itself. `PrefixValueLanguage` states the exact accepted language.
- Commit.IsRefValue: its own contract states only necessary or sufficient conditions, because its body is the pattern itself. `RefValueLanguage` states the exact accepted language.
- Commit.IsDescriptionValue: its own contract states only necessary or sufficient conditions, because its body is the pattern itself. `DescriptionValueLanguage` states the exact accepted language.
- Commit.IsSignoffValue: its own contract states only necessary or sufficient conditions, because its body is the pattern itself. `SignoffValueOnLine` states the exact accepted language.
- Commit.HeaderFields: its own contract states only the set of keys, because the bindings are the body itself. The lemmas on each bound test state what each value test accepts.
- Commit.TldRepeat: its own contract states only the ends and the minimum length. `TldRepeatIsLowerRun` states the exact language.
- PyRe.DollarMatch: its own contract does not describe strings that end in a newline. `PrefixValueLanguage`, `RefValueLanguage`, `DescriptionValueLanguage` and `FinalNewlineTolerated` cover that case for each pattern.
