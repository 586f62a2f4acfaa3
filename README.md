# GAAN identifier codec in Dafny

This project models the identifier codec of GAAN, a nomenclature tool for genome assemblies and gene models. The codec lives in `src/gaan/gaan.py` and has five parts:

- **Sanitizer.** `sanitize_input` strips every character outside `[A-Za-z0-9-]` from a free-text field. It prints a warning when it changed something.
- **Assembly formatter.** `create_assembly_identifier` builds `TOL.SAMPLE.CONSORTIUM.VERSION.SUBVERSION[.OPTIONAL].fasta`. It sanitizes the four text fields and runs `int()` on both numbers first.
- **Assembly validator.** `validate_assembly_identifier` is an anchored match of the assembly regular expression.
- **Gene-model formatter.** `create_gene_model_identifier` builds `PREFIX.ENTITY.NNNNNN`. It sanitizes both text fields. It raises `ValueError` when the id number lies outside `0..999999`. Otherwise it zero-pads the number to six places with `str(n).zfill(6)`.
- **Gene-model validator.** `validate_gene_model_identifier` is an anchored match of the gene-model regular expression.

The model is pure, like the source: datatypes, functions and lemmas.

## Modules

- `Wrappers`: `Option` and `Result`. A formatter that raises `ValueError` in Python returns a `Failure` here.
- `Chars`: the ASCII character classes of the regular expressions: `[A-Za-z0-9]`, `\d`, `[...]+` and `\d+`.
- `Decimal`: the decimal text of integers, as Python produces it.
  - `IntToString` is `str(int)`. A negative number gets a leading `-`.
  - `ZFill` is `str.zfill`. It pads with `0` after a leading sign, and leaves text already at the width unchanged.
  - `ParseDecimal` is the core of `int(str)`: an optional sign followed by ASCII digits.
  - `Value` reads digit text as a number.
- `Fields`: splitting text on a separator character, joining fields with it, and the proof that the two are inverse.
- `Gaan`:
  - the constants and the error type;
  - the sanitizer and its warning flag;
  - both formatters and both validators;
  - the formatters' variants that take their numbers as text (the `int()` coercion they perform).
- `GaanExamples`: the cases asserted in `test_gaan.py`, stated as lemmas about the model.

### How the validators are modelled

Each validator comes with two descriptions of the identifiers it accepts.

**The regular expression.**
- Neither regex can match a `.` inside a field. So an identifier matches exactly when it is the `.`-join of a list of fields, each in the class its position asks for.
- `MatchesAssemblyPattern` and `MatchesGeneModelPattern` state this as ghost predicates, existentially over field lists.

**The executable form.**
- The validator splits the text on `.` and checks the resulting list of fields.
- Its `ensures` proves that this check is equivalent to the pattern.
- The proof goes through the `Split`/`Join` inverse lemmas.

## Model

| member | source | states |
|---|---|---|
| Gaan.MAX_ID_NUMBER | src/gaan/gaan.py:6 | the largest id number a gene-model identifier may carry, 999999; the range check and its error use it |
| Gaan.IsAllowed | src/gaan/gaan.py:9 | a character survives sanitizing exactly when it lies outside the negated class `[^A-Za-z0-9\-]`, i.e. it is an ASCII letter, an ASCII digit or `-` |
| Chars.IsAlnum | src/gaan/gaan.py:14-16 | the regex class `[A-Za-z0-9]`: an ASCII upper-case letter, lower-case letter or digit |
| Chars.IsDigit | src/gaan/gaan.py:17-18 | the regex class `\d`, read as the ASCII digits `0`-`9` |
| Chars.AlnumWord | src/gaan/gaan.py:14-16 | `[A-Za-z0-9]+`: one or more characters of that class |
| Chars.DigitWord | src/gaan/gaan.py:17-18 | `\d+`: one or more ASCII digits |
| Gaan.SanitizeInput | src/gaan/gaan.py:36-45 | every character of the result is in `[A-Za-z0-9-]`, and the result is no longer than the input |
| Gaan.SanitizeKeepsExactlyAllowed | src/gaan/gaan.py:9 | the sanitized text is the input's allowed characters, in order: a strictly increasing list of input positions picks out the result, and a position is on it exactly when its character is allowed |
| Gaan.SanitizeAppend | src/gaan/gaan.py:41 | sanitizing distributes over concatenation, as a per-character substitution does |
| Gaan.SanitizeIdentity | src/gaan/gaan.py:41-42 | the sanitizer returns its input unchanged exactly when every character is allowed |
| Gaan.SanitizeIdempotent | src/gaan/gaan.py:41 | sanitizing twice gives what sanitizing once gives |
| Gaan.SanitizeWarns | src/gaan/gaan.py:42-44 | the warning condition (output differs from input) holds exactly when the input has a disallowed character |
| Gaan.SanitizeKeepsAllowedChar | src/gaan/gaan.py:9 | an allowed character occurs in the output exactly when it occurs in the input |
| Gaan.SanitizeEmpty | src/gaan/gaan.py:41 | the output is empty exactly when no input character is allowed |
| Gaan.SanitizedHasNoDot | src/gaan/gaan.py:9 | sanitized text never contains `.`, the identifiers' separator |
| Gaan.SanitizedAlnumIffHyphenFree | src/gaan/gaan.py:9 | sanitized text is alphanumeric exactly when it has no hyphen |
| Gaan.SanitizedIsAlnumWord | src/gaan/gaan.py:9 | sanitized text is a non-empty alphanumeric word exactly when the input has no hyphen and at least one alphanumeric character |
| Gaan.IsAssemblyFieldList | src/gaan/gaan.py:14-20 | a field list fits the assembly regex's groups: 6 or 7 fields; three non-empty alphanumeric words; two non-empty digit words; with 7 fields, a non-empty alphanumeric optional field; and last the literal `fasta` |
| Gaan.MatchesAssemblyPattern | src/gaan/gaan.py:12-22 | the anchored assembly regex: the text is the `.`-join of such a field list; no class admits `.`, and the optional group `(\.([A-Za-z0-9]+))?` is the 7-field case |
| Gaan.AssemblyPatternBySplit | src/gaan/gaan.py:12-22 | text matches the assembly grammar exactly when its `.`-split is a valid field list |
| Gaan.ValidateAssemblyIdentifier | src/gaan/gaan.py:71-73 | the validator accepts exactly the text matching the anchored assembly grammar |
| Gaan.AssemblyTemplateSplits | src/gaan/gaan.py:30 | with dot-free fields, the template text splits back into its fields; the optional field appears only when non-empty |
| Gaan.CreateAssemblyIdentifier | src/gaan/gaan.py:48-68 | the identifier's fields are the sanitized tol id, sample id and consortium, the decimal text of version and subversion, the sanitized optional part (only when non-empty), then `fasta` |
| Gaan.AssemblyFieldListOf | src/gaan/gaan.py:14-20 | the formatter's field list fits the grammar exactly when each field fits its class |
| Gaan.AssemblyRoundTrip | src/gaan/gaan.py:48-73 | the validator accepts the formatter's output exactly when the sanitized tol id, sample id and consortium are non-empty and hyphen-free, the sanitized optional part is hyphen-free, and both numbers are non-negative |
| Gaan.IsEntityTag | src/gaan/gaan.py:26 | the regex's alternation of entity tags: exactly `pan`, `g`, `p` or `t` |
| Gaan.IsGeneModelFieldList | src/gaan/gaan.py:26 | a field list fits the gene-model regex's groups: exactly 3 fields; a non-empty alphanumeric prefix; an entity tag; exactly six ASCII digits (`\d{6}`) |
| Gaan.MatchesGeneModelPattern | src/gaan/gaan.py:25-27 | the anchored gene-model regex: the text is the `.`-join of such a field list |
| Gaan.GeneModelPatternBySplit | src/gaan/gaan.py:25-27 | text matches the gene-model grammar exactly when its `.`-split is a valid field list |
| Gaan.ValidateGeneModelIdentifier | src/gaan/gaan.py:94-96 | the validator accepts exactly the text matching the anchored gene-model grammar |
| Gaan.SplitThree | src/gaan/gaan.py:33 | `a.b.c` with dot-free parts splits into exactly `[a, b, c]` |
| Gaan.GeneModelValidateParts | src/gaan/gaan.py:26 | for dot-free parts, `PREFIX.ENTITY.NUMBER` validates exactly when the prefix is a non-empty alphanumeric word, the entity is `pan`, `g`, `p` or `t`, and the number is exactly six digits; a wrong tag or digit count is rejected |
| Gaan.IdSegment | src/gaan/gaan.py:90 | for an id in `0..999999`, `str(n).zfill(6)` is six digits whose value is `n` |
| Gaan.GeneModelTemplateSplits | src/gaan/gaan.py:33 | with dot-free prefix and entity, the template text splits into the prefix, the entity and the six-digit id segment |
| Gaan.CreateGeneModelIdentifier | src/gaan/gaan.py:76-91 | it fails exactly when the id is outside `0..999999`, with that id and the bound in the error; otherwise the fields are the sanitized prefix, the sanitized entity, and six digits whose value is the id |
| Gaan.GeneModelRoundTrip | src/gaan/gaan.py:76-96 | the formatter succeeds and the validator accepts its output exactly when the sanitized prefix is non-empty and hyphen-free, the sanitized entity is one of the four tags, and the id is in range |
| Gaan.GaanError | src/gaan/gaan.py:84-85 | the errors the formatters raise as `ValueError`: `IdNumberOutOfRange` carries the id and the bound 999999, as the range check raises; `InvalidNumericArgument` carries the text that `int()` rejects at lines 58-59 and 83 |
| Gaan.CreateAssemblyIdentifierFromText | src/gaan/gaan.py:58-59 | it fails exactly when either number text is not a decimal numeral, blaming the version text first; otherwise it is the typed formatter applied to the parsed numbers |
| Gaan.CreateGeneModelIdentifierFromText | src/gaan/gaan.py:83-85 | id text that is not a decimal numeral is an invalid-argument error; otherwise it is the typed formatter applied to the parsed id |
| Gaan.FromTextAgreesWithTyped | src/gaan/gaan.py:58-59 | passing the numbers as their own `str` text gives the same result as passing the numbers |
| Decimal.NatToString | src/gaan/gaan.py:65 | the decimal text of a natural number is a digit word whose value is the number, with no leading zero |
| Decimal.NatToStringPush | src/gaan/gaan.py:65 | appending a digit to a positive number appends that digit to its decimal text |
| Decimal.NatToStringLength | src/gaan/gaan.py:90 | a number below `10^k` has at most `k` decimal digits |
| Decimal.IntToString | src/gaan/gaan.py:65-66 | `str(int)` is a digit word exactly for non-negative numbers, reading back to the number; a negative number is `-` followed by the digits of its magnitude; there is no leading zero (only `0` itself starts with `0`, and a `-` is never followed by `0`), so the text is Python's canonical numeral; it never contains `.` |
| Decimal.ZFill | src/gaan/gaan.py:90 | `zfill` produces exactly the requested width (or leaves longer text alone), and keeps the value of digit text |
| Decimal.ZFillPadsLeft | src/gaan/gaan.py:90 | `zfill` of unsigned text is zeros followed by the original text |
| Decimal.ZFillKeepsSign | src/gaan/gaan.py:90 | `zfill` of signed text keeps the sign in front, then zeros, then the text after the sign; digit text after the sign keeps its value |
| Decimal.ValueIgnoresLeadingZeros | src/gaan/gaan.py:90 | leading zeros do not change the value of digit text |
| Decimal.ParseDecimal | src/gaan/gaan.py:58-59 | the model's reading of `int()` on text succeeds exactly on an ASCII decimal numeral (an optional sign, then one or more digits), with the value that numeral denotes |
| Decimal.IsDecimalNumeral | src/gaan/gaan.py:58-59 | the text the model's `int()` accepts: an optional `+` or `-`, then one or more ASCII digits |
| Decimal.IntToStringParses | src/gaan/gaan.py:58-59 | `int(str(i)) == i` |
| Fields.Split | src/gaan/gaan.py:12-27 | splitting yields at least one field, and no field contains the separator |
| Fields.JoinSplit | src/gaan/gaan.py:12-27 | joining the fields of a split restores the text |
| Fields.SplitJoin | src/gaan/gaan.py:12-27 | splitting the join of separator-free fields restores the fields |
| Fields.SplitAppend | src/gaan/gaan.py:12-27 | splitting `a SEP b` is the split of `a` followed by the split of `b` |
| GaanExamples.SanitizeDropsGap | test_gaan.py:15 | clean text around a run of disallowed characters keeps everything except that run |
| GaanExamples.SanitizeKeepsCleanText | test_gaan.py:13 | `test123` is unchanged |
| GaanExamples.SanitizeRemovesSymbols | test_gaan.py:15 | `test!@#123` sanitizes to `test123` |
| GaanExamples.SanitizeEmptyText | test_gaan.py:17 | the empty string is unchanged |
| GaanExamples.SanitizeDropsGaps | test_gaan.py:19 | two clean words with disallowed runs around and between them sanitize to the two words joined |
| GaanExamples.SanitizeRemovesSpaces | test_gaan.py:19 | ` test input ` sanitizes to `testinput` |
| GaanExamples.GeneModelExample | test_gaan.py:23-24 | `("prefix", "g", 123)` formats as `prefix.g.000123` |
| GaanExamples.GeneModelLowestId | test_gaan.py:26-27 | id 0 formats as `prefix.g.000000` |
| GaanExamples.GeneModelHighestId | test_gaan.py:29-30 | id 999999 formats as `prefix.g.999999` |
| GaanExamples.GeneModelIdOutOfRange | src/gaan/gaan.py:84-85 | id 1000000 is out of range, bound 999999 |
| GaanExamples.AssemblyExample | test_gaan.py:34-41 | the assembly without the optional field formats as `TOL123.SAMPLE1.GRP.1.0.fasta` |
| GaanExamples.AssemblyWithOptionalExample | test_gaan.py:44-52 | the optional `EXTRA` is inserted before `.fasta` |
| GaanExamples.AssemblySanitizedExample | test_gaan.py:55-62 | disallowed characters are removed from the tol and sample ids |
| GaanExamples.AssemblyEmptyOptionalExample | test_gaan.py:65-73 | an empty optional field adds nothing |
| GaanExamples.InvalidVersionText | test_gaan.py:77-84 | the version text `invalid` is an invalid numeric argument |
| GaanExamples.InvalidSubversionText | test_gaan.py:87-94 | the subversion text `invalid` is an invalid numeric argument |
| GaanExamples.ValidGeneModelExample | test_gaan.py:98-99 | `assemblyprefix.g.000123` validates |
| GaanExamples.InvalidGeneModelExample | test_gaan.py:102-103 | `assemblyprefix.invalid.123` does not validate |
| GaanExamples.NegativeVersionRejected | src/gaan/gaan.py:58-73 | the identifier formatted with version `-1` does not validate |

## Left out

- `main`: the command-line interface (argument parsing, printing results) is not part of this model.
- SanitizeWarns: the printed warning is modelled only as the condition under which it is printed. The `field_name` argument appears only in that message, so the model drops it. Console output is I/O.
- **`int()` coercion.**
  - The typed formatters take `int` numbers, which `int()` returns unchanged.
  - The text variants model only optional-sign-plus-ASCII-digits parsing.
  - Python also accepts surrounding whitespace, `_` digit separators and non-ASCII Unicode digits.
  - Python also coerces floats (truncating) and bools.
  - None of these are modelled.
- Python's limit on the number of digits `str(int)` will produce for huge integers is not modelled. The model's integers are unbounded.
- **Regular-expression details.**
  - Python's `$` also matches just before a single trailing newline. The model reads `$` as the end of the text, so it does not accept `....fasta\n` or `prefix.g.000123\n`, which the source's validators do.
  - Python's `\d` also matches non-ASCII Unicode decimal digits. The model's digit class is ASCII `0`-`9`.
- **`optional=None`.** In the source, `sanitize_input(None, ...)` raises `TypeError`. The model's `optional` parameter is a string, defaulting to the empty string.
- **Python strings versus Dafny `char`.** Python strings are sequences of code points, lone surrogates included. Dafny's `char` excludes surrogates. No sanitizer or validator behaviour depends on this, because every such character is disallowed.
- **Optional field in the assembly round trip.** The code does not require the optional field to be a non-empty alphanumeric word: an empty (sanitized) optional part is simply omitted. So `AssemblyRoundTrip` asks only that the sanitized optional part be hyphen-free, as the code does.
