# cc-validate-po-maven-plugin, modelled in Dafny

This project models the core of a Maven plugin that checks gettext
translation catalogs (`.pot` template, `.po` translation) and generates Java
classes from them. Four parts are modelled:

- **Format strings** (`Formatter.java`, a trimmed copy of `java.util.Formatter`).
  `parse` splits a string into fixed text and format specifiers. Each
  specifier is decoded into index, flags, width, precision, date/time marker
  and conversion, then checked against the flag/conversion legality rules.
  `checkText` rejects a stray `%`.
  - The regular expression
    `%(\d+\$)?([-#+ 0,(\<]*)?(\d+)?(\.\d+)?([tT])?([a-zA-Z%])` is a greedy
    matcher (`FormatPattern.MatchAt`) with the one backtracking case written
    out.
  - The matcher is proved sound and complete against a declarative reading
    of the pattern (`FormatPattern.IsMatch`).
- **Catalog validation** (`PoValidator.java`).
  - `loadCatalog` keys messages by (context, id). It skips the first message
    without a context and refuses a repeated key.
  - `checkFormatMatching` compares the multisets of decoded specifiers.
  - `validateFiles` requires equal key sets, then runs the per-entry checks:
    source references, `msgid_plural`, exact or format matching, empty and
    fuzzy translations, and the plural forms.
- **Generated class layout** (`JavaGeneratorMojo.java`).
  - The header is the last message without a context; init lines are the
    messages with one.
  - The class name, package and output path come from the resource name.
    The output path is normalised as `Path.normalize` does, so a leading
    `./` in the output directory is dropped.
  - The `plural=` formula comes from the header's `Plural-Forms:` line.
- **Message helpers** (`Utils.java`): `createMessage`, `collectionToString`
  and the two `join` overloads.

Each loop of the source is a `method` with loop invariants. Its `ensures`
ties the result to a specification function. Lemmas about those functions
state what the source promises.

Modules, one per file:

| file | contents |
|---|---|
| `wrappers.dfy` | `Option`, `Result`, `Outcome` |
| `decimal.dfy` | digit strings, `Integer.parseInt` / `Integer.toString` |
| `format_errors.dfy` | the `IllegalFormatException` subclasses parse can throw |
| `format_flags.dfy` | `Formatter.Flags` |
| `conversion.dfy` | `Formatter.Conversion` and `Formatter.DateTime` tables |
| `format_pattern.dfy` | the specifier pattern and `Matcher.find` |
| `format_specifier.dfy` | `FormatSpecifier`: constructor, `check*`, `equals`, `toString` |
| `formatter.dfy` | `checkText` and `parse` |
| `gettext_message.dfy` | the fields of a jgettext `Message` the plugin reads |
| `po_validator.dfy` | `PoValidator` |
| `java_string.dfy` | `String.split`, `indexOf`, `lastIndexOf`, `trim`, `startsWith` |
| `java_generator_mojo.dfy` | `JavaGeneratorMojo.generateJavaFile` without the file system |
| `utils.dfy` | `Utils` |
| `format_examples.dfy`, `generator_examples.dfy` | worked examples on concrete strings |

Two consequences of the code that a translator may not expect:

- `N$` reordering is not accepted. checkFormatMatching compares the
  specifiers' `index` fields, and an ordinal specifier has index 0, so `%d`
  and `%1$d` differ in `index` (`FormatExamples.ImplicitIndexIsNotExplicit`).
  Reordering ordinal specifiers does match
  (`FormatExamples.ReorderedSpecifiers`), but repeating one does not
  (`FormatExamples.OnceIsNotTwice`).
- `FormatSpecifier.toString` writes the flags before `N$`, so it is no round
  trip: `%1$-5d` prints as `%-1$5d`, and that text does not parse
  (`FormatExamples.IndexedLeftJustifiedPrinted`,
  `FormatExamples.FlagsBeforeIndexRejected`).

## Model

| member | source | states |
|---|---|---|
| Conversion.Categories | src/main/java/com/indigobyte/javautil/Formatter.java:5170-5303 | isGeneral is b/h/s in either case, isCharacter c/C, isInteger d, o, x, X, isFloat e, E, g, G, f, a, A, isText n and %; isValid accepts exactly these and 't', a lower-case letter of "bhscdoxegfant%" that is not one of D, O, F, N, T |
| Conversion.ToLowerCase | src/main/java/com/indigobyte/javautil/Formatter.java:5725-5731 | an upper-case conversion letter becomes its lower-case letter; every other character is kept |
| Conversion.ToUpperCase | src/main/java/com/indigobyte/javautil/Formatter.java:6118-6124 | a lower-case letter becomes its upper-case letter; every other character is kept |
| DateTime.IsValid | src/main/java/com/indigobyte/javautil/Formatter.java:5398-5496 | every suffix DateTime.isValid accepts is an ASCII letter; the suffixes commented out of the table (g, G, u, U, V, w, W, X, x) are rejected |
| Decimal.ParseNatBounds | src/main/java/com/indigobyte/javautil/Formatter.java:5659-5683 | Integer.parseInt of k digits is below 10^k, and of zeros only is 0 |
| Decimal.NatToString | src/main/java/com/indigobyte/javautil/Formatter.java:6096-6127 | the decimal text toString writes for a width, precision or index is a non-empty digit string with no leading zero |
| Decimal.IntToString | src/main/java/com/indigobyte/javautil/Formatter.java:6096-6127 | Integer.toString of a non-negative value is digits that read back as that value; of a negative value, '-' and the digits of its magnitude |
| Decimal.ParseNatToString | src/main/java/com/indigobyte/javautil/Formatter.java:5659-5683 | Integer.parseInt of the digits Integer.toString writes gives the number back |
| FormatFlags.FlagOf | src/main/java/com/indigobyte/javautil/Formatter.java:4948-4982 | a character Flags.parse(char) accepts denotes one of the eight user flags; for any other it throws UnknownFormatFlags (None) |
| FormatFlags.FlagCharsDistinct | src/main/java/com/indigobyte/javautil/Formatter.java:4896-4915 | distinct flag characters denote distinct flags, each a single bit, never UPPERCASE |
| FormatFlags.AddContains | src/main/java/com/indigobyte/javautil/Formatter.java:4996-5017 | after add(v), contains(f) holds exactly when it held before or f is v |
| FormatFlags.RemoveContains | src/main/java/com/indigobyte/javautil/Formatter.java:5022-5028 | after remove(v), contains(f) holds exactly when it held before and f is not v |
| FormatFlags.FlagToString | src/main/java/com/indigobyte/javautil/Formatter.java:5030-5072 | toString of the flag a character denotes is that character, and of UPPERCASE is "^" |
| FormatFlags.ToStringLists | src/main/java/com/indigobyte/javautil/Formatter.java:5030-5072 | toString lists a flag's character exactly when contains holds for that flag |
| FormatFlags.MarksIn | src/main/java/com/indigobyte/javautil/Formatter.java:5030-5072 | a character is in toString exactly when it is the character of a flag that is set |
| FormatFlags.Parse | src/main/java/com/indigobyte/javautil/Formatter.java:4926-4946 | the Flags.parse loop computes the flags of s[start..end] or the first error |
| FormatFlags.ParseFromSucceeds | src/main/java/com/indigobyte/javautil/Formatter.java:4930-4942 | continuing from flags acc, parsing flag characters succeeds exactly when no character repeats and no written flag is already in acc |
| FormatFlags.ParseFromContents | src/main/java/com/indigobyte/javautil/Formatter.java:4930-4942 | on success the flags are acc's plus exactly the flags written |
| FormatFlags.ParsedFlags | src/main/java/com/indigobyte/javautil/Formatter.java:4926-4946 | over flag characters: success iff no character repeats; failure is DuplicateFormatFlags; the result contains a flag iff its character was written |
| FormatFlags.DuplicateOnly | src/main/java/com/indigobyte/javautil/Formatter.java:4936-4938 | over flag characters the only error is DuplicateFormatFlags |
| FormatPattern.DigitsEnd | src/main/java/com/indigobyte/javautil/Formatter.java:3924-3926 | the longest run of digits from i, stopping at a non-digit |
| FormatPattern.FlagsEnd | src/main/java/com/indigobyte/javautil/Formatter.java:3924-3926 | the longest run of flag characters from i, stopping at a non-flag character |
| FormatPattern.IndexAt | src/main/java/com/indigobyte/javautil/Formatter.java:3924-3926 | group 1 after '%' is digits ended by '$', or absent |
| FormatPattern.WidthAt | src/main/java/com/indigobyte/javautil/Formatter.java:3924-3926 | group 3 is every digit at that point, or absent |
| FormatPattern.PrecisionAt | src/main/java/com/indigobyte/javautil/Formatter.java:3924-3926 | group 4 is '.' and at least one digit, or absent |
| FormatPattern.ConversionAt | src/main/java/com/indigobyte/javautil/Formatter.java:3924-3926 | after groups 1 to 4, group 5 and the conversion complete a match with those groups, and there is none exactly when no conversion character follows the groups |
| FormatPattern.MatchAt | src/main/java/com/indigobyte/javautil/Formatter.java:3924-3926 | a match it returns starts at p and satisfies the pattern |
| FormatPattern.MatchAtEnd | src/main/java/com/indigobyte/javautil/Formatter.java:3924-3926 | no match starts at the end of the input |
| FormatPattern.Find | src/main/java/com/indigobyte/javautil/Formatter.java:4817 | Matcher.find(i) gives the leftmost match at or after i, and none when no position from i matches |
| FormatPattern.MatchStartsAtPercent | src/main/java/com/indigobyte/javautil/Formatter.java:3924-3926 | every match starts at a '%' |
| FormatPattern.DigitsEndIs | src/main/java/com/indigobyte/javautil/Formatter.java:3924-3926 | a digit run ended by a non-digit is the one DigitsEnd finds |
| FormatPattern.StopAfterWidth | src/main/java/com/indigobyte/javautil/Formatter.java:3924-3926 | in any match, the character after the width is neither a digit, a flag nor '$' |
| FormatPattern.IndexAtComplete | src/main/java/com/indigobyte/javautil/Formatter.java:3924-3926 | every match's group 1 is the greedy one |
| FormatPattern.WidthAtComplete | src/main/java/com/indigobyte/javautil/Formatter.java:3924-3926 | every match's groups 2 and 3 end where the greedy ones end |
| FormatPattern.PrecisionAtComplete | src/main/java/com/indigobyte/javautil/Formatter.java:3924-3926 | every match's group 4 is the greedy one |
| FormatPattern.ConversionAfterGroups | src/main/java/com/indigobyte/javautil/Formatter.java:3924-3926 | at a '%', a conversion character after the greedy groups makes MatchAt succeed |
| FormatPattern.MatchAtComplete | src/main/java/com/indigobyte/javautil/Formatter.java:3924-3926 | wherever the pattern matches at p, MatchAt finds a match |
| FormatPattern.MatchAtGroups | src/main/java/com/indigobyte/javautil/Formatter.java:3924-3926 | the groups of MatchAt's match are the greedy index, flags, width and precision |
| FormatPattern.DateTimePrefixAsConversion | src/main/java/com/indigobyte/javautil/Formatter.java:3924-3926 | a t/T becomes the conversion, with no date/time group, only when no conversion character follows it |
| FormatPattern.MatchAtGreedy | src/main/java/com/indigobyte/javautil/Formatter.java:3924-3926 | each group is as long as it can be: the index is taken whenever the digits after '%' end in '$'; flags, width and precision stop only at a character that cannot extend them, so '0' goes to the flags and a width never starts with 0 |
| FormatSpecifier.Equals | src/main/java/com/indigobyte/javautil/Formatter.java:5593-5608 | equals holds exactly when index, flags (UPPERCASE included), width, precision, dt and conversion are all equal |
| FormatSpecifier.ToString | src/main/java/com/indigobyte/javautil/Formatter.java:6096-6127 | the text starts with '%' and ends with the conversion, upper-cased when UPPERCASE is set, after 't' or 'T' for a date/time |
| FormatSpecifier.CheckBadFlags | src/main/java/com/indigobyte/javautil/Formatter.java:6213-6222 | no error iff none of the listed flags is set; otherwise FormatFlagsConversionMismatch for a listed flag that is set |
| FormatSpecifier.CheckLeftWidth | src/main/java/com/indigobyte/javautil/Formatter.java:6140-6142 | the shared '-' rule: no error iff '-' comes with a width; the error is MissingFormatWidth |
| FormatSpecifier.GeneralLegal | src/main/java/com/indigobyte/javautil/Formatter.java:6130-6148 | for b, h and s the legality table is: '#' only on s, none of '+', ' ', '0', ',' and '(', and '-' only with a width |
| FormatSpecifier.CheckGeneral | src/main/java/com/indigobyte/javautil/Formatter.java:6130-6148 | checkGeneral accepts b, h and s exactly as the legality table allows, and throws only a flag mismatch or a missing width |
| FormatSpecifier.CheckDateTime | src/main/java/com/indigobyte/javautil/Formatter.java:6151-6171 | checkDateTime accepts a date/time exactly as the legality table allows; a precision is IllegalFormatPrecision before anything else |
| FormatSpecifier.CheckCharacter | src/main/java/com/indigobyte/javautil/Formatter.java:6174-6190 | checkCharacter accepts 'c' exactly as the legality table allows; a precision is IllegalFormatPrecision before anything else |
| FormatSpecifier.CheckNumeric | src/main/java/com/indigobyte/javautil/Formatter.java:6247-6276 | no error iff width and precision are not below -1, '-' and '0' come with a width, and neither '+' with ' ' nor '-' with '0' is given |
| FormatSpecifier.CheckInteger | src/main/java/com/indigobyte/javautil/Formatter.java:6193-6210 | checkInteger accepts d, o and x exactly as the legality table allows; an error of the numeric checks comes first |
| FormatSpecifier.CheckFloat | src/main/java/com/indigobyte/javautil/Formatter.java:6224-6244 | checkFloat accepts f, a, e and g exactly as the legality table allows ('a' rejects '(' and ',', 'e' rejects ',', 'g' rejects '#'); an error of the numeric checks comes first |
| FormatSpecifier.CheckText | src/main/java/com/indigobyte/javautil/Formatter.java:6279-6321 | checkText accepts '%' and 'n' exactly as the legality table allows; a precision is IllegalFormatPrecision before anything else |
| FormatSpecifier.Validate | src/main/java/com/indigobyte/javautil/Formatter.java:5575-5589 | the check* dispatch accepts a specifier with a lower-cased conversion exactly when the per-category legality table allows it |
| FormatSpecifier.NumericFlagErrors | src/main/java/com/indigobyte/javautil/Formatter.java:6247-6277 | '-' or '0' without a width is MissingFormatWidth; '+' with ' ', or '-' with '0', is IllegalFormatFlags |
| FormatSpecifier.IntegerPrecision | src/main/java/com/indigobyte/javautil/Formatter.java:6193-6211 | an integer conversion with a precision is IllegalFormatPrecision once the numeric checks pass |
| FormatSpecifier.PrecisionRejected | src/main/java/com/indigobyte/javautil/Formatter.java:6151-6191 | 'c', date/time and '%' with a precision are IllegalFormatPrecision |
| FormatSpecifier.GeneralAlternate | src/main/java/com/indigobyte/javautil/Formatter.java:6130-6149 | '#' on 'b' or 'h' is FormatFlagsConversionMismatch; on 's' it is legal |
| FormatSpecifier.LineSeparatorWidth | src/main/java/com/indigobyte/javautil/Formatter.java:6279-6321 | 'n' with a width is IllegalFormatWidth |
| FormatSpecifier.MatchFlagChars | src/main/java/com/indigobyte/javautil/Formatter.java:3924-3926 | the flags group of a match holds flag characters only |
| FormatSpecifier.NewFormatSpecifier | src/main/java/com/indigobyte/javautil/Formatter.java:5547-5591 | the constructor, setting its fields in order, builds exactly the decoded specifier or throws the decoder's error |
| FormatSpecifier.ConvertAndCheck | src/main/java/com/indigobyte/javautil/Formatter.java:5572-5589 | setting the conversion (an invalid character is UnknownFormatConversion, upper case adds UPPERCASE and folds, a text conversion takes index -2) and then the conversion's check give the decoded specifier or its error |
| FormatSpecifier.ConvertIndex | src/main/java/com/indigobyte/javautil/Formatter.java:5713-5743 | conversion() replaces the index by -2 for '%' and 'n' only, and keeps it otherwise |
| FormatSpecifier.MatchFlags | src/main/java/com/indigobyte/javautil/Formatter.java:5647-5657 | a match's flags parse iff no flag character repeats; the result holds exactly the flags written |
| FormatSpecifier.DecodeDuplicateFlags | src/main/java/com/indigobyte/javautil/Formatter.java:5549-5551 | a repeated flag character makes the constructor throw DuplicateFormatFlags |
| FormatSpecifier.DecodeFlags | src/main/java/com/indigobyte/javautil/Formatter.java:5547-5572 | a decoded specifier holds exactly the flags written, plus UPPERCASE iff the prefix is 'T' or the conversion letter is upper case |
| FormatSpecifier.DecodeIndex | src/main/java/com/indigobyte/javautil/Formatter.java:5615-5657 | the index is -2 for '%' and 'n', else -1 with '<', else N for N$, else 0 |
| FormatSpecifier.DecodeIndexParsed | src/main/java/com/indigobyte/javautil/Formatter.java:5615-5657 | the same index, read off the flags as Flags.parse returns them |
| FormatSpecifier.DecodeConversion | src/main/java/com/indigobyte/javautil/Formatter.java:5713-5743 | with t/T the suffix is kept as written and is in the DateTime table; otherwise the letter is valid and lower-cased |
| FormatSpecifier.DecodeUnknownConversion | src/main/java/com/indigobyte/javautil/Formatter.java:5713-5722 | outside date/time a letter missing from the Conversion tables is UnknownFormatConversion of that letter |
| FormatSpecifier.DecodeUnknownDateTime | src/main/java/com/indigobyte/javautil/Formatter.java:6151-6172 | with a t/T prefix, an invalid suffix is UnknownFormatConversion("t" + suffix) |
| FormatSpecifier.DecodeLegal | src/main/java/com/indigobyte/javautil/Formatter.java:5575-5589 | every specifier the constructor builds passes the legality table |
| Formatter.TextError | src/main/java/com/indigobyte/javautil/Formatter.java:4529-4545 | no error iff the region holds no '%' |
| Formatter.CheckText | src/main/java/com/indigobyte/javautil/Formatter.java:4529-4545 | the checkText loop returns the region's text error |
| Formatter.TextErrorFirst | src/main/java/com/indigobyte/javautil/Formatter.java:4531-4541 | the error names the character after the first '%', or '%' when it ends the region |
| Formatter.ParseFrom | src/main/java/com/indigobyte/javautil/Formatter.java:4815-4858 | from i, the segments are empty exactly at the end of the string, and otherwise start at i |
| Formatter.ParseRound | src/main/java/com/indigobyte/javautil/Formatter.java:4817-4840 | one round of the loop: a failing gap check or a failing constructor ends the parse with its error; otherwise the gap's fixed string and the specifier are added and the scan goes on after the match |
| Formatter.ParseFromFound | src/main/java/com/indigobyte/javautil/Formatter.java:4817-4840 | one round with a match: the gap is checked and added as fixed text, then the specifier |
| Formatter.ParseFromNotFound | src/main/java/com/indigobyte/javautil/Formatter.java:4842-4854 | the last round: the rest is checked and added as fixed text |
| Formatter.ParseFromNeedsPercent | src/main/java/com/indigobyte/javautil/Formatter.java:4815-4858 | parse throws only when there is a '%' from i on |
| Formatter.ParseFormat | src/main/java/com/indigobyte/javautil/Formatter.java:4809-4862 | a failure needs a '%' in the string; on success the segments tile the string, concatenate back to it, and each specifier is the decoding of its match |
| Formatter.Parse | src/main/java/com/indigobyte/javautil/Formatter.java:4809-4862 | the parse loop returns exactly the segments of the format string, or the first exception |
| Formatter.ParseFromTiles | src/main/java/com/indigobyte/javautil/Formatter.java:4815-4858 | the segments tile the input from i, in order, with no gap, overlap or empty segment; fixed strings hold no '%' and two never follow each other |
| Formatter.ParseFromSpecs | src/main/java/com/indigobyte/javautil/Formatter.java:4838 | each specifier segment is the decoding of the leftmost match at its start |
| Formatter.TilesConcat | src/main/java/com/indigobyte/javautil/Formatter.java:4815-4858 | tiling segments spell out the input |
| Formatter.NoMatchWithoutPercent | src/main/java/com/indigobyte/javautil/Formatter.java:3924-3926 | a string with no '%' from i on has no match |
| Formatter.ParsePlainText | src/main/java/com/indigobyte/javautil/Formatter.java:4815-4852 | the empty string has no segments; a non-empty string without '%' is one fixed string |
| Formatter.StrayPercent | src/main/java/com/indigobyte/javautil/Formatter.java:4825-4833 | a '%' before the next match is UnknownFormatConversion of the next character, or '%' at the end |
| Formatter.StrayPercentAtEnd | src/main/java/com/indigobyte/javautil/Formatter.java:4846-4848 | with no match left, a first '%' at p fails the parse with UnknownFormatConversion of the character after it, or '%' at the end |
| Formatter.StrayPercentBeforeMatch | src/main/java/com/indigobyte/javautil/Formatter.java:4825-4833 | a '%' at p that starts no specifier, before the next match, fails the parse with UnknownFormatConversion of the character after it |
| Formatter.StrayBeforeMatch | src/main/java/com/indigobyte/javautil/Formatter.java:4817-4825 | a position before any '%' that starts no specifier lies before the next match |
| PoValidator.FormatSpecifiers | src/main/java/com/indigobyte/maven/plugins/PoValidator.java:85-97 | getFormatSpecifiers succeeds iff parse does, a failure is parse's exception and needs a '%', and every specifier returned is the legal decoding of a match in the string (that none is dropped is `PoValidator.FormatSpecifiersComplete`) |
| PoValidator.SpecsOfAppend | src/main/java/com/indigobyte/maven/plugins/PoValidator.java:87-90 | keeping only specifiers distributes over concatenation, so their order is kept |
| PoValidator.SpecsOfAt | src/main/java/com/indigobyte/maven/plugins/PoValidator.java:87-90 | a specifier segment contributes its specifier exactly once, after the specifiers of the segments before it and before those after it |
| PoValidator.FormatSpecifiersComplete | src/main/java/com/indigobyte/maven/plugins/PoValidator.java:85-97 | on a successful parse, getFormatSpecifiers returns every specifier segment's specifier, once and in its place among the others |
| PoValidator.SpecsOfDecoded | src/main/java/com/indigobyte/maven/plugins/PoValidator.java:87-90 | every specifier kept from the parsed segments is the decoding of a match in the string, and legal |
| PoValidator.FormatsMatch | src/main/java/com/indigobyte/maven/plugins/PoValidator.java:104-117 | checkFormatMatching fails only with a parse error or a format-list mismatch |
| PoValidator.FormatsMatchAgree | src/main/java/com/indigobyte/maven/plugins/PoValidator.java:104-117 | formats match iff both strings parse and every specifier occurs equally often in each; a template parse error is reported before the translation's; a mismatch of parsed strings is FormatListsMismatch; a string that parses matches itself |
| PoValidator.FormatsMatchSymmetric | src/main/java/com/indigobyte/maven/plugins/PoValidator.java:104-117 | exchanging template and translation does not change whether they match |
| PoValidator.CheckFormatMatching | src/main/java/com/indigobyte/maven/plugins/PoValidator.java:104-117 | parses the template, then the translation, and compares the specifier multisets |
| PoValidator.LoadFrom | src/main/java/com/indigobyte/maven/plugins/PoValidator.java:226-238 | from message i, a failure is a duplicate key of some later keyed message, and a success keeps every entry loaded before |
| PoValidator.LoadCatalog | src/main/java/com/indigobyte/maven/plugins/PoValidator.java:226-238 | the keying loop computes the catalog, or the duplicate-key failure |
| PoValidator.LoadFromSucceeds | src/main/java/com/indigobyte/maven/plugins/PoValidator.java:228-237 | from message i, loading succeeds iff no two keyed messages share a key and none repeats a key already loaded; every failure is a duplicate message context id |
| PoValidator.LoadFromContents | src/main/java/com/indigobyte/maven/plugins/PoValidator.java:228-237 | a successful load's catalog keeps what was loaded before and maps the key of each later keyed message to that message, and has no other keys |
| PoValidator.LoadCatalogSpec | src/main/java/com/indigobyte/maven/plugins/PoValidator.java:218-239 | a catalog loads iff no two messages after the skipped header share (context, id); its keys are exactly their keys |
| PoValidator.EntryVerdict | src/main/java/com/indigobyte/maven/plugins/PoValidator.java:138-210 | the checks of one entry fail only with an entry error; differing source-reference multisets fail first, then a differing msgid_plural |
| PoValidator.ValidateEntry | src/main/java/com/indigobyte/maven/plugins/PoValidator.java:138-210 | the loop body for one key returns the first failing check in source order |
| PoValidator.FormCheckAccepted | src/main/java/com/indigobyte/maven/plugins/PoValidator.java:196-208 | a later plural form passes iff (exact) it equals msgid_plural and is non-empty unless allowed, or (otherwise) its formats match |
| PoValidator.FormsFromAccepted | src/main/java/com/indigobyte/maven/plugins/PoValidator.java:195-209 | the loop over msgstr[i..] passes iff every form from i is accepted |
| PoValidator.EntryVerdictAccepted | src/main/java/com/indigobyte/maven/plugins/PoValidator.java:141-210 | an entry passes iff references and msgid_plural agree, the translation agrees, is non-empty unless allowed, is not fuzzy unless allowed, and the plural counts and forms are right |
| PoValidator.FuzzyAndEmptyRefused | src/main/java/com/indigobyte/maven/plugins/PoValidator.java:177-184 | a fuzzy entry fails unless fuzzy is allowed; an empty singular translation fails unless empty is allowed |
| PoValidator.Validation | src/main/java/com/indigobyte/maven/plugins/PoValidator.java:119-215 | a duplicate key fails only when a catalog does not load; MessageListsMismatch is reported exactly when both load and their key sets differ |
| PoValidator.ValidateFiles | src/main/java/com/indigobyte/maven/plugins/PoValidator.java:119-215 | loads both catalogs, compares key sets, then checks each entry, returning the first failure |
| PoValidator.EntriesFromAccepted | src/main/java/com/indigobyte/maven/plugins/PoValidator.java:137-211 | the entry loop passes iff every remaining entry is accepted; a failure is the first failing entry's verdict |
| PoValidator.ValidationAccepted | src/main/java/com/indigobyte/maven/plugins/PoValidator.java:126-211 | the files validate iff both catalogs load, their key sets are equal and every entry is accepted |
| PoValidator.ValidationOrderIndependent | src/main/java/com/indigobyte/maven/plugins/PoValidator.java:137 | whether the files validate does not depend on the order the HashMap yields its entries |
| JavaGeneratorMojo.HeaderOf | src/main/java/com/indigobyte/maven/plugins/JavaGeneratorMojo.java:87-95 | the header, when there is one, is a catalog message without a context |
| JavaGeneratorMojo.InitLines | src/main/java/com/indigobyte/maven/plugins/JavaGeneratorMojo.java:89-95 | the init lines are no more than the messages, and each has a context |
| JavaGeneratorMojo.ReadCatalog | src/main/java/com/indigobyte/maven/plugins/JavaGeneratorMojo.java:87-95 | the catalog loop yields the header and the init lines |
| JavaGeneratorMojo.HeaderOfLast | src/main/java/com/indigobyte/maven/plugins/JavaGeneratorMojo.java:87-95 | no header iff every message has a context; otherwise it is the last message without one |
| JavaGeneratorMojo.InitLinesContexts | src/main/java/com/indigobyte/maven/plugins/JavaGeneratorMojo.java:89-95 | a message is an init line iff it is in the catalog and has a context |
| JavaGeneratorMojo.InitLinesAll | src/main/java/com/indigobyte/maven/plugins/JavaGeneratorMojo.java:89-95 | when every message has a context, the init lines are the catalog itself, in order |
| JavaGeneratorMojo.InitLinesAppend | src/main/java/com/indigobyte/maven/plugins/JavaGeneratorMojo.java:89-95 | keeping the messages with a context distributes over concatenation, so the init lines keep the catalog's order |
| JavaGeneratorMojo.InitLinesOne | src/main/java/com/indigobyte/maven/plugins/JavaGeneratorMojo.java:90-94 | a single message is an init line exactly when it has a context |
| JavaGeneratorMojo.ResolveAllAppends | src/main/java/com/indigobyte/maven/plugins/JavaGeneratorMojo.java:99-101 | resolving names one by one appends the non-empty ones |
| JavaGeneratorMojo.NonEmptyMembers | src/main/java/com/indigobyte/maven/plugins/JavaGeneratorMojo.java:99-101 | the appended names are exactly the non-empty ones |
| JavaGeneratorMojo.Normalize | src/main/java/com/indigobyte/maven/plugins/JavaGeneratorMojo.java:102 | the normalised path is normal: no ".", and no ".." after a name other than ".." |
| JavaGeneratorMojo.NormalizeIdempotent | src/main/java/com/indigobyte/maven/plugins/JavaGeneratorMojo.java:102 | normalising a normal path changes nothing, so normalising twice is normalising once |
| JavaGeneratorMojo.NormalizeFromAppend | src/main/java/com/indigobyte/maven/plugins/JavaGeneratorMojo.java:102 | normalising a + b is normalising a, then b onto the result |
| JavaGeneratorMojo.NormalizeFromPlain | src/main/java/com/indigobyte/maven/plugins/JavaGeneratorMojo.java:102 | names other than "." and ".." are appended as they are |
| JavaGeneratorMojo.NormalizeBelow | src/main/java/com/indigobyte/maven/plugins/JavaGeneratorMojo.java:97-102 | normalising outputDir followed by names without "." or ".." puts those names after the normalised outputDir |
| JavaGeneratorMojo.NonEmptyPlain | src/main/java/com/indigobyte/maven/plugins/JavaGeneratorMojo.java:98-101 | the non-empty pieces of a split on '.' are neither "." nor "..", and hold no '.' |
| JavaGeneratorMojo.PackageOf | src/main/java/com/indigobyte/maven/plugins/JavaGeneratorMojo.java:105-109 | the package is "" without a '.', otherwise the prefix of the resource name before its last '.' |
| JavaGeneratorMojo.TargetOf | src/main/java/com/indigobyte/maven/plugins/JavaGeneratorMojo.java:97-109 | a failure is only the missing class name; the class file sits in a normal directory and is className + ".java", with className a name without '.' followed by "_" and the language |
| JavaGeneratorMojo.Locate | src/main/java/com/indigobyte/maven/plugins/JavaGeneratorMojo.java:97-109 | the path loop, class name and package give the target, or the missing-class failure |
| JavaGeneratorMojo.TargetFails | src/main/java/com/indigobyte/maven/plugins/JavaGeneratorMojo.java:98-103 | there is no class name iff the resource name is a non-empty run of '.' |
| JavaGeneratorMojo.PiecesAtLastDot | src/main/java/com/indigobyte/maven/plugins/JavaGeneratorMojo.java:105-109 | the text before the last '.' is the pieces but the last, joined with '.' |
| JavaGeneratorMojo.TargetLayout | src/main/java/com/indigobyte/maven/plugins/JavaGeneratorMojo.java:97-109 | className is the last piece + "_" + language; the file is the normalised outputDir, then the non-empty pieces but the last, then className + ".java"; for a name not ending in '.', the package is the pieces but the last joined with '.' and gives the resource name back |
| JavaGeneratorMojo.NameRoundTrip | src/main/java/com/indigobyte/maven/plugins/JavaGeneratorMojo.java:98-107 | the package (text before the last '.') is the names before the last joined with '.', and package, '.' and the last name give back the resource name |
| JavaGeneratorMojo.TargetDirectories | src/main/java/com/indigobyte/maven/plugins/JavaGeneratorMojo.java:97-104 | the class file lies below the normalised outputDir, and every directory added there is a non-empty name without '.' |
| JavaGeneratorMojo.PluralFrom | src/main/java/com/indigobyte/maven/plugins/JavaGeneratorMojo.java:112-128 | the header-line loop fails only with the missing "plural=" error, and a formula it reads holds a '?' |
| JavaGeneratorMojo.PluralEval | src/main/java/com/indigobyte/maven/plugins/JavaGeneratorMojo.java:110-129 | the header-line loop computes pluralEval, or the missing "plural=" failure |
| JavaGeneratorMojo.PluralFromFails | src/main/java/com/indigobyte/maven/plugins/JavaGeneratorMojo.java:113-118 | the loop fails iff some Plural-Forms line lacks "plural=" |
| JavaGeneratorMojo.PluralFromUnchanged | src/main/java/com/indigobyte/maven/plugins/JavaGeneratorMojo.java:112-113 | without a Plural-Forms line the formula stays as it was |
| JavaGeneratorMojo.PluralFromSome | src/main/java/com/indigobyte/maven/plugins/JavaGeneratorMojo.java:119-126 | once a formula is read it stays non-null |
| JavaGeneratorMojo.PluralFromLast | src/main/java/com/indigobyte/maven/plugins/JavaGeneratorMojo.java:112-128 | on success the formula is that of the last Plural-Forms line |
| JavaGeneratorMojo.PluralEvalSpec | src/main/java/com/indigobyte/maven/plugins/JavaGeneratorMojo.java:110-129 | pluralEval is null iff there is no header or no Plural-Forms line; otherwise it is the formula of the last such line |
| JavaGeneratorMojo.Completed | src/main/java/com/indigobyte/maven/plugins/JavaGeneratorMojo.java:124-126 | the formula always holds '?' and keeps the text as a prefix; a text with a '?' is unchanged, and a text without one gets exactly "? 0 : 1" appended |
| JavaGeneratorMojo.DropSemicolon | src/main/java/com/indigobyte/maven/plugins/JavaGeneratorMojo.java:121-123 | the text is kept, or loses exactly one ';' at its end, and it loses one iff it ends with ';' |
| JavaString.Pieces | src/main/java/com/indigobyte/maven/plugins/JavaGeneratorMojo.java:98 | the string cut at each separator: at least one piece, none holding the separator |
| JavaString.PiecesJoin | src/main/java/com/indigobyte/maven/plugins/JavaGeneratorMojo.java:98 | joining the pieces with the separator gives the string back |
| JavaString.PiecesAppend | src/main/java/com/indigobyte/maven/plugins/JavaGeneratorMojo.java:98 | cutting at one separator first gives the same pieces |
| JavaString.PiecesAllEmpty | src/main/java/com/indigobyte/maven/plugins/JavaGeneratorMojo.java:98 | every piece is empty iff the string is made of the separator alone |
| JavaString.DropTrailingEmpty | src/main/java/com/indigobyte/maven/plugins/JavaGeneratorMojo.java:98 | String.split's removal of trailing empty strings: a prefix of the pieces, not ending with an empty one, and only empty pieces are dropped |
| JavaString.Split | src/main/java/com/indigobyte/maven/plugins/JavaGeneratorMojo.java:98 | String.split returns pieces without the separator |
| JavaString.SplitWhole | src/main/java/com/indigobyte/maven/plugins/JavaGeneratorMojo.java:98 | when the string does not end with the separator, split keeps every piece and re-joins to the string |
| JavaString.SplitEmpty | src/main/java/com/indigobyte/maven/plugins/JavaGeneratorMojo.java:98 | split returns no pieces iff the string is a non-empty run of the separator |
| JavaString.StartsWith | src/main/java/com/indigobyte/maven/plugins/JavaGeneratorMojo.java:113 | startsWith holds exactly when indexOf of the prefix is 0 |
| JavaString.IndexOf | src/main/java/com/indigobyte/maven/plugins/JavaGeneratorMojo.java:115 | the first position where the text occurs, or -1 iff it occurs nowhere |
| JavaString.IndexOfFrom | src/main/java/com/indigobyte/maven/plugins/JavaGeneratorMojo.java:115 | the first occurrence at or after from, or -1 iff there is none |
| JavaString.LastIndexOf | src/main/java/com/indigobyte/maven/plugins/JavaGeneratorMojo.java:105 | the last position of the character, or -1 iff it is absent |
| JavaString.Trim | src/main/java/com/indigobyte/maven/plugins/JavaGeneratorMojo.java:120 | the string without the leading and trailing characters up to ' ' |
| JavaString.TrimBothEnds | src/main/java/com/indigobyte/maven/plugins/JavaGeneratorMojo.java:120 | the trimmed text is empty or starts and ends with a character above ' ' |
| JavaString.TrimWithin | src/main/java/com/indigobyte/maven/plugins/JavaGeneratorMojo.java:120 | the trimmed text sits in the string between two runs of characters up to ' ' |
| Utils.Without | src/main/java/com/indigobyte/helper/Utils.java:14-15 | the remaining list is no longer than given |
| Utils.WithoutCount | src/main/java/com/indigobyte/helper/Utils.java:14-15 | an element of found is removed in every occurrence; any other keeps all of its occurrences |
| Utils.WithoutAppend | src/main/java/com/indigobyte/helper/Utils.java:14-15 | removal distributes over concatenation, so the order of given is kept |
| Utils.WithoutMembership | src/main/java/com/indigobyte/helper/Utils.java:14-15 | x remains iff it is in given and not in found |
| Utils.RemoveAll | src/main/java/com/indigobyte/helper/Utils.java:14-15 | removeAll on the copy leaves given without the elements of found |
| Utils.JoinedFromFront | src/main/java/com/indigobyte/helper/Utils.java:38-40 | the joined text is the first item, the delimiter, then the rest joined |
| Utils.JoinedAppend | src/main/java/com/indigobyte/helper/Utils.java:38-40 | joining a concatenation puts one delimiter between the two parts |
| Utils.JoinAffixed | src/main/java/com/indigobyte/helper/Utils.java:37-41 | the result is prefix, then the items' strings joined by the delimiter, then suffix |
| Utils.Join | src/main/java/com/indigobyte/helper/Utils.java:32-34 | the items' strings joined by the delimiter, with no prefix or suffix |
| Utils.CollectionToString | src/main/java/com/indigobyte/helper/Utils.java:21-29 | null gives "null", an empty collection "[empty collection]", otherwise the items joined with ", " |
| Utils.CollectionOfOne | src/main/java/com/indigobyte/helper/Utils.java:21-29 | a single element is shown alone |
| Utils.CreateMessage | src/main/java/com/indigobyte/helper/Utils.java:13-18 | "Given: " G ", found: " F ". Missing: " M, where M is given without the found elements |
| FormatExamples.ParseSingle | src/main/java/com/indigobyte/javautil/Formatter.java:4815-4841 | a string that is one whole match parses to its decoded specifier, or fails with its error |
| FormatExamples.PercentS | src/main/java/com/indigobyte/javautil/Formatter.java:5547-5591 | "%s" is one specifier: index 0, no flags, no width or precision, 's' |
| FormatExamples.PlainString | src/main/java/com/indigobyte/javautil/Formatter.java:5713-5743 | conversion() keeps 's' with default fields |
| FormatExamples.PlainDecimal | src/main/java/com/indigobyte/javautil/Formatter.java:5713-5743 | conversion() keeps 'd' with default fields |
| FormatExamples.PlainUpperString | src/main/java/com/indigobyte/javautil/Formatter.java:5727-5731 | conversion() turns 'S' into 's' with UPPERCASE |
| FormatExamples.PercentD | src/main/java/com/indigobyte/javautil/Formatter.java:5631-5635 | "%d" has index 0 |
| FormatExamples.PercentOneDMatch | src/main/java/com/indigobyte/javautil/Formatter.java:5617-5623 | "%1$d" is one whole match with group 1 "1$" and decodes to index 1 and 'd' |
| FormatExamples.PercentOneD | src/main/java/com/indigobyte/javautil/Formatter.java:5617-5623 | "%1$d" has index 1 |
| FormatExamples.ImplicitIndexIsNotExplicit | src/main/java/com/indigobyte/javautil/Formatter.java:5602 | "%d" and "%1$d" do not match |
| FormatExamples.UpperCaseS | src/main/java/com/indigobyte/javautil/Formatter.java:5727-5731 | "%S" is 's' with the UPPERCASE flag |
| FormatExamples.LeftJustifyWithoutWidth | src/main/java/com/indigobyte/javautil/Formatter.java:6130-6149 | "%-d" fails with MissingFormatWidth |
| FormatExamples.OneFlagMatch | src/main/java/com/indigobyte/javautil/Formatter.java:3924-3926 | '%', one flag other than '0' and a conversion character match as flags and conversion only, and the flag parses to its Flags value |
| FormatExamples.LeftJustifyPrinted | src/main/java/com/indigobyte/javautil/Formatter.java:6096-6127 | the specifier with '-', no width and 'd' prints back as "%-d" |
| FormatExamples.AlternateBoolean | src/main/java/com/indigobyte/javautil/Formatter.java:6130-6149 | "%#b" fails with FormatFlagsConversionMismatch on '#' |
| FormatExamples.IndexedLeftJustifiedMatch | src/main/java/com/indigobyte/javautil/Formatter.java:3924-3926 | "%1$-5d" is one match with index "1$", flags "-" and width "5" |
| FormatExamples.IndexedLeftJustifiedDecoded | src/main/java/com/indigobyte/javautil/Formatter.java:5547-5555 | that match decodes to index 1, '-', width 5 and 'd' |
| FormatExamples.IndexedLeftJustified | src/main/java/com/indigobyte/javautil/Formatter.java:5547-5555 | "%1$-5d" is index 1, '-', width 5 |
| FormatExamples.IndexedLeftJustifiedPrinted | src/main/java/com/indigobyte/javautil/Formatter.java:6096-6127 | that specifier prints as "%-1$5d", flags before the index |
| FormatExamples.FlagsBeforeIndexRejected | src/main/java/com/indigobyte/javautil/Formatter.java:4825-4833 | "%-1$5d" does not parse: its '%' is a stray UnknownFormatConversion("-") |
| FormatExamples.DateTimeUpperCaseMatch | src/main/java/com/indigobyte/javautil/Formatter.java:3924-3926 | "%Ta" is one match with date/time prefix 'T' and conversion 'a', and decodes to 'a' with dt and UPPERCASE |
| FormatExamples.DateTimeUpperCaseParsed | src/main/java/com/indigobyte/javautil/Formatter.java:5558-5572 | "%Ta" parses to one specifier: 'a' with dt and UPPERCASE |
| FormatExamples.DateTimeUpperCasePrinted | src/main/java/com/indigobyte/javautil/Formatter.java:6096-6127 | that specifier prints as "%TA" |
| FormatExamples.DateTimeUpperCase | src/main/java/com/indigobyte/javautil/Formatter.java:5558-5572 | "%Ta" keeps 'a' with dt and UPPERCASE, and prints as "%TA" |
| FormatExamples.ParsePair | src/main/java/com/indigobyte/javautil/Formatter.java:4815-4841 | two matches back to back parse to their two specifiers |
| FormatExamples.PlainMatch | src/main/java/com/indigobyte/javautil/Formatter.java:3924-3926 | '%' and a letter other than t/T match with no optional group, and decode with default fields |
| FormatExamples.StringThenDecimal | src/main/java/com/indigobyte/javautil/Formatter.java:4815-4841 | "%s%d" parses to 's' then 'd' |
| FormatExamples.DecimalThenString | src/main/java/com/indigobyte/javautil/Formatter.java:4815-4841 | "%d%s" parses to 'd' then 's' |
| FormatExamples.SpecsOfTwo | src/main/java/com/indigobyte/maven/plugins/PoValidator.java:87-90 | two specifier segments yield their two specifiers in order |
| FormatExamples.SpecifiersOfStringThenDecimal | src/main/java/com/indigobyte/maven/plugins/PoValidator.java:85-97 | the specifiers of "%s%d" are 's' then 'd' |
| FormatExamples.SpecifiersOfDecimalThenString | src/main/java/com/indigobyte/maven/plugins/PoValidator.java:85-97 | the specifiers of "%d%s" are 'd' then 's' |
| FormatExamples.ReorderedSpecifiers | src/main/java/com/indigobyte/maven/plugins/PoValidator.java:104-117 | "%s%d" and "%d%s" match |
| FormatExamples.StringTwice | src/main/java/com/indigobyte/javautil/Formatter.java:4815-4841 | "%s%s" parses to two 's' specifiers |
| FormatExamples.SpecifiersOfString | src/main/java/com/indigobyte/maven/plugins/PoValidator.java:85-97 | the specifiers of "%s" are one 's' |
| FormatExamples.SpecifiersOfStringTwice | src/main/java/com/indigobyte/maven/plugins/PoValidator.java:85-97 | the specifiers of "%s%s" are 's' twice |
| FormatExamples.OnceIsNotTwice | src/main/java/com/indigobyte/maven/plugins/PoValidator.java:104-117 | "%s" and "%s%s" do not match: the count of each specifier must agree |
| GeneratorExamples.SplitPackaged | src/main/java/com/indigobyte/maven/plugins/JavaGeneratorMojo.java:98-105 | "ui.Msg" splits into "ui" and "Msg", with its last '.' at 2 |
| GeneratorExamples.SplitOnePackage | src/main/java/com/indigobyte/maven/plugins/JavaGeneratorMojo.java:98 | pkg.Cls, for plain names pkg and Cls, splits into the two |
| GeneratorExamples.OnePackage | src/main/java/com/indigobyte/maven/plugins/JavaGeneratorMojo.java:97-109 | a resource name pkg.Cls of two plain names is class Cls_lang in package pkg, in the directory pkg below the normalised outputDir |
| GeneratorExamples.PackagedResource | src/main/java/com/indigobyte/maven/plugins/JavaGeneratorMojo.java:97-109 | "ui.Msg" in "en" is class Msg_en in package ui, written to out/ui/Msg_en.java |
| GeneratorExamples.TrailingDotResource | src/main/java/com/indigobyte/maven/plugins/JavaGeneratorMojo.java:97-109 | "a.b." is class b_en in package "a.b", written to a/b_en.java, since split drops the trailing empty piece |
| GeneratorExamples.SplitTrailingDot | src/main/java/com/indigobyte/maven/plugins/JavaGeneratorMojo.java:98 | "a.b." splits into ["a", "b"] and its last '.' is at 3 |
| GeneratorExamples.NormalizeDotDir | src/main/java/com/indigobyte/maven/plugins/JavaGeneratorMojo.java:65 | normalize drops the leading "." of ./i18n/generated, the output directory the usage text shows |
| GeneratorExamples.DotRelativeOutputDir | src/main/java/com/indigobyte/maven/plugins/JavaGeneratorMojo.java:65 | with outputDir ./i18n/generated, "ui.Msg" in "en" is written to i18n/generated/ui/Msg_en.java |

Some functions state nothing by themselves; the lemmas about them carry their
contracts:

- `Flags.Contains`, `Add`, `Remove` and `ToString` (Formatter.java:4996-5072): `FormatFlags.AddContains`, `RemoveContains`, `FlagToString`, `ToStringLists`.
- The `Conversion` predicates (Formatter.java:5170-5303): `Conversion.Categories`.
- `Decimal.ParseNat` (`Integer.parseInt`): `Decimal.ParseNatBounds`, `Decimal.ParseNatToString`.
- `FormatSpecifier.Decode` (the constructor) and `Convert` (`conversion()`): `NewFormatSpecifier`, `ConvertAndCheck`, `ConvertIndex` and the `Decode*` lemmas.
- `FlagOf`'s caller `FormatFlags.ParseFrom`: `ParseFromSucceeds`, `ParseFromContents`.
- The per-entry checks `PoValidator.TranslationCheck` (PoValidator.java:154-180), `FormCheck` (197-208), `FormsFrom` (195-209), `PluralFormsCheck` (186-210) and the entry loop `EntriesFrom` (137-211): `EntryVerdictAccepted`, `FormCheckAccepted`, `FormsFromAccepted`, `EntriesFromAccepted`, `ValidationAccepted`.
- `PoValidator.LoadCatalogOf` (PoValidator.java:218-239): `LoadCatalogSpec`, `LoadFromSucceeds`, `LoadFromContents`.
- `JavaGeneratorMojo.FormulaText`, `FormulaOf` and `PluralEvalOf` (JavaGeneratorMojo.java:110-129): `PluralEvalSpec`, `PluralFromLast`, `Completed`, `DropSemicolon`.
- `Formatter.ParseFound` (Formatter.java:4817-4840): `ParseRound`, `ParseFromFound`.

## Left out

- File reading and writing, and the jgettext `PoParser`: catalogs are given as sequences of message records in file order. `Files.createDirectories` and `Files.write` are not modelled.
- `JavaGenerator` (`addInitLine`, `getText`) is not part of this model. The model gives the header, init lines, package, class name and formula that would be handed to it.
- The Maven entry points (`execute`, `main`, the `skip` switches, logging, `System.err`), and the text of every exception message, are left out. Only the kind of error is modelled, and the wrapping of validation errors into one message is omitted.
- The four-argument `Utils.createMessage` that `validateFiles` calls is not part of this model; only the key-set comparison it reports on is modelled.
- Formatter's rendering machinery (`format`, the `print` overloads, locales, `BigDecimal`, calendars) is unreachable here and left out, and so are the render-time octal/hex flag checks.
- Formatter's constructors, `Appendable` handling, `close`/`flush` and the `Objects` helper class are I/O plumbing and are left out.
- `FormatSpecifier.hashCode` is left out: equal specifiers are equal values.
- Decimal: `Integer.parseInt` overflow for huge index, width or precision is not modelled; the numbers are unbounded naturals.
- `Flags` is modelled as a value, not a mutable object: every `Flags` the parser builds is fresh, so no update is visible through another reference.
- Conversion.ToLowerCase and Conversion.ToUpperCase handle ASCII letters only. The conversion letters the pattern accepts are ASCII, so nothing is lost.
- `MessageContextId` with a null context throws in `equals`. The model requires instead that only the first message without a context, which loadCatalog skips, lacks one (`PoValidator.ContextsGiven`).
- The `HashMap` iteration order of `validateFiles` is a parameter (`order`, any enumeration of the keys). `PoValidator.ValidationOrderIndependent` shows that whether validation passes does not depend on it. Which error is reported first may depend on it.
- Reading `msgstrPlural.get(0)` from a missing or empty plural list throws in Java (`NullPointerException` or `IndexOutOfBoundsException`). The model reports this as the error `PluralTranslationMissing`.
- A null `msgstr` or `msgid` is not modelled; the fields are strings. `getMsgstr()` on the header is taken as non-null.
- `Paths.get` and `path.normalize()`: a path is a relative sequence of names, and `outputDir` is given already split into names. `normalize` is modelled name by name (`JavaGeneratorMojo.Normalize`): "." is dropped, and ".." drops the name before it unless that is itself "..". A leading ".." is kept. The root of an absolute path, and a ".." directly below it, are not modelled. Splitting a path string at '/' is not modelled either, so a name containing '/' is one component.
- An exception other than `UnknownFormatConversionException` from `getFormatSpecifiers` escapes `validateFiles` without being wrapped. The model reports every parse exception alike, as `FormatParseError`.
- Strings are sequences of Dafny `char` (Unicode scalar values), while a Java `String` holds UTF-16 code units. Segment positions therefore count characters, not code units. A stray `%` before a supplementary character gives `UnknownFormatConversion` of the whole character in the model, where Java's `checkText` names only its high surrogate. Every character class of the specifier pattern is ASCII, so no verdict changes.
- JavaString.Trim: `String.trim` removes characters up to U+0020; the model's `IsSpace` is that test on `char`, with no Unicode white-space handling.
