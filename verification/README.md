# XSF core: keyword registry, stable hash text and diagnostic headers

This project models, in Dafny, the core helpers of the XSF parser (a Kotlin
library for a typed, keyword-tagged configuration format):

- **Keyword registry** (`Internal` in `XSFInternals.kt`): the `XSFKeywordFlag`
  bits, the alias table `keywordConversions`, the tag-to-type table `keywords`,
  the tag-to-flags table `keywordFlags`, and the two reserved-name lists
  `parseMask` and `specialChars`. Tables are Dafny maps and sequences, types
  are an enumeration, flags are `bv8` masks. `ResolveAlias`, `TypeOf`,
  `FlagsOf` and `HasFlag` read them. The strictness enumeration
  `XSFParseLevel` is the datatype `Registry.ParseLevel`.
- **Type-parameter lookup** (`extractClassParam`): bounds-checked indexing into
  the sequence of type arguments, returning a `Result` instead of throwing.
  A negative index passes the guard (`index >= size`) and fails in the
  list's own bounds check instead. The model keeps the two failures apart.
- **Stable hash text** (`getStableHash`): each digest byte is a signed Kotlin
  `Byte` formatted with `%02x`, and the results are joined. The model pairs the
  encoder with a decoder and proves that each undoes the other. The digest
  itself is a function parameter that returns 20 bytes.
- **Diagnostic headers** (`Error.kt`): what `DecoratedError` and
  `DecoratedWarning` print when constructed, as a sequence of text pieces and
  opaque terminal-style switches. It also models both `InvalidXSFFile`
  classes: the one in `Error.kt` decorates, and the one in `XSFInternals.kt`
  only prefixes its message. A reader, `ParseErrorHeader`, takes a printed
  error header apart. It is proved to be an exact inverse of the header text,
  so the tag, the verbatim message and the optional code can always be
  recovered. Warning headers keep spaces in their tag, and a lemma shows two
  different warnings that print the same line.

Modules: `Wrappers` (Option/Result), `Decimal` (Kotlin `Int` to text and back,
used by `"$index"` and `"<Code $code>"`), `Registry`, `TypeParams`, `Hex`,
`Diagnostics`.

Two facts about the Kotlin code shape the model:
- `"Group"` carries COLLECTION|TYPED in `keywordFlags` and has no entry in
  `keywords`.
- There are two `InvalidXSFFile` classes. The one in `Error.kt` prints
  `[ XSF-ERROR : message ]` and carries the raw message. The one in
  `XSFInternals.kt` prints nothing and carries `"[ XSF-ERROR] " + message`.
  Both are modelled (`Diagnostics.InvalidXSFFile`,
  `Diagnostics.LegacyInvalidXSFFile`).

## Model

| member | source | states |
|---|---|---|
| Registry.KeywordFlag.Value | Kotlin/XSF/XSFInternals.kt:64-69 | NONE's value is 0 and every other flag's value is a single one of the three low bits |
| Registry.FlagBitsDisjoint | Kotlin/XSF/XSFInternals.kt:64-69 | NONE, SKIP, COLLECTION and TYPED are 0, 1, 2 and 4, so each non-NONE flag is one bit and distinct flags share no bit |
| Registry.HasFlag | Kotlin/XSF/XSFInternals.kt:64-69 | NONE is never present, and any other flag is present exactly when its whole bit value is contained in the mask |
| Registry.Combine | Kotlin/XSF/XSFInternals.kt:107-109 | the OR of `A.value or B.value` sets the bit of every flag listed and no bit outside the three flag bits |
| Registry.HasFlagCombine | Kotlin/XSF/XSFInternals.kt:64-69 | OR-ing a list of flags and then testing a flag is true exactly when that flag is non-NONE and was in the list |
| Registry.ResolveAlias | Kotlin/XSF/XSFInternals.kt:74-77 | `Map` becomes `NamedMap` and `HashMap` becomes `NamedHMap`, the alias target of `keywordConversions`, which is a registered keyword; a non-alias passes through unchanged, and the result is never an alias |
| Registry.ResolveAliasIdempotent | Kotlin/XSF/XSFInternals.kt:74-77 | resolving twice equals resolving once |
| Registry.AliasTableWellFormed | Kotlin/XSF/XSFInternals.kt:74-93 | every alias target is a key of `keywords`; no alias source is a keyword or an alias target |
| Registry.AliasResolvesToTypedCollection | Kotlin/XSF/XSFInternals.kt:74-110 | `Map` and `HashMap` resolve to keywords that have a type and carry exactly COLLECTION and TYPED |
| Registry.TypeOf | Kotlin/XSF/XSFInternals.kt:82-93 | a type is found exactly for registered tags, and it is the type `keywords` maps the tag to |
| Registry.ScalarKeywordTypes | Kotlin/XSF/XSFInternals.kt:82-90 | `Object`, `String`, `Bool`, `Int`, `Short`, `Long`, `Double` and `Char` denote the object, string, boolean, int, short, long, double and char types |
| Registry.MapKeywordTypes | Kotlin/XSF/XSFInternals.kt:74-93 | the host names `Map` and `HashMap` reach the map and hash-map types through their aliases, and `"Group"` has no type |
| Registry.KeywordTypesDistinct | Kotlin/XSF/XSFInternals.kt:82-93 | two keywords with the same type are the same keyword |
| Registry.FlagsOf | Kotlin/XSF/XSFInternals.kt:98-110 | flags are found exactly for tags of `keywordFlags`, and use only the three flag bits |
| Registry.FlagTableValues | Kotlin/XSF/XSFInternals.kt:98-110 | as numbers, `"Object"` has flags 1, the seven scalar tags 0, and NamedMap, NamedHMap and Group 6 |
| Registry.KeywordTablesAgree | Kotlin/XSF/XSFInternals.kt:82-110 | every keyword has flags, and `"Group"` is the only flagged tag without a type |
| Registry.FlagTableShape | Kotlin/XSF/XSFInternals.kt:98-110 | `"Object"` has only SKIP, the seven scalar tags have no flag, NamedMap/NamedHMap/Group have COLLECTION and TYPED, SKIP never meets COLLECTION, and TYPED implies COLLECTION |
| Registry.ReservedNamesDisjoint | Kotlin/XSF/XSFInternals.kt:115-129 | `specialChars` is exactly `:`, `{`, `}`, `,`; it shares nothing with the keyword tags or `parseMask`; `parseMask` is exactly `equals`, `hashCode`, `toString` |
| TypeParams.ExtractClassParam | Kotlin/XSF/XSFInternals.kt:47-53 | succeeds exactly for `0 <= index < arity` with the argument at that position; `index >= arity` gives the guard's error, a negative index the list's bounds error |
| TypeParams.GuardMessage | Kotlin/XSF/XSFInternals.kt:48-50 | the guard's message starts with `Invalid type parameter index of `, ends in `!`, and the index can be read back from the text between |
| TypeParams.GuardFailureMessage | Kotlin/XSF/XSFInternals.kt:47-50 | an index at or past the arity fails with the guard's exception, whose message names that index |
| TypeParams.ExtractClassParamStable | Kotlin/XSF/XSFInternals.kt:47-53 | extra trailing arguments do not change the result for an index below the old arity |
| TypeParams.ExtractClassParamMap | Kotlin/XSF/XSFInternals.kt:47-53 | looking up after transforming every argument equals transforming the looked-up argument; errors are unchanged |
| Hex.FormatByte | Kotlin/XSF/XSFInternals.kt:31 | `%02x` yields two lower-case hex digits whose value is the byte read as unsigned (a negative byte plus 256) |
| Hex.Unsigned | Kotlin/XSF/XSFInternals.kt:31 | a signed byte is read as its value modulo 256, so a negative byte counts as 256 plus the byte |
| Hex.HexEncode | Kotlin/XSF/XSFInternals.kt:31 | the joined text has exactly two characters per byte, all in `[0-9a-f]` |
| Hex.HexDecodeEncode | Kotlin/XSF/XSFInternals.kt:27-31 | decoding the hex text gives back the original bytes |
| Hex.HexEncodeDecode | Kotlin/XSF/XSFInternals.kt:27-31 | any text the decoder accepts is the encoding of the bytes it returns |
| Hex.HexCodecBijective | Kotlin/XSF/XSFInternals.kt:27-31 | decoding a text to some bytes holds exactly when encoding those bytes gives the text |
| Hex.StableHash | Kotlin/XSF/XSFInternals.kt:27-32 | the hash is 40 lower-case hex characters that decode to the SHA-1 digest of the representation |
| Hex.StableHashInjective | Kotlin/XSF/XSFInternals.kt:27-32 | equal hash strings come from equal digests |
| Decimal.IntToString | Kotlin/XSF/Error.kt:13 | the rendering of an `Int` is non-empty, starts with `-` exactly for negatives, and is otherwise all digits |
| Decimal.ParseIntToString | Kotlin/XSF/Error.kt:12-14 | the code number printed in `<Code n>` reads back as `n` |
| Decimal.IntToStringOfParse | Kotlin/XSF/Error.kt:12-14 | any text the number reader accepts is the rendering of the number it returns |
| Decimal.IntToStringInjective | Kotlin/XSF/Error.kt:13 | distinct codes print differently |
| Diagnostics.UpperChar | Kotlin/XSF/Error.kt:8 | ASCII lower-case letters map to their upper-case letter; every other character is unchanged |
| Diagnostics.Uppercase | Kotlin/XSF/Error.kt:8 | upper-casing keeps the length and upper-cases each character |
| Diagnostics.ReplaceSpaces | Kotlin/XSF/Error.kt:8 | replacing keeps the length, turns each space into `-` and keeps every other character |
| Diagnostics.ErrorTag | Kotlin/XSF/Error.kt:7-9 | the error tag has the type's length, contains no space, and holds each character upper-cased or `-` for a space |
| Diagnostics.ErrorTagIdempotent | Kotlin/XSF/Error.kt:8 | normalising an already normalised tag leaves it unchanged |
| Diagnostics.WarningTag | Kotlin/XSF/Error.kt:26 | the warning tag holds each character of the type upper-cased, so it has a space exactly where the type has one |
| Diagnostics.WarningTagIdempotent | Kotlin/XSF/Error.kt:26 | a warning tag is already upper case: upper-casing it again leaves it unchanged |
| Diagnostics.BracketedVisible | Kotlin/XSF/Error.kt:7-9 | the red bold-bracketed block reads `[ body ]` once the style switches are dropped |
| Diagnostics.BracketedEmit | Kotlin/XSF/Error.kt:7-9 | the block prints ESC[31m ESC[1m `[` ESC[0m ESC[31m, a space, the body, a space, ESC[1m `]`, then what follows it |
| Diagnostics.CodePieces | Kotlin/XSF/Error.kt:12-14 | the code part prints ` <Code n>` when a code is given and nothing otherwise, with no style switch |
| Diagnostics.ErrorOutput | Kotlin/XSF/Error.kt:6-16 | the terminal receives exactly the three `print` texts in order (the escaped opening line with tag and message, ` <Code n>` when a code is given, the reset and two newlines), which read as newline, `[ TAG-ERROR : message ]`, the code suffix and two newlines |
| Diagnostics.WarningOutput | Kotlin/XSF/Error.kt:25-27 | the terminal receives ESC[31m, the `println` text with its newline, then ESC[0m; it reads `[ TYPE-WARNING : message ]` and one newline |
| Diagnostics.DecoratedError | Kotlin/XSF/Error.kt:4-17 | the throwable carries the raw message; the terminal receives the three `print` texts; the printed header reads back as the normalised tag, the verbatim message and exactly the given code |
| Diagnostics.DecoratedWarning | Kotlin/XSF/Error.kt:23-28 | the exception carries the raw message; the terminal receives the three texts of its `print`/`println`/`print`; the header upper-cases every character of the type without replacing spaces and uses `-WARNING : ` |
| Diagnostics.InvalidXSFFile | Kotlin/XSF/Error.kt:35 | the message is raw; the header reads `[ XSF-ERROR : message ]` with no code suffix |
| Diagnostics.LegacyInvalidXSFFile | Kotlin/XSF/XSFInternals.kt:25 | nothing is printed; the message is `[ XSF-ERROR] ` followed by the original message, which can be recovered |
| Diagnostics.ParseErrorHeaderComplete | Kotlin/XSF/Error.kt:7-14 | a header whose tag has no space reads back as its tag, message and code |
| Diagnostics.ParseErrorHeaderSound | Kotlin/XSF/Error.kt:7-14 | every text the reader accepts is exactly the header of the fields it returns, with a space-free tag |
| Diagnostics.ErrorHeaderInjective | Kotlin/XSF/Error.kt:7-14 | distinct tag/message/code triples with space-free tags print distinct headers |
| Diagnostics.WarningHeaderAmbiguous | Kotlin/XSF/Error.kt:26 | a warning of type `A` with message `X-WARNING : y` prints the same line as one of type `A-WARNING : X` with message `y` |

## Left out

- Reflection: `extractClass` (XSFInternals.kt:38-40) and the `.type?.classifier as KClass<*>` cast of `extractClassParam` are host type-system calls. The model indexes an abstract sequence of type arguments, so the cast failing for a star projection or a non-class classifier is not modelled.
- SHA-1, `obj.toString()` and `toByteArray()` are foreign library calls. `Hex.StableHash` takes the representation string and a digest function as parameters.
- Console output: printing is modelled as a returned sequence of pieces. `Render` gives the characters written, escape sequences included; `Visible` drops the style switches. `println` is taken to end a line with `\n`.
- The message of the list's own `IndexOutOfBoundsException` (negative index) is written by the host list, so `IndexError.Message` gives none for it.
- Diagnostics.Uppercase: upper-cases ASCII letters only. Kotlin's `uppercase()` also maps non-ASCII letters and can lengthen a string (`ß` becomes `SS`). The same restriction applies to Diagnostics.ErrorTag and Diagnostics.WarningTag.
- Registry.ReservedNamesDisjoint: `parseMask` and `specialChars` are public, mutable `ArrayList`s in Kotlin. The model fixes their initial contents as constant sequences, so the lemma speaks only of those contents.
- Kotlin class identities in `keywords` (`Object::class`, `Double::class`, ...) are replaced by the `SemanticType` enumeration.
- `XSFParseLevel` is modelled as an enumeration only. These files attach no behaviour to it, and the lexer, parser and strictness policy are not part of this model.
- Exceptions are values: `Result` failures for `extractClassParam`, and `Raised` records (message plus printed output) for the diagnostic classes. Throwing, catching and the class hierarchy are not modelled.
- Registry.HasFlag: the source has no flag-test function, so a flag counts as present when its bit is set. NONE is therefore never present.
- Flag values are `bv8` masks rather than Kotlin `Int`s. Every value in the table fits in three bits.
