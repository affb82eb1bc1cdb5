# json-canon: a verified model of the canonicalization pipeline

The repository turns JSON text into the canonical byte sequence of RFC 8785. This project models the
three components that do it and proves that together they compute what their documentation promises:

* the number formatter (`jcsfloat/jcsfloat.go`): Burger-Dybvig digit generation on exact integers and the
  layout rules of `Number::toString` (section 6.1.6.1.20 of ECMA-262);
* the strict parser (`jcstoken/token.go`): RFC 8259 grammar, I-JSON restrictions of RFC 7493 and seven bounds;
* the serializer (`jcs/serialize.go`): validation, string escaping, member order by UTF-16 code units, emission;

and the byte comparison of the `verify` command (`cmd/jcs-canon/main.go`).

## How it is organised

| file | content |
|---|---|
| `Bytes`, `Powers`, `Decimals` | bytes and failure classes; integer and real powers; digit strings and the decimals they denote |
| `Doubles` | binary64 values as an increasing sequence, their rounding intervals, round-to-nearest-even |
| `Shortest`, `Conversion` | digit generation as arithmetic, and its meaning over the reals |
| `Closest` | the printed decimal among all decimals of as few digits, at any place |
| `Tokens`, `Layout`, `NumberText`, `Forms` | number grammar, the four layouts, formatted doubles; the form of printed numbers by value alone |
| `DigitMachine` | the mutable digit state and the 30-byte digit buffer, refining `Shortest` |
| `Unicode`, `Strings`, `Numbers` | UTF-8 and UTF-16, string literals and escaping, number scanning |
| `Alphabet`, `CodeUnits`, `Spelling` | the characters of the grammar; code units against characters; canonical spelling without the table of escapes |
| `Values`, `Grammar` | value trees, measures and bounds; syntax trees that keep every byte |
| `Parsing`, `Parser` | parsing as a function with its exact relation to the grammar; the parser object refining it |
| `Unambiguous`, `Tightening`, `Room` | a text has one syntax tree; what narrower and wider bounds change |
| `Faults`, `Blame`, `Failures` | which failure a text of the grammar deserves; every reported failure is real |
| `Ordering`, `Canonical`, `Validation` | member order and sorting, canonical values and their text, validation |
| `CanonicalForm` | canonical text by rules on its syntax tree |
| `Serializer`, `Theorems`, `Growth` | the serializer's loops and entry points; the results about the whole pipeline; a number longer in the output than in the input |

Two layers meet in every component. The imperative layer has the source's own shape (an object with `pos`,
`depth` and `valueCount`; a pooled state of big integers; buffers, loops, an in-place sort), and each method is
proved equal to a function of its inputs, failure class included. The other layer knows nothing of the code:
rounding intervals of reals, the grammar as syntax trees with a text and a denotation, equivalence of values.
The lemmas connect the two.

Main results, for all inputs:

* Numbers. The formatted decimal is the shortest that rounds to the double, closest to it among all decimals of
  as few digits (not only those at its own place), ties to even; it has at most 17 digits and 25 bytes; reading
  it back gives the same double. Its text is the one number token of that value that is positional from 10^-6 up
  to 10^21, scientific elsewhere, and without anything superfluous. Digits come out right for exactly those
  estimates of the decimal exponent that are at most one too low.
* Parsing. A text is accepted exactly when it is the text of a well-formed tree within the bounds, and the
  result is what the tree denotes. The grammar is unambiguous, so each text has one such tree; and beyond the
  bounds the text is rejected for a bound and nothing else.
* Failures. Within the bounds, a text of the RFC 8259 grammar is rejected exactly for its first number that is no
  double, lone surrogate, noncharacter or repeated name, in the order of the text, and with that class. Conversely
  each reported class is real: a grammar failure is never reported for a text of the grammar, a bound only where
  some bound is not greater than the input is long, and a fault only where a text that begins like the input and
  then merely closes has that fault first.
* Parsing undoes serialization, under all bounds: exactly when the nesting, the length of the output and the
  length of its numbers are within what the parser allows; otherwise a bound is exceeded. Each of the three
  conditions has an input that shows it is needed.
* Canonical form is exact: same bytes if and only if equal up to member order and the sign of zero. Canonical text
  is also characterized by rules that do not mention the serializer: no space, every character as short as the
  grammar allows with lower-case digits, numbers in printed form, names in UTF-16 order.
* Canonicalization never fails after a successful parse. Canonicalizing its output again returns it unchanged
  exactly when the output and its numbers are short enough to be read, and otherwise exceeds a bound; with at
  least 25 characters allowed per number, as by default, only the length of the output matters. Verification
  accepts exactly the canonical texts within the bounds.

`MaxDepth` does not mean the same to both ends of the pipeline: the parser counts the outermost container as 1
(`jcstoken/token.go:249-251`), the serializer counts the root as 0 (`jcs/serialize.go:353`). The model keeps this,
and the results about round trips say what follows from it.

## Model

| member | source | states |
|---|---|---|
| Doubles.CellsDisjoint | jcsfloat/jcsfloat.go:206-229 | rounding intervals of distinct doubles share no real number, endpoints included |
| Doubles.RoundNearestEven | jcstoken/token.go:773-778 | the rounding used for reading numbers picks the nearest double, and the even one of two equally near |
| Doubles.RoundOverflow | jcstoken/token.go:779-783 | reading overflows exactly from the midpoint between the largest double and 2^1024 on |
| Doubles.Gap | jcsfloat/jcsfloat.go:206-229 | the decoded fields of consecutive encodings are consecutive doubles, one unit in the last place apart |
| Conversion.InitRepresents | jcsfloat/jcsfloat.go:231-276 | the initial integers stand for the double and the exact ends of its rounding interval, with the halved gap below a power of two |
| Conversion.GapIsCell | jcsfloat/jcsfloat.go:320-332 | a multiple of a decimal place satisfies the integer tests exactly when that decimal rounds to the double; endpoints count when the significand is even |
| Conversion.PrepareReady | jcsfloat/jcsfloat.go:278-318 | from every estimate at most one too low, scaling and the two fixups reach a state in range on which no termination test has fired and a further low fixup would not fire |
| Conversion.EstimateExact | jcsfloat/jcsfloat.go:165-180 | the digits and exponent are the printed decimal if and only if the estimate of the exponent is at most one too low |
| Conversion.EstimateMargin | jcsfloat/jcsfloat.go:464-481 | an estimate suffices whose power of ten reaches a sixth of the double: the rounded-up logarithm may be three quarters too low |
| Conversion.ReadyIsPositioned | jcsfloat/jcsfloat.go:300-318 | the exponent reached is the one with 10^(n-1) in or below the interval and 10^n above it |
| Conversion.PositionUnique | jcsfloat/jcsfloat.go:300-318 | only one exponent has that property |
| Conversion.ExponentRange | jcsfloat/jcsfloat.go:165-180 | printed exponents lie between -323 and 309 |
| Shortest.ExtractCorrect | jcsfloat/jcsfloat.go:334-367 | the digit loop returns digits without a trailing zero, in the interval, at the coarsest place that has a multiple there, nearest at that place and even on a tie |
| Shortest.LeadingDigit | jcsfloat/jcsfloat.go:334-367 | the first digit is not zero once the low fixup has stopped |
| Shortest.AtMost17Digits | jcsfloat/jcsfloat.go:334-367 | the digit loop stops after at most 17 digits on every state that comes from a binary64 significand |
| Shortest.FinalDigitBeats | jcsfloat/jcsfloat.go:398-423 | the last digit is no farther from the value than any other multiple in the interval, and even when equally far |
| Conversion.FewerDigits | jcsfloat/jcsfloat.go:165-180 | no decimal with fewer significant digits, at whatever exponent, rounds to the double |
| Conversion.ExtractIsShortest | jcsfloat/jcsfloat.go:334-367 | over the reals: the digits from a prepared state are the shortest decimal, nearest at its place |
| Conversion.GenerateIsShortest | jcsfloat/jcsfloat.go:165-180 | the whole of digit generation yields the shortest decimal in at most 17 digits |
| Conversion.ShortestUnique | jcsfloat/jcsfloat.go:165-180 | a double has exactly one shortest, nearest, ties-to-even decimal |
| Conversion.DecimalRoundTrip | jcsfloat/jcsfloat.go:165-180 | round-to-nearest-even of the printed decimal is the double it was printed from |
| Forms.LayoutForm | jcsfloat/jcsfloat.go:66-158 | the layout is positional exactly when the decimal lies in [10^-6, 10^21), with no trailing zero in a fraction; otherwise one nonzero digit before the point, mark e, an explicit sign and no leading zero in the exponent |
| Forms.FormUnique | jcsfloat/jcsfloat.go:66-158 | of all number tokens with one sign and value, one has that form |
| Forms.FractionExactly | jcsfloat/jcsfloat.go:92-126 | a positional number that is whole has no fraction |
| Forms.FormattedExactly | jcsfloat/jcsfloat.go:38-60 | the text of a nonzero double is that of a token exactly when the token has its sign, its printed decimal as value, and that form |
| Closest.ClosestOfAll | jcsfloat/jcsfloat.go:398-423 | no decimal of as few digits that rounds to the double is nearer, whatever its place; an equally near one makes the printed significand even |
| Closest.WideIsTiny | jcsfloat/jcsfloat.go:231-276 | only the nine smallest doubles have intervals spanning a factor of 10/9 |
| Closest.PowerOfTenInCell | jcsfloat/jcsfloat.go:231-276 | among those only the second smallest has a power of ten, 10^-323, with something a tenth smaller in its interval |
| DigitMachine.DigitState.InitScaledState | jcsfloat/jcsfloat.go:231-276 | the in-place initialization leaves the scaled fraction of the decoded double, whatever the pooled state held |
| DigitMachine.DigitState.ApplyLowFixup | jcsfloat/jcsfloat.go:300-318 | the low-fixup loop terminates in the state and exponent of the low fixup |
| DigitMachine.DigitState.TerminationConditions | jcsfloat/jcsfloat.go:382-394 | both tests are computed on the current state and change nothing but scratch values |
| DigitMachine.DigitState.PickFinalDigit | jcsfloat/jcsfloat.go:398-423 | the final digit by which tests fired, the midpoint rule when both did |
| DigitMachine.DigitState.FillDigits | jcsfloat/jcsfloat.go:334-362 | the loop writes exactly the shortest digits into the buffer and never outside it |
| DigitMachine.DigitState.ExtractDigits | jcsfloat/jcsfloat.go:334-367 | the returned text is the shortest digits and the exponent is unchanged: normalization never alters them |
| DigitMachine.CarryKeepsNumber | jcsfloat/jcsfloat.go:425-434 | moving a carry one place to the left keeps the number |
| DigitMachine.NormalizeDigitBuffer | jcsfloat/jcsfloat.go:425-449 | the value 0.digits * 10^n is kept, no trailing zero remains, and a buffer of digits with nonzero last digit is left as it is |
| DigitMachine.GenerateDigits | jcsfloat/jcsfloat.go:165-180 | returns the one printed decimal for every admissible estimate and every content of the pooled state |
| DigitMachine.FormatDouble | jcsfloat/jcsfloat.go:38-60 | given an admissible estimate of the exponent: NaN and infinities fail, both zeros print "0", anything else prints the layout of its printed decimal |
| Layout.LayoutPreservesValue | jcsfloat/jcsfloat.go:66-158 | in all four layouts the token denotes exactly 0.digits * 10^n |
| Layout.CanonicalTokenWellFormed | jcsfloat/jcsfloat.go:66-158 | every layout is a number of the grammar in section 6 of RFC 8259 |
| Theorems.LayoutTextInjective | jcsfloat/jcsfloat.go:66-158 | the text determines sign, digits and exponent |
| Layout.LayoutLength | jcsfloat/jcsfloat.go:66-158 | at most 25 bytes for at most 17 digits and the exponents of doubles |
| Layout.DigitsOfCorrect | jcsfloat/jcsfloat.go:142-158 | the exponent is written as its decimal digits without a leading zero |
| Layout.AppendInt | jcsfloat/jcsfloat.go:142-158 | appends exactly the decimal digits of the exponent |
| Layout.FormatEcma | jcsfloat/jcsfloat.go:66-90 | the branches and appends produce the text of the layout's token |
| NumberText.FormattedLength | jcsfloat/jcsfloat.go:38-60 | every finite double is formatted in at most 25 bytes |
| NumberText.FormattedTokenReadsBack | jcsfloat/jcsfloat.go:38-60 | the formatted number rounds to the magnitude that was formatted, and is zero only for zero |
| Theorems.FormatInjective | jcsfloat/jcsfloat.go:38-60 | two finite doubles print the same text exactly when they are equal or both zero |
| Unicode.ValidIffEncoding | jcstoken/token.go:159-163 | valid UTF-8 is exactly what encodes a sequence of scalar values |
| Unicode.DecodeEncoded | jcstoken/token.go:491-507 | decoding an encoded scalar value returns it with its width, whatever follows |
| Unicode.EncodeDecoded | jcstoken/token.go:491-507 | a successfully decoded rune is a scalar value and re-encodes to the bytes it was read from |
| Unicode.Key16Injective | jcs/serialize.go:220-228 | distinct valid keys have distinct UTF-16 code units |
| Unicode.AsciiKey16 | jcs/serialize.go:222-226 | the code units of an ASCII key are its bytes |
| CodeUnits.Utf8Increasing | jcstoken/token.go:482-507 | UTF-8 keeps the order of scalar values, whatever follows |
| CodeUnits.Utf16Units | jcs/serialize.go:220-228 | every unit is below 2^16; one unit below U+10000, and above it a high and a low surrogate that hold the scalar value in ten bits each |
| CodeUnits.KeyOrderByRunes | jcs/serialize.go:265-306 | names are ordered by their characters: in code point order, except that what lies above U+FFFF comes before U+E000 to U+FFFF |
| CodeUnits.SupplementaryFirst | jcs/serialize.go:265-306 | a name that begins above U+FFFF precedes one that begins in U+E000 to U+FFFF, although its bytes are greater |
| CodeUnits.PairIsUtf16 | jcstoken/token.go:532-572 | a pair of escapes is the UTF-16 of the character it denotes |
| CodeUnits.EveryPair | jcstoken/token.go:532-572 | every character above U+FFFF that strings may hold is denoted by some pair |
| Alphabet.NoncharactersAre | jcstoken/token.go:642-658 | the noncharacters are U+FDD0 to U+FDEF and the last two code points of each of the seventeen planes |
| Alphabet.ShortEscapesAre | jcstoken/token.go:574-596 | the letters of short escapes and what each denotes |
| Strings.FastPathRefinesGeneral | jcstoken/token.go:433-507 | the ASCII fast path accepts what the general loop accepts from the opening quote, with the same bytes and end, and fails alike unless the leading run alone is too long |
| Strings.PathsAgreeExactly | jcstoken/token.go:433-507 | the two paths agree in full, failure class included, exactly when the leading run is within the bound, is closed by its quote, or is followed by a character read without fault |
| Strings.PathsFailDifferently | jcstoken/token.go:437-481 | an instance of disagreement: a control character after an over-long run is a grammar failure on the fast path and a bound exceeded in the general loop |
| Strings.StringBodyComplete | jcstoken/token.go:428-572 | every well-formed literal within the bound is scanned to the string it denotes, stopping at its closing quote |
| Strings.StringBodySound | jcstoken/token.go:428-572 | whatever is accepted is a well-formed literal (no lone surrogate, no noncharacter, no raw control) within the bound, decoded to what it denotes |
| Strings.DenotedIsClean | jcstoken/token.go:630-658 | accepted strings are valid UTF-8 without noncharacters |
| Strings.EscapedIsCanonical | jcs/serialize.go:121-193 | escaping writes one canonical item per scalar value, and the items denote the string |
| Spelling.SpellingExact | jcs/serialize.go:139-180 | an item is the canonical one exactly when no spelling of its character is shorter and its digits are in lower case |
| Spelling.EscapedShortest | jcs/serialize.go:121-137 | no literal for a string is shorter than the one written |
| Spelling.EscapedExactly | jcs/serialize.go:121-193 | a literal is the one written for its string exactly when every character in it is spelled canonically |
| Strings.StringRoundTrip | jcs/serialize.go:121-193 | scanning a serialized string consumes exactly it and returns the original bytes |
| Numbers.TokenComplete | jcstoken/token.go:660-771 | every number token of the grammar followed by no continuation is scanned whole, when within the length bound |
| Numbers.TokenSound | jcstoken/token.go:660-771 | what the scanner takes is a token of the grammar within the length bound |
| Numbers.TokenTextInjective | jcstoken/token.go:660-771 | a text is the text of at most one number token |
| Numbers.ZeroTokenExact | jcstoken/token.go:797-815 | the lexical zero test holds exactly for tokens whose value is zero |
| Numbers.BuildNumberOutcome | jcstoken/token.go:773-795 | a token yields its correctly rounded double, or overflow, negative zero or underflow, by its exact real value |
| Numbers.NumberComplete | jcstoken/token.go:660-795 | a token in its place yields that outcome and the input after it |
| Numbers.NumberSound | jcstoken/token.go:660-795 | an accepted number is the rounding of an accepted token |
| Values.HeightWithinNesting | jcs/serialize.go:347-356 | the parser's count of nesting is the serializer's or one more |
| Grammar.DenoteIsValid | jcstoken/token.go:262-420 | what a well-formed tree denotes has finite numbers, clean strings and distinct names |
| Parsing.ValueComplete | jcstoken/token.go:262-420 | the text of every well-formed tree within the bounds parses to its denotation; the value count grows by exactly the nodes of the tree |
| Parsing.ValueSound | jcstoken/token.go:262-420 | an accepted value is the text of a well-formed tree within the depth, count, size and length bounds; the count grows by exactly its nodes |
| Parsing.DerivedIsParsed | jcstoken/token.go:150-188 | every document of the grammar within the bounds and the input size is accepted with its denotation |
| Parsing.ParsedIsDerived | jcstoken/token.go:150-188 | every accepted input is the text of such a document |
| Parsing.AcceptanceExact | jcstoken/token.go:150-188 | acceptance and result characterized: if and only if some document of the grammar within the bounds has this text and this value |
| Parsing.DenotationUnique | jcstoken/token.go:150-188 | two documents with one text denote one value |
| Unambiguous.ItemUnique | jcstoken/token.go:511-572 | a character of a literal is written by one item only: raw, short escape, \u escape or surrogate pair |
| Unambiguous.ValueUnique | jcstoken/token.go:262-420 | two values of the grammar with one text, whatever may follow them, are one syntax tree and leave the same rest |
| Unambiguous.DerivationUnique | jcstoken/token.go:150-188 | a JSON text has one derivation, down to its space and its escapes |
| Tightening.TextCut | jcstoken/token.go:150-188 | narrower bounds keep the outcome, success or failure, or exceed a bound |
| Tightening.GrammaticalOutcome | jcstoken/token.go:150-188 | a text of the grammar parses to what its derivation denotes if that is within all bounds, and otherwise exceeds a bound |
| Faults.OutcomeExact | jcstoken/token.go:150-188 | every text of the grammar within the bounds is accepted, or rejected with the class of its first fault in the order of the text |
| Faults.OutcomeAlways | jcstoken/token.go:150-188 | beyond the bounds it has that outcome or exceeds a bound |
| Faults.Faultless | jcstoken/token.go:262-420 | a tree of the grammar is without fault exactly when it is well-formed |
| Faults.DuplicatesReported | jcstoken/token.go:326-328 | a document within the bounds that is well-formed in everything but its names is accepted if every object's names are distinct after unescaping, and otherwise reported for a duplicate |
| Faults.StringFault | jcstoken/token.go:428-572 | a literal with a lone surrogate or a noncharacter is rejected for the first of them, with its class |
| Faults.GrammarFailuresAreReal | jcstoken/token.go:150-188 | a grammar or encoding failure is never reported for a text of the grammar |
| Blame.FaultIsReal | jcstoken/token.go:150-188 | for a reported number, character or repeated name there is a text of the grammar that begins like the input, then only closes, and has that first fault |
| Room.BoundIsReal | jcstoken/token.go:150-188 | a bound is reported only if some bound is not greater than the input is long |
| Failures.FailureMeans | jcstoken/token.go:150-188 | the meaning of every failure class, and that there are no others |
| Failures.GrammarReported | jcstoken/token.go:150-188 | under bounds longer than the input, text that is not of the grammar and has no fault before is a grammar failure |
| Parsing.TextIsUtf8 | jcstoken/token.go:159-163 | every text of the grammar is valid UTF-8 |
| Parsing.ValueKeepsBoundaries | jcstoken/token.go:491-500 | parsing from a character boundary ends on one and never fails for encoding: the in-string encoding checks cannot fire |
| Parsing.EncodingRejectedExactly | jcstoken/token.go:150-163 | the encoding failure is reported exactly for input within the size bound that is not UTF-8 |
| Parser.ParseWithOptions | jcstoken/token.go:150-188 | the parser object returns the specified value or the specified failure class for every input and options |
| Parser.Parser.ParseValue | jcstoken/token.go:262-290 | result, position and count as specified, depth restored on success, position never moves back, recursion terminates on the remaining input |
| Parser.Parser.ParseObject | jcstoken/token.go:292-367 | likewise for objects, with depth pushed and popped |
| Parser.Parser.ParseBraced | jcstoken/token.go:298-366 | the part of object parsing whose depth is given back on every path |
| Parser.Parser.ParseMemberName | jcstoken/token.go:315-336 | a name not seen before in this object after unescaping, then a colon |
| Parser.Parser.ParseObjectMembers | jcstoken/token.go:315-366 | the member loop, its set of seen names being exactly the names of the members read |
| Parser.Parser.ParseArray | jcstoken/token.go:369-420 | likewise for arrays |
| Parser.Parser.ParseBracketed | jcstoken/token.go:375-420 | the part of array parsing whose depth is given back on every path |
| Parser.Parser.ParseString | jcstoken/token.go:428-508 | fast path and general loop as specified |
| Parser.Parser.ParseUnicodeEscape | jcstoken/token.go:532-572 | surrogate pairs, lone surrogates and malformed escapes as specified |
| Parser.Parser.ReadHexDigits | jcstoken/token.go:598-614 | four hexadecimal digits accumulate to their value, or the escape is malformed |
| Parser.Parser.ParseNumber | jcstoken/token.go:660-692 | scanning and conversion as specified |
| Parser.Parser.RepresentsZero | jcstoken/token.go:797-815 | the two loops decide the lexical zero test |
| Ordering.KeyOrderStrictTotal | jcs/serialize.go:265-284 | the order of names is irreflexive, asymmetric, transitive and total on distinct valid names |
| Ordering.CompareUtf16Units | jcs/serialize.go:286-306 | the loop decides the lexicographic order of code units |
| Ordering.CompareSortKeys | jcs/serialize.go:265-284 | every combination of ASCII and other keys is compared by UTF-16 code units |
| Ordering.SortSorted | jcs/serialize.go:229-231 | sorted members with distinct valid names are strictly increasing |
| Ordering.SortedUnique | jcs/serialize.go:229-231 | only one strictly increasing sequence has given members: the result does not depend on the sort or on the order of its input |
| Serializer.SortSlice | jcs/serialize.go:229-231 | sorts the array of members in place: strictly increasing names, the same members |
| Canonical.CanonCorrect | jcs/serialize.go:79-244 | what is emitted for a valid value is the text of a well-formed tree that denotes its canonical value |
| Canonical.CanonMeasures | jcs/serialize.go:215-244 | sorting at every level changes no count, nesting or bound |
| Canonical.CanonTokensFit | jcs/serialize.go:100-106 | the tokens of canonical text are within a length exactly when the formatted numbers of the value are |
| Canonical.NumbersFitIn25 | jcs/serialize.go:100-106 | no number in any tree needs more than 25 bytes |
| Canonical.EquivalentIffOneCanon | jcs/serialize.go:215-244 | valid values are equal up to member order and the sign of zero exactly when their canonical values are equal |
| Validation.ValidateValueTree | jcs/serialize.go:347-411 | outcome and value count as specified, first failure first |
| Validation.ValidateString | jcs/serialize.go:413-432 | the checks and the loop over runes as specified |
| Validation.CheckStringExact | jcs/serialize.go:413-432 | passes exactly valid UTF-8 without noncharacters within the bound |
| Validation.ValidateExact | jcs/serialize.go:347-411 | accepts exactly the valid trees within the bounds, depth counted from 0 at the root, and counts their values |
| Validation.ValidateBlames | jcs/serialize.go:347-432 | a failure is a bound that is exceeded or names a flaw that the tree has |
| Validation.OnlyFlawReported | jcs/serialize.go:347-432 | a tree within the bounds with flaws of one class is rejected with that class |
| Serializer.AppendEscapedByte | jcs/serialize.go:139-161 | exactly the bytes that must be escaped are consumed, each as the text of its canonical item |
| Serializer.SerializeString | jcs/serialize.go:121-137 | appends the quoted string and keeps what was there |
| Serializer.SerializeNumber | jcs/serialize.go:100-106 | appends the formatted double or fails as formatting does |
| Serializer.SerializeArray | jcs/serialize.go:195-210 | appends the emission of the array, elements in their order |
| Serializer.SerializeObject | jcs/serialize.go:215-244 | appends the emission of the object, members in the order of their names |
| Serializer.SerializeValue | jcs/serialize.go:79-98 | appends the emission of any value, recursion included |
| Serializer.ValidIsOrderable | jcs/serialize.go:215-231 | after validation the order of members is determined at every level |
| Serializer.SerializeInto | jcs/serialize.go:61-77 | validation, then emission; existing bytes are kept |
| Serializer.Serialize | jcs/serialize.go:51-53 | the same under the default bounds |
| Serializer.CanonicalizeWithOptions | jcs/serialize.go:37-45 | parse, validate, emit, with the failure of the first that fails |
| Serializer.Canonicalize | jcs/serialize.go:25-32 | the same under the default bounds |
| Serializer.VerifyCanonical | cmd/jcs-canon/main.go:135-186 | passes when the canonical bytes equal the input, and otherwise gives the failure |
| Theorems.SerializesExactly | jcs/serialize.go:61-77 | serialization succeeds exactly on valid trees within the bounds |
| Theorems.RoundTripExact | jcs/serialize.go:61-98 | for every tree that serializes, under all bounds: its text parses to the canonical value if and only if nesting, length and number lengths are within the parser's bounds, and otherwise exceeds a bound |
| Theorems.RoundTrip | jcs/serialize.go:61-98 | with 25 characters allowed per number, nesting and length decide |
| Theorems.ParsesOnlyToCanon | jcs/serialize.go:61-98 | under any bounds whatever, canonical text parses to the canonical value or not at all |
| Theorems.SerializableButNotParsable | jcs/serialize.go:353-356 | under bounds that allow more values than levels, a tower of nested arrays that serializes and exceeds a bound when parsed back |
| Theorems.ExtraLevelExactly | jcs/serialize.go:353-356 | where arrays may have an element, a tree that serializes but is nested too deep for the parser exists if and only if more values than levels are allowed |
| Theorems.AtMostOneLevelDeeper | jcstoken/token.go:249-256 | a serializable tree is nested at most one level deeper than the parser allows |
| Theorems.EmitOfCanon | jcs/serialize.go:79-244 | a valid value and its canonical value are emitted alike |
| Theorems.CanonicalExact | jcs/serialize.go:79-244 | valid trees have one text if and only if they are equal up to member order at every level and the sign of zero |
| Theorems.SerializationExact | jcs/serialize.go:55-77 | the same for outputs of the serializer under any bounds |
| Theorems.ParserOutputSerializes | jcs/serialize.go:37-45 | whatever parses passes validation under the same bounds and serializes; canonicalization fails only where parsing does |
| Theorems.IdempotentExactly | jcs/serialize.go:25-45 | under all bounds, canonicalizing an output returns it unchanged if the output is within the input size and its numbers within the number length, and otherwise exceeds a bound |
| Theorems.Idempotent | jcs/serialize.go:25-45 | with 25 characters allowed per number, the length of the output decides |
| Growth.GrownOutput | jcs/serialize.go:37-45 | under any bounds that admit 1e20, its output of 21 bytes is canonicalized again exactly when 21 bytes of input and of number are allowed |
| Growth.OutputTooLongToReadBack | jcs/serialize.go:37-45 | with an input size of 4, the output of 1e20 is too long to be canonicalized again |
| Growth.NumberTooLongToReadBack | jcs/serialize.go:37-45 | with a number length of 4 and the default input size, the output of 1e20 is not canonicalized again |
| Theorems.VerifyExact | cmd/jcs-canon/main.go:148-156 | input verifies if and only if it is the canonical text of some tree within the default bounds |
| CanonicalForm.FormExact | jcs/serialize.go:79-244 | a well-formed tree meets the rules (no space, canonical spelling, printed numbers, names in order) exactly when it is the tree written for its value |
| CanonicalForm.WrittenExactly | jcs/serialize.go:79-244 | a document is the text of a value exactly when it meets the rules and denotes the canonical value |
| CanonicalForm.VerifiesByForm | cmd/jcs-canon/main.go:148-156 | input verifies if and only if it has a derivation within the default bounds that meets the rules |
| CanonicalForm.VerifyOutcome | cmd/jcs-canon/main.go:135-157 | the whole outcome: the parse failure, a pass, or not canonical |
| Theorems.CanonicalOutputVerifies | cmd/jcs-canon/main.go:148-156 | every canonical output within the default input size verifies, and a longer one fails for its size |
| Theorems.CanonicalizationDecidesEquivalence | jcs/serialize.go:25-45 | two accepted inputs canonicalize to the same bytes if and only if they denote equivalent values |

## Left out

- Strings.FastPathRefinesGeneral: promises equal failure classes only for a leading run within the bound, because the code reports other faults after an over-long run differently on the two paths; `Strings.PathsAgreeExactly` says when.
- DigitMachine.FormatDouble: takes the estimate of the exponent as a parameter, because the floating-point logarithm in `estimateK` is not modelled; what the estimate must satisfy is exactly what digit generation needs (`Conversion.EstimateExact`), and the margin left to the logarithm is stated (`Conversion.EstimateMargin`).
- Numbers.BuildNumberOutcome: the standard library's `ParseFloat` is not modelled but specified as round-to-nearest, ties-to-even on the exact value of the token; its syntax-error branch cannot be reached from a scanned token.
- The cache of powers of ten and the sharing of the digit state through `sync.Pool` between goroutines; one call works on a state of arbitrary content.
- `sort.Slice` is replaced by an insertion sort in place; by `Ordering.SortedUnique` any sort that meets the contract of `Serializer.SortSlice` gives the same output.
- Byte offsets and message texts of failures: a failure is its class.
- Capacity, growth and aliasing of byte slices: buffers passed and returned by value are sequences, while the digit buffer and the array of members are arrays updated in place.
- The nil value passed to the serializer, and the wrapping of key failures, which keeps the class.
- Bit patterns of doubles: a double is NaN, an infinity, or a sign and the low 63 bits; the decoded fields are computed from those.
- `parseString`, `parseObject`, `parseArray`, `extractDigits` and `normalizeDigitBuffer` are each split into a few methods, and the loops over digits in the number scanner share one method; the sequence of steps is the same.
- Go maps of seen names are sets; the offset of the first occurrence is dropped.
- `Layout.FormatEcma` and the append methods carry the digits also as a ghost sequence of numbers.
- The command line apart from the comparison in `verify`: flags, streams, exit codes, and the reading of input up to the size bound.
- The offline evidence tools, release gates, archives and hashing: process execution and independent field checks.
