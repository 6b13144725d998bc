# String calculator parsing, modelled in Dafny

This project models the parsing core of a "string calculator". The core turns an input such as
`"//[*][!!]\n1*2!!3"` into the list of numbers the calculator adds up. Its three operations are the
ones exercised by `src/utils/parse-util.test.js`:

* `parseIntoTokens`: splits a string into tokens at delimiters. The default delimiters are `,` and
  newline. Empty tokens are kept at both ends and between adjacent delimiters.
* `convertToNum`: turns one token into a number.
  * A token made only of decimal digits gives its value, or 0 when the value is above 1000.
  * A negative literal (`-` followed by digits) raises an error.
  * Anything else gives 0: words, exponents, decimals, hexadecimal, mixed text and the empty token.
* `parseStringToNums`: reads an optional delimiter header, tokenizes the rest with the declared
  delimiters and converts every token. The header has one of two forms:
  * `//c\n`, declaring a single character `c`;
  * `//[d1][d2]...\n`, declaring one or more delimiters of any length.

The modules follow the program's structure:

| file | module | models |
|---|---|---|
| `wrappers.dfy` | `Wrappers` | `Option` and `Result`, the error path of the JavaScript code |
| `tokenizer.dfy` | `Tokenizer` | `parseIntoTokens` over any delimiter set (longest match wins at each position) |
| `number_converter.dfy` | `NumberConverter` | `convertToNum` |
| `delimiter_extractor.dfy` | `DelimiterExtractor` | reading the delimiter header off the front of the input |
| `string_calculator.dfy` | `StringCalculator` | `parseStringToNums`: header, then tokens, then conversion |
| `test_vectors.dfy` | `ParseUtilExamples` | every equation of `parse-util.test.js`, proved about the model |

The code is pure (functions over strings), so the model is made of functions and lemmas. A thrown
`Error` becomes `Failure(InvalidArgument)`. A returned array becomes `Success(values)`.

The header rules the tests fix, and that the model follows:

* A header opening with `//[` ends at the first `]` followed by a newline.
  * The text between `//[` and that `]` is split on `][` into entries.
  * Empty entries are dropped.
  * When no entry is left, the default delimiters apply and the header is still removed.
  * When no `]` followed by a newline exists, the input has no header. It is then tokenized whole
    with the default delimiters, so `"//[][\n123"` gives `[0, 123]`.
* `//c\n` with `c` not `[` declares the single delimiter `c`. The newline itself can be declared this
  way.
* Any other text starting with `//` is not a header. In particular:
  * a two-character unbracketed declaration (`"//**\n1**2"`) is not a header;
  * a declaration with no character (`"//\n12"`) is not a header.

  Such input is tokenized whole with the defaults, and its first token converts to 0. The tests at
  `src/utils/parse-util.test.js:64-69` rule out both forms as headers, and the model follows them.

## Model

| member | source | states |
|---|---|---|
| Tokenizer.MatchLength | src/utils/parse-util.test.js:4-13 | the delimiter recognised at the front of the text is a member of the delimiter set, and no longer delimiter of the set also starts there |
| Tokenizer.Tokens | src/utils/parse-util.test.js:4-13 | there is always at least one token (`""` gives `[""]`), and the first token is a prefix of the input. ScanOfTokens and ScanUnique state the split exactly |
| Tokenizer.Separators | src/utils/parse-util.test.js:4-13 | every delimiter found while splitting is a non-empty member of the delimiter set |
| Tokenizer.TokensRebuild | src/utils/parse-util.test.js:4-13 | there is one more token than separators, and putting the separators back between the tokens rebuilds the input exactly: nothing is lost, reordered or invented |
| Tokenizer.TokensAvoidDelimiters | src/utils/parse-util.test.js:4-13 | no token contains any non-empty delimiter of the set |
| Tokenizer.TokensOfInterleave | src/utils/parse-util.test.js:4-13 | the inverse of TokensRebuild, under two conditions. First, no character of any token is the first character of a non-empty delimiter. Second, no two different delimiters share a first character. Then joining the tokens with non-empty members of the set, and splitting again, gives back exactly those tokens |
| Tokenizer.TokensCons | src/utils/parse-util.test.js:6-12 | a token followed by a non-empty member of the set becomes its own token, and splitting goes on after that member. This needs two conditions: no character of the token is the first character of a non-empty delimiter, and no two different delimiters share a first character |
| Tokenizer.TokensPlain | src/utils/parse-util.test.js:5-7 | text none of whose characters is the first character of a non-empty delimiter is a single token (`"20"` gives `["20"]`, `""` gives `[""]`); nothing is required of the delimiter set |
| Tokenizer.ScanOfTokens | src/utils/parse-util.test.js:4-13 | the split follows the scanning rule. No delimiter starts at any position inside a token. After each token, the separator is the longest delimiter starting there |
| Tokenizer.ScanUnique | src/utils/parse-util.test.js:4-13 | any split that follows the scanning rule is exactly the tokens and separators produced, so the rule determines the split |
| Tokenizer.SeparatorsAfterPlain | src/utils/parse-util.test.js:4-13 | text at none of whose positions a delimiter starts adds no separator in front of the rest |
| Tokenizer.DefaultTokenCount | src/utils/parse-util.test.js:7-12 | with the default delimiters, the number of tokens is the number of commas plus the number of newlines plus one, so empty tokens are kept |
| Tokenizer.DefaultSeparatorsAreCommas | src/utils/parse-util.test.js:6-10 | without a newline in the text, every separator found with the default delimiters is a comma |
| Tokenizer.CommaSplitWithoutNewline | src/utils/parse-util.test.js:6-10 | without a newline, the tokens joined with commas give back the input, no token contains a comma, and there is one more token than commas |
| NumberConverter.Decimal | src/utils/parse-util.test.js:24-26 | the decimal rendering of a number is a non-empty string of digits |
| NumberConverter.ConvertToNum | src/utils/parse-util.test.js:23-43 | fails exactly on a negative literal; a digit string converts to its value when that is at most 1000 and to 0 otherwise; any other token converts to 0; a success is never above 1000 |
| NumberConverter.ValueOfDecimal | src/utils/parse-util.test.js:24-25 | reading back the decimal rendering of any number gives that number |
| NumberConverter.ConvertDecimal | src/utils/parse-util.test.js:24-26 | every number written in decimal converts to itself up to 1000 and to 0 above |
| NumberConverter.ConvertNonNumeric | src/utils/parse-util.test.js:27-32 | a token with a non-digit character that is not a negative literal converts to 0 |
| NumberConverter.ConvertExamples | src/utils/parse-util.test.js:23-43 | the nine conversion examples and the error raised for `"-1"` |
| DelimiterExtractor.FindClose | src/utils/parse-util.test.js:84-86 | finds the first `]` followed by a newline at or after a position, or reports that there is none |
| DelimiterExtractor.NonEmpty | src/utils/parse-util.test.js:81-83 | keeps exactly the non-empty declared delimiters |
| DelimiterExtractor.Entries | src/utils/parse-util.test.js:89-106 | the entries read from a bracketed header are all non-empty |
| DelimiterExtractor.ExtractDelimiters | src/utils/parse-util.test.js:54-109 | always yields at least one delimiter, and none is empty; the body is a suffix of the input; a removed header starts with `//`, is at least four characters long and ends with a newline; when nothing is removed the defaults apply |
| DelimiterExtractor.SingleCharHeader | src/utils/parse-util.test.js:55-63 | `//c\n` followed by a body declares exactly `c` and leaves exactly the body |
| DelimiterExtractor.MalformedHeader | src/utils/parse-util.test.js:64-69 | text starting with `//` that is neither a single-character nor a closed bracketed header keeps the default delimiters and the whole input as body |
| DelimiterExtractor.EntrySeparatorMatch | src/utils/parse-util.test.js:89-103 | the entry separator `][` is recognised exactly where `]` is followed by `[` |
| DelimiterExtractor.EntriesOfJoin | src/utils/parse-util.test.js:89-103 | splitting entries joined with `][` gives back the entries when none holds `]` followed by `[` |
| DelimiterExtractor.JoinAvoidsClose | src/utils/parse-util.test.js:89-103 | joining entries with `][` creates no `]` followed by a newline |
| DelimiterExtractor.NonEmptyKeepsNonEmpty | src/utils/parse-util.test.js:89-103 | a list of non-empty delimiters is kept unchanged |
| DelimiterExtractor.NonEmptyDropsEmpty | src/utils/parse-util.test.js:81-83 | a list of empty entries declares nothing |
| DelimiterExtractor.NonEmptyAppend | src/utils/parse-util.test.js:104-106 | filtering commutes with concatenation. With the two lemmas above, this fixes order and multiplicity: each non-empty entry is kept once, where it stood |
| DelimiterExtractor.BracketHeader | src/utils/parse-util.test.js:72-106 | `//[d1]...[dn]\n` followed by a body declares the non-empty entries (the defaults when all are empty) and leaves exactly the body |
| DelimiterExtractor.BracketHeaderNonEmpty | src/utils/parse-util.test.js:89-103 | with non-empty entries, the bracketed header declares exactly those entries, in order |
| StringCalculator.ConvertAll | src/utils/parse-util.test.js:41-43 | succeeds exactly when no token is a negative literal; on success it yields one value per token, each being that token's conversion |
| StringCalculator.ConvertAllExact | src/utils/parse-util.test.js:47-111 | tokens that each convert to a known value convert together to the list of those values |
| StringCalculator.ParseStringToNums | src/utils/parse-util.test.js:47-111 | a successful parse yields at least one number, and none is above 1000 |
| StringCalculator.ParseWithoutHeader | src/utils/parse-util.test.js:48-53 | input not starting with `//` is split with the defaults, giving one number per comma or newline plus one |
| StringCalculator.ParseSingleCharHeader | src/utils/parse-util.test.js:54-63 | `//c\n` then a body parses as the body split on `c` alone |
| StringCalculator.ParseBracketHeader | src/utils/parse-util.test.js:71-106 | a bracketed header then a body parses as the body split on the non-empty entries, or on the defaults when every entry is empty |
| StringCalculator.ParseMalformedHeader | src/utils/parse-util.test.js:64-69 | input starting with `//` with no valid header is split whole with the defaults, and its first number is 0 |
| StringCalculator.HeaderTextConvertsToZero | src/utils/parse-util.test.js:64-69 | the first default token of text starting with `/` converts to 0 |
| StringCalculator.TokenPosition | src/utils/parse-util.test.js:4-13 | each token occurs in the rebuilt text at a position the lemma returns |
| StringCalculator.NegativeTokenPosition | src/utils/parse-util.test.js:41-43 | when converting the tokens fails, a negative literal occurs in the text that was split |
| StringCalculator.FailureHasNegativeLiteral | src/utils/parse-util.test.js:41-43 | a parse fails only when a negative literal occurs somewhere in the input |
| ParseUtilExamples.TokenizeTwenty | src/utils/parse-util.test.js:5 | `"20"` splits into `["20"]` |
| ParseUtilExamples.TokenizeOneAndFiveThousand | src/utils/parse-util.test.js:6 | `"1,5000"` splits into `["1", "5000"]` |
| ParseUtilExamples.TokenizeEmpty | src/utils/parse-util.test.js:7 | `""` splits into `[""]` |
| ParseUtilExamples.TokenizeLoneComma | src/utils/parse-util.test.js:8 | `","` splits into `["", ""]` |
| ParseUtilExamples.TokenizeTrailingComma | src/utils/parse-util.test.js:9 | `"1,"` splits into `["1", ""]` |
| ParseUtilExamples.TokenizeWord | src/utils/parse-util.test.js:10 | `"1,tytyt"` splits into `["1", "tytyt"]` |
| ParseUtilExamples.TokenizeNewline | src/utils/parse-util.test.js:11 | `"1\n1"` splits into `["1", "1"]` |
| ParseUtilExamples.TokenizeNewlineAndComma | src/utils/parse-util.test.js:12 | `"1\n2,3"` splits into `["1", "2", "3"]` |
| ParseUtilExamples.SmallNumbers | src/utils/parse-util.test.js:48-109 | the numbers that occur in the parse examples convert to themselves |
| ParseUtilExamples.ParseCommas | src/utils/parse-util.test.js:48-50 | `"1,2,3,4,5"` parses to `[1, 2, 3, 4, 5]` |
| ParseUtilExamples.ParseNewlines | src/utils/parse-util.test.js:51-53 | `"1\n2\n3\n4\n5"` parses to `[1, 2, 3, 4, 5]` |
| ParseUtilExamples.ParseSingleHash | src/utils/parse-util.test.js:55-57 | `"//#\n2#5"` parses to `[2, 5]` |
| ParseUtilExamples.ParseSingleCommaUnused | src/utils/parse-util.test.js:58-60 | `"//,\n1*2*3"` parses to `[0]` |
| ParseUtilExamples.ParseSingleNewline | src/utils/parse-util.test.js:61-63 | `"//\n\n1\n2\n3"` parses to `[1, 2, 3]` |
| ParseUtilExamples.ParseTwoCharsMalformed | src/utils/parse-util.test.js:64-66 | `"//**\n1**2"` parses to `[0, 0]` |
| ParseUtilExamples.ParseNoCharMalformed | src/utils/parse-util.test.js:67-69 | `"//\n12"` parses to `[0, 12]` |
| ParseUtilExamples.ParseBracketStars | src/utils/parse-util.test.js:72-74 | `"//[***]\n11***22***33"` parses to `[11, 22, 33]` |
| ParseUtilExamples.ParseBracketInnerBrackets | src/utils/parse-util.test.js:75-77 | `"//[[]]\n11[]22[]33"` parses to `[11, 22, 33]` |
| ParseUtilExamples.ParseBracketNewline | src/utils/parse-util.test.js:78-80 | `"//[\n]\n11\n22\n33"` parses to `[11, 22, 33]` |
| ParseUtilExamples.ParseBracketEmpty | src/utils/parse-util.test.js:81-83 | `"//[]\n123"` parses to `[123]` |
| ParseUtilExamples.ParseBracketUnclosed | src/utils/parse-util.test.js:84-86 | `"//[][\n123"` parses to `[0, 123]` |
| ParseUtilExamples.ParseBracketThree | src/utils/parse-util.test.js:89-91 | `"//[*][!!][r9r]\n11r9r22*hh*33!!44"` parses to `[11, 22, 0, 33, 44]` |
| ParseUtilExamples.ParseBracketOpenAndClose | src/utils/parse-util.test.js:92-94 | `"//[[][]]\n1[2]3"` parses to `[1, 2, 3]` |
| ParseUtilExamples.ParseBracketDoubled | src/utils/parse-util.test.js:95-97 | `"//[[[][]]]\n1[[2]]3"` parses to `[1, 2, 3]` |
| ParseUtilExamples.ParseBracketStarAndNewline | src/utils/parse-util.test.js:98-100 | `"//[*][\n]\n1*2\n3"` parses to `[1, 2, 3]` |
| ParseUtilExamples.ParseBracketCloseStarOpen | src/utils/parse-util.test.js:101-103 | `"//[]*[]\n1]*[2]*[3"` parses to `[1, 2, 3]` |
| ParseUtilExamples.ParseBracketThreeEmpty | src/utils/parse-util.test.js:104-106 | `"//[][][]\n123"` parses to `[123]` |
| ParseUtilExamples.ParseBracketUnclosedLong | src/utils/parse-util.test.js:107-109 | `"//[][][][\n123"` parses to `[0, 123]` |
| ParseUtilExamples.ParseNegativeFails | src/utils/parse-util.test.js:41-43 | `"1,-1"` fails, because converting `"-1"` raises the error |

## Left out

- `src/utils/parse-util.js` is not part of this model. Its behaviour is modelled from the equations its tests fix. Where the tests leave a choice open, the model makes the choice described above:
  - the first `]` followed by a newline closes a bracketed header;
  - a header whose entries are all empty still removes the header and keeps the default delimiters;
  - a negative literal is `-` followed by at least one digit, so `"-0"` also fails.
- Summing the numbers, the calculator's user interface and any input or output are outside this core and are left out.
- The text and the JavaScript type of the thrown `Error` are not modelled. The model keeps only the fact that the operation fails.
- JavaScript's numeric coercion is not modelled. Only tokens made entirely of the ASCII digits `0`-`9` count as numbers. Signs other than a leading `-`, surrounding spaces, exponents, decimal points and hexadecimal all give 0, as the examples at `src/utils/parse-util.test.js:27-32` do.
- Values are unbounded integers. JavaScript's floating-point numbers are not modelled, which only matters for digit strings far above the 1000 ceiling, and those convert to 0 in either case.
- Strings are sequences of characters. The model has no Unicode normalisation and no encoding.
- StringCalculator.ParseStringToNums: its own contract states only the shape of a successful result. Its behaviour is stated by the lemmas that follow it in the table, one per header form.
