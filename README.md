# Polydivisible numbers: a verified model of the service core

A polydivisible number, written in some base, is one whose first k digits
form a number divisible by k, for every k up to its length. The service at the
core of the repository (`PolydivisibleService`) does four things, and this
project models each of them in Dafny and proves what it promises:

- **Positional conversion** (`positional.dfy`, module `Positional`):
  `fromBase` evaluates a digit sequence with Horner's rule, and `toBase` splits
  a natural number into its digits, most significant first. `Value` is the
  meaning of a digit sequence, and `ToDigits` is the canonical representation.
  The two methods are proved against these functions. The functions are proved
  to be inverse to each other.
- **The predicate** (`divisibility.dfy`, module `Divisibility`):
  `isPolydivisible` builds each prefix value incrementally and stops at the
  first prefix of length k that k does not divide. The method is proved equal
  to `Polydivisible`, which reads "every non-empty prefix of length k has a
  value divisible by k".
- **The enumerator** (`enumerator.dfy`, module `Enumerator`): `generate` is a
  depth-first backtracking search.
  - It keeps a shared digit buffer, pushing and popping digits.
  - It appends to a results list.
  - It tries digits in ascending order and skips a leading zero.
  - It prunes every prefix that its length does not divide.

  The class `Search` holds the buffer and the results. Its `Backtrack` method
  is proved to restore the buffer and to append exactly `Subtree(buffer)`.
  `Subtree` and `Branches` are pure recursive functions that describe the
  pre-order output list. About that list, the model proves:
  - soundness and completeness;
  - that it is in pre-order, hence free of duplicates;
  - prefix-first order and ascending sibling order.
- **The digit codec** (`codec.dfy`, module `DigitCodec`): `parseDigits` and
  `formatDigits`.
  - Up to base 36 a digit is one character, read case-insensitively.
  - Above base 36 digits are decimal numbers separated by `,`, each trimmed.
  - Errors are values of `ParseError`: empty input, an invalid character, a
    digit too large for the base, or an invalid token. Each error carries what
    it names.
  - `ParseDigits` is proved equal to the function `Parse`.
  - Both round trips are proved. Parsing what was formatted gives the digits
    back. Formatting what was parsed gives the text in canonical form:
    lower-cased up to base 36; trimmed, without leading zeros and comma-joined
    above it.

All arithmetic is on Dafny's unbounded integers, so every divisibility test is
exact.

## Model

All source paths are `server/services/PolydivisibleService.js`.

| member | source | states |
|---|---|---|
| Positional.FromBase | server/services/PolydivisibleService.js:188-194 | the accumulated `result * base + digit` over the digits is `Value(digits, base)`, the positional value, most significant digit first |
| Positional.ValueOfEmpty | server/services/PolydivisibleService.js:188-194 | fromBase of the empty sequence is 0 |
| Positional.ValueSnoc | server/services/PolydivisibleService.js:188-194 | appending a digit multiplies the value by the base and adds the digit (the step every loop of the service relies on) |
| Positional.ToDigits | server/services/PolydivisibleService.js:171-180 | the digits of n are canonical: at least one digit, every digit below the base, and a leading zero exactly when n is 0 (then the digits are [0]) |
| Positional.ToBase | server/services/PolydivisibleService.js:171-180 | for num >= 0 the repeated `num % base` / divide loop yields exactly `ToDigits(num, base)`; a negative num yields [] |
| Positional.ValueOfToDigits | server/services/PolydivisibleService.js:171-194 | fromBase(toBase(n, b), b) == n for every n >= 0 |
| Positional.ToDigitsOfValue | server/services/PolydivisibleService.js:171-194 | toBase(fromBase(ds, b), b) == ds for every canonical digit sequence: the two conversions are inverse |
| Divisibility.IsPolydivisible | server/services/PolydivisibleService.js:91-109 | the early-exit loop returns true exactly when the sequence is non-empty and every prefix of length k has a value divisible by k |
| Divisibility.PolydivisibleShort | server/services/PolydivisibleService.js:91-109 | the empty sequence is not polydivisible; every single digit is |
| Divisibility.PolydivisibleSnoc | server/services/PolydivisibleService.js:98-106 | appending a digit keeps a sequence polydivisible exactly when the longer prefix is divisible by its length, the incremental test of the loop |
| Divisibility.PolydivisiblePrefix | server/services/PolydivisibleService.js:91-109 | every non-empty prefix of a polydivisible sequence is polydivisible |
| Enumerator.Search.Backtrack | server/services/PolydivisibleService.js:125-157 | after push / recurse / pop the buffer is exactly as before, and the results are the old results followed by `Subtree(buffer)`: nothing earlier is removed or altered |
| Enumerator.Generate | server/services/PolydivisibleService.js:117-163 | starting from the empty buffer and value 0, the returned list is `Enumeration(base, maxLength)` |
| Enumerator.BranchesStep | server/services/PolydivisibleService.js:145-155 | one iteration of the digit loop: the branches grow by the subtree of the digit exactly when the extended prefix value is divisible by the new length |
| Enumerator.LeadingZeroSkipped | server/services/PolydivisibleService.js:141-143 | from the empty buffer, digit 0 adds nothing |
| Enumerator.SubtreeMembers | server/services/PolydivisibleService.js:125-157 | a sequence is emitted from a node exactly when it extends the node within the length limit and every added digit passed the test |
| Enumerator.BranchesMembers | server/services/PolydivisibleService.js:139-155 | trying digits below n emits exactly the reachable proper extensions whose next digit is below n |
| Enumerator.AcceptedAtIff | server/services/PolydivisibleService.js:139-150 | the loop accepts digit k of a sequence exactly when it is a digit of the base, not a leading zero, and the length-k prefix is divisible by k |
| Enumerator.AllAcceptedIff | server/services/PolydivisibleService.js:139-150 | every digit of a sequence is accepted exactly when it has no leading zero, uses only digits of the base and is polydivisible |
| Enumerator.EnumerationMembers | server/services/PolydivisibleService.js:125-157 | soundness and completeness: s is emitted exactly when 1 <= \|s\| <= maxLength, s[0] != 0, all digits are below the base and s is polydivisible |
| Enumerator.EarlierBranchFirst | server/services/PolydivisibleService.js:139-155 | everything emitted below a smaller digit comes before everything emitted below a larger one |
| Enumerator.SubtreeSorted | server/services/PolydivisibleService.js:125-157 | the list emitted from a node is in pre-order (a node before its extensions, smaller digits first) |
| Enumerator.BranchesSorted | server/services/PolydivisibleService.js:139-155 | the list emitted by the digit loop is in pre-order |
| Enumerator.EnumerationOrder | server/services/PolydivisibleService.js:125-157 | emission order is exactly the pre-order: element i precedes element j iff i < j |
| Enumerator.EnumerationDistinct | server/services/PolydivisibleService.js:125-157 | no sequence is emitted twice |
| Enumerator.EnumerationPrefixFirst | server/services/PolydivisibleService.js:125-157 | the one-digit-shorter prefix of every emitted sequence is emitted, and earlier |
| Enumerator.EnumerationSiblings | server/services/PolydivisibleService.js:139-155 | of two emitted sequences that first differ at position k, the one with the smaller digit there is emitted first |
| Enumerator.BranchesLength1 | server/services/PolydivisibleService.js:139-155 | with one digit allowed, trying the digits below n emits [1], ..., [n-1] in order |
| Enumerator.EnumerationLength1 | server/services/PolydivisibleService.js:117-163 | generate(base, 1) is [[1], [2], ..., [base-1]]; so generate(10, 1) is [[1], ..., [9]] |
| Enumerator.Polydivisible1232 | server/services/PolydivisibleService.js:91-109 | 1, 12, 123 and 1232 are polydivisible in base 10 |
| Enumerator.Enumeration1232Members | server/services/PolydivisibleService.js:117-163 | generate(10, maxLength) emits [1], [1,2], [1,2,3] and [1,2,3,2] once maxLength >= 4 |
| Enumerator.Enumeration1232 | server/services/PolydivisibleService.js:125-157 | in generate(10, maxLength), [1], [1,2] and [1,2,3] are emitted before [1,2,3,2] |
| DigitCodec.ParseDigits | server/services/PolydivisibleService.js:18-66 | the method (empty check, comma branch, single-token branch, per-character loop with early error returns) returns exactly `Parse(digits, base)` |
| DigitCodec.CharValue | server/services/PolydivisibleService.js:47-53 | a character stands for a digit below 36 ('0'..'9' are 0..9, 'a'..'z' and 'A'..'Z' are 10..35) |
| DigitCodec.ParseAlphanumeric | server/services/PolydivisibleService.js:44-64 | up to base 36, parsing succeeds exactly when every character is a digit of the base, and then yields one digit per character, each the character's value |
| DigitCodec.ParseAlphanumericError | server/services/PolydivisibleService.js:44-64 | a failure is the error of the first character that is not a digit of the base: invalid character if not alphanumeric, digit too large otherwise |
| DigitCodec.ParseAlphanumericPrefixFailure | server/services/PolydivisibleService.js:54-60 | once a prefix fails, the whole text fails with the same error: no partial array is returned |
| DigitCodec.TrimStart | server/services/PolydivisibleService.js:26 | the result is a suffix of the text that does not start with white space |
| DigitCodec.TrimStartRemovesWhitespace | server/services/PolydivisibleService.js:26 | every character removed from the front is white space; with the contract of TrimStart, the result is the text after its longest white-space prefix |
| DigitCodec.TrimEnd | server/services/PolydivisibleService.js:26 | the result is a prefix of the text that does not end with white space |
| DigitCodec.TrimEndRemovesWhitespace | server/services/PolydivisibleService.js:26 | every character removed from the end is white space; with the contract of TrimEnd, the result is the text before its longest white-space suffix |
| DigitCodec.TrimIdempotent | server/services/PolydivisibleService.js:26 | trimming twice is trimming once |
| DigitCodec.Split | server/services/PolydivisibleService.js:26 | splitting at ',' gives at least one piece and no piece contains ',' |
| DigitCodec.JoinSplit | server/services/PolydivisibleService.js:26 | joining the pieces of a split with ',' gives the text back |
| DigitCodec.SplitJoin | server/services/PolydivisibleService.js:76 | splitting comma-free pieces joined with ',' gives the pieces back |
| DigitCodec.ParseTokens | server/services/PolydivisibleService.js:27-34 | the tokens parse exactly when each is a number below the base, and then the digits are those numbers, one per token |
| DigitCodec.ParseTokensError | server/services/PolydivisibleService.js:27-31 | a failure names the first token that is not a number below the base |
| DigitCodec.ParseJoined | server/services/PolydivisibleService.js:24-34 | above base 36, two or more comma-free, trimmed tokens joined by ',' take the comma branch and parse exactly as the token list does |
| DigitCodec.ParseSecondTokenRejected | server/services/PolydivisibleService.js:27-31 | above base 36, "m,n" with m a digit of the base and n not fails naming the token n |
| DigitCodec.ParseIntOfDigitRun | server/services/PolydivisibleService.js:28 | a non-empty run of decimal digits has no comma, nothing to trim, and reads as its decimal value |
| DigitCodec.Format | server/services/PolydivisibleService.js:74-83 | formatDigits: up to base 36, one character per digit, each reading back as that digit; above base 36, the text (built by `Join` from the `Decimal` renderings, the `join(',')` and number-to-string of line 76) splits at ',' into exactly the decimal renderings of the digits |
| DigitCodec.ParseIntOfDecimal | server/services/PolydivisibleService.js:76 | parseInt reads the decimal rendering of n back as n |
| DigitCodec.DecimalsAreTokens | server/services/PolydivisibleService.js:76 | the decimal renderings of digits of the base are comma-free, need no trimming, and parse back to the digits |
| DigitCodec.CharValueOfDigitChar | server/services/PolydivisibleService.js:78-81 | reading the character formatDigits writes for a digit gives the digit back |
| DigitCodec.DigitCharOfCharValue | server/services/PolydivisibleService.js:47-53 | writing the digit of a character gives the character lower-cased |
| DigitCodec.ParseOfFormatTokens | server/services/PolydivisibleService.js:74-83 | above base 36, parseDigits(formatDigits(ds)) == ds for every non-empty sequence of digits of the base |
| DigitCodec.ParseOfFormatAlphanumeric | server/services/PolydivisibleService.js:74-83 | up to base 36, parseDigits(formatDigits(ds)) == ds for every non-empty sequence of digits of the base |
| DigitCodec.ParseOfFormat | server/services/PolydivisibleService.js:74-83 | parseDigits(formatDigits(ds, b), b) == ds for every base and every non-empty sequence of digits of the base |
| DigitCodec.FormatOfParseAlphanumeric | server/services/PolydivisibleService.js:74-83 | up to base 36, formatDigits(parseDigits(s)) is s lower-cased |
| DigitCodec.FormatOfParseTokens | server/services/PolydivisibleService.js:74-83 | above base 36, formatDigits(parseDigits(s)) is s in canonical form: each piece trimmed and without leading zeros, joined by ',' |
| DigitCodec.ParseHexExample | server/services/PolydivisibleService.js:44-64 | "1a2b" in base 16 is [1, 10, 2, 11] |
| DigitCodec.ParseUpperHexExample | server/services/PolydivisibleService.js:47 | "1A2B" in base 16 is also [1, 10, 2, 11] |
| DigitCodec.ParseDigitTooLargeExample | server/services/PolydivisibleService.js:58-60 | "1g" in base 16 fails with "digit 16 too large for base 16" |
| DigitCodec.ParseInvalidCharacterExample | server/services/PolydivisibleService.js:54-56 | "1!" in base 16 fails naming '!' |
| DigitCodec.FormatCommaExample | server/services/PolydivisibleService.js:74-77 | [5, 12, 99] in base 100 is written "5,12,99" |
| DigitCodec.ParseCommaExample | server/services/PolydivisibleService.js:24-34 | "5,12,99" in base 100 is [5, 12, 99] |
| DigitCodec.ParseCommaRejectedExample | server/services/PolydivisibleService.js:27-31 | "1,150" in base 100 fails naming the token "150" |
| DigitCodec.ParseSingleTokenExample | server/services/PolydivisibleService.js:35-42 | above base 36, text without a comma is one digit: "7" in base 50 is [7] |

## Left out

- Floating point. The service accumulates prefix values in JavaScript numbers
  (`prefixValue * base + digit`, lines 100 and 146). These lose exactness past
  2^53, which is reached well within base 100 and length 20. The model uses
  exact integers throughout, so its divisibility tests are the intended ones.
  Tracking values modulo lcm(1..20) would also keep the tests exact. The code
  does not do this, and it is not modelled.
- DigitCodec.ParseInt: `parseInt` is modelled as "once trimmed, a non-empty run
  of decimal digits", read as its decimal value. Its other behaviour is not
  modelled: trailing garbage ("12x" reads as 12), signs ("-0", "+5"), and
  prefixes such as "0x".
- DigitCodec.ToLower: case-insensitive reading is ASCII lower-casing. The
  non-ASCII characters that `toLowerCase` maps onto ASCII letters (U+0130,
  U+212A) are not modelled. Strings are sequences of characters, not of UTF-16
  code units.
- Input that is not a string or not an array (the `typeof` and
  `Array.isArray` guards at lines 19 and 92): the model's types exclude it.
  `base` and `maxLength` are natural numbers. The HTTP layer that limits them
  to 2..100 and 1..20 is not part of this model.
- Positional.ToBase requires a base of at least 2. For a positive number the
  source loop never ends with base 1 (the number never shrinks) or with base 0
  (division by zero gives `Infinity` and the digits are `NaN`). For 0 and
  negative numbers both bases give `[0]` or `[]`, as the model does for larger
  bases.
- DigitCodec.Format requires, up to base 36, digits below 36 (the characters
  it can write). Its round-trip lemmas require digits of the base.
- "1g" in base 16: the code maps 'g' to the digit 16 and reports the digit as
  too large for the base, rather than naming the character 'g'. The model
  follows the code (DigitCodec.ParseDigitTooLargeExample).
- Error messages are modelled as the `ParseError` values they are built from,
  not as text.
- The Express routes, the React front end, result downloads and any
  cancellation or streaming are not part of this model.
