/**
 * The digit codec: parseDigits turns text into a digit sequence for a base,
 * formatDigits turns a digit sequence back into text.
 *
 * Bases up to 36 use one character per digit, '0'..'9' then 'a'..'z',
 * read case-insensitively. Larger bases use decimal numbers separated by ','.
 */
module DigitCodec {
  import opened Positional

  datatype Option<T> = None | Some(value: T)

  /** Why parsing failed; each error carries what it names and the base. */
  datatype ParseError =
    | EmptyInput
    | InvalidCharacter(ch: char, base: nat)
    | DigitTooLarge(value: nat, base: nat)
    | InvalidToken(token: string, base: nat)

  datatype Result<T> = Success(value: T) | Failure(error: ParseError)

  /** Bases up to this one are written one alphanumeric character per digit. */
  const MaxAlphanumericBase: nat := 36

  // ---------------------------------------------------------------------------
  // Characters

  /** ASCII lower-casing. */
  function ToLower(c: char): char
  {
    if 'A' <= c <= 'Z' then (c as int - 'A' as int + 'a' as int) as char else c
  }

  /** The text lower-cased character by character. */
  function LowerCase(s: string): string
  {
    seq(|s|, i requires 0 <= i < |s| => ToLower(s[i]))
  }

  /** The digit a character stands for, case-insensitively: '0'..'9' are 0..9 and 'a'..'z' are 10..35. */
  function CharValue(c: char): (r: Option<nat>)
    ensures r.Some? <==> '0' <= c <= '9' || 'a' <= c <= 'z' || 'A' <= c <= 'Z'
    ensures '0' <= c <= '9' ==> r == Some((c as int - '0' as int) as nat)
    ensures 'a' <= c <= 'z' ==> r == Some((c as int - 'a' as int + 10) as nat)
    ensures 'A' <= c <= 'Z' ==> r == Some((c as int - 'A' as int + 10) as nat)
    ensures r.Some? ==> r.value < MaxAlphanumericBase
  {
    var l := ToLower(c);
    if '0' <= l <= '9' then Some((l as int - '0' as int) as nat)
    else if 'a' <= l <= 'z' then Some((l as int - 'a' as int + 10) as nat)
    else None
  }

  /** `c` stands for a digit of `base`. */
  predicate ValidChar(c: char, base: nat)
  {
    CharValue(c).Some? && CharValue(c).value < base
  }

  /** The error for a character that is not a digit of `base`: either not alphanumeric, or too large. */
  function CharError(c: char, base: nat): ParseError
  {
    if CharValue(c).None? then InvalidCharacter(c, base) else DigitTooLarge(CharValue(c).value, base)
  }

  /** The character for a digit below 36: '0'..'9', then lower-case 'a'..'z'. */
  function DigitChar(d: nat): char
    requires d < MaxAlphanumericBase
  {
    if d < 10 then ('0' as int + d) as char else ('a' as int + d - 10) as char
  }

  /** Reading the character of a digit gives back the digit. */
  lemma CharValueOfDigitChar(d: nat)
    requires d < MaxAlphanumericBase
    ensures CharValue(DigitChar(d)) == Some(d)
  {
  }

  /** Writing the digit of a character gives the character lower-cased. */
  lemma DigitCharOfCharValue(c: char)
    requires CharValue(c).Some?
    ensures DigitChar(CharValue(c).value) == ToLower(c)
  {
  }

  // ---------------------------------------------------------------------------
  // Alphanumeric digits (bases up to 36)

  /** Parsing text one character per digit; the first character that is not a digit of `base` is the error. */
  function ParseAlphanumeric(s: string, base: nat): (r: Result<seq<nat>>)
    ensures r.Success? <==> forall i :: 0 <= i < |s| ==> ValidChar(s[i], base)
    ensures r.Success? ==> |r.value| == |s| && forall i :: 0 <= i < |s| ==> CharValue(s[i]) == Some(r.value[i])
  {
    if s == [] then Success([])
    else
      var init, c := s[..|s| - 1], s[|s| - 1];
      assert forall i :: 0 <= i < |init| ==> init[i] == s[i];
      match ParseAlphanumeric(init, base)
      case Failure(e) => Failure(e)
      case Success(ds) =>
        if ValidChar(c, base) then Success(ds + [CharValue(c).value]) else Failure(CharError(c, base))
  }

  /** A failure reads the first character that is not a digit of `base`, every character before it being valid. */
  lemma {:induction false} ParseAlphanumericError(s: string, base: nat)
    requires ParseAlphanumeric(s, base).Failure?
    ensures exists i :: (0 <= i < |s| && !ValidChar(s[i], base)
      && (forall j :: 0 <= j < i ==> ValidChar(s[j], base))
      && ParseAlphanumeric(s, base).error == CharError(s[i], base))
  {
    var init := s[..|s| - 1];
    if ParseAlphanumeric(init, base).Failure? {
      ParseAlphanumericError(init, base);
      var i :| 0 <= i < |init| && !ValidChar(init[i], base)
        && (forall j :: 0 <= j < i ==> ValidChar(init[j], base))
        && ParseAlphanumeric(init, base).error == CharError(init[i], base);
      assert forall j :: 0 <= j <= i ==> init[j] == s[j];
    } else {
      assert forall j :: 0 <= j < |init| ==> init[j] == s[j];
      assert !ValidChar(s[|s| - 1], base);
    }
  }

  /** Once a prefix fails, the whole text fails with the same error. */
  lemma {:induction false} ParseAlphanumericPrefixFailure(s: string, n: nat, base: nat)
    requires n <= |s| && ParseAlphanumeric(s[..n], base).Failure?
    ensures ParseAlphanumeric(s, base) == ParseAlphanumeric(s[..n], base)
    decreases |s| - n
  {
    if n < |s| {
      var init := s[..|s| - 1];
      assert init[..n] == s[..n];
      ParseAlphanumericPrefixFailure(init, n, base);
    } else {
      assert s[..n] == s;
    }
  }

  // ---------------------------------------------------------------------------
  // Comma-separated decimal digits (bases above 36)

  /** The white space String.prototype.trim and parseInt skip: tab, line terminators, vertical tab, form feed, and the Unicode space separators and byte-order mark. */
  predicate IsWhitespace(c: char)
  {
    c == '\t' || c == '\n' || c == '\U{B}' || c == '\U{C}' || c == '\r' || c == ' '
    || c == '\U{A0}' || c == '\U{1680}' || ('\U{2000}' <= c <= '\U{200A}')
    || c == '\U{2028}' || c == '\U{2029}' || c == '\U{202F}' || c == '\U{205F}'
    || c == '\U{3000}' || c == '\U{FEFF}'
  }

  /** `s` without its leading white space. */
  function TrimStart(s: string): (r: string)
    ensures r == [] || !IsWhitespace(r[0])
    ensures |r| <= |s| && r == s[|s| - |r|..]
  {
    if s != [] && IsWhitespace(s[0]) then TrimStart(s[1..]) else s
  }

  /** `s` without its trailing white space. */
  function TrimEnd(s: string): (r: string)
    ensures r == [] || !IsWhitespace(r[|r| - 1])
    ensures |r| <= |s| && r == s[..|r|]
  {
    if s != [] && IsWhitespace(s[|s| - 1]) then TrimEnd(s[..|s| - 1]) else s
  }

  /** Only white space is removed from the front. */
  lemma {:induction false} TrimStartRemovesWhitespace(s: string)
    ensures forall i :: 0 <= i < |s| - |TrimStart(s)| ==> IsWhitespace(s[i])
  {
    if s != [] && IsWhitespace(s[0]) {
      TrimStartRemovesWhitespace(s[1..]);
      forall i | 1 <= i < |s| - |TrimStart(s)|
        ensures IsWhitespace(s[i])
      {
        assert s[i] == s[1..][i - 1];
      }
    }
  }

  /** Only white space is removed from the end. */
  lemma {:induction false} TrimEndRemovesWhitespace(s: string)
    ensures forall i :: |TrimEnd(s)| <= i < |s| ==> IsWhitespace(s[i])
  {
    if s != [] && IsWhitespace(s[|s| - 1]) {
      TrimEndRemovesWhitespace(s[..|s| - 1]);
      forall i | |TrimEnd(s)| <= i < |s| - 1
        ensures IsWhitespace(s[i])
      {
        assert s[i] == s[..|s| - 1][i];
      }
    }
  }

  /** String.prototype.trim. */
  function Trim(s: string): string
  {
    TrimEnd(TrimStart(s))
  }

  /** Trimming twice is trimming once. */
  lemma TrimIdempotent(s: string)
    ensures Trim(Trim(s)) == Trim(s)
  {
    var t := TrimStart(s);
    var u := TrimEnd(t);
    if u != [] {
      assert u[0] == t[0];
      assert TrimStart(u) == u;
    }
  }

  /** A decimal digit character. */
  predicate IsDecimal(c: char)
  {
    '0' <= c <= '9'
  }

  /** The digit values of a run of decimal digit characters. */
  function DecimalDigits(t: string): seq<nat>
    requires forall i :: 0 <= i < |t| ==> IsDecimal(t[i])
  {
    seq(|t|, i requires 0 <= i < |t| && IsDecimal(t[i]) => (t[i] as int - '0' as int) as nat)
  }

  /** parseInt on a token: once the surrounding white space is removed, it must be a non-empty run of decimal digits. */
  function ParseInt(token: string): Option<nat>
  {
    var t := Trim(token);
    if t != [] && forall i :: 0 <= i < |t| ==> IsDecimal(t[i]) then Some(Value(DecimalDigits(t), 10)) else None
  }

  /** The digit a token stands for in `base`, if it is a number below the base. */
  function TokenValue(token: string, base: nat): Option<nat>
  {
    match ParseInt(token)
    case Some(n) => if n < base then Some(n) else None
    case None => None
  }

  /** Number.prototype.toString in base 10. */
  function Decimal(n: nat): string
  {
    var ds := ToDigits(n, 10);
    seq(|ds|, i requires 0 <= i < |ds| => DigitChar(ds[i]))
  }

  /** A decimal rendering is a non-empty run of decimal digits, whose digit values are those of the number. */
  lemma DecimalShape(n: nat)
    ensures Decimal(n) != [] && forall i :: 0 <= i < |Decimal(n)| ==> IsDecimal(Decimal(n)[i])
    ensures DecimalDigits(Decimal(n)) == ToDigits(n, 10)
  {
    var ds := ToDigits(n, 10);
    var t := Decimal(n);
    forall i | 0 <= i < |t|
      ensures IsDecimal(t[i]) && (t[i] as int - '0' as int) == ds[i]
    {
      assert ds[i] < 10;
    }
  }

  /** A non-empty run of decimal digits has no comma and nothing to trim, and parseInt reads its value. */
  lemma ParseIntOfDigitRun(t: string)
    requires t != [] && forall i :: 0 <= i < |t| ==> IsDecimal(t[i])
    ensures ',' !in t && Trim(t) == t
    ensures ParseInt(t) == Some(Value(DecimalDigits(t), 10))
  {
    assert IsDecimal(t[0]) && IsDecimal(t[|t| - 1]);
    assert TrimStart(t) == t;
    assert TrimEnd(t) == t;
  }

  /** A decimal rendering has no comma and nothing to trim. */
  lemma DecimalIsToken(n: nat)
    ensures ',' !in Decimal(n) && Trim(Decimal(n)) == Decimal(n)
  {
    DecimalShape(n);
    ParseIntOfDigitRun(Decimal(n));
  }

  /** parseInt reads a decimal rendering back as the same number. */
  lemma ParseIntOfDecimal(n: nat)
    ensures ParseInt(Decimal(n)) == Some(n)
  {
    var t := Decimal(n);
    assert ParseInt(t) == Some(Value(DecimalDigits(t), 10)) by {
      DecimalShape(n);
      ParseIntOfDigitRun(t);
    }
    assert DecimalDigits(t) == ToDigits(n, 10) by {
      DecimalShape(n);
    }
    ValueOfToDigits(n, 10);
  }

  /** Each token parsed in order; the first that is not a number below `base` is the error, named as written. */
  function ParseTokens(parts: seq<string>, base: nat): (r: Result<seq<nat>>)
    ensures r.Success? <==> forall i :: 0 <= i < |parts| ==> TokenValue(parts[i], base).Some?
    ensures r.Success? ==> |r.value| == |parts| && forall i :: 0 <= i < |parts| ==> TokenValue(parts[i], base) == Some(r.value[i])
  {
    if parts == [] then Success([])
    else
      match TokenValue(parts[0], base)
      case None => Failure(InvalidToken(parts[0], base))
      case Some(n) =>
        var rest := ParseTokens(parts[1..], base);
        assert forall i :: 1 <= i < |parts| ==> parts[i] == parts[1..][i - 1];
        match rest
        case Failure(e) => Failure(e)
        case Success(ds) => Success([n] + ds)
  }

  /** Token i is the first that is not a number below `base`. */
  predicate FirstInvalidToken(parts: seq<string>, base: nat, i: int)
  {
    0 <= i < |parts| && TokenValue(parts[i], base).None?
    && forall j :: 0 <= j < i ==> TokenValue(parts[j], base).Some?
  }

  /** A failure names the first token that is not a number below `base`. */
  lemma {:induction false} ParseTokensError(parts: seq<string>, base: nat)
    requires ParseTokens(parts, base).Failure?
    ensures exists i :: FirstInvalidToken(parts, base, i) && ParseTokens(parts, base).error == InvalidToken(parts[i], base)
  {
    var error := ParseTokens(parts, base).error;
    if TokenValue(parts[0], base).Some? {
      var tail := parts[1..];
      assert ParseTokens(tail, base).Failure? && error == ParseTokens(tail, base).error;
      ParseTokensError(tail, base);
      var i :| FirstInvalidToken(tail, base, i) && ParseTokens(tail, base).error == InvalidToken(tail[i], base);
      assert parts[i + 1] == tail[i];
      assert forall j :: 1 <= j < i + 1 ==> parts[j] == tail[j - 1];
      assert FirstInvalidToken(parts, base, i + 1) && error == InvalidToken(parts[i + 1], base);
    } else {
      assert FirstInvalidToken(parts, base, 0) && error == InvalidToken(parts[0], base);
    }
  }

  /** String.prototype.split(','): the pieces between the commas, at least one. */
  function Split(s: string): (r: seq<string>)
    ensures |r| >= 1
    ensures forall i :: 0 <= i < |r| ==> ',' !in r[i]
  {
    if s == [] then [[]]
    else
      var rest := Split(s[1..]);
      if s[0] == ',' then [[]] + rest else [[s[0]] + rest[0]] + rest[1..]
  }

  /** Array.prototype.join(','): the pieces with a comma between each two. */
  function Join(parts: seq<string>): string
  {
    if parts == [] then [] else if |parts| == 1 then parts[0] else parts[0] + [','] + Join(parts[1..])
  }

  /** Joining the pieces of a split gives back the text. */
  lemma {:induction false} JoinSplit(s: string)
    ensures Join(Split(s)) == s
  {
    if s != [] {
      JoinSplit(s[1..]);
      var rest := Split(s[1..]);
      if s[0] != ',' && |rest| > 1 {
        assert Join(rest) == rest[0] + [','] + Join(rest[1..]);
      }
    }
  }

  /** Splitting a comma-free piece followed by more text. */
  lemma {:induction false} SplitAppend(t: string, u: string)
    requires ',' !in t
    ensures Split(t + u) == [t + Split(u)[0]] + Split(u)[1..]
  {
    if t != [] {
      assert (t + u)[1..] == t[1..] + u;
      SplitAppend(t[1..], u);
      assert [t[0]] + (t[1..] + Split(u)[0]) == t + Split(u)[0];
    } else {
      assert t + u == u;
      assert t + Split(u)[0] == Split(u)[0];
      assert Split(u) == [Split(u)[0]] + Split(u)[1..];
    }
  }

  /** Splitting comma-free pieces joined by commas gives back the pieces. */
  lemma {:induction false} SplitJoin(parts: seq<string>)
    requires |parts| >= 1 && forall i :: 0 <= i < |parts| ==> ',' !in parts[i]
    ensures Split(Join(parts)) == parts
  {
    if |parts| == 1 {
      SplitAppend(parts[0], []);
      assert parts[0] + [] == parts[0];
    } else {
      SplitJoin(parts[1..]);
      var rest := [','] + Join(parts[1..]);
      assert Join(parts) == parts[0] + rest;
      SplitAppend(parts[0], rest);
      assert rest[1..] == Join(parts[1..]);
      assert parts[0] + [] == parts[0];
    }
  }

  /** Every piece trimmed. */
  function TrimAll(parts: seq<string>): seq<string>
  {
    seq(|parts|, i requires 0 <= i < |parts| => Trim(parts[i]))
  }

  /** The decimal rendering of each digit. */
  function Decimals(digits: seq<nat>): seq<string>
  {
    seq(|digits|, i requires 0 <= i < |digits| => Decimal(digits[i]))
  }

  // ---------------------------------------------------------------------------
  // parseDigits and formatDigits

  /**
   * parseDigits as a function. Empty text fails. Above base 36, text with a comma
   * is split, each piece trimmed and read as a number below the base; text without
   * a comma is read as one such number. Otherwise every character is one digit.
   */
  function Parse(digits: string, base: nat): Result<seq<nat>>
  {
    if digits == [] then Failure(EmptyInput)
    else if base > MaxAlphanumericBase then
      if ',' in digits then ParseTokens(TrimAll(Split(digits)), base)
      else
        match TokenValue(digits, base)
        case Some(n) => Success([n])
        case None => Failure(InvalidToken(digits, base))
    else ParseAlphanumeric(digits, base)
  }

  /** parseDigits: the same branches, with the per-character loop pushing onto a digit array. */
  method ParseDigits(digits: string, base: nat) returns (r: Result<seq<nat>>)
    ensures r == Parse(digits, base)
  {
    if digits == [] {
      return Failure(EmptyInput);
    }
    if base > MaxAlphanumericBase {
      if ',' in digits {
        var parts := TrimAll(Split(digits));
        return ParseTokens(parts, base);
      }
      var num := ParseInt(digits);
      if num.None? || num.value >= base {
        return Failure(InvalidToken(digits, base));
      }
      return Success([num.value]);
    }
    var digitArray: seq<nat> := [];
    for i := 0 to |digits|
      invariant ParseAlphanumeric(digits[..i], base) == Success(digitArray)
    {
      assert digits[..i + 1][..i] == digits[..i];
      var ch := ToLower(digits[i]);
      var digitValue: nat;
      if '0' <= ch <= '9' {
        digitValue := ch as int - '0' as int;
      } else if 'a' <= ch <= 'z' {
        digitValue := ch as int - 'a' as int + 10;
      } else {
        ParseAlphanumericPrefixFailure(digits, i + 1, base);
        return Failure(InvalidCharacter(digits[i], base));
      }
      if digitValue >= base {
        ParseAlphanumericPrefixFailure(digits, i + 1, base);
        return Failure(DigitTooLarge(digitValue, base));
      }
      digitArray := digitArray + [digitValue];
    }
    assert digits[..|digits|] == digits;
    return Success(digitArray);
  }

  /** formatDigits: above base 36 the decimal numbers joined by ','; otherwise one character per digit. */
  function Format(digits: seq<nat>, base: nat): (r: string)
    requires base <= MaxAlphanumericBase ==> AllBelow(digits, MaxAlphanumericBase)
    ensures base <= MaxAlphanumericBase ==>
      |r| == |digits| && forall i :: 0 <= i < |r| ==> CharValue(r[i]) == Some(digits[i])
    ensures base > MaxAlphanumericBase && digits != [] ==> Split(r) == Decimals(digits)
  {
    if base > MaxAlphanumericBase then
      DecimalsCommaFree(digits);
      if digits != [] then SplitJoin(Decimals(digits)); Join(Decimals(digits))
      else Join(Decimals(digits))
    else seq(|digits|, i requires 0 <= i < |digits| => DigitChar(digits[i]))
  }

  /** No decimal rendering contains a comma. */
  lemma DecimalsCommaFree(digits: seq<nat>)
    ensures forall i :: 0 <= i < |digits| ==> ',' !in Decimals(digits)[i]
  {
    forall i | 0 <= i < |digits|
      ensures ',' !in Decimals(digits)[i]
    {
      DecimalIsToken(digits[i]);
    }
  }

  /** The decimal renderings of digits of `base` are comma-free, need no trimming, and parse back to the digits. */
  lemma DecimalsAreTokens(digits: seq<nat>, base: nat)
    requires AllBelow(digits, base)
    ensures forall i :: 0 <= i < |digits| ==> ',' !in Decimals(digits)[i]
    ensures TrimAll(Decimals(digits)) == Decimals(digits)
    ensures ParseTokens(Decimals(digits), base) == Success(digits)
  {
    var parts := Decimals(digits);
    forall i | 0 <= i < |parts|
      ensures ',' !in parts[i] && Trim(parts[i]) == parts[i] && TokenValue(parts[i], base) == Some(digits[i])
    {
      DecimalIsToken(digits[i]);
      ParseIntOfDecimal(digits[i]);
    }
    assert TrimAll(parts) == parts;
    var r := ParseTokens(parts, base);
    assert r.value == digits by {
      assert r.Success? && |r.value| == |digits|;
      forall i | 0 <= i < |digits|
        ensures r.value[i] == digits[i]
      {
        assert TokenValue(parts[i], base) == Some(r.value[i]);
      }
    }
  }

  /** Above base 36, parsing the comma-joined decimal numbers gives back the digits. */
  lemma ParseOfFormatTokens(digits: seq<nat>, base: nat)
    requires |digits| >= 1 && AllBelow(digits, base) && base > MaxAlphanumericBase
    ensures Parse(Format(digits, base), base) == Success(digits)
  {
    var parts := Decimals(digits);
    var text := Join(parts);
    assert Format(digits, base) == text;
    DecimalsAreTokens(digits, base);
    if |digits| == 1 {
      assert text == parts[0];
      assert TokenValue(text, base) == Some(digits[0]) by {
        ParseIntOfDecimal(digits[0]);
      }
      assert text != [] by {
        DecimalShape(digits[0]);
      }
      assert ',' !in text;
      assert digits == [digits[0]];
    } else {
      assert text == parts[0] + [','] + Join(parts[1..]);
      assert text[|parts[0]|] == ',';
      SplitJoin(parts);
    }
  }

  /** Up to base 36, parsing the characters formatDigits wrote gives back the digits. */
  lemma ParseOfFormatAlphanumeric(digits: seq<nat>, base: nat)
    requires |digits| >= 1 && AllBelow(digits, base) && base <= MaxAlphanumericBase
    ensures Parse(Format(digits, base), base) == Success(digits)
  {
    var text := Format(digits, base);
    forall i | 0 <= i < |text|
      ensures CharValue(text[i]) == Some(digits[i])
    {
      CharValueOfDigitChar(digits[i]);
    }
    var r := ParseAlphanumeric(text, base);
    assert r.value == digits;
  }

  /** Parsing what formatDigits wrote gives back the digits, for any non-empty sequence of digits of the base. */
  lemma ParseOfFormat(digits: seq<nat>, base: nat)
    requires |digits| >= 1 && AllBelow(digits, base)
    ensures Parse(Format(digits, base), base) == Success(digits)
  {
    if base > MaxAlphanumericBase {
      ParseOfFormatTokens(digits, base);
    } else {
      ParseOfFormatAlphanumeric(digits, base);
    }
  }

  /** Up to base 36, formatting what was parsed gives the text lower-cased. */
  lemma FormatOfParseAlphanumeric(s: string, base: nat)
    requires base <= MaxAlphanumericBase && Parse(s, base).Success?
    ensures Format(Parse(s, base).value, base) == LowerCase(s)
  {
    var ds := Parse(s, base).value;
    forall i | 0 <= i < |s|
      ensures DigitChar(ds[i]) == ToLower(s[i])
    {
      DigitCharOfCharValue(s[i]);
    }
  }

  /** A token in canonical form: the decimal rendering of the number it stands for, or the trimmed token if it stands for none. */
  function CanonicalToken(token: string): string
  {
    match ParseInt(token)
    case Some(n) => Decimal(n)
    case None => Trim(token)
  }

  /** Each piece in canonical form. */
  function CanonicalParts(parts: seq<string>): seq<string>
  {
    seq(|parts|, i requires 0 <= i < |parts| => CanonicalToken(parts[i]))
  }

  /** Comma-separated text in canonical form: each piece trimmed and without leading zeros, joined by ','. */
  function CanonicalTokens(s: string): string
  {
    Join(CanonicalParts(Split(s)))
  }

  /** A piece that reads, once trimmed, as a digit has that digit's decimal rendering as canonical form. */
  lemma CanonicalOfTrimmedToken(part: string, base: nat, d: nat)
    requires TokenValue(Trim(part), base) == Some(d)
    ensures CanonicalToken(part) == Decimal(d)
  {
    TrimIdempotent(part);
  }

  /** The decimal renderings of the parsed pieces are the pieces in canonical form. */
  lemma DecimalsOfParsedParts(parts: seq<string>, base: nat, digits: seq<nat>)
    requires ParseTokens(TrimAll(parts), base) == Success(digits)
    ensures Decimals(digits) == CanonicalParts(parts)
  {
    var trimmed := TrimAll(parts);
    assert |digits| == |parts|;
    forall i | 0 <= i < |parts|
      ensures Decimal(digits[i]) == CanonicalToken(parts[i])
    {
      assert TokenValue(trimmed[i], base) == Some(digits[i]);
      CanonicalOfTrimmedToken(parts[i], base, digits[i]);
    }
  }

  /** A comma-free text splits into itself. */
  lemma SplitCommaFree(s: string)
    requires ',' !in s
    ensures Split(s) == [s]
  {
    SplitAppend(s, []);
    assert s + [] == s;
  }

  /** Above base 36, formatting what was parsed gives the text in canonical form. */
  lemma FormatOfParseTokens(s: string, base: nat)
    requires base > MaxAlphanumericBase && Parse(s, base).Success?
    ensures Format(Parse(s, base).value, base) == CanonicalTokens(s)
  {
    var ds := Parse(s, base).value;
    if ',' in s {
      DecimalsOfParsedParts(Split(s), base, ds);
    } else {
      SplitCommaFree(s);
      assert Decimals(ds) == CanonicalParts([s]);
    }
  }

  // ---------------------------------------------------------------------------
  // Worked examples

  /** Above base 36, two or more comma-free, trimmed tokens joined by ',' take the comma branch and parse token by token. */
  lemma ParseJoined(parts: seq<string>, base: nat)
    requires base > MaxAlphanumericBase && |parts| >= 2
    requires forall i :: 0 <= i < |parts| ==> ',' !in parts[i] && Trim(parts[i]) == parts[i]
    ensures Parse(Join(parts), base) == ParseTokens(parts, base)
  {
    var text := Join(parts);
    assert text == parts[0] + [','] + Join(parts[1..]);
    assert text[|parts[0]|] == ',';
    SplitJoin(parts);
    assert TrimAll(parts) == parts;
  }

  /** "1a2b" in base 16 is 1, 10, 2, 11. */
  lemma ParseHexExample()
    ensures Parse("1a2b", 16) == Success([1, 10, 2, 11])
  {
    assert ValidChar('1', 16) && ValidChar('a', 16) && ValidChar('2', 16) && ValidChar('b', 16);
    var r := ParseAlphanumeric("1a2b", 16);
    assert r.value == [1, 10, 2, 11];
  }

  /** Letters are read case-insensitively: "1A2B" in base 16 is also 1, 10, 2, 11. */
  lemma ParseUpperHexExample()
    ensures Parse("1A2B", 16) == Success([1, 10, 2, 11])
  {
    assert ValidChar('1', 16) && ValidChar('A', 16) && ValidChar('2', 16) && ValidChar('B', 16);
    var r := ParseAlphanumeric("1A2B", 16);
    assert r.value == [1, 10, 2, 11];
  }

  /** The decimal renderings the examples below use. */
  lemma DecimalExamples()
    ensures Decimal(1) == "1" && Decimal(5) == "5" && Decimal(12) == "12" && Decimal(99) == "99"
    ensures Decimal(150) == "150"
  {
    assert ToDigits(1, 10) == [1];
    assert ToDigits(12, 10) == ToDigits(1, 10) + [2];
    assert ToDigits(99, 10) == ToDigits(9, 10) + [9];
    assert ToDigits(15, 10) == ToDigits(1, 10) + [5];
    assert ToDigits(150, 10) == ToDigits(15, 10) + [0];
  }

  /** Above base 36, a digit of the base followed by a number that is not: the error names the second token. */
  lemma ParseSecondTokenRejected(m: nat, n: nat, base: nat)
    requires base > MaxAlphanumericBase && m < base <= n
    ensures Parse(Decimal(m) + [','] + Decimal(n), base) == Failure(InvalidToken(Decimal(n), base))
  {
    var parts := [Decimal(m), Decimal(n)];
    DecimalIsToken(m);
    DecimalIsToken(n);
    ParseIntOfDecimal(m);
    ParseIntOfDecimal(n);
    ParseJoined(parts, base);
    assert parts[1..] == [Decimal(n)];
    assert Join(parts) == Decimal(m) + [','] + Decimal(n);
  }

  /** [5, 12, 99] in base 100 is written "5,12,99". */
  lemma FormatCommaExample()
    ensures Format([5, 12, 99], 100) == "5,12,99"
  {
    DecimalExamples();
    assert Decimals([5, 12, 99]) == ["5", "12", "99"];
  }

  /** "5,12,99" in base 100 is the three digits 5, 12 and 99. */
  lemma ParseCommaExample()
    ensures Parse("5,12,99", 100) == Success([5, 12, 99])
  {
    ParseOfFormatTokens([5, 12, 99], 100);
    FormatCommaExample();
  }

  /** The text of the rejected example below, built from decimal renderings. */
  lemma CommaRejectedText()
    ensures Decimal(1) + [','] + Decimal(150) == "1,150" && Decimal(150) == "150"
  {
    DecimalExamples();
  }

  /** "1,150" in base 100 fails on the token "150", which is not a digit of the base. */
  lemma ParseCommaRejectedExample()
    ensures Parse("1,150", 100) == Failure(InvalidToken("150", 100))
  {
    ParseSecondTokenRejected(1, 150, 100);
    CommaRejectedText();
  }

  /** "1g" in base 16 fails because 'g' stands for 16, too large for the base. */
  lemma ParseDigitTooLargeExample()
    ensures Parse("1g", 16) == Failure(DigitTooLarge(16, 16))
  {
    assert "1g"[..1] == "1";
    assert ParseAlphanumeric("1", 16).Success?;
  }

  /** "1!" in base 16 fails on the character '!'. */
  lemma ParseInvalidCharacterExample()
    ensures Parse("1!", 16) == Failure(InvalidCharacter('!', 16))
  {
    assert "1!"[..1] == "1";
    assert ParseAlphanumeric("1", 16).Success?;
  }

  /** "7" in base 50 is the single digit 7. */
  lemma ParseSingleTokenExample()
    ensures Parse("7", 50) == Success([7])
  {
    ParseOfFormatTokens([7], 50);
    assert Decimal(7) == "7";
  }
}
