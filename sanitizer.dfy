/**
 * `InputSanitizer`: each check escapes the input with `escapeJava` and
 * matches the escaped text against a regular expression; the raw input (or
 * its parsed value) is returned, and a mismatch throws `InvalidCharsException`.
 */
module Sanitizer {
  import opened Wrappers
  import opened Text

  datatype SanitizeError =
    | InvalidChars    // `InvalidCharsException`
    | NumberFormat    // `NumberFormatException` from `Integer.parseInt`

  // ---------------------------------------------------------------------------
  // `StringEscapeUtils.escapeJava`

  /** Characters `escapeJava` copies unchanged: code points 32-127 except `"` and `\`. */
  predicate Plain(c: char) {
    ' ' <= c <= '\U{7F}' && c != '"' && c != '\\'
  }

  predicate AllPlain(s: string) {
    forall i :: 0 <= i < |s| ==> Plain(s[i])
  }

  function HexUpper(d: nat): (c: char)
    requires d < 16
  {
    if d < 10 then DigitChar(d) else (d - 10 + 'A' as int) as char
  }

  /** `\u` followed by four upper-case hex digits. */
  function UnicodeEscape(u: nat): (e: string)
    requires u < 0x1_0000
    ensures |e| == 6 && e[0] == '\\' && e[1] == 'u'
  {
    "\\u" + [HexUpper(u / 0x1000), HexUpper(u / 0x100 % 16), HexUpper(u / 0x10 % 16), HexUpper(u % 16)]
  }

  /**
   * One character through commons-text's `ESCAPE_JAVA`: the `"`/`\` lookup,
   * then the control-character lookup, then `\uXXXX` for code points outside
   * 32..127 (a UTF-16 surrogate pair above `0xFFFF`).
   */
  function EscapeChar(c: char): (e: string)
    ensures |e| >= 1
  {
    if c == '"' then "\\\""
    else if c == '\\' then "\\\\"
    else if c == '\U{8}' then "\\b"
    else if c == '\n' then "\\n"
    else if c == '\t' then "\\t"
    else if c == '\U{C}' then "\\f"
    else if c == '\r' then "\\r"
    else if c < ' ' || c > '\U{7F}' then
      var cp := c as int;
      if cp < 0x1_0000 then UnicodeEscape(cp)
      else UnicodeEscape(0xD800 + (cp - 0x1_0000) / 0x400) + UnicodeEscape(0xDC00 + (cp - 0x1_0000) % 0x400)
    else [c]
  }

  function EscapeJava(s: string): string {
    if s == [] then [] else EscapeChar(s[0]) + EscapeJava(s[1..])
  }

  /** Every escape sequence starts with a backslash followed by a non-digit. */
  lemma EscapeCharShape(c: char)
    ensures Plain(c) ==> EscapeChar(c) == [c]
    ensures !Plain(c) ==> |EscapeChar(c)| >= 2 && EscapeChar(c)[0] == '\\' && !IsDigit(EscapeChar(c)[1])
  {
  }

  /** `escapeJava` is the identity on printable ASCII other than `"` and `\`. */
  lemma {:induction false} EscapePlainIdentity(s: string)
    requires AllPlain(s)
    ensures EscapeJava(s) == s
  {
    if s != [] {
      EscapeCharShape(s[0]);
      EscapePlainIdentity(s[1..]);
    }
  }

  /** Escaping anything else leaves a backslash followed by a non-digit, at index `i`. */
  lemma {:induction false} EscapeMarksNonPlain(s: string) returns (i: nat)
    requires !AllPlain(s)
    ensures i + 1 < |EscapeJava(s)| && EscapeJava(s)[i] == '\\' && !IsDigit(EscapeJava(s)[i + 1])
  {
    var head, r := EscapeChar(s[0]), EscapeJava(s[1..]);
    assert EscapeJava(s) == head + r;
    EscapeCharShape(s[0]);
    if Plain(s[0]) {
      var j := EscapeMarksNonPlain(s[1..]);
      i := j + 1;
    } else {
      i := 0;
    }
  }

  // ---------------------------------------------------------------------------
  // Character classes of the patterns

  /** Java's `\s`: space, `\t`, `\n`, `\x0B`, `\f`, `\r`. */
  predicate IsSpace(c: char) {
    c == ' ' || c == '\t' || c == '\n' || c == '\U{B}' || c == '\U{C}' || c == '\r'
  }

  predicate IsLetterOrDigit(c: char) {
    'a' <= c <= 'z' || 'A' <= c <= 'Z' || IsDigit(c)
  }

  datatype CharClass =
    | Alphanumeric   // [a-zA-Z0-9\s]
    | Password       // [a-zA-Z0-9\s-+_#*'^?!"£$€%&/()=@]
    | Generic        // [a-zA-Z0-9\s-+_*!'^?àòèé]
    | Digits         // [0-9]

  predicate InClass(k: CharClass, c: char) {
    match k
    case Alphanumeric => IsLetterOrDigit(c) || IsSpace(c)
    case Password =>
      IsLetterOrDigit(c) || IsSpace(c) || c in "-+_#*'^?!\"\U{A3}$\U{20AC}%&/()=@"
    case Generic =>
      IsLetterOrDigit(c) || IsSpace(c) || c in "-+_*!'^?\U{E0}\U{F2}\U{E8}\U{E9}"
    case Digits => IsDigit(c)
  }

  /** `Pattern.matches("[class]{lo,hi}", s)`. */
  predicate Repeats(s: string, k: CharClass, lo: nat, hi: nat) {
    lo <= |s| <= hi && forall i :: 0 <= i < |s| ==> InClass(k, s[i])
  }

  /** Matching the escaped text is matching the raw input and having it all plain. */
  lemma EscapedRepeatsIff(input: string, k: CharClass, lo: nat, hi: nat)
    ensures Repeats(EscapeJava(input), k, lo, hi) <==> Repeats(input, k, lo, hi) && AllPlain(input)
    ensures Repeats(EscapeJava(input), k, lo, hi) ==> EscapeJava(input) == input
  {
    if AllPlain(input) {
      EscapePlainIdentity(input);
    } else {
      var i := EscapeMarksNonPlain(input);
    }
  }

  /**
   * The characters a check really accepts: its class minus whatever
   * `escapeJava` rewrites. Of `\s` only the space survives; `"`, `£`, `€`
   * and `àòèé` are listed in the patterns but never accepted.
   */
  predicate Accepted(k: CharClass, c: char) {
    match k
    case Alphanumeric => IsLetterOrDigit(c) || c == ' '
    case Password => IsLetterOrDigit(c) || c in " -+_#*'^?!$%&/()="
      || c == '@'
    case Generic => IsLetterOrDigit(c) || c in " -+_*!'^?"
    case Digits => IsDigit(c)
  }

  lemma AcceptedIsPlainClass(k: CharClass, c: char)
    ensures Accepted(k, c) <==> Plain(c) && InClass(k, c)
  {
  }

  /** The three text checks accept exactly `lo..hi` accepted characters. */
  lemma {:induction false} CheckAcceptsIff(input: string, k: CharClass, lo: nat, hi: nat)
    ensures Repeats(EscapeJava(input), k, lo, hi)
      <==> lo <= |input| <= hi && forall i :: 0 <= i < |input| ==> Accepted(k, input[i])
    ensures Repeats(EscapeJava(input), k, lo, hi) ==> EscapeJava(input) == input
  {
    EscapedRepeatsIff(input, k, lo, hi);
    forall i | 0 <= i < |input| {
      AcceptedIsPlainClass(k, input[i]);
    }
  }

  // ---------------------------------------------------------------------------
  // The checks

  function SanitizeAlphanumeric(input: string): (r: Result<string, SanitizeError>)
    ensures r.Ok? ==> r.value == input
    ensures r.Err? ==> r.error == InvalidChars
    ensures r.Ok? <==> |input| <= 50 && forall i :: 0 <= i < |input| ==> Accepted(Alphanumeric, input[i])
  {
    CheckAcceptsIff(input, Alphanumeric, 0, 50);
    var sanitized := EscapeJava(input);
    if !Repeats(sanitized, Alphanumeric, 0, 50) then Err(InvalidChars) else Ok(input)
  }

  function SanitizePassword(input: string): (r: Result<string, SanitizeError>)
    ensures r.Ok? ==> r.value == input
    ensures r.Err? ==> r.error == InvalidChars
    ensures r.Ok? <==> 4 <= |input| <= 50 && forall i :: 0 <= i < |input| ==> Accepted(Password, input[i])
  {
    CheckAcceptsIff(input, Password, 4, 50);
    var sanitized := EscapeJava(input);
    if !Repeats(sanitized, Password, 4, 50) then Err(InvalidChars) else Ok(input)
  }

  function SanitizeGeneric(input: string): (r: Result<string, SanitizeError>)
    ensures r.Ok? ==> r.value == input
    ensures r.Err? ==> r.error == InvalidChars
    ensures r.Ok? <==> |input| <= 50 && forall i :: 0 <= i < |input| ==> Accepted(Generic, input[i])
  {
    CheckAcceptsIff(input, Generic, 0, 50);
    var sanitized := EscapeJava(input);
    if !Repeats(sanitized, Generic, 0, 50) then Err(InvalidChars) else Ok(input)
  }

  /** A letter the generic pattern lists, which the check still rejects. */
  lemma GenericRejectsListedAccent()
    ensures InClass(Generic, '\U{E8}') && SanitizeGeneric("\U{E8}").Err?
  {
    assert !Accepted(Generic, "\U{E8}"[0]);
  }

  /**
   * `sanitizeNumeric`: 1 to 20 digits, then `Integer.parseInt`, which throws
   * `NumberFormatException` above `2^31 - 1`.
   */
  function SanitizeNumeric(input: string): (r: Result<int, SanitizeError>)
    ensures r == Err(InvalidChars) <==> !(1 <= |input| <= 20 && AllDigits(input))
    ensures r.Ok? ==> AllDigits(input) && r.value == DecimalValue(input) && 0 <= r.value <= MaxInt
    ensures r == Err(NumberFormat) ==> AllDigits(input) && DecimalValue(input) > MaxInt
  {
    CheckAcceptsIff(input, Digits, 1, 20);
    var sanitized := EscapeJava(input);
    if !Repeats(sanitized, Digits, 1, 20) then Err(InvalidChars)
    else if DecimalValue(sanitized) > MaxInt then Err(NumberFormat)
    else Ok(DecimalValue(sanitized))
  }

  /** Every `int` from 0 to `2^31 - 1`, written as Java writes it, comes back unchanged. */
  lemma NumericRoundTrip(n: nat)
    requires n <= MaxInt
    ensures SanitizeNumeric(NatToString(n)) == Ok(n)
  {
    MaxIntFitsTenDigits(n);
    DecimalValueOfNatToString(n);
  }

  /** A line terminator, which the regex `.` does not match. */
  predicate LineTerminator(c: char) {
    c == '\n' || c == '\r' || c == '\U{85}' || c == '\U{2028}' || c == '\U{2029}'
  }

  /** `[0-9]{1,20}.[0-9]{0,2}` with the separator at index `k`. */
  predicate FractionAt(s: string, k: int) {
    1 <= k <= 20 && k < |s| <= k + 3
    && AllDigits(s[..k]) && !LineTerminator(s[k]) && AllDigits(s[k + 1..])
  }

  /** `[0-9]{1,20}.[0-9]{0,2}` or `[0-9]{1,20}`; the `.` matches any character. */
  predicate FloatShape(s: string) {
    Repeats(s, Digits, 1, 20) || FractionAt(s, |s| - 1) || FractionAt(s, |s| - 2) || FractionAt(s, |s| - 3)
  }

  /**
   * `sanitizeFloat`, acceptance only: the text handed to `Float.parseFloat`.
   * The value of the float is not modelled.
   */
  function SanitizeFloat(input: string): (r: Result<string, SanitizeError>)
    ensures r.Ok? <==> AllPlain(input) && FloatShape(input)
    ensures r.Ok? ==> r.value == input
    ensures r.Err? ==> r.error == InvalidChars
  {
    FloatShapeNeedsPlain(input);
    var sanitized := EscapeJava(input);
    if !FloatShape(sanitized) then Err(InvalidChars) else Ok(sanitized)
  }

  lemma FloatShapeNeedsPlain(input: string)
    ensures FloatShape(EscapeJava(input)) <==> AllPlain(input) && FloatShape(input)
    ensures AllPlain(input) ==> EscapeJava(input) == input
  {
    if AllPlain(input) {
      EscapePlainIdentity(input);
    } else {
      var e := EscapeJava(input);
      var i := EscapeMarksNonPlain(input);
      NoFractionAround(e, i, |e| - 1);
      NoFractionAround(e, i, |e| - 2);
      NoFractionAround(e, i, |e| - 3);
    }
  }

  /** A backslash followed by a non-digit fits no float shape. */
  lemma NoFractionAround(e: string, i: nat, k: int)
    requires i + 1 < |e| && e[i] == '\\' && !IsDigit(e[i + 1])
    ensures !FractionAt(e, k)
  {
  }

  /**
   * The unescaped `.` lets any plain separator past the pattern. `12x5` then
   * fails in `Float.parseFloat`, but an exponent such as `1e30` or `9e99`
   * (which parses to infinity) is accepted as a float.
   */
  lemma FloatPatternAdmitsAnySeparator()
    ensures SanitizeFloat("12x5") == Ok("12x5")
    ensures SanitizeFloat("1e30") == Ok("1e30")
    ensures SanitizeFloat("9e99") == Ok("9e99")
  {
    assert AllPlain("12x5") && FractionAt("12x5", 2);
    assert AllPlain("1e30") && FractionAt("1e30", 1);
    assert AllPlain("9e99") && FractionAt("9e99", 1);
  }

  /** `[0-9]{4}-[0-9]{2}-[0-9]{2}T[0-9]{2}:[0-9]{2}`. */
  predicate DateTimeShape(s: string) {
    && |s| == 16
    && (forall i :: 0 <= i < 16 && i !in {4, 7, 10, 13} ==> IsDigit(s[i]))
    && s[4] == '-' && s[7] == '-' && s[10] == 'T' && s[13] == ':'
  }

  /** `String.replace` of one character by another, every occurrence. */
  function ReplaceChar(s: string, from: char, to: char): (r: string)
    ensures |r| == |s|
    ensures forall i :: 0 <= i < |s| ==> r[i] == if s[i] == from then to else s[i]
  {
    seq(|s|, i requires 0 <= i < |s| => if s[i] == from then to else s[i])
  }

  /**
   * `sanitizeDateTime`: the text handed to `Timestamp.valueOf`. Whether it
   * names a real date is not modelled.
   */
  function SanitizeDateTime(input: string): (r: Result<string, SanitizeError>)
    ensures r.Ok? <==> DateTimeShape(input)
    ensures r.Err? ==> r.error == InvalidChars
    ensures r.Ok? ==> |r.value| == 19 && r.value == input[..10] + " " + input[11..] + ":00"
  {
    DateTimeShapeNeedsPlain(input);
    var sanitized := EscapeJava(input);
    if !DateTimeShape(sanitized) then Err(InvalidChars)
    else
      var withSeconds := if |input| == 16 then input + ":00" else input;
      var text := ReplaceChar(withSeconds, 'T', ' ');
      assert text == input[..10] + " " + input[11..] + ":00";
      Ok(text)
  }

  lemma DateTimeShapeNeedsPlain(input: string)
    ensures DateTimeShape(EscapeJava(input)) <==> DateTimeShape(input)
  {
    if AllPlain(input) {
      EscapePlainIdentity(input);
    } else {
      var i := EscapeMarksNonPlain(input);
      assert !DateTimeShape(EscapeJava(input));
      assert exists i :: 0 <= i < |input| && !Plain(input[i]);
    }
  }

  /** `sanitizeBoolean`: exactly `"true"` or `"false"`. */
  function SanitizeBoolean(input: string): (r: Result<bool, SanitizeError>)
    ensures r == Ok(true) <==> input == "true"
    ensures r == Ok(false) <==> input == "false"
    ensures r.Err? <==> input != "true" && input != "false"
    ensures r.Err? ==> r.error == InvalidChars
  {
    BooleanNeedsPlain(input);
    var sanitized := EscapeJava(input);
    if sanitized == "true" then Ok(true)
    else if sanitized == "false" then Ok(false)
    else Err(InvalidChars)
  }

  lemma BooleanNeedsPlain(input: string)
    ensures EscapeJava(input) == "true" <==> input == "true"
    ensures EscapeJava(input) == "false" <==> input == "false"
  {
    if AllPlain(input) {
      EscapePlainIdentity(input);
    } else {
      var i := EscapeMarksNonPlain(input);
      assert AllPlain("true") && AllPlain("false");
    }
  }
}
