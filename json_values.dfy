/** The values JSON.parse produces, the parser itself as an opaque total
    function, and a concrete decoder for one JSON string literal as section 7
    of RFC 8259 defines it. */
module JsonValues {
  import opened JsCore

  /** A parsed JSON value. Objects map member names to values; JSON.parse
      keeps the last of repeated names. A map forgets the order of the
      members, which the serialised answer shows; nothing in the recovery
      logic depends on that order. Numbers are kept as mathematical reals. */
  datatype Json =
    | JNull
    | JBool(b: bool)
    | JNumber(n: real)
    | JString(s: JsString)
    | JArray(elems: seq<Json>)
    | JObject(fields: map<JsString, Json>)

  /** JSON.parse: it returns a value or throws. Nothing more is assumed about
      it, so every property proved here holds for any parser. */
  type Parser = JsString -> Result<Json>

  // ----- one string literal, section 7 of RFC 8259 -----

  predicate IsHexDigit(u: CodeUnit)
  {
    0x30 <= u <= 0x39 || 0x41 <= u <= 0x46 || 0x61 <= u <= 0x66
  }

  function HexDigitValue(u: CodeUnit): (v: nat)
    requires IsHexDigit(u)
    ensures v < 16
  {
    if u <= 0x39 then u - 0x30 else if u <= 0x46 then u - 0x41 + 10 else u - 0x61 + 10
  }

  /** The unit that a two-character escape `\x` stands for; `\u` is handled apart. */
  function Unescape(x: CodeUnit): Option<CodeUnit>
  {
    if x == QUOTE then Some(QUOTE)
    else if x == BACKSLASH then Some(BACKSLASH)
    else if x == 0x2F then Some(0x2F)      // '/'
    else if x == 0x62 then Some(0x08)      // 'b'
    else if x == 0x66 then Some(0x0C)      // 'f'
    else if x == LETTER_N then Some(LF)
    else if x == 0x72 then Some(CR)        // 'r'
    else if x == LETTER_T then Some(TAB)
    else None
  }

  /** The decoded characters of a literal and how many units of the input
      they took, the closing quotation mark included. */
  datatype Decoded = Decoded(text: JsString, used: nat)

  function Prepend(prefix: JsString, n: nat, r: Result<Decoded>): Result<Decoded>
  {
    match r
    case Ok(d) => Ok(Decoded(prefix + d.text, n + d.used))
    case Err(e) => Err(e)
  }

  const UNTERMINATED := Error("Unterminated string in JSON")
  const BAD_ESCAPE := Error("Bad escaped character in JSON")
  const BAD_CONTROL := Error("Bad control character in string literal in JSON")
  const NOT_A_STRING := Error("Unexpected token in JSON")

  /** The characters of a string literal that follow its opening quotation
      mark, up to and including the closing one: an unescaped unit is any unit
      from 0x20 on except the quotation mark and the backslash, and an escape
      is one of \" \\ \/ \b \f \n \r \t or \u with four hex digits. */
  function DecodeChars(t: JsString): (r: Result<Decoded>)
    ensures r.Ok? ==> 1 <= r.value.used <= |t| && t[r.value.used - 1] == QUOTE
    decreases |t|
  {
    if t == [] then Err(UNTERMINATED)
    else if t[0] == QUOTE then Ok(Decoded([], 1))
    else if t[0] == BACKSLASH then
      if |t| < 2 then Err(UNTERMINATED)
      else if t[1] == 0x75 then   // 'u'
        if |t| >= 6 && IsHexDigit(t[2]) && IsHexDigit(t[3]) && IsHexDigit(t[4]) && IsHexDigit(t[5]) then
          var v := ((HexDigitValue(t[2]) * 16 + HexDigitValue(t[3])) * 16 + HexDigitValue(t[4])) * 16
                   + HexDigitValue(t[5]);
          Prepend([v], 6, DecodeChars(t[6..]))
        else Err(BAD_ESCAPE)
      else
        match Unescape(t[1])
        case Some(u) => Prepend([u], 2, DecodeChars(t[2..]))
        case None => Err(BAD_ESCAPE)
    else if t[0] < 0x20 then Err(BAD_CONTROL)
    else Prepend([t[0]], 1, DecodeChars(t[1..]))
  }

  /** The value of a text that is exactly one JSON string literal. */
  function DecodeStringLiteral(t: JsString): Result<JsString>
  {
    if t == [] || t[0] != QUOTE then Err(NOT_A_STRING)
    else
      match DecodeChars(t[1..])
      case Ok(d) => if d.used == |t| - 1 then Ok(d.text) else Err(NOT_A_STRING)
      case Err(e) => Err(e)
  }

  /** A parser that agrees with section 7 of RFC 8259 on every text that is
      one string literal, as JSON.parse does. */
  ghost predicate ParsesStringLiterals(parse: Parser)
  {
    forall t :: DecodeStringLiteral(t).Ok? ==> parse(t) == Ok(JString(DecodeStringLiteral(t).value))
  }

  /** Decoding a unit or an escape in front of a decoded rest. */
  lemma {:induction false} DecodeUnescaped(u: CodeUnit, rest: JsString)
    requires u >= 0x20 && u != QUOTE && u != BACKSLASH
    ensures DecodeChars([u] + rest) == Prepend([u], 1, DecodeChars(rest))
  {
    assert ([u] + rest)[1..] == rest;
  }

  lemma {:induction false} DecodeEscape(x: CodeUnit, rest: JsString)
    requires x != 0x75 && Unescape(x).Some?
    ensures DecodeChars([BACKSLASH, x] + rest) == Prepend([Unescape(x).value], 2, DecodeChars(rest))
  {
    assert ([BACKSLASH, x] + rest)[2..] == rest;
  }

  lemma {:induction false} DecodeLiteralOf(body: JsString, text: JsString)
    requires DecodeChars(body + [QUOTE]) == Ok(Decoded(text, |body| + 1))
    ensures DecodeStringLiteral([QUOTE] + body + [QUOTE]) == Ok(text)
  {
    var t: JsString := [QUOTE] + body + [QUOTE];
    var inner: JsString := body + [QUOTE];
    assert DecodeChars(inner) == Ok(Decoded(text, |body| + 1));
    assert t[0] == QUOTE;
    assert t[1..] == body + [QUOTE];
    assert |t| - 1 == |body| + 1;
  }
}
