/** The diagnostic windows of index.js: the failure report of /decrypt and
    the context and character analysis of /debug-error-position. All of them
    are offsets clamped by String.prototype.substring. */
module Diagnostics {
  import opened JsCore

  // ----- Number.prototype.toString(radix) on non-negative integers -----

  /** The digit of value d, lower-case as toString writes it. */
  function DigitChar(d: nat): (u: CodeUnit)
    requires d < 16
  {
    if d < 10 then 0x30 + d else 0x61 + d - 10
  }

  /** The value of a digit unit 0-9 or a-f. */
  function DigitValue(u: CodeUnit): nat
  {
    if 0x30 <= u <= 0x39 then u - 0x30 else if 0x61 <= u <= 0x66 then u - 0x61 + 10 else 0
  }

  /** u is a digit of base b: the unit DigitChar writes for some d < b. */
  predicate IsDigit(u: CodeUnit, b: nat)
  {
    DigitValue(u) < b && DigitValue(u) < 16 && u == DigitChar(DigitValue(u))
  }

  /** n.toString(b): the digits of n in base b, most significant first. */
  function ToRadix(n: nat, b: nat): (r: JsString)
    requires 2 <= b <= 16
    ensures |r| >= 1
    ensures forall k :: 0 <= k < |r| ==> IsDigit(r[k], b)
    decreases n
  {
    if n < b then [DigitChar(n)]
    else
      var q := ToRadix(n / b, b);
      var r := q + [DigitChar(n % b)];
      assert forall k :: 0 <= k < |q| ==> r[k] == q[k];
      r
  }

  /** The number that a string of base-b digits denotes. */
  function RadixValue(s: JsString, b: nat): nat
    decreases |s|
  {
    if s == [] then 0 else RadixValue(s[..|s| - 1], b) * b + DigitValue(s[|s| - 1])
  }

  lemma {:induction false} DigitRoundTrip(d: nat)
    requires d < 16
    ensures DigitValue(DigitChar(d)) == d
  {
  }

  lemma {:induction false} RadixValueSnoc(s: JsString, u: CodeUnit, b: nat)
    ensures RadixValue(s + [u], b) == RadixValue(s, b) * b + DigitValue(u)
  {
    assert (s + [u])[..|s|] == s;
  }

  lemma {:induction false} DivisionShrinks(n: nat, b: nat)
    requires 2 <= b <= n
    ensures 0 < n / b < n && n == n / b * b + n % b && n % b < b
  {
  }

  /** toString writes n exactly. */
  lemma {:induction false} ToRadixRoundTrip(n: nat, b: nat)
    requires 2 <= b <= 16
    ensures RadixValue(ToRadix(n, b), b) == n
    decreases n
  {
    if n < b {
      DigitRoundTrip(n);
      RadixValueSnoc([], DigitChar(n), b);
      assert [] + [DigitChar(n)] == ToRadix(n, b);
    } else {
      var q, d := n / b, n % b;
      DivisionShrinks(n, b);
      var rq := ToRadix(q, b);
      assert ToRadix(n, b) == rq + [DigitChar(d)];
      calc {
        RadixValue(ToRadix(n, b), b);
        { RadixValueSnoc(rq, DigitChar(d), b); }
        RadixValue(rq, b) * b + DigitValue(DigitChar(d));
        { ToRadixRoundTrip(q, b); DigitRoundTrip(d); }
        q * b + d;
      }
    }
  }

  /** toString writes no leading zero. */
  lemma {:induction false} ToRadixNoLeadingZero(n: nat, b: nat)
    requires 2 <= b <= 16 && n > 0
    ensures ToRadix(n, b)[0] != DigitChar(0)
    decreases n
  {
    if n >= b {
      var q := n / b;
      DivisionShrinks(n, b);
      ToRadixNoLeadingZero(q, b);
      assert ToRadix(n, b) == ToRadix(q, b) + [DigitChar(n % b)];
    }
  }

  // ----- the failure report of /decrypt -----

  const ERROR_POSITION := 6801
  const SAMPLE_RADIUS := 100

  /** What /decrypt reports when every stage fails: the message of the direct
      parse's error, the fixed position, the sample around it, and the code of
      the unit at the position, which is read only when it exists. */
  datatype FailureReport = FailureReport(details: string, position: int, sample: JsString, problemCode: Option<CodeUnit>)

  function DecryptFailureReport(data: JsString, details: string): (r: FailureReport)
    ensures r.details == details && r.position == 6801
    ensures |data| <= 6701 ==> r.sample == []
    ensures |data| > 6701 ==> r.sample == data[6701..Min(|data|, 6901)]
    ensures r.problemCode.Some? <==> 6801 < |data|
    ensures r.problemCode.Some? ==> r.problemCode.value == data[6801]
  {
    var start := Max(0, ERROR_POSITION - SAMPLE_RADIUS);
    var end := Min(|data|, ERROR_POSITION + SAMPLE_RADIUS);
    var code := if ERROR_POSITION < |data| then Some(data[ERROR_POSITION]) else None;
    FailureReport(details, ERROR_POSITION, Substring(data, start, end), code)
  }

  // ----- /debug-error-position -----

  const DEFAULT_ERROR_POSITION := 6801
  const CONTEXT_RADIUS := 200
  const ANALYSIS_RADIUS := 10
  const PATTERN_RADIUS := 50

  /** The text before, at and after the position p. */
  datatype Context = Context(before: JsString, at: JsString, after: JsString)

  function ErrorContext(data: JsString, p: int): (c: Context)
    ensures c.before == data[Clamp(Max(0, p - 200), |data|)..Clamp(p, |data|)]
    ensures c.at == if 0 <= p < |data| then [data[p]] else []
    ensures c.after == data[Clamp(p + 1, |data|)..Clamp(Min(|data|, p + 200), |data|)]
    ensures p >= |data| ==> c.at == [] && c.after == []
  {
    var start := Max(0, p - CONTEXT_RADIUS);
    var end := Min(|data|, p + CONTEXT_RADIUS);
    Context(Substring(data, start, p), Substring(data, p, p + 1), Substring(data, p + 1, end))
  }

  /** With the position inside the text, the three parts read back the window
      around it without gap or overlap. */
  lemma {:induction false} ErrorContextTiles(data: JsString, p: int)
    requires 0 <= p < |data|
    ensures var c := ErrorContext(data, p);
      c.before + c.at + c.after == data[Max(0, p - 200)..Min(|data|, p + 200)]
  {
    var c := ErrorContext(data, p);
    var lo, hi := Max(0, p - 200), Min(|data|, p + 200);
    assert c.before == data[lo..p] && c.at == data[p..p + 1] && c.after == data[p + 1..hi];
    assert data[lo..hi] == data[lo..p] + data[p..p + 1] + data[p + 1..hi];
  }

  datatype CharType = Control | Extended | Normal

  const HEX_PREFIX: JsString := [0x30, 0x78]   // "0x"

  /** The unit itself when printable ASCII, otherwise its decimal code in brackets. */
  function ShowUnit(u: CodeUnit): (r: JsString)
    ensures 32 <= u <= 126 ==> r == [u]
    ensures !(32 <= u <= 126) ==>
      && |r| >= 3 && r[0] == OPEN_BRACKET && r[|r| - 1] == CLOSE_BRACKET
      && RadixValue(r[1..|r| - 1], 10) == u
      && (forall k :: 1 <= k < |r| - 1 ==> IsDigit(r[k], 10))
  {
    if 32 <= u <= 126 then [u]
    else
      var digits := ToRadix(u, 10);
      ToRadixRoundTrip(u, 10);
      var r := [OPEN_BRACKET] + digits + [CLOSE_BRACKET];
      assert r[1..|r| - 1] == digits;
      assert forall k :: 1 <= k < |r| - 1 ==> r[k] == digits[k - 1];
      r
  }

  /** '0x' + code.toString(16). */
  function HexOf(u: CodeUnit): JsString
  {
    HEX_PREFIX + ToRadix(u, 16)
  }

  /** The hex text reads back as the code, with no leading zero after the
      prefix unless the code is zero. */
  lemma {:induction false} HexRoundTrip(u: CodeUnit)
    ensures |HexOf(u)| >= 3 && HexOf(u)[..2] == HEX_PREFIX
    ensures RadixValue(HexOf(u)[2..], 16) == u
    ensures forall k :: 2 <= k < |HexOf(u)| ==> IsDigit(HexOf(u)[k], 16)
    ensures u > 0 ==> HexOf(u)[2] != DigitChar(0)
  {
    assert HexOf(u)[2..] == ToRadix(u, 16);
    assert forall k :: 2 <= k < |HexOf(u)| ==> HexOf(u)[k] == ToRadix(u, 16)[k - 2];
    ToRadixRoundTrip(u, 16);
    if u > 0 {
      ToRadixNoLeadingZero(u, 16);
    }
  }

  /** One element of characterAnalysis. Its `char` and `hex` members are
      functions of the code. */
  datatype CharEntry = CharEntry(position: nat, code: CodeUnit, kind: CharType)
  {
    function Char(): JsString { ShowUnit(code) }

    function Hex(): JsString { HexOf(code) }
  }

  /** The entry for position i. */
  function EntryAt(data: JsString, i: nat): CharEntry
    requires i < |data|
  {
    var code := data[i];
    var kind := if code < 32 then Control else if code > 126 then Extended else Normal;
    CharEntry(i, code, kind)
  }

  /** Each entry gives its position and code, a type that is `control`
      exactly below 32, `extended` exactly above 126 and `normal` exactly in
      between, the unit shown or its code in brackets, and a hexadecimal code
      that reads back as the code. */
  lemma {:induction false} EntryAtFields(data: JsString, i: nat)
    requires i < |data|
    ensures var e := EntryAt(data, i);
      && e.position == i && e.code == data[i]
      && (e.kind == Control <==> data[i] < 32)
      && (e.kind == Extended <==> data[i] > 126)
      && (e.kind == Normal <==> 32 <= data[i] <= 126)
      && (32 <= data[i] <= 126 ==> e.Char() == [data[i]])
      && (!(32 <= data[i] <= 126) ==>
            && |e.Char()| >= 3 && e.Char()[0] == OPEN_BRACKET && e.Char()[|e.Char()| - 1] == CLOSE_BRACKET
            && (forall k :: 1 <= k < |e.Char()| - 1 ==> IsDigit(e.Char()[k], 10))
            && RadixValue(e.Char()[1..|e.Char()| - 1], 10) == data[i])
      && |e.Hex()| >= 3 && e.Hex()[..2] == HEX_PREFIX && RadixValue(e.Hex()[2..], 16) == data[i]
      && (forall k :: 2 <= k < |e.Hex()| ==> IsDigit(e.Hex()[k], 16))
  {
    HexRoundTrip(data[i]);
  }

  /** The entries of the n positions from lo on, in ascending order. */
  function Window(data: JsString, lo: nat, n: nat): (w: seq<CharEntry>)
    requires lo + n <= |data|
    ensures |w| == n
    ensures forall k :: 0 <= k < n ==> w[k] == EntryAt(data, lo + k)
  {
    var w := seq(n, k requires 0 <= k < n => EntryAt(data, lo + k));
    assert forall k :: 0 <= k < n ==> w[k] == EntryAt(data, lo + k);
    w
  }

  lemma {:induction false} WindowGrows(data: JsString, lo: nat, n: nat)
    requires lo + n < |data|
    ensures Window(data, lo, n + 1) == Window(data, lo, n) + [EntryAt(data, lo + n)]
  {
    var w, w' := Window(data, lo, n), Window(data, lo, n + 1);
    assert forall k :: 0 <= k < n ==> w'[k] == w[k];
    assert w'[n] == EntryAt(data, lo + n);
  }

  /** characterAnalysis for position p: the entries of the positions from
      max(0, p - 10) below min(len, p + 10), in ascending order; there are
      at most 20. */
  function Analysis(data: JsString, p: int): (r: seq<CharEntry>)
    ensures |r| == Max(0, Min(|data|, p + 10) - Max(0, p - 10)) && |r| <= 20
    ensures forall k :: 0 <= k < |r| ==> Max(0, p - 10) + k < |data| && r[k] == EntryAt(data, Max(0, p - 10) + k)
  {
    var lo, hi := Max(0, p - ANALYSIS_RADIUS), Min(|data|, p + ANALYSIS_RADIUS);
    if lo < hi then Window(data, lo, hi - lo) else []
  }

  /** The loop of /debug-error-position: i runs from p - 10 while below both
      p + 10 and the length, and positions below zero are skipped. */
  method AnalyzeCharacters(data: JsString, p: int) returns (entries: seq<CharEntry>)
    ensures entries == Analysis(data, p)
  {
    var lo := if p - ANALYSIS_RADIUS < 0 then 0 else p - ANALYSIS_RADIUS;
    entries := [];
    var i := p - ANALYSIS_RADIUS;
    while i < p + ANALYSIS_RADIUS && i < |data|
      invariant p - 10 <= i <= p + 10
      invariant i <= lo ==> entries == []
      invariant lo < i ==> i <= |data| && entries == Window(data, lo, i - lo)
      decreases p + 10 - i
    {
      if i >= 0 {
        WindowGrows(data, lo, i - lo);
        entries := entries + [EntryAt(data, i)];
      }
      i := i + 1;
    }
    assert Max(0, p - 10) == lo;
    if lo < i {
      assert i == Min(|data|, p + 10);
    } else {
      assert Min(|data|, p + 10) <= lo;
    }
  }

  /** The answer of /debug-error-position, without the parts that only echo
      a constant. */
  datatype PositionAnalysis = PositionAnalysis(
    totalLength: nat,
    errorPosition: int,
    context: Context,
    characterAnalysis: seq<CharEntry>,
    jsonPattern: JsString)

  /** /debug-error-position on already decrypted text; the position defaults
      to 6801 when the request gives none. */
  method DebugErrorPosition(data: JsString, requested: Option<int>) returns (a: PositionAnalysis)
    ensures var p := if requested.Some? then requested.value else 6801;
      && a.totalLength == |data| && a.errorPosition == p
      && a.context == ErrorContext(data, p)
      && a.characterAnalysis == Analysis(data, p)
      && a.jsonPattern == data[Clamp(p - 50, |data|)..Clamp(p + 50, |data|)]
  {
    var p := if requested.Some? then requested.value else DEFAULT_ERROR_POSITION;
    var entries := AnalyzeCharacters(data, p);
    var pattern := Substring(data, p - PATTERN_RADIUS, p + PATTERN_RADIUS);
    a := PositionAnalysis(|data|, p, ErrorContext(data, p), entries, pattern);
  }
}
