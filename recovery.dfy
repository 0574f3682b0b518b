/** The parse combinators of index.js: tryParseJson, which tries five
    strategies in order, and the three-stage cascade of /decrypt. JSON.parse
    is the parameter `parse`. */
module Recovery {
  import opened JsCore
  import opened JsonValues
  import opened Repair
  import opened Sanitizer
  import opened Diagnostics

  const STRATEGY_COUNT := 5

  /** JSON.parse(extractValidJson(data)): the extraction error when it throws. */
  function ExtractThenParse(data: JsString, parse: Parser): Result<Json>
  {
    match ExtractValidJson(data)
    case Ok(text) => parse(text)
    case Err(e) => Err(e)
  }

  /** Strategy i of tryParseJson, counted from 1. */
  function Strategy(i: nat, data: JsString, parse: Parser): Result<Json>
    requires 1 <= i <= STRATEGY_COUNT
  {
    if i == 1 then parse(data)
    else if i == 2 then parse(CleanJsonString(data))
    else if i == 3 then parse(NewlinesToSpace(data))
    else if i == 4 then parse(StringDocument(data))
    else ExtractThenParse(data, parse)
  }

  /** The first strategy from i on that succeeds, or the error of the last. */
  function FirstSuccessFrom(i: nat, data: JsString, parse: Parser): Result<Json>
    requires 1 <= i <= STRATEGY_COUNT
    decreases STRATEGY_COUNT - i
  {
    var r := Strategy(i, data, parse);
    if r.Ok? || i == STRATEGY_COUNT then r else FirstSuccessFrom(i + 1, data, parse)
  }

  /** tryParseJson. It also returns how many strategies it evaluated: the
      strategies before that one all threw, that one's result is returned, and
      no later strategy is evaluated. When all five throw, the error of the
      fifth is rethrown. */
  method TryParseJson(data: JsString, parse: Parser) returns (result: Result<Json>, tried: nat)
    ensures 1 <= tried <= STRATEGY_COUNT
    ensures forall k :: 1 <= k < tried ==> Strategy(k, data, parse).Err?
    ensures result == Strategy(tried, data, parse)
    ensures result.Err? ==> tried == STRATEGY_COUNT
    ensures parse(data).Ok? ==> tried == 1 && result == parse(data)
    ensures result == FirstSuccessFrom(1, data, parse)
  {
    var lastError: Option<Error> := None;
    var i := 0;
    while i < STRATEGY_COUNT
      invariant 0 <= i <= STRATEGY_COUNT
      invariant forall k :: 1 <= k <= i ==> Strategy(k, data, parse).Err?
      invariant i == 0 <==> lastError.None?
      invariant i > 0 ==> lastError == Some(Strategy(i, data, parse).error)
      invariant 0 < i < STRATEGY_COUNT ==> FirstSuccessFrom(1, data, parse) == FirstSuccessFrom(i + 1, data, parse)
      invariant i == STRATEGY_COUNT ==> FirstSuccessFrom(1, data, parse) == Strategy(i, data, parse)
    {
      var r := Strategy(i + 1, data, parse);
      if r.Ok? {
        return r, i + 1;
      }
      lastError := Some(r.error);
      forall k | 1 <= k <= i + 1
        ensures Strategy(k, data, parse).Err?
      {
        if k == i + 1 {
          assert Strategy(k, data, parse) == r;
        }
      }
      i := i + 1;
    }
    result, tried := Err(lastError.value), STRATEGY_COUNT;
  }

  /** The first-success function agrees with the characterisation: it is
      the result of the first strategy that does not throw, or the last
      strategy's error. */
  lemma {:induction false} FirstSuccessIsFirst(i: nat, data: JsString, parse: Parser)
    requires 1 <= i <= STRATEGY_COUNT
    ensures FirstSuccessFrom(i, data, parse).Ok? <==>
      exists k :: i <= k <= STRATEGY_COUNT && Strategy(k, data, parse).Ok?
    ensures FirstSuccessFrom(i, data, parse).Err? ==>
      FirstSuccessFrom(i, data, parse) == Strategy(STRATEGY_COUNT, data, parse)
    decreases STRATEGY_COUNT - i
  {
    var r := Strategy(i, data, parse);
    if r.Ok? {
      assert FirstSuccessFrom(i, data, parse) == r;
    } else if i == STRATEGY_COUNT {
      assert FirstSuccessFrom(i, data, parse) == r;
      forall k | i <= k <= STRATEGY_COUNT
        ensures Strategy(k, data, parse).Err?
      {
        assert k == i;
      }
    } else {
      assert FirstSuccessFrom(i, data, parse) == FirstSuccessFrom(i + 1, data, parse);
      FirstSuccessIsFirst(i + 1, data, parse);
      forall k | i <= k <= STRATEGY_COUNT && Strategy(k, data, parse).Ok?
        ensures i + 1 <= k
      {
        assert k != i;
      }
    }
  }

  /** With a parser that decodes string literals as RFC 8259 prescribes,
      strategy 4 succeeds on every text whose only units below 0x20 are CR,
      LF and TAB, with the text itself, line-break and tab runs collapsed. */
  lemma {:induction false} StringStrategyRecovers(data: JsString, parse: Parser)
    requires ParsesStringLiterals(parse) && OnlyLayoutControls(data)
    ensures Strategy(4, data, parse) == Ok(JString(CollapsedText(data)))
  {
    StringDocumentRoundTrip(data);
  }

  /** So for such a parser and such a text tryParseJson never throws, and
      when the first three strategies fail it returns the text as a string. */
  lemma {:induction false} TryParseRecoversLayoutText(data: JsString, parse: Parser)
    requires ParsesStringLiterals(parse) && OnlyLayoutControls(data)
    ensures FirstSuccessFrom(1, data, parse).Ok?
    ensures (forall k :: 1 <= k < 4 ==> Strategy(k, data, parse).Err?) ==>
      FirstSuccessFrom(1, data, parse) == Ok(JString(CollapsedText(data)))
  {
    StringStrategyRecovers(data, parse);
    FirstSuccessIsFirst(1, data, parse);
    if forall k :: 1 <= k < 4 ==> Strategy(k, data, parse).Err? {
      assert Strategy(1, data, parse).Err? && Strategy(2, data, parse).Err? && Strategy(3, data, parse).Err?;
    }
  }

  /** When tryParseJson throws, what it throws is the fifth strategy's error:
      the extraction's own error when the text lacks `[` or `]`. */
  lemma {:induction false} TryParseFailure(data: JsString, parse: Parser)
    requires FirstSuccessFrom(1, data, parse).Err?
    ensures FirstSuccessFrom(1, data, parse) == ExtractThenParse(data, parse)
    ensures OPEN_BRACKET !in data || CLOSE_BRACKET !in data ==>
      FirstSuccessFrom(1, data, parse) == Err(NO_ARRAY_IN_DATA)
  {
    FirstSuccessIsFirst(1, data, parse);
  }

  // ===================== the cascade of /decrypt =====================

  /** Stage k of the cascade: the direct parse, the extraction, the
      emergency repair. */
  function Stage(k: nat, data: JsString, parse: Parser): Result<Json>
    requires 1 <= k <= 3
  {
    if k == 1 then parse(data)
    else if k == 2 then ExtractThenParse(data, parse)
    else
      match EmergencyText(data)
      case Ok(text) => parse(text)
      case Err(e) => Err(e)
  }

  datatype Outcome = Parsed(value: Json, stage: nat) | AllFailed(report: FailureReport)

  /** The nested try blocks of /decrypt: the first stage that succeeds gives
      the value, and when all three throw the report carries the message of
      the direct parse's error. */
  function DecryptCascade(data: JsString, parse: Parser): (o: Outcome)
    ensures o.Parsed? <==> exists k :: 1 <= k <= 3 && Stage(k, data, parse).Ok?
    ensures o.Parsed? ==> 1 <= o.stage <= 3 && Stage(o.stage, data, parse) == Ok(o.value)
    ensures o.Parsed? ==> forall k :: 1 <= k < o.stage ==> Stage(k, data, parse).Err?
    ensures o.AllFailed? ==> parse(data).Err? && o.report == DecryptFailureReport(data, parse(data).error.message)
  {
    match parse(data)
    case Ok(v) =>
      assert Stage(1, data, parse).Ok?;
      Parsed(v, 1)
    case Err(e1) =>
      match ExtractThenParse(data, parse)
      case Ok(v) =>
        assert Stage(2, data, parse).Ok?;
        Parsed(v, 2)
      case Err(_) =>
        match Stage(3, data, parse)
        case Ok(v) => Parsed(v, 3)
        case Err(_) => AllFailed(DecryptFailureReport(data, e1.message))
  }

  /** The cascade's first two stages are strategies 1 and 5 of tryParseJson. */
  lemma {:induction false} CascadeSharesStrategies(data: JsString, parse: Parser)
    ensures Stage(1, data, parse) == Strategy(1, data, parse)
    ensures Stage(2, data, parse) == Strategy(5, data, parse)
  {
  }

  predicate IsOpenBracket(u: CodeUnit) { u == OPEN_BRACKET }

  predicate IsCloseBracket(u: CodeUnit) { u == CLOSE_BRACKET }

  lemma {:induction false} NoneInIsNotIn(s: JsString, u: CodeUnit, p: CodeUnit -> bool)
    requires forall v :: p(v) <==> v == u
    ensures NoneIn(s, p) <==> u !in s
  {
    if u in s {
      var i :| 0 <= i < |s| && s[i] == u;
    }
  }

  lemma {:induction false} EmergencyCleanAvoids(data: JsString, u: CodeUnit, p: CodeUnit -> bool)
    requires u == OPEN_BRACKET || u == CLOSE_BRACKET
    requires forall v :: p(v) <==> v == u
    requires u !in data
    ensures u !in EmergencyClean(data)
  {
    var spaced := FlatMap(data, ControlToSpace);
    EmergencyCleanSimplifies(data);
    NoneInIsNotIn(data, u, p);
    FlatMapAvoids(data, ControlToSpace, p);
    FlatMapAvoids(spaced, DoubleBackslash, p);
    NoneInIsNotIn(EmergencyClean(data), u, p);
  }

  /** The emergency cleanup introduces no bracket unit of its own. */
  lemma {:induction false} EmergencyCleanKeepsOut(data: JsString, u: CodeUnit)
    requires u == OPEN_BRACKET || u == CLOSE_BRACKET
    requires u !in data
    ensures u !in EmergencyClean(data)
  {
    if u == OPEN_BRACKET {
      EmergencyCleanAvoids(data, u, IsOpenBracket);
    } else {
      EmergencyCleanAvoids(data, u, IsCloseBracket);
    }
  }

  /** Without a `[` (or without a `]`) in the data, the emergency stage has no
      match. */
  lemma {:induction false} EmergencyNeedsBrackets(data: JsString)
    requires OPEN_BRACKET !in data || CLOSE_BRACKET !in data
    ensures EmergencyText(data) == Err(NO_ARRAY)
  {
    var cleaned := EmergencyClean(data);
    BracketMatchSpec(cleaned);
    if OPEN_BRACKET !in data {
      EmergencyCleanKeepsOut(data, OPEN_BRACKET);
    } else {
      EmergencyCleanKeepsOut(data, CLOSE_BRACKET);
    }
  }

  /** Without both brackets only the direct parse can succeed; otherwise the
      report is built from the direct parse's error. */
  lemma {:induction false} CascadeWithoutBrackets(data: JsString, parse: Parser)
    requires OPEN_BRACKET !in data || CLOSE_BRACKET !in data
    ensures Stage(2, data, parse) == Err(NO_ARRAY_IN_DATA)
    ensures Stage(3, data, parse) == Err(NO_ARRAY)
    ensures parse(data).Err? ==>
      DecryptCascade(data, parse) == AllFailed(DecryptFailureReport(data, parse(data).error.message))
  {
    EmergencyNeedsBrackets(data);
  }

  /** An empty payload that the parser rejects is reported with an empty
      sample and no character code. */
  lemma {:induction false} EmptyPayloadReport(parse: Parser)
    requires parse([]).Err?
    ensures DecryptCascade([], parse).AllFailed?
    ensures DecryptCascade([], parse).report.sample == []
    ensures DecryptCascade([], parse).report.problemCode == None
  {
    CascadeWithoutBrackets([], parse);
  }

  // ===================== the answer of /decrypt =====================

  datatype Response =
    | Success(messages: Json, count: nat)
    | ParseFailed(report: FailureReport)

  /** /decrypt after decryption: the cascade, then the sanitiser on its
      value. */
  method Decrypt(data: JsString, parse: Parser) returns (response: Response)
    ensures DecryptCascade(data, parse).AllFailed? ==> response == ParseFailed(DecryptCascade(data, parse).report)
    ensures DecryptCascade(data, parse).Parsed? ==>
      var v := DecryptCascade(data, parse).value;
      && response.Success?
      && (v.JArray? ==> response == Success(JArray(Sanitized(v.elems)), |v.elems|))
      && (!v.JArray? ==> response == Success(v, 0))
  {
    match DecryptCascade(data, parse)
    case AllFailed(report) =>
      response := ParseFailed(report);
    case Parsed(v, _) =>
      var messages, count := ProcessMessages(v);
      response := Success(messages, count);
  }
}
