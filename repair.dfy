/** The text repairs of index.js: cleanJsonString, extractValidJson, the
    transformations inside the third and fourth strategies of tryParseJson,
    and the emergency cleanup of /decrypt. Each JavaScript `replace` with a
    global regular expression is one left-to-right pass over
    non-overlapping matches. */
module Repair {
  import opened JsCore
  import opened JsonValues

  // ===================== cleanJsonString =====================

  /** s.replace(/\r\n/g, '\\n'): each CR LF pair, left to right, becomes `\n`. */
  function EscapeCrLfPairs(s: JsString): JsString
    decreases |s|
  {
    if s == [] then []
    else if |s| >= 2 && s[0] == CR && s[1] == LF then ESCAPED_N + EscapeCrLfPairs(s[2..])
    else [s[0]] + EscapeCrLfPairs(s[1..])
  }

  function LfToEscape(u: CodeUnit): JsString { if u == LF then ESCAPED_N else [u] }

  function CrToEscape(u: CodeUnit): JsString { if u == CR then ESCAPED_N else [u] }

  function TabToEscape(u: CodeUnit): JsString { if u == TAB then ESCAPED_T else [u] }

  /** The class [\x00-\x08\x0B\x0C\x0E-\x1F\x7F-\x9F]: every control but TAB, LF and CR. */
  predicate IsStrayControl(u: CodeUnit) { IsControl(u) && u != TAB && u != LF && u != CR }

  function DropStrayControl(u: CodeUnit): JsString { if IsStrayControl(u) then [] else [u] }

  /** The four single-unit replacements of cleanJsonString, in source order. */
  function UnitPasses(s: JsString): JsString
  {
    FlatMap(FlatMap(FlatMap(FlatMap(s, LfToEscape), CrToEscape), TabToEscape), DropStrayControl)
  }

  /** cleanJsonString: the CR LF replacement, then the four others. */
  function CleanJsonString(s: JsString): JsString
  {
    UnitPasses(EscapeCrLfPairs(s))
  }

  /** What cleanJsonString does, as one pass: a CR LF pair, a lone LF and a lone
      CR each become `\n`, a TAB becomes `\t`, any other control unit is
      dropped, and every other unit is kept, in order. */
  function CleanedText(s: JsString): JsString
    decreases |s|
  {
    if s == [] then []
    else if |s| >= 2 && s[0] == CR && s[1] == LF then ESCAPED_N + CleanedText(s[2..])
    else if s[0] == LF || s[0] == CR then ESCAPED_N + CleanedText(s[1..])
    else if s[0] == TAB then ESCAPED_T + CleanedText(s[1..])
    else if IsControl(s[0]) then CleanedText(s[1..])
    else [s[0]] + CleanedText(s[1..])
  }

  lemma {:induction false} UnitPassesAppend(a: JsString, b: JsString)
    ensures UnitPasses(a + b) == UnitPasses(a) + UnitPasses(b)
  {
    FlatMapAppend(a, b, LfToEscape);
    var a1, b1 := FlatMap(a, LfToEscape), FlatMap(b, LfToEscape);
    FlatMapAppend(a1, b1, CrToEscape);
    var a2, b2 := FlatMap(a1, CrToEscape), FlatMap(b1, CrToEscape);
    FlatMapAppend(a2, b2, TabToEscape);
    var a3, b3 := FlatMap(a2, TabToEscape), FlatMap(b2, TabToEscape);
    FlatMapAppend(a3, b3, DropStrayControl);
  }

  lemma {:induction false} UnitPassesOfClean(s: JsString)
    requires NoneIn(s, IsControl)
    ensures UnitPasses(s) == s
  {
    FlatMapIdentity(s, LfToEscape);
    FlatMapIdentity(s, CrToEscape);
    FlatMapIdentity(s, TabToEscape);
    FlatMapIdentity(s, DropStrayControl);
  }

  /** The four passes on one unit. */
  lemma {:induction false} UnitPassesSingle(u: CodeUnit)
    ensures UnitPasses([u]) ==
      if u == LF || u == CR then ESCAPED_N
      else if u == TAB then ESCAPED_T
      else if IsControl(u) then []
      else [u]
  {
    FlatMapSingle(u, LfToEscape);
    if u == LF {
      FlatMapIdentity(ESCAPED_N, CrToEscape);
      FlatMapIdentity(ESCAPED_N, TabToEscape);
      FlatMapIdentity(ESCAPED_N, DropStrayControl);
    } else {
      FlatMapSingle(u, CrToEscape);
      if u == CR {
        FlatMapIdentity(ESCAPED_N, TabToEscape);
        FlatMapIdentity(ESCAPED_N, DropStrayControl);
      } else {
        FlatMapSingle(u, TabToEscape);
        if u == TAB {
          FlatMapIdentity(ESCAPED_T, DropStrayControl);
        } else {
          FlatMapSingle(u, DropStrayControl);
        }
      }
    }
  }

  /** The five replacements of cleanJsonString do what the one pass says. */
  lemma {:induction false} CleanJsonStringIsOnePass(s: JsString)
    ensures CleanJsonString(s) == CleanedText(s)
    decreases |s|
  {
    if s != [] {
      if |s| >= 2 && s[0] == CR && s[1] == LF {
        CleanJsonStringIsOnePass(s[2..]);
        UnitPassesAppend(ESCAPED_N, EscapeCrLfPairs(s[2..]));
        UnitPassesOfClean(ESCAPED_N);
      } else {
        CleanJsonStringIsOnePass(s[1..]);
        UnitPassesAppend([s[0]], EscapeCrLfPairs(s[1..]));
        UnitPassesSingle(s[0]);
      }
    }
  }

  /** No code unit of 0x00-0x1F or 0x7F-0x9F survives cleanJsonString. */
  lemma {:induction false} CleanJsonStringHasNoControls(s: JsString)
    ensures NoneIn(CleanJsonString(s), IsControl)
  {
    CleanJsonStringIsOnePass(s);
    CleanedTextHasNoControls(s);
  }

  lemma {:induction false} CleanedTextHasNoControls(s: JsString)
    ensures NoneIn(CleanedText(s), IsControl)
    decreases |s|
  {
    if s != [] {
      if |s| >= 2 && s[0] == CR && s[1] == LF {
        CleanedTextHasNoControls(s[2..]);
      } else {
        CleanedTextHasNoControls(s[1..]);
      }
    }
  }

  /** A text without control units passes through cleanJsonString unchanged. */
  lemma {:induction false} CleanJsonStringOfClean(s: JsString)
    requires NoneIn(s, IsControl)
    ensures CleanJsonString(s) == s
    decreases |s|
  {
    CleanJsonStringIsOnePass(s);
    CleanedTextOfClean(s);
  }

  lemma {:induction false} CleanedTextOfClean(s: JsString)
    requires NoneIn(s, IsControl)
    ensures CleanedText(s) == s
    decreases |s|
  {
    if s != [] {
      CleanedTextOfClean(s[1..]);
      assert s == [s[0]] + s[1..];
    }
  }

  // ===================== extractValidJson =====================

  const NO_ARRAY_IN_DATA := Error("No JSON array found in decrypted data")

  /** The language of the capture group of /"([^"\\]*(\\.[^"\\]*)*)"/: units
      other than the quotation mark and the backslash, and a backslash
      followed by any unit that `.` matches, i.e. not a line terminator. */
  predicate IsLiteralBody(b: JsString)
    decreases |b|
  {
    || b == []
    || (b[0] != QUOTE && b[0] != BACKSLASH && IsLiteralBody(b[1..]))
    || (|b| >= 2 && b[0] == BACKSLASH && !IsLineTerminator(b[1]) && IsLiteralBody(b[2..]))
  }

  /** The position of the closing quotation mark of a literal whose body
      starts at k, scanning the body's tokens from left to right. */
  function LiteralEnd(s: JsString, k: nat): (r: Option<nat>)
    requires k <= |s|
    ensures r.Some? ==> k <= r.value < |s|
    decreases |s| - k
  {
    if k == |s| then None
    else if s[k] == QUOTE then Some(k)
    else if s[k] == BACKSLASH then
      if k + 1 < |s| && !IsLineTerminator(s[k + 1]) then LiteralEnd(s, k + 2) else None
    else LiteralEnd(s, k + 1)
  }

  /** The scan finds the one quotation mark that closes a body of the
      regular expression's group, and none when there is no such mark; as the
      body cannot hold an unescaped quotation mark, backtracking finds no
      other match. */
  lemma {:induction false} LiteralEndMatches(s: JsString, k: nat, j: nat)
    requires k <= j < |s|
    ensures LiteralEnd(s, k) == Some(j) <==> s[j] == QUOTE && IsLiteralBody(s[k..j])
    decreases |s| - k
  {
    var b := s[k..j];
    if s[k] == QUOTE {
      if j > k {
        assert b[0] == QUOTE;
      }
    } else if s[k] == BACKSLASH {
      if k + 1 < |s| && !IsLineTerminator(s[k + 1]) {
        if j >= k + 2 {
          LiteralEndMatches(s, k + 2, j);
          assert b[2..] == s[k + 2..j];
        } else if j == k + 1 {
          assert b == [BACKSLASH];
        }
      } else if j > k {
        if j == k + 1 {
          assert b == [BACKSLASH];
        } else {
          assert b[1] == s[k + 1];
        }
      }
    } else {
      if j > k {
        LiteralEndMatches(s, k + 1, j);
        assert b[1..] == s[k + 1..j];
      }
    }
  }

  function DoubleBackslash(u: CodeUnit): JsString { if u == BACKSLASH then [BACKSLASH, BACKSLASH] else [u] }

  function EscapeQuote(u: CodeUnit): JsString { if u == QUOTE then [BACKSLASH, QUOTE] else [u] }

  /** The replacement callback: the content has its controls removed, then
      its backslashes doubled, then its quotation marks escaped. */
  function RepairLiteralContent(c: JsString): JsString
  {
    FlatMap(FlatMap(RemoveControls(c), DoubleBackslash), EscapeQuote)
  }

  /** jsonPart.replace(/"([^"\\]*(\\.[^"\\]*)*)"/g, callback): where a literal
      starts, it is replaced by its repaired content between quotation marks;
      where no literal matches, one unit is copied and the search goes on from
      the next unit. */
  function RepairLiterals(s: JsString): JsString
    decreases |s|
  {
    if s == [] then []
    else if s[0] == QUOTE then
      match LiteralEnd(s, 1)
      case Some(j) => [QUOTE] + RepairLiteralContent(s[1..j]) + [QUOTE] + RepairLiterals(s[j + 1..])
      case None => [QUOTE] + RepairLiterals(s[1..])
    else [s[0]] + RepairLiterals(s[1..])
  }

  /** extractValidJson. It throws when the text has no `[` or no `]`; otherwise
      it repairs the literals of data.substring(first `[`, last `]` + 1), which
      JavaScript's substring swaps into data[last `]` + 1 .. first `[`] when the
      last `]` comes before the first `[`. */
  function ExtractValidJson(data: JsString): (r: Result<JsString>)
    ensures r.Err? <==> OPEN_BRACKET !in data || CLOSE_BRACKET !in data
    ensures r.Err? ==> r.error == NO_ARRAY_IN_DATA
    ensures r.Ok? ==>
      var i, j := IndexOf(data, OPEN_BRACKET), LastIndexOf(data, CLOSE_BRACKET);
      && data[i] == OPEN_BRACKET && data[j] == CLOSE_BRACKET
      && r.value == RepairLiterals(if i <= j then data[i..j + 1] else data[j + 1..i])
  {
    var startIndex := IndexOf(data, OPEN_BRACKET);
    var endIndex := LastIndexOf(data, CLOSE_BRACKET) + 1;
    if startIndex == -1 || endIndex == 0 then Err(NO_ARRAY_IN_DATA)
    else Ok(RepairLiterals(Substring(data, startIndex, endIndex)))
  }

  /** In the swapped case the slice holds no bracket at all. */
  lemma {:induction false} SwappedWindowHasNoBrackets(data: JsString)
    requires OPEN_BRACKET in data && CLOSE_BRACKET in data
    requires LastIndexOf(data, CLOSE_BRACKET) < IndexOf(data, OPEN_BRACKET)
    ensures var i, j := IndexOf(data, OPEN_BRACKET), LastIndexOf(data, CLOSE_BRACKET);
      OPEN_BRACKET !in data[j + 1..i] && CLOSE_BRACKET !in data[j + 1..i]
  {
    var i, j := IndexOf(data, OPEN_BRACKET), LastIndexOf(data, CLOSE_BRACKET);
    assert forall k :: j + 1 <= k < i ==> data[k] in data[..i] && data[k] in data[j + 1..];
  }

  /** Text outside the literals is copied: a stretch without a quotation
      mark is kept as it is, and the search goes on after it. */
  lemma {:induction false} RepairLiteralsCopy(a: JsString, t: JsString)
    requires QUOTE !in a
    ensures RepairLiterals(a + t) == a + RepairLiterals(t)
    decreases |a|
  {
    if a == [] {
      assert a + t == t;
    } else {
      var s := a + t;
      assert s[0] == a[0];
      assert s[1..] == a[1..] + t;
      assert QUOTE !in a[1..] by {
        assert forall k :: 0 <= k < |a[1..]| ==> a[1..][k] == a[k + 1];
      }
      RepairLiteralsCopy(a[1..], t);
      assert a == [a[0]] + a[1..];
    }
  }

  /** A well-formed literal at the start is replaced by its repaired content
      between quotation marks. */
  lemma {:induction false} RepairLiteralsAt(body: JsString, rest: JsString)
    requires IsLiteralBody(body)
    ensures RepairLiterals([QUOTE] + body + [QUOTE] + rest)
         == [QUOTE] + RepairLiteralContent(body) + [QUOTE] + RepairLiterals(rest)
  {
    var s := [QUOTE] + body + [QUOTE] + rest;
    var j := 1 + |body|;
    assert s[1..j] == body;
    assert s[j] == QUOTE;
    LiteralEndMatches(s, 1, j);
    assert s[j + 1..] == rest;
  }

  /** A quotation mark that no well-formed body is followed by a closing
      mark for is copied alone, and the search goes on from the next unit, so
      that mark may then close a literal opened later: the pairing of quotation
      marks shifts by one. */
  lemma {:induction false} RepairLiteralsUnmatched(t: JsString)
    requires forall j :: 0 <= j < |t| ==> !(t[j] == QUOTE && IsLiteralBody(t[..j]))
    ensures RepairLiterals([QUOTE] + t) == [QUOTE] + RepairLiterals(t)
  {
    var s := [QUOTE] + t;
    forall j | 1 <= j < |s|
      ensures LiteralEnd(s, 1) != Some(j)
    {
      LiteralEndMatches(s, 1, j);
      assert s[1..j] == t[..j - 1];
      assert s[j] == t[j - 1];
    }
    assert s[1..] == t;
  }

  /** Units that the repair of a literal keeps as they are. */
  predicate IsPlain(u: CodeUnit) { u != QUOTE && u != BACKSLASH && !IsControl(u) }

  lemma {:induction false} ShiftedLiteralContent(x: CodeUnit, y: CodeUnit)
    requires IsPlain(x) && IsPlain(y)
    ensures RepairLiteralContent([x, LF, y]) == [x, y]
  {
    var body: JsString := [x, LF, y];
    assert body == [x] + [LF] + [y];
    FlatMapAppend([x] + [LF], [y], DropControl);
    FlatMapAppend([x], [LF], DropControl);
    FlatMapSingle(x, DropControl);
    FlatMapSingle(LF, DropControl);
    FlatMapSingle(y, DropControl);
    var xy: JsString := [x, y];
    assert RemoveControls(body) == xy;
    assert xy == [x] + [y];
    FlatMapAppend([x], [y], DoubleBackslash);
    FlatMapSingle(x, DoubleBackslash);
    FlatMapSingle(y, DoubleBackslash);
    FlatMapAppend([x], [y], EscapeQuote);
    FlatMapSingle(x, EscapeQuote);
    FlatMapSingle(y, EscapeQuote);
  }

  /** The shift: in "a\⏎b"x⏎y" the first quotation mark opens no literal, as
      its backslash is followed by a line feed, so the second one opens the
      literal x⏎y, whose line feed is removed, and the backslash and line
      feed before it stay as they were. */
  lemma {:induction false} QuotePairingShifts(a: CodeUnit, b: CodeUnit, x: CodeUnit, y: CodeUnit)
    requires a != QUOTE && a != BACKSLASH && b != QUOTE && b != BACKSLASH
    requires IsPlain(x) && IsPlain(y)
    ensures RepairLiterals([QUOTE, a, BACKSLASH, LF, b, QUOTE, x, LF, y, QUOTE])
         == [QUOTE, a, BACKSLASH, LF, b, QUOTE, x, y, QUOTE]
  {
    var head: JsString := [a, BACKSLASH, LF, b];
    var body: JsString := [x, LF, y];
    var literal: JsString := [QUOTE] + body + [QUOTE];
    var t := head + literal;
    forall j | 0 <= j < |t| && t[j] == QUOTE
      ensures !IsLiteralBody(t[..j])
    {
      assert t[..j][1..][0] == BACKSLASH && t[..j][1..][1] == LF;
    }
    RepairLiteralsUnmatched(t);
    RepairLiteralsCopy(head, literal);
    assert IsLiteralBody(body[2..]) && IsLiteralBody(body[1..]);
    assert literal == [QUOTE] + body + [QUOTE] + [];
    RepairLiteralsAt(body, []);
    ShiftedLiteralContent(x, y);
    ShiftShape(a, b, x, y);
  }

  lemma {:induction false} ShiftShape(a: CodeUnit, b: CodeUnit, x: CodeUnit, y: CodeUnit)
    ensures [QUOTE, a, BACKSLASH, LF, b, QUOTE, x, LF, y, QUOTE] == [QUOTE] + ([a, BACKSLASH, LF, b] + ([QUOTE] + [x, LF, y] + [QUOTE]))
    ensures [QUOTE, a, BACKSLASH, LF, b, QUOTE, x, y, QUOTE] == [QUOTE] + ([a, BACKSLASH, LF, b] + ([QUOTE] + [x, y] + [QUOTE] + []))
  {
  }

  lemma {:induction false} RepairLiteralsNoQuote(s: JsString)
    requires QUOTE !in s
    ensures RepairLiterals(s) == s
  {
    RepairLiteralsCopy(s, []);
    assert s + [] == s;
  }

  /** Doubling backslashes and then escaping quotation marks, as one pass. */
  function EscapeBoth(u: CodeUnit): JsString
  {
    if u == BACKSLASH then [BACKSLASH, BACKSLASH] else if u == QUOTE then [BACKSLASH, QUOTE] else [u]
  }

  lemma {:induction false} EscapeChain(s: JsString)
    ensures FlatMap(FlatMap(s, DoubleBackslash), EscapeQuote) == FlatMap(s, EscapeBoth)
    decreases |s|
  {
    if s != [] {
      EscapeChain(s[1..]);
      FlatMapAppend(DoubleBackslash(s[0]), FlatMap(s[1..], DoubleBackslash), EscapeQuote);
      if s[0] == BACKSLASH {
        FlatMapIdentity([BACKSLASH, BACKSLASH], EscapeQuote);
      } else {
        FlatMapSingle(s[0], EscapeQuote);
      }
    }
  }

  /** A text without control units has no layout runs to collapse, before
      or after escaping. */
  lemma {:induction false} NoLayoutToCollapse(x: JsString)
    requires NoneIn(x, IsControl)
    ensures CollapseLayout(FlatMap(x, EscapeBoth), ESCAPED_N, ESCAPED_T) == FlatMap(x, EscapeBoth)
    ensures CollapsedText(x) == x
  {
    var f := FlatMap(x, EscapeBoth);
    assert forall i :: 0 <= i < |x| ==> NoneIn(EscapeBoth(x[i]), IsCrOrLf) && NoneIn(EscapeBoth(x[i]), IsTab);
    FlatMapAvoids(x, EscapeBoth, IsCrOrLf);
    FlatMapAvoids(x, EscapeBoth, IsTab);
    CollapseRunsIdentity(f, IsCrOrLf, ESCAPED_N);
    CollapseRunsIdentity(f, IsTab, ESCAPED_T);
    CollapseRunsIdentity(x, IsCrOrLf, [LF]);
    CollapseRunsIdentity(x, IsTab, [TAB]);
  }

  /** Every repaired literal is a valid JSON string whose value is the raw
      content with its controls removed: escape sequences of the original
      content are not interpreted but kept as text. */
  lemma {:induction false} RepairedLiteralDecodes(c: JsString)
    ensures DecodeStringLiteral([QUOTE] + RepairLiteralContent(c) + [QUOTE]) == Ok(RemoveControls(c))
  {
    var x := RemoveControls(c);
    RemoveControlsClean(c);
    EscapeChain(x);
    NoLayoutToCollapse(x);
    LayoutBodyDecodes(x);
    assert OnlyLayoutControls(x);
    DecodeLiteralOf(FlatMap(x, EscapeBoth), x);
  }

  // ===================== strategy 3 =====================

  /** data.replace(/[\r\n]+/g, ' '). */
  function NewlinesToSpace(data: JsString): JsString
  {
    CollapseRuns(data, IsCrOrLf, [SPACE])
  }

  /** Strategy 3 leaves no CR or LF, and a text without them is unchanged. */
  lemma {:induction false} NewlinesToSpaceSpec(data: JsString)
    ensures NoneIn(NewlinesToSpace(data), IsCrOrLf)
    ensures NoneIn(data, IsCrOrLf) ==> NewlinesToSpace(data) == data
  {
    CollapseRunsRemoves(data, IsCrOrLf, [SPACE]);
    if NoneIn(data, IsCrOrLf) {
      CollapseRunsIdentity(data, IsCrOrLf, [SPACE]);
    }
  }

  // ===================== strategy 4 =====================

  /** The escaping of strategy 4: backslashes doubled, then quotation marks
      escaped, then each run of CR and LF turned into `\n`, then each run of
      tabs into `\t`. */
  function EscapeAsStringBody(data: JsString): JsString
  {
    var a := FlatMap(data, DoubleBackslash);
    var b := FlatMap(a, EscapeQuote);
    var c := CollapseRuns(b, IsCrOrLf, ESCAPED_N);
    CollapseRuns(c, IsTab, ESCAPED_T)
  }

  /** The text strategy 4 hands to JSON.parse. */
  function StringDocument(data: JsString): JsString
  {
    [QUOTE] + EscapeAsStringBody(data) + [QUOTE]
  }

  /** Runs of CR and LF units replaced by rN, then runs of tabs by rT. */
  function CollapseLayout(x: JsString, rN: JsString, rT: JsString): JsString
  {
    CollapseRuns(CollapseRuns(x, IsCrOrLf, rN), IsTab, rT)
  }

  /** The text with each run of CR and LF collapsed to one LF and each run of
      tabs to one TAB. */
  function CollapsedText(data: JsString): JsString
  {
    CollapseLayout(data, [LF], [TAB])
  }

  /** Every unit below 0x20 is a CR, an LF or a TAB. */
  predicate OnlyLayoutControls(s: JsString)
  {
    forall i :: 0 <= i < |s| ==> s[i] < 0x20 ==> s[i] == CR || s[i] == LF || s[i] == TAB
  }

  lemma {:induction false} CollapseLayoutSkip(a: JsString, y: JsString, rN: JsString, rT: JsString)
    requires NoneIn(a, IsCrOrLf) && NoneIn(a, IsTab)
    ensures CollapseLayout(a + y, rN, rT) == a + CollapseLayout(y, rN, rT)
  {
    CollapseRunsSkip(a, y, IsCrOrLf, rN);
    CollapseRunsSkip(a, CollapseRuns(y, IsCrOrLf, rN), IsTab, rT);
  }

  lemma {:induction false} CollapseLayoutBreak(c: CodeUnit, y: JsString, rN: JsString, rT: JsString)
    requires IsCrOrLf(c) && NoneIn(rN, IsTab)
    ensures y != [] && IsCrOrLf(y[0]) ==> CollapseLayout([c] + y, rN, rT) == CollapseLayout(y, rN, rT)
    ensures !(y != [] && IsCrOrLf(y[0])) ==> CollapseLayout([c] + y, rN, rT) == rN + CollapseLayout(y, rN, rT)
  {
    var s := [c] + y;
    assert s[1..] == y;
    CollapseRunsStep(s, IsCrOrLf, rN);
    if !(y != [] && IsCrOrLf(y[0])) {
      CollapseRunsSkip(rN, CollapseRuns(y, IsCrOrLf, rN), IsTab, rT);
    }
  }

  lemma {:induction false} CollapseLayoutTab(c: CodeUnit, y: JsString, rN: JsString, rT: JsString)
    requires IsTab(c) && rN != [] && NoneIn(rN, IsTab)
    ensures y != [] && IsTab(y[0]) ==> CollapseLayout([c] + y, rN, rT) == CollapseLayout(y, rN, rT)
    ensures !(y != [] && IsTab(y[0])) ==> CollapseLayout([c] + y, rN, rT) == rT + CollapseLayout(y, rN, rT)
  {
    var n := CollapseRuns(y, IsCrOrLf, rN);
    CollapseRunsKeep(c, y, IsCrOrLf, rN);
    var s := [c] + n;
    assert s[1..] == n;
    if y != [] {
      CollapseRunsHead(y, IsCrOrLf, rN);
    }
    CollapseRunsStep(s, IsTab, rT);
  }

  /** The body strategy 4 builds, before the enclosing quotation marks. */
  function EscapedLayout(s: JsString): JsString
  {
    CollapseLayout(FlatMap(s, EscapeBoth), ESCAPED_N, ESCAPED_T)
  }

  /** The body x decodes, as the rest of a JSON string, exactly when ok
      holds, and then to y. */
  predicate BodyDecodes(x: JsString, y: JsString, ok: bool)
  {
    && (DecodeChars(x + [QUOTE]).Ok? <==> ok)
    && (ok ==> DecodeChars(x + [QUOTE]) == Ok(Decoded(y, |x| + 1)))
  }

  /** The body of s decodes exactly when its only units below 0x20 are CR,
      LF and TAB, and then to the collapsed text. */
  predicate LayoutDecodes(s: JsString)
  {
    BodyDecodes(EscapedLayout(s), CollapsedText(s), OnlyLayoutControls(s))
  }

  lemma {:induction false} OnlyLayoutControlsCons(c: CodeUnit, t: JsString)
    ensures OnlyLayoutControls([c] + t) <==> (c < 0x20 ==> c == CR || c == LF || c == TAB) && OnlyLayoutControls(t)
  {
    var s := [c] + t;
    assert s[0] == c;
    assert forall i :: 0 <= i < |t| ==> t[i] == s[i + 1];
  }

  /** The escaped text starts as its input does, up to the added backslash. */
  lemma {:induction false} EscapedHead(t: JsString)
    ensures var f := FlatMap(t, EscapeBoth);
      && (f == [] <==> t == [])
      && (t != [] ==> f[0] == if t[0] == BACKSLASH || t[0] == QUOTE then BACKSLASH else t[0])
  {
    if t != [] {
      assert t == [t[0]] + t[1..];
      FlatMapCons(t[0], t[1..], EscapeBoth);
    }
  }

  /** Two texts whose bodies and collapsed texts agree decode alike. */
  lemma {:induction false} LayoutDecodesSame(s: JsString, t: JsString)
    requires EscapedLayout(s) == EscapedLayout(t) && CollapsedText(s) == CollapsedText(t)
    requires OnlyLayoutControls(s) <==> OnlyLayoutControls(t)
    requires LayoutDecodes(t)
    ensures LayoutDecodes(s)
  {
  }

  lemma {:induction false} PrependDecoded(y0: JsString, n: nat, d: Result<Decoded>, yt: JsString, m: nat, ok: bool)
    requires d.Ok? <==> ok
    requires ok ==> d == Ok(Decoded(yt, m))
    ensures Prepend(y0, n, d).Ok? <==> ok
    ensures ok ==> Prepend(y0, n, d) == Ok(Decoded(y0 + yt, n + m))
  {
  }

  /** A body that grows by one piece x0 decoding to y0. */
  lemma {:induction false} BodyDecodesPrepend(x0: JsString, xt: JsString, y0: JsString, yt: JsString, ok: bool)
    requires DecodeChars(x0 + (xt + [QUOTE])) == Prepend(y0, |x0|, DecodeChars(xt + [QUOTE]))
    requires BodyDecodes(xt, yt, ok)
    ensures BodyDecodes(x0 + xt, y0 + yt, ok)
  {
    PrependDecoded(y0, |x0|, DecodeChars(xt + [QUOTE]), yt, |xt| + 1, ok);
    assert (x0 + xt) + [QUOTE] == x0 + (xt + [QUOTE]);
  }

  lemma {:induction false} BreakEquations(c: CodeUnit, t: JsString)
    requires IsCrOrLf(c)
    ensures t != [] && IsCrOrLf(t[0]) ==>
      EscapedLayout([c] + t) == EscapedLayout(t) && CollapsedText([c] + t) == CollapsedText(t)
    ensures !(t != [] && IsCrOrLf(t[0])) ==>
      EscapedLayout([c] + t) == ESCAPED_N + EscapedLayout(t) && CollapsedText([c] + t) == [LF] + CollapsedText(t)
  {
    var f := FlatMap(t, EscapeBoth);
    FlatMapCons(c, t, EscapeBoth);
    EscapedHead(t);
    CollapseLayoutBreak(c, f, ESCAPED_N, ESCAPED_T);
    CollapseLayoutBreak(c, t, [LF], [TAB]);
  }

  lemma {:induction false} TabEquations(c: CodeUnit, t: JsString)
    requires IsTab(c)
    ensures t != [] && IsTab(t[0]) ==>
      EscapedLayout([c] + t) == EscapedLayout(t) && CollapsedText([c] + t) == CollapsedText(t)
    ensures !(t != [] && IsTab(t[0])) ==>
      EscapedLayout([c] + t) == ESCAPED_T + EscapedLayout(t) && CollapsedText([c] + t) == [TAB] + CollapsedText(t)
  {
    var f := FlatMap(t, EscapeBoth);
    FlatMapCons(c, t, EscapeBoth);
    EscapedHead(t);
    CollapseLayoutTab(c, f, ESCAPED_N, ESCAPED_T);
    CollapseLayoutTab(c, t, [LF], [TAB]);
  }

  lemma {:induction false} OtherEquations(c: CodeUnit, t: JsString)
    requires !IsCrOrLf(c) && !IsTab(c)
    ensures EscapedLayout([c] + t) == EscapeBoth(c) + EscapedLayout(t)
    ensures CollapsedText([c] + t) == [c] + CollapsedText(t)
  {
    FlatMapCons(c, t, EscapeBoth);
    CollapseLayoutSkip(EscapeBoth(c), FlatMap(t, EscapeBoth), ESCAPED_N, ESCAPED_T);
    CollapseLayoutSkip([c], t, [LF], [TAB]);
  }

  lemma {:induction false} LayoutDecodesBreak(c: CodeUnit, t: JsString)
    requires IsCrOrLf(c) && LayoutDecodes(t)
    ensures LayoutDecodes([c] + t)
  {
    var s := [c] + t;
    OnlyLayoutControlsCons(c, t);
    BreakEquations(c, t);
    if t != [] && IsCrOrLf(t[0]) {
      LayoutDecodesSame(s, t);
    } else {
      DecodeEscape(LETTER_N, EscapedLayout(t) + [QUOTE]);
      BodyDecodesPrepend(ESCAPED_N, EscapedLayout(t), [LF], CollapsedText(t), OnlyLayoutControls(t));
    }
  }

  lemma {:induction false} LayoutDecodesTab(c: CodeUnit, t: JsString)
    requires IsTab(c) && LayoutDecodes(t)
    ensures LayoutDecodes([c] + t)
  {
    var s := [c] + t;
    OnlyLayoutControlsCons(c, t);
    TabEquations(c, t);
    if t != [] && IsTab(t[0]) {
      LayoutDecodesSame(s, t);
    } else {
      DecodeEscape(LETTER_T, EscapedLayout(t) + [QUOTE]);
      BodyDecodesPrepend(ESCAPED_T, EscapedLayout(t), [TAB], CollapsedText(t), OnlyLayoutControls(t));
    }
  }

  lemma {:induction false} LayoutDecodesOther(c: CodeUnit, t: JsString)
    requires !IsCrOrLf(c) && !IsTab(c) && LayoutDecodes(t)
    ensures LayoutDecodes([c] + t)
  {
    var s := [c] + t;
    var rest := EscapedLayout(t) + [QUOTE];
    OnlyLayoutControlsCons(c, t);
    OtherEquations(c, t);
    if c == BACKSLASH || c == QUOTE {
      DecodeEscape(c, rest);
      BodyDecodesPrepend([BACKSLASH, c], EscapedLayout(t), [c], CollapsedText(t), OnlyLayoutControls(t));
    } else if c >= 0x20 {
      DecodeUnescaped(c, rest);
      BodyDecodesPrepend([c], EscapedLayout(t), [c], CollapsedText(t), OnlyLayoutControls(t));
    } else {
      assert EscapedLayout(s) + [QUOTE] == [c] + rest;
    }
  }

  /** The body of strategy 4 decodes, as a JSON string, exactly when the only
      units below 0x20 are CR, LF and TAB; then it decodes to the text with
      its line-break runs and tab runs collapsed. */
  lemma {:induction false} LayoutBodyDecodes(s: JsString)
    ensures LayoutDecodes(s)
    decreases |s|
  {
    if s == [] {
      assert EscapedLayout(s) == [];
      assert EscapedLayout(s) + [QUOTE] == [QUOTE];
    } else {
      var c, t := s[0], s[1..];
      assert s == [c] + t;
      LayoutBodyDecodes(t);
      if IsCrOrLf(c) {
        LayoutDecodesBreak(c, t);
      } else if IsTab(c) {
        LayoutDecodesTab(c, t);
      } else {
        LayoutDecodesOther(c, t);
      }
    }
  }

  /** The strategy-4 round trip: the document strategy 4 builds is a valid
      JSON string exactly when the input holds no unit below 0x20 other than
      CR, LF and TAB, and its value is then the input with each run of CR and
      LF collapsed to one LF and each run of tabs to one TAB. */
  lemma {:induction false} StringDocumentRoundTrip(data: JsString)
    ensures DecodeStringLiteral(StringDocument(data)).Ok? <==> OnlyLayoutControls(data)
    ensures OnlyLayoutControls(data) ==> DecodeStringLiteral(StringDocument(data)) == Ok(CollapsedText(data))
  {
    EscapeChain(data);
    var x := EscapeAsStringBody(data);
    assert x == CollapseLayout(FlatMap(data, EscapeBoth), ESCAPED_N, ESCAPED_T);
    LayoutBodyDecodes(data);
    var t := StringDocument(data);
    assert t[0] == QUOTE;
    assert t[1..] == x + [QUOTE];
    if DecodeChars(x + [QUOTE]).Ok? {
      assert DecodeChars(x + [QUOTE]).value.used == |t| - 1;
    }
  }

  // ===================== the emergency cleanup of /decrypt =====================

  const NO_ARRAY := Error("No JSON array found")

  function ControlToSpace(u: CodeUnit): JsString { if IsControl(u) then [SPACE] else [u] }

  function LfToSpace(u: CodeUnit): JsString { if u == LF then [SPACE] else [u] }

  function CrToSpace(u: CodeUnit): JsString { if u == CR then [SPACE] else [u] }

  function TabToSpace(u: CodeUnit): JsString { if u == TAB then [SPACE] else [u] }

  /** The five replacements of the emergency cleanup, in source order. */
  function EmergencyClean(data: JsString): JsString
  {
    var spaced := FlatMap(data, ControlToSpace);
    var escaped := FlatMap(spaced, DoubleBackslash);
    FlatMap(FlatMap(FlatMap(escaped, LfToSpace), CrToSpace), TabToSpace)
  }

  /** The first replacement leaves no control unit and keeps the length, so
      the last three replacements change nothing. */
  lemma {:induction false} EmergencyCleanSimplifies(data: JsString)
    ensures var spaced := FlatMap(data, ControlToSpace);
      && |spaced| == |data|
      && NoneIn(spaced, IsControl)
      && EmergencyClean(data) == FlatMap(spaced, DoubleBackslash)
  {
    var spaced := FlatMap(data, ControlToSpace);
    FlatMapLength(data, ControlToSpace);
    FlatMapAvoids(data, ControlToSpace, IsControl);
    var escaped := FlatMap(spaced, DoubleBackslash);
    FlatMapAvoids(spaced, DoubleBackslash, IsControl);
    FlatMapIdentity(escaped, LfToSpace);
    FlatMapIdentity(escaped, CrToSpace);
    FlatMapIdentity(escaped, TabToSpace);
  }

  /** The first match of /\[[\s\S]*\]/ at or after position k: a `[`, as many
      units as possible, then a `]`, so the match runs to the last `]`. */
  function BracketMatchFrom(e: JsString, k: nat): Option<JsString>
    requires k <= |e|
    decreases |e| - k
  {
    if k == |e| then None
    else if e[k] == OPEN_BRACKET && LastIndexOf(e, CLOSE_BRACKET) > k then
      Some(e[k..LastIndexOf(e, CLOSE_BRACKET) + 1])
    else BracketMatchFrom(e, k + 1)
  }

  lemma {:induction false} BracketMatchNone(e: JsString, k: nat)
    requires k <= |e| && LastIndexOf(e, CLOSE_BRACKET) < k
    ensures BracketMatchFrom(e, k) == None
    decreases |e| - k
  {
    if k < |e| {
      BracketMatchNone(e, k + 1);
    }
  }

  lemma {:induction false} BracketMatchFromBefore(e: JsString, k: nat)
    requires k <= |e| && OPEN_BRACKET !in e[..k]
    ensures var i, j := IndexOf(e, OPEN_BRACKET), LastIndexOf(e, CLOSE_BRACKET);
      BracketMatchFrom(e, k) == if 0 <= i < j then Some(e[i..j + 1]) else None
    decreases |e| - k
  {
    var i, j := IndexOf(e, OPEN_BRACKET), LastIndexOf(e, CLOSE_BRACKET);
    if k == |e| {
      assert e[..k] == e;
    } else if e[k] == OPEN_BRACKET {
      assert e[k] in e;
      assert i == k;
      if j <= k {
        BracketMatchNone(e, k + 1);
      }
    } else {
      assert e[..k + 1] == e[..k] + [e[k]];
      BracketMatchFromBefore(e, k + 1);
    }
  }

  /** The match exists exactly when some `]` follows the first `[`, and then
      it spans from the first `[` to the last `]`. */
  lemma {:induction false} BracketMatchSpec(e: JsString)
    ensures var i, j := IndexOf(e, OPEN_BRACKET), LastIndexOf(e, CLOSE_BRACKET);
      && (BracketMatchFrom(e, 0).Some? <==> (exists k :: 0 <= i < k < |e| && e[k] == CLOSE_BRACKET))
      && (BracketMatchFrom(e, 0).Some? ==> BracketMatchFrom(e, 0) == Some(e[i..j + 1]))
  {
    var i, j := IndexOf(e, OPEN_BRACKET), LastIndexOf(e, CLOSE_BRACKET);
    assert e[..0] == [];
    BracketMatchFromBefore(e, 0);
    if exists k :: 0 <= i < k < |e| && e[k] == CLOSE_BRACKET {
      var k :| 0 <= i < k < |e| && e[k] == CLOSE_BRACKET;
      LastIndexOfBound(e, CLOSE_BRACKET, k);
    }
  }

  predicate IsSpaceOrComma(u: CodeUnit) { IsJsSpace(u) || u == COMMA }

  /** One global pass of s.replace(/x\s*y/g, keep): at a position holding x,
      the longest run of space units (the greedy `\s*`) must be followed by y
      for a match, which is replaced by the one unit keep; elsewhere one unit
      is copied and the search goes on from the next. The y of every pass is
      a comma or a bracket, never a space unit, so backtracking into the run
      finds no other match. */
  function FixSeparators(s: JsString, x: CodeUnit, y: CodeUnit, keep: CodeUnit): JsString
    decreases |s|
  {
    if s == [] then []
    else
      var k := 1 + RunLength(s[1..], IsJsSpace);
      if s[0] == x && k < |s| && s[k] == y then [keep] + FixSeparators(s[k + 1..], x, y, keep)
      else [s[0]] + FixSeparators(s[1..], x, y, keep)
  }

  /** An x, a run of space units and a y are replaced by keep, and the
      search goes on after the y. */
  lemma {:induction false} FixSeparatorsAt(w: JsString, rest: JsString, x: CodeUnit, y: CodeUnit, keep: CodeUnit)
    requires forall i :: 0 <= i < |w| ==> IsJsSpace(w[i])
    requires !IsJsSpace(y)
    ensures FixSeparators([x] + w + [y] + rest, x, y, keep) == [keep] + FixSeparators(rest, x, y, keep)
  {
    var s := [x] + w + [y] + rest;
    assert s[1..] == w + ([y] + rest);
    RunLengthOf(w, [y] + rest, IsJsSpace);
    assert s[1 + |w|] == y;
    assert s[1 + |w| + 1..] == rest;
  }

  /** An x whose run of space units is followed by a unit other than y, or
      by nothing, is copied alone, and the search goes on from the next
      unit. */
  lemma {:induction false} FixSeparatorsUnmatched(w: JsString, t: JsString, x: CodeUnit, y: CodeUnit, keep: CodeUnit)
    requires forall i :: 0 <= i < |w| ==> IsJsSpace(w[i])
    requires t == [] || (!IsJsSpace(t[0]) && t[0] != y)
    ensures FixSeparators([x] + w + t, x, y, keep) == [x] + FixSeparators(w + t, x, y, keep)
  {
    var s := [x] + w + t;
    assert s[1..] == w + t;
    RunLengthOf(w, t, IsJsSpace);
    if t != [] {
      assert s[1 + |w|] == t[0];
    }
  }

  lemma {:induction false} FixSeparatorsSkip(s: JsString, x: CodeUnit, y: CodeUnit, keep: CodeUnit)
    requires s != [] && s[0] != x
    ensures FixSeparators(s, x, y, keep) == [s[0]] + FixSeparators(s[1..], x, y, keep)
  {
  }

  /** Text without an x is copied, and the search goes on after it. */
  lemma {:induction false} FixSeparatorsCopy(a: JsString, t: JsString, x: CodeUnit, y: CodeUnit, keep: CodeUnit)
    requires x !in a
    ensures FixSeparators(a + t, x, y, keep) == a + FixSeparators(t, x, y, keep)
    decreases |a|
  {
    if a == [] {
      assert a + t == t;
    } else {
      var s := a + t;
      FixSeparatorsSkip(s, x, y, keep);
      assert s[1..] == a[1..] + t;
      assert x !in a[1..] by {
        assert forall k :: 0 <= k < |a[1..]| ==> a[1..][k] == a[k + 1];
      }
      FixSeparatorsCopy(a[1..], t, x, y, keep);
      assert a == [a[0]] + a[1..];
    }
  }

  /** The three comma fixes applied to the match: `,\s*,` to `,`, then
      `,\s*]` to `]`, then `[\s*,` to `[`. */
  function FixCommas(m: JsString): JsString
  {
    var noDoubles := FixSeparators(m, COMMA, COMMA, COMMA);
    var noTrailing := FixSeparators(noDoubles, COMMA, CLOSE_BRACKET, CLOSE_BRACKET);
    FixSeparators(noTrailing, OPEN_BRACKET, COMMA, OPEN_BRACKET)
  }

  /** The first fix finds no double comma in `[,v, ]`. */
  lemma {:induction false} CommaFixesFirstPass(v: CodeUnit)
    requires v != COMMA && !IsJsSpace(v)
    ensures FixSeparators([OPEN_BRACKET, COMMA, v, COMMA, SPACE, CLOSE_BRACKET], COMMA, COMMA, COMMA)
         == [OPEN_BRACKET, COMMA, v, COMMA, SPACE, CLOSE_BRACKET]
  {
    var tail: JsString := [SPACE, CLOSE_BRACKET];
    var second: JsString := [COMMA] + tail;
    var afterFirst: JsString := [v] + second;
    var whole: JsString := [OPEN_BRACKET] + ([COMMA] + afterFirst);
    CommaFixesShape(v, tail, second, afterFirst, whole);
    FixSeparatorsCopy(tail, [], COMMA, COMMA, COMMA);
    assert FixSeparators(tail, COMMA, COMMA, COMMA) == tail;
    FixSeparatorsUnmatched([SPACE], [CLOSE_BRACKET], COMMA, COMMA, COMMA);
    assert FixSeparators(second, COMMA, COMMA, COMMA) == second;
    FixSeparatorsCopy([v], second, COMMA, COMMA, COMMA);
    assert FixSeparators(afterFirst, COMMA, COMMA, COMMA) == afterFirst;
    FixSeparatorsUnmatched([], afterFirst, COMMA, COMMA, COMMA);
    assert FixSeparators([COMMA] + afterFirst, COMMA, COMMA, COMMA) == [COMMA] + afterFirst;
    FixSeparatorsCopy([OPEN_BRACKET], [COMMA] + afterFirst, COMMA, COMMA, COMMA);
  }

  /** The second fix removes the comma before `]`. */
  lemma {:induction false} CommaFixesSecondPass(v: CodeUnit)
    requires v != COMMA && v != CLOSE_BRACKET && !IsJsSpace(v)
    ensures FixSeparators([OPEN_BRACKET, COMMA, v, COMMA, SPACE, CLOSE_BRACKET], COMMA, CLOSE_BRACKET, CLOSE_BRACKET)
         == [OPEN_BRACKET, COMMA, v, CLOSE_BRACKET]
  {
    var tail: JsString := [SPACE, CLOSE_BRACKET];
    var second: JsString := [COMMA] + tail;
    var afterFirst: JsString := [v] + second;
    var whole: JsString := [OPEN_BRACKET] + ([COMMA] + afterFirst);
    CommaFixesShape(v, tail, second, afterFirst, whole);
    FixSeparatorsAt([SPACE], [], COMMA, CLOSE_BRACKET, CLOSE_BRACKET);
    assert FixSeparators(second, COMMA, CLOSE_BRACKET, CLOSE_BRACKET) == [CLOSE_BRACKET];
    FixSeparatorsCopy([v], second, COMMA, CLOSE_BRACKET, CLOSE_BRACKET);
    assert FixSeparators(afterFirst, COMMA, CLOSE_BRACKET, CLOSE_BRACKET) == [v, CLOSE_BRACKET];
    FixSeparatorsUnmatched([], afterFirst, COMMA, CLOSE_BRACKET, CLOSE_BRACKET);
    assert FixSeparators([COMMA] + afterFirst, COMMA, CLOSE_BRACKET, CLOSE_BRACKET) == [COMMA, v, CLOSE_BRACKET];
    FixSeparatorsCopy([OPEN_BRACKET], [COMMA] + afterFirst, COMMA, CLOSE_BRACKET, CLOSE_BRACKET);
  }

  lemma {:induction false} CommaFixesShape(v: CodeUnit, tail: JsString, second: JsString, afterFirst: JsString, whole: JsString)
    requires tail == [SPACE, CLOSE_BRACKET] && second == [COMMA] + tail
    requires afterFirst == [v] + second && whole == [OPEN_BRACKET] + ([COMMA] + afterFirst)
    ensures tail + [] == tail && [] + afterFirst == afterFirst
    ensures [COMMA] + [] + afterFirst == [COMMA] + afterFirst
    ensures [SPACE] + [CLOSE_BRACKET] == tail
    ensures [COMMA] + [SPACE] + [CLOSE_BRACKET] == second && [COMMA] + [SPACE] + [CLOSE_BRACKET] + [] == second
    ensures whole == [OPEN_BRACKET, COMMA, v, COMMA, SPACE, CLOSE_BRACKET]
    ensures [v] + [CLOSE_BRACKET] == [v, CLOSE_BRACKET] && [COMMA] + [v, CLOSE_BRACKET] == [COMMA, v, CLOSE_BRACKET]
    ensures [OPEN_BRACKET] + [COMMA, v, CLOSE_BRACKET] == [OPEN_BRACKET, COMMA, v, CLOSE_BRACKET]
  {
  }

  /** The third fix removes the comma after `[`. */
  lemma {:induction false} CommaFixesThirdPass(v: CodeUnit)
    requires v != OPEN_BRACKET
    ensures FixSeparators([OPEN_BRACKET, COMMA, v, CLOSE_BRACKET], OPEN_BRACKET, COMMA, OPEN_BRACKET)
         == [OPEN_BRACKET, v, CLOSE_BRACKET]
  {
    var rest: JsString := [v, CLOSE_BRACKET];
    FixSeparatorsCopy(rest, [], OPEN_BRACKET, COMMA, OPEN_BRACKET);
    assert rest + [] == rest;
    FixSeparatorsAt([], rest, OPEN_BRACKET, COMMA, OPEN_BRACKET);
    assert [OPEN_BRACKET, COMMA, v, CLOSE_BRACKET] == [OPEN_BRACKET] + [] + [COMMA] + rest;
  }

  /** The three fixes together: in `[,v, ]` the comma after `[` and the comma
      before `]`, with its space, are removed, leaving `[v]`. */
  lemma {:induction false} CommaFixesTogether(v: CodeUnit)
    requires v != COMMA && v != OPEN_BRACKET && v != CLOSE_BRACKET && !IsJsSpace(v)
    ensures FixCommas([OPEN_BRACKET, COMMA, v, COMMA, SPACE, CLOSE_BRACKET]) == [OPEN_BRACKET, v, CLOSE_BRACKET]
  {
    CommaFixesFirstPass(v);
    CommaFixesSecondPass(v);
    CommaFixesThirdPass(v);
  }

  /** The emergency text: the cleaned data's bracket match with its commas
      fixed, or the error "No JSON array found". */
  function EmergencyText(data: JsString): Result<JsString>
  {
    var cleaned := EmergencyClean(data);
    match BracketMatchFrom(cleaned, 0)
    case Some(m) => Ok(FixCommas(m))
    case None => Err(NO_ARRAY)
  }

  /** r is s with some units of class p deleted and nothing else changed. */
  predicate DeletesOnly(r: JsString, s: JsString, p: CodeUnit -> bool)
    decreases |s|
  {
    if s == [] then r == []
    else (p(s[0]) && DeletesOnly(r, s[1..], p)) || (r != [] && r[0] == s[0] && DeletesOnly(r[1..], s[1..], p))
  }

  lemma {:induction false} DeletesOnlySkip(r: JsString, s: JsString, n: nat, p: CodeUnit -> bool)
    requires n <= |s| && (forall i :: 0 <= i < n ==> p(s[i])) && DeletesOnly(r, s[n..], p)
    ensures DeletesOnly(r, s, p)
  {
    if n > 0 {
      assert s[1..][n - 1..] == s[n..];
      DeletesOnlySkip(r, s[1..], n - 1, p);
    }
  }

  lemma {:induction false} DeletesOnlyTransitive(r: JsString, m: JsString, s: JsString, p: CodeUnit -> bool)
    requires DeletesOnly(r, m, p) && DeletesOnly(m, s, p)
    ensures DeletesOnly(r, s, p)
    decreases |s|
  {
    if s != [] {
      if p(s[0]) && DeletesOnly(m, s[1..], p) {
        DeletesOnlyTransitive(r, m, s[1..], p);
      } else {
        assert m != [] && m[0] == s[0] && DeletesOnly(m[1..], s[1..], p);
        if p(m[0]) && DeletesOnly(r, m[1..], p) {
          DeletesOnlyTransitive(r, m[1..], s[1..], p);
        } else {
          DeletesOnlyTransitive(r[1..], m[1..], s[1..], p);
        }
      }
    }
  }

  /** Each comma fix only deletes commas and space: it keeps x and drops the
      comma y, or keeps y and drops the comma x, and drops the space between. */
  lemma {:induction false} FixSeparatorsDeletes(s: JsString, x: CodeUnit, y: CodeUnit, keep: CodeUnit)
    requires (keep == x && y == COMMA) || (keep == y && x == COMMA)
    ensures DeletesOnly(FixSeparators(s, x, y, keep), s, IsSpaceOrComma)
    decreases |s|
  {
    if s != [] {
      var k := 1 + RunLength(s[1..], IsJsSpace);
      var r := FixSeparators(s, x, y, keep);
      if s[0] == x && k < |s| && s[k] == y {
        var rest := FixSeparators(s[k + 1..], x, y, keep);
        FixSeparatorsDeletes(s[k + 1..], x, y, keep);
        assert r == [keep] + rest;
        assert forall i :: 1 <= i < k ==> IsJsSpace(s[i]) by {
          forall i | 1 <= i < k ensures IsJsSpace(s[i]) { assert s[i] == s[1..][i - 1]; }
        }
        if keep == x {
          assert s[1..][k..] == s[k + 1..];
          DeletesOnlySkip(rest, s[1..], k, IsSpaceOrComma);
        } else {
          var t := [keep] + rest;
          assert t[1..] == rest;
          assert s[k..][1..] == s[k + 1..];
          assert DeletesOnly(t, s[k..], IsSpaceOrComma);
          assert s[1..][k - 1..] == s[k..];
          DeletesOnlySkip(t, s[1..], k - 1, IsSpaceOrComma);
        }
      } else {
        FixSeparatorsDeletes(s[1..], x, y, keep);
      }
    }
  }

  /** The comma fixes delete only commas and space; in particular every
      bracket, quotation mark and other unit of the match survives, in order. */
  lemma {:induction false} FixCommasDeletes(m: JsString)
    ensures DeletesOnly(FixCommas(m), m, IsSpaceOrComma)
  {
    var a := FixSeparators(m, COMMA, COMMA, COMMA);
    var b := FixSeparators(a, COMMA, CLOSE_BRACKET, CLOSE_BRACKET);
    FixSeparatorsDeletes(m, COMMA, COMMA, COMMA);
    FixSeparatorsDeletes(a, COMMA, CLOSE_BRACKET, CLOSE_BRACKET);
    FixSeparatorsDeletes(b, OPEN_BRACKET, COMMA, OPEN_BRACKET);
    DeletesOnlyTransitive(b, a, m, IsSpaceOrComma);
    DeletesOnlyTransitive(FixCommas(m), b, m, IsSpaceOrComma);
  }

  /** Each fix is one pass over non-overlapping matches: `,,,` becomes `,,`. */
  lemma {:induction false} TripleCommaLeavesTwo()
    ensures FixSeparators([COMMA, COMMA, COMMA], COMMA, COMMA, COMMA) == [COMMA, COMMA]
  {
    var s: JsString := [COMMA, COMMA, COMMA];
    var t: JsString := [COMMA];
    assert !IsJsSpace(COMMA);
    assert RunLength(s[1..], IsJsSpace) == 0;
    assert s[2..] == t;
    assert FixSeparators(s, COMMA, COMMA, COMMA) == [COMMA] + FixSeparators(t, COMMA, COMMA, COMMA);
    assert RunLength(t[1..], IsJsSpace) == 0;
    assert t[1..] == [];
    assert FixSeparators(t, COMMA, COMMA, COMMA) == [COMMA] + FixSeparators([], COMMA, COMMA, COMMA);
  }
}
