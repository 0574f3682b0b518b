/** JavaScript strings as the recovery code sees them: sequences of UTF-16
    code units. This module gives the character classes the code's regular
    expressions use, the String.prototype operations it calls
    (indexOf, lastIndexOf, substring, trim), the two shapes of global
    `replace` it performs (a per-unit replacement and a run replacement),
    and exceptions as a Result. */
module JsCore {

  /** One UTF-16 code unit. Lone surrogates are ordinary code units here,
      as they are in a JavaScript string. */
  type CodeUnit = u: int | 0 <= u < 0x1_0000

  type JsString = seq<CodeUnit>

  const TAB: CodeUnit := 0x09
  const LF: CodeUnit := 0x0A
  const CR: CodeUnit := 0x0D
  const SPACE: CodeUnit := 0x20
  const QUOTE: CodeUnit := 0x22
  const COMMA: CodeUnit := 0x2C
  const OPEN_BRACKET: CodeUnit := 0x5B
  const BACKSLASH: CodeUnit := 0x5C
  const CLOSE_BRACKET: CodeUnit := 0x5D
  const LETTER_N: CodeUnit := 0x6E
  const LETTER_T: CodeUnit := 0x74

  /** The two-unit text `\n` and `\t` that the repairs write in place of a
      raw line break or tab. */
  const ESCAPED_N: JsString := [BACKSLASH, LETTER_N]
  const ESCAPED_T: JsString := [BACKSLASH, LETTER_T]

  /** A thrown JavaScript Error, reduced to its message. */
  datatype Error = Error(message: string)

  /** The outcome of an expression that may throw. */
  datatype Result<+T> = Ok(value: T) | Err(error: Error)

  datatype Option<+T> = None | Some(value: T)

  function Max(a: int, b: int): int { if a < b then b else a }

  function Min(a: int, b: int): int { if a < b then a else b }

  // ----- character classes -----

  /** The class [\x00-\x1F\x7F-\x9F]: the C0 controls, DEL and the C1 controls. */
  predicate IsControl(u: CodeUnit) { u <= 0x1F || 0x7F <= u <= 0x9F }

  /** LineTerminator of ECMA-262: LF, CR, LINE SEPARATOR, PARAGRAPH SEPARATOR.
      These are the units that `.` in a regular expression does not match. */
  predicate IsLineTerminator(u: CodeUnit) { u == LF || u == CR || u == 0x2028 || u == 0x2029 }

  /** WhiteSpace of ECMA-262: TAB, VT, FF, ZWNBSP and the Unicode space
      separators (category Zs, which holds SPACE and NBSP). */
  predicate IsWhiteSpace(u: CodeUnit)
  {
    u == TAB || u == 0x0B || u == 0x0C || u == 0xFEFF || u == SPACE || u == 0xA0
    || u == 0x1680 || 0x2000 <= u <= 0x200A || u == 0x202F || u == 0x205F || u == 0x3000
  }

  /** What `\s` in a regular expression and String.prototype.trim treat as space. */
  predicate IsJsSpace(u: CodeUnit) { IsWhiteSpace(u) || IsLineTerminator(u) }

  predicate IsCrOrLf(u: CodeUnit) { u == CR || u == LF }

  predicate IsTab(u: CodeUnit) { u == TAB }

  /** No unit of s is in the class p. */
  predicate NoneIn(s: JsString, p: CodeUnit -> bool)
  {
    forall i :: 0 <= i < |s| ==> !p(s[i])
  }

  // ----- indexOf, lastIndexOf, substring -----

  /** String.prototype.indexOf for a one-unit needle: the first position of u, or -1. */
  function IndexOf(s: JsString, u: CodeUnit): (r: int)
    ensures -1 <= r < |s|
    ensures r == -1 <==> u !in s
    ensures 0 <= r ==> s[r] == u && u !in s[..r]
  {
    if s == [] then -1
    else if s[0] == u then 0
    else
      var k := IndexOf(s[1..], u);
      assert s == [s[0]] + s[1..];
      if k == -1 then -1
      else
        assert s[..k + 1] == [s[0]] + s[1..][..k];
        k + 1
  }

  /** String.prototype.lastIndexOf for a one-unit needle: the last position of u, or -1. */
  function LastIndexOf(s: JsString, u: CodeUnit): (r: int)
    ensures -1 <= r < |s|
    ensures r == -1 <==> u !in s
    ensures 0 <= r ==> s[r] == u && u !in s[r + 1..]
  {
    if s == [] then -1
    else if s[|s| - 1] == u then |s| - 1
    else
      var k := LastIndexOf(s[..|s| - 1], u);
      assert s == s[..|s| - 1] + [s[|s| - 1]];
      if k == -1 then -1
      else
        assert s[k + 1..] == s[..|s| - 1][k + 1..] + [s[|s| - 1]];
        k
  }

  /** No occurrence of u lies after the last. */
  lemma {:induction false} LastIndexOfBound(s: JsString, u: CodeUnit, k: nat)
    requires k < |s| && s[k] == u
    ensures k <= LastIndexOf(s, u)
  {
    var r := LastIndexOf(s, u);
    assert s[k] in s;
    assert forall m :: r < m < |s| ==> s[m] == s[r + 1..][m - r - 1];
  }


  function Clamp(x: int, len: nat): (r: nat)
    ensures r <= len
  {
    if x < 0 then 0 else if x > len then len else x
  }

  /** String.prototype.substring(a, b): both arguments are clamped into
      [0, |s|], then swapped when the first is the larger. */
  function Substring(s: JsString, a: int, b: int): (r: JsString)
    ensures |r| <= |s|
    ensures 0 <= a <= b <= |s| ==> r == s[a..b]
    ensures 0 <= b <= a <= |s| ==> r == s[b..a]
    ensures a <= b ==> r == s[Clamp(a, |s|)..Clamp(b, |s|)]
    ensures b < a ==> r == s[Clamp(b, |s|)..Clamp(a, |s|)]
  {
    var x, y := Clamp(a, |s|), Clamp(b, |s|);
    if x <= y then s[x..y] else s[y..x]
  }

  // ----- global replace of single units: s.replace(/[class]/g, f) -----

  /** Every unit u of s replaced by f(u), left to right: a global `replace`
      whose pattern matches exactly one unit. */
  function FlatMap(s: JsString, f: CodeUnit -> JsString): JsString
  {
    if s == [] then [] else f(s[0]) + FlatMap(s[1..], f)
  }

  lemma {:induction false} FlatMapAppend(a: JsString, b: JsString, f: CodeUnit -> JsString)
    ensures FlatMap(a + b, f) == FlatMap(a, f) + FlatMap(b, f)
  {
    if a == [] {
      assert a + b == b;
    } else {
      assert (a + b)[0] == a[0];
      assert (a + b)[1..] == a[1..] + b;
      FlatMapAppend(a[1..], b, f);
    }
  }

  lemma {:induction false} FlatMapCons(u: CodeUnit, s: JsString, f: CodeUnit -> JsString)
    ensures FlatMap([u] + s, f) == f(u) + FlatMap(s, f)
  {
    assert ([u] + s)[1..] == s;
  }

  lemma {:induction false} FlatMapSingle(u: CodeUnit, f: CodeUnit -> JsString)
    ensures FlatMap([u], f) == f(u)
  {
    FlatMapCons(u, [], f);
    assert [u] + [] == [u];
    assert f(u) + [] == f(u);
  }

  /** A replacement that leaves every unit of s alone leaves s alone. */
  lemma {:induction false} FlatMapIdentity(s: JsString, f: CodeUnit -> JsString)
    requires forall i :: 0 <= i < |s| ==> f(s[i]) == [s[i]]
    ensures FlatMap(s, f) == s
  {
    if s != [] {
      FlatMapIdentity(s[1..], f);
      assert s == [s[0]] + s[1..];
    }
  }

  /** If no replacement text of a unit of s holds a unit of class p, the
      result holds none. */
  lemma {:induction false} FlatMapAvoids(s: JsString, f: CodeUnit -> JsString, p: CodeUnit -> bool)
    requires forall i :: 0 <= i < |s| ==> NoneIn(f(s[i]), p)
    ensures NoneIn(FlatMap(s, f), p)
  {
    if s != [] {
      FlatMapAvoids(s[1..], f, p);
      assert NoneIn(f(s[0]), p);
    }
  }

  /** A replacement by exactly one unit keeps the length. */
  lemma {:induction false} FlatMapLength(s: JsString, f: CodeUnit -> JsString)
    requires forall i :: 0 <= i < |s| ==> |f(s[i])| == 1
    ensures |FlatMap(s, f)| == |s|
  {
    if s != [] {
      FlatMapLength(s[1..], f);
    }
  }

  /** The unit mapper of s.replace(/[\x00-\x1F\x7F-\x9F]/g, ''). */
  function DropControl(u: CodeUnit): JsString { if IsControl(u) then [] else [u] }

  /** s.replace(/[\x00-\x1F\x7F-\x9F]/g, ''). */
  function RemoveControls(s: JsString): (r: JsString)
  {
    FlatMap(s, DropControl)
  }

  lemma {:induction false} RemoveControlsClean(s: JsString)
    ensures NoneIn(RemoveControls(s), IsControl)
  {
    FlatMapAvoids(s, DropControl, IsControl);
  }

  lemma {:induction false} RemoveControlsOfClean(s: JsString)
    requires NoneIn(s, IsControl)
    ensures RemoveControls(s) == s
  {
    FlatMapIdentity(s, DropControl);
  }

  // ----- global replace of runs: s.replace(/[class]+/g, r) -----

  /** The length of the longest prefix of s whose units are all of class p. */
  function RunLength(s: JsString, p: CodeUnit -> bool): (n: nat)
    ensures n <= |s|
    ensures forall i :: 0 <= i < n ==> p(s[i])
    ensures n < |s| ==> !p(s[n])
  {
    if s == [] || !p(s[0]) then 0 else 1 + RunLength(s[1..], p)
  }

  /** A run of class p followed by a unit outside it, or by nothing, is the
      whole longest run. */
  lemma {:induction false} RunLengthOf(w: JsString, t: JsString, p: CodeUnit -> bool)
    requires forall i :: 0 <= i < |w| ==> p(w[i])
    requires t == [] || !p(t[0])
    ensures RunLength(w + t, p) == |w|
    decreases |w|
  {
    if w == [] {
      assert w + t == t;
    } else {
      assert (w + t)[0] == w[0];
      assert (w + t)[1..] == w[1..] + t;
      RunLengthOf(w[1..], t, p);
    }
  }

  /** s.replace(/[class]+/g, r): scanning left to right, each maximal run of
      units of class p (the greedy `+`) is replaced by r once. */
  function CollapseRuns(s: JsString, p: CodeUnit -> bool, r: JsString): JsString
    decreases |s|
  {
    if s == [] then []
    else if p(s[0]) then r + CollapseRuns(s[RunLength(s, p)..], p, r)
    else [s[0]] + CollapseRuns(s[1..], p, r)
  }

  /** A run unit followed by another run unit adds nothing; the last unit of
      a run stands for the whole run. */
  lemma {:induction false} CollapseRunsStep(s: JsString, p: CodeUnit -> bool, r: JsString)
    requires s != [] && p(s[0])
    ensures |s| > 1 && p(s[1]) ==> CollapseRuns(s, p, r) == CollapseRuns(s[1..], p, r)
    ensures (|s| == 1 || !p(s[1])) ==> CollapseRuns(s, p, r) == r + CollapseRuns(s[1..], p, r)
  {
    if |s| > 1 && p(s[1]) {
      assert RunLength(s, p) == 1 + RunLength(s[1..], p);
      assert s[RunLength(s, p)..] == s[1..][RunLength(s[1..], p)..];
    }
  }

  /** A prefix without run units is copied. */
  lemma {:induction false} CollapseRunsSkip(a: JsString, b: JsString, p: CodeUnit -> bool, r: JsString)
    requires NoneIn(a, p)
    ensures CollapseRuns(a + b, p, r) == a + CollapseRuns(b, p, r)
  {
    if a == [] {
      assert a + b == b;
    } else {
      assert (a + b)[0] == a[0];
      assert (a + b)[1..] == a[1..] + b;
      CollapseRunsSkip(a[1..], b, p, r);
    }
  }

  /** A unit outside the class is copied. */
  lemma {:induction false} CollapseRunsKeep(u: CodeUnit, b: JsString, p: CodeUnit -> bool, r: JsString)
    requires !p(u)
    ensures CollapseRuns([u] + b, p, r) == [u] + CollapseRuns(b, p, r)
  {
    assert ([u] + b)[1..] == b;
  }

  /** The first unit of the output: a run starts with r, anything else with itself. */
  lemma {:induction false} CollapseRunsHead(s: JsString, p: CodeUnit -> bool, r: JsString)
    requires s != [] && r != []
    ensures CollapseRuns(s, p, r) != []
    ensures CollapseRuns(s, p, r)[0] == if p(s[0]) then r[0] else s[0]
  {
  }

  /** When r holds no unit of the class, neither does the result. */
  lemma {:induction false} CollapseRunsRemoves(s: JsString, p: CodeUnit -> bool, r: JsString)
    requires NoneIn(r, p)
    ensures NoneIn(CollapseRuns(s, p, r), p)
    decreases |s|
  {
    if s != [] {
      if p(s[0]) {
        CollapseRunsRemoves(s[RunLength(s, p)..], p, r);
      } else {
        CollapseRunsRemoves(s[1..], p, r);
      }
    }
  }

  lemma {:induction false} CollapseRunsIdentity(s: JsString, p: CodeUnit -> bool, r: JsString)
    requires NoneIn(s, p)
    ensures CollapseRuns(s, p, r) == s
  {
    CollapseRunsSkip(s, [], p, r);
    assert s + [] == s;
  }

  // ----- trim -----

  /** The length of the run of units of class p that ends s. */
  function TrailingRun(s: JsString, p: CodeUnit -> bool): (n: nat)
    ensures n <= |s|
    ensures forall i :: |s| - n <= i < |s| ==> p(s[i])
    ensures n < |s| ==> !p(s[|s| - 1 - n])
  {
    if s == [] || !p(s[|s| - 1]) then 0 else 1 + TrailingRun(s[..|s| - 1], p)
  }

  /** The bounds of the slice left when the runs of class p at both ends go:
      only units of p before lo and from hi on, and a unit outside p at each
      end of a non-empty slice. */
  function TrimBounds(s: JsString, p: CodeUnit -> bool): (b: (nat, nat))
    ensures b.0 <= b.1 <= |s|
    ensures forall i :: 0 <= i < b.0 ==> p(s[i])
    ensures forall i :: b.1 <= i < |s| ==> p(s[i])
    ensures b.0 < b.1 ==> !p(s[b.0]) && !p(s[b.1 - 1])
  {
    var lo := RunLength(s, p);
    var t := s[lo..];
    var n := TrailingRun(t, p);
    var hi := lo + |t| - n;
    assert forall i :: hi <= i < |s| ==> s[i] == t[i - lo];
    assert lo < hi ==> s[lo] == t[0] && s[hi - 1] == t[|t| - 1 - n];
    (lo, hi)
  }

  /** String.prototype.trim: the ECMA-262 WhiteSpace and LineTerminator units
      removed from both ends. */
  function Trim(s: JsString): (r: JsString)
    ensures r == [] || (!IsJsSpace(r[0]) && !IsJsSpace(r[|r| - 1]))
    ensures r == [] <==> forall i :: 0 <= i < |s| ==> IsJsSpace(s[i])
    ensures exists lo: nat, hi: nat ::
      && lo <= hi <= |s| && r == s[lo..hi]
      && (forall i :: 0 <= i < lo ==> IsJsSpace(s[i]))
      && (forall i :: hi <= i < |s| ==> IsJsSpace(s[i]))
  {
    var b := TrimBounds(s, IsJsSpace);
    s[b.0..b.1]
  }

  lemma {:induction false} TrimIdempotent(s: JsString)
    ensures Trim(Trim(s)) == Trim(s)
  {
    var t := Trim(s);
    if t != [] {
      assert RunLength(t, IsJsSpace) == 0;
      assert TrailingRun(t, IsJsSpace) == 0;
      assert t[0..|t|] == t;
    }
  }

  /** trim() keeps a subset of the units: it cannot bring back a control. */
  lemma {:induction false} TrimKeepsClean(s: JsString, p: CodeUnit -> bool)
    requires NoneIn(s, p)
    ensures NoneIn(Trim(s), p)
  {
    var b := TrimBounds(s, IsJsSpace);
    assert forall i :: 0 <= i < b.1 - b.0 ==> Trim(s)[i] == s[b.0 + i];
  }
}
