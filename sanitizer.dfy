/** The message sanitiser of /decrypt: every element of the parsed array that
    is an object has its `text` and `caption` fields, when they hold non-empty
    strings, stripped of control units and trimmed. */
module Sanitizer {
  import opened JsCore
  import opened JsonValues

  const TEXT_FIELD: JsString := [0x74, 0x65, 0x78, 0x74]                      // "text"
  const CAPTION_FIELD: JsString := [0x63, 0x61, 0x70, 0x74, 0x69, 0x6F, 0x6E]  // "caption"

  /** s.replace(/[\x00-\x1F\x7F-\x9F]/g, '').trim() */
  function CleanText(s: JsString): (r: JsString)
    ensures NoneIn(r, IsControl)
    ensures r == [] || (!IsJsSpace(r[0]) && !IsJsSpace(r[|r| - 1]))
  {
    RemoveControlsClean(s);
    TrimKeepsClean(RemoveControls(s), IsControl);
    Trim(RemoveControls(s))
  }

  /** Cleaning a cleaned text changes nothing. */
  lemma {:induction false} CleanTextIdempotent(s: JsString)
    ensures CleanText(CleanText(s)) == CleanText(s)
  {
    var c := CleanText(s);
    RemoveControlsOfClean(c);
    TrimIdempotent(RemoveControls(s));
  }

  /** The fields the sanitiser rewrites: `text` or `caption` holding a
      truthy string, that is a non-empty one. */
  predicate IsCleanedField(name: JsString, v: Json)
  {
    (name == TEXT_FIELD || name == CAPTION_FIELD) && v.JString? && v.s != []
  }

  function CleanField(fields: map<JsString, Json>, name: JsString): (r: map<JsString, Json>)
    ensures r.Keys == fields.Keys
    ensures forall k :: k in fields && k != name ==> r[k] == fields[k]
    ensures name in fields && IsCleanedField(name, fields[name]) ==> r[name] == JString(CleanText(fields[name].s))
    ensures name in fields && !IsCleanedField(name, fields[name]) ==> r[name] == fields[name]
  {
    if name in fields && IsCleanedField(name, fields[name]) then fields[name := JString(CleanText(fields[name].s))]
    else fields
  }

  /** One element of the array after the sanitiser has visited it. */
  function SanitizeMessage(m: Json): Json
  {
    if m.JObject? then JObject(CleanField(CleanField(m.fields, TEXT_FIELD), CAPTION_FIELD)) else m
  }

  /** Only an object is touched; in it only `text` and `caption` change,
      each to its cleaned string when it holds a non-empty string; every
      other member, and every member name, stays. */
  lemma {:induction false} SanitizeMessageSpec(m: Json)
    ensures !m.JObject? ==> SanitizeMessage(m) == m
    ensures m.JObject? ==> SanitizeMessage(m).JObject? && SanitizeMessage(m).fields.Keys == m.fields.Keys
    ensures m.JObject? ==> forall k :: k in m.fields ==>
      SanitizeMessage(m).fields[k] == if IsCleanedField(k, m.fields[k]) then JString(CleanText(m.fields[k].s)) else m.fields[k]
  {
  }

  /** Sanitising a message twice is sanitising it once. */
  lemma {:induction false} SanitizeMessageIdempotent(m: Json)
    ensures SanitizeMessage(SanitizeMessage(m)) == SanitizeMessage(m)
  {
    if m.JObject? {
      var r := SanitizeMessage(m);
      var rr := SanitizeMessage(r);
      SanitizeMessageSpec(m);
      SanitizeMessageSpec(r);
      forall k | k in r.fields
        ensures rr.fields[k] == r.fields[k]
      {
        if IsCleanedField(k, m.fields[k]) {
          CleanTextIdempotent(m.fields[k].s);
        }
      }
      assert rr.fields == r.fields;
    }
  }

  /** The elements after sanitising, in the same order. */
  function Sanitized(elems: seq<Json>): (r: seq<Json>)
    ensures |r| == |elems|
  {
    seq(|elems|, i requires 0 <= i < |elems| => SanitizeMessage(elems[i]))
  }

  lemma {:induction false} SanitizedIdempotent(elems: seq<Json>)
    ensures Sanitized(Sanitized(elems)) == Sanitized(elems)
  {
    forall i | 0 <= i < |elems|
      ensures Sanitized(Sanitized(elems))[i] == Sanitized(elems)[i]
    {
      SanitizeMessageIdempotent(elems[i]);
    }
  }

  /** A sequence that agrees with the sanitised elements slot by slot is them. */
  lemma {:induction false} SanitizedPointwise(elems: seq<Json>, s: seq<Json>)
    requires |s| == |elems|
    requires forall k :: 0 <= k < |s| ==> s[k] == SanitizeMessage(elems[k])
    ensures s == Sanitized(elems)
  {
  }

  /** The `map` callback, which assigns the cleaned fields on the element
      itself: each slot of the array is replaced by its sanitised message. */
  method SanitizeInPlace(a: array<Json>)
    modifies a
    ensures a[..] == Sanitized(old(a[..]))
  {
    ghost var original := a[..];
    var i := 0;
    while i < a.Length
      invariant 0 <= i <= a.Length
      invariant forall k :: 0 <= k < i ==> a[k] == SanitizeMessage(original[k])
      invariant forall k :: i <= k < a.Length ==> a[k] == original[k]
    {
      a[i] := SanitizeMessage(a[i]);
      i := i + 1;
    }
    SanitizedPointwise(original, a[..]);
  }

  /** The tail of /decrypt: an array has its elements sanitised and is
      counted; any other value is passed on unchanged with count 0. */
  method ProcessMessages(parsed: Json) returns (messages: Json, count: nat)
    ensures parsed.JArray? ==> messages == JArray(Sanitized(parsed.elems)) && count == |parsed.elems|
    ensures !parsed.JArray? ==> messages == parsed && count == 0
  {
    if parsed.JArray? {
      var elems := parsed.elems;
      var a := new Json[|elems|](i requires 0 <= i < |elems| => elems[i]);
      assert a[..] == elems;
      SanitizeInPlace(a);
      messages := JArray(a[..]);
      count := a.Length;
    } else {
      messages := parsed;
      count := 0;
    }
  }
}
