/** schemas/validators.py: per-section and whole-document validation, the
    wrap/unwrap merge of section outputs, and the module's own (simpler)
    markdown cleaner and parse wrapper. */
module Validators {
  import opened Text
  import opened JsonValues
  import JsonUtils

  /** The 19 sections a complete mobility measure must hold, in the order the
      validator checks them. */
  const SectionNames: seq<string> := [
    "meta", "overview", "context", "evidence", "impact",
    "requirements", "infrastructure", "operations", "costs",
    "risks", "monitoring", "checklist", "lifecycle",
    "roles", "financial", "compliance", "visibility",
    "selection", "scalability"
  ]

  /** The (is_valid, errors) pair both validators return. */
  datatype Verdict = Verdict(isValid: bool, errors: seq<string>)

  function EmptyMessage(name: string): string {
    "Section '" + name + "' is empty"
  }

  function NotDictMessage(name: string): string {
    "Section '" + name + "' must be a dictionary"
  }

  function MissingMessage(name: string): string {
    "Missing required section: " + name
  }

  /** validate_section: empty data fails with one message, a non-empty value
      that is not a dict fails with another, and any non-empty dict passes. */
  function ValidateSection(name: string, data: JsonValue): (r: Verdict)
    ensures r.isValid <==> r.errors == []
    ensures r.isValid <==> data.JObject? && data.fields != map[]
    ensures |r.errors| <= 1
    ensures !Truthy(data) ==> r.errors == [EmptyMessage(name)]
    ensures Truthy(data) && !data.JObject? ==> r.errors == [NotDictMessage(name)]
  {
    if !Truthy(data) then Verdict(false, [EmptyMessage(name)])
    else if !data.JObject? then Verdict(false, [NotDictMessage(name)])
    else Verdict(true, [])
  }

  // ---------------------------------------------------------------------------
  // validate_complete_measure

  /** What the check of one required section appends to the error list. */
  function SectionError(data: JsonObject, name: string): seq<string> {
    if name !in data then [MissingMessage(name)]
    else if !Truthy(data[name]) then [EmptyMessage(name)]
    else []
  }

  /** The error list after checking `names` in order. */
  function SectionErrors(data: JsonObject, names: seq<string>): (r: seq<string>)
    ensures |r| <= |names|
  {
    if |names| == 0 then []
    else SectionErrors(data, names[..|names| - 1]) + SectionError(data, names[|names| - 1])
  }

  /** validate_complete_measure: one pass over the required sections, appending
      at most one message for each. */
  method ValidateCompleteMeasure(data: JsonObject) returns (isValid: bool, errors: seq<string>)
    ensures errors == SectionErrors(data, SectionNames)
    ensures isValid <==> errors == []
    ensures isValid <==> forall n :: n in SectionNames ==> n in data && Truthy(data[n])
  {
    errors := [];
    for i := 0 to |SectionNames|
      invariant errors == SectionErrors(data, SectionNames[..i])
    {
      var section := SectionNames[i];
      assert SectionNames[..i + 1][..i] == SectionNames[..i];
      if section !in data {
        errors := errors + [MissingMessage(section)];
      } else if !Truthy(data[section]) {
        errors := errors + [EmptyMessage(section)];
      }
    }
    assert SectionNames[..|SectionNames|] == SectionNames;
    isValid := |errors| == 0;
    NoErrorsIffComplete(data, SectionNames);
  }

  /** The error list is empty exactly when every listed section is present and
      truthy. */
  lemma {:induction false} NoErrorsIffComplete(data: JsonObject, names: seq<string>)
    ensures SectionErrors(data, names) == [] <==> forall n :: n in names ==> n in data && Truthy(data[n])
  {
    if |names| > 0 {
      var init, last := names[..|names| - 1], names[|names| - 1];
      NoErrorsIffComplete(data, init);
      var before, here := SectionErrors(data, init), SectionError(data, last);
      assert SectionErrors(data, names) == before + here;
      assert |before + here| == |before| + |here|;
      assert here == [] <==> last in data && Truthy(data[last]);
      assert names == init + [last];
      forall n | n in names ensures n in init || n == last {
      }
    }
  }

  /** Only the listed sections matter: keys outside `names` never change the
      error list. */
  lemma {:induction false} ExtraKeysIgnored(data: JsonObject, other: JsonObject, names: seq<string>)
    requires forall n :: n in names ==> (n in data <==> n in other)
    requires forall n :: n in names && n in data ==> Truthy(data[n]) == Truthy(other[n])
    ensures SectionErrors(data, names) == SectionErrors(other, names)
  {
    if |names| > 0 {
      ExtraKeysIgnored(data, other, names[..|names| - 1]);
    }
  }

  /** The messages can be told apart: "Missing ..." and "Section ..." never
      coincide, and each names exactly one section. */
  lemma MessagesDistinct(a: string, b: string)
    ensures MissingMessage(a) != EmptyMessage(b)
    ensures MissingMessage(a) == MissingMessage(b) ==> a == b
    ensures EmptyMessage(a) == EmptyMessage(b) ==> a == b
  {
    assert MissingMessage(a)[0] == 'M' && EmptyMessage(b)[0] == 'S';
    if MissingMessage(a) == MissingMessage(b) {
      assert a == MissingMessage(a)[26..];
    }
    if EmptyMessage(a) == EmptyMessage(b) {
      assert |a| == |b|;
      assert a == EmptyMessage(a)[9..9 + |a|];
    }
  }

  /** A section is reported missing exactly when it is required and absent. */
  lemma {:induction false} MissingReported(data: JsonObject, names: seq<string>, n: string)
    ensures MissingMessage(n) in SectionErrors(data, names) <==> n in names && n !in data
  {
    if |names| > 0 {
      var init, last := names[..|names| - 1], names[|names| - 1];
      MissingReported(data, init, n);
      MessagesDistinct(n, last);
      MessagesDistinct(last, n);
      assert names == init + [last];
      assert n in names <==> n in init || n == last;
    }
  }

  /** A section is reported empty exactly when it is required, present and
      falsy. */
  lemma {:induction false} EmptyReported(data: JsonObject, names: seq<string>, n: string)
    ensures EmptyMessage(n) in SectionErrors(data, names) <==> n in names && n in data && !Truthy(data[n])
  {
    if |names| > 0 {
      var init, last := names[..|names| - 1], names[|names| - 1];
      EmptyReported(data, init, n);
      MessagesDistinct(n, last);
      MessagesDistinct(last, n);
      assert names == init + [last];
      assert n in names <==> n in init || n == last;
    }
  }

  /** Every message is one of the two kinds, naming a listed section. */
  lemma {:induction false} ErrorsAreReports(data: JsonObject, names: seq<string>, e: string)
    requires e in SectionErrors(data, names)
    ensures exists n :: n in names && (e == MissingMessage(n) || e == EmptyMessage(n))
  {
    var init, last := names[..|names| - 1], names[|names| - 1];
    if e in SectionErrors(data, init) {
      ErrorsAreReports(data, init, e);
      var n :| n in init && (e == MissingMessage(n) || e == EmptyMessage(n));
      assert n in names;
    } else {
      assert e in SectionError(data, last);
      assert last in names;
    }
  }

  // ---------------------------------------------------------------------------
  // merge_sections

  /** What merge_sections stores for one non-empty section: the value under the
      section's own name when the data wraps it, otherwise the data itself. */
  function Unwrap(name: string, data: JsonObject): JsonValue {
    if name in data then data[name] else JObject(data)
  }

  /** merge_sections, keyed by section name: empty sections are skipped and the
      rest are unwrapped. */
  function Merged(sections: map<string, JsonObject>): (r: JsonObject)
    ensures r.Keys == set n | n in sections && sections[n] != map[]
  {
    map n | n in sections && sections[n] != map[] :: Unwrap(n, sections[n])
  }

  /** merge_sections as the loop that fills `complete_measure` one section at a
      time; the order of the sections does not affect the result. */
  method MergeSections(sections: map<string, JsonObject>) returns (complete: JsonObject)
    ensures complete == Merged(sections)
    ensures complete.Keys == set n | n in sections && sections[n] != map[]
    ensures forall n :: n in complete ==> complete[n] == Unwrap(n, sections[n])
  {
    complete := map[];
    var todo := sections.Keys;
    while todo != {}
      invariant todo <= sections.Keys
      invariant complete.Keys == set n | n in sections && n !in todo && sections[n] != map[]
      invariant forall n :: n in complete ==> complete[n] == Unwrap(n, sections[n])
      decreases |todo|
    {
      var name :| name in todo;
      var data := sections[name];
      todo := todo - {name};
      if data == map[] {
        continue;
      }
      if name in data {
        complete := complete[name := data[name]];
      } else {
        complete := complete[name := JObject(data)];
      }
    }
  }

  /** Merging keeps every non-empty section under its own name, unwrapped. */
  lemma MergedUnwraps(sections: map<string, JsonObject>, n: string)
    requires n in sections && sections[n] != map[]
    ensures n in Merged(sections)
    ensures n in sections[n] ==> Merged(sections)[n] == sections[n][n]
    ensures n !in sections[n] ==> Merged(sections)[n] == JObject(sections[n])
  {
  }

  // ---------------------------------------------------------------------------
  // clean_json_output and safe_json_parse of this module

  /** One leading "```json" is dropped, or else one leading "```". */
  function DropOpeningFence(t: string): (r: string)
    ensures |r| <= |t|
    ensures StartsWith(t, "```json") ==> r == t[7..]
    ensures !StartsWith(t, "```json") && StartsWith(t, "```") ==> r == t[3..]
    ensures !StartsWith(t, "```") ==> r == t
  {
    if StartsWith(t, "```json") then t[7..] else if StartsWith(t, "```") then t[3..] else t
  }

  /** One trailing "```" is dropped. */
  function DropClosingFence(t: string): (r: string)
    ensures |r| <= |t|
    ensures EndsWith(t, "```") ==> r == t[..|t| - 3]
    ensures !EndsWith(t, "```") ==> r == t
  {
    if EndsWith(t, "```") then t[..|t| - 3] else t
  }

  /** clean_json_output here: strip, drop the fences, strip again. No search
      for braces. */
  function CleanJsonOutput(text: string): (r: string)
    ensures IsStripped(r)
    ensures |r| <= |text|
  {
    Strip(DropClosingFence(DropOpeningFence(Strip(text))))
  }

  lemma DropOpeningFenceInfix(t: string)
    ensures IsInfix(DropOpeningFence(t), t)
  {
    if StartsWith(t, "```json") {
      SliceInfix(t, 7, |t|);
    } else if StartsWith(t, "```") {
      SliceInfix(t, 3, |t|);
    } else {
      SliceInfix(t, 0, |t|);
    }
  }

  lemma DropClosingFenceInfix(t: string)
    ensures IsInfix(DropClosingFence(t), t)
  {
    if EndsWith(t, "```") {
      SliceInfix(t, 0, |t| - 3);
    } else {
      SliceInfix(t, 0, |t|);
    }
  }

  /** The cleaner's result is one contiguous piece of its input. */
  lemma CleanIsInfix(text: string)
    ensures IsInfix(CleanJsonOutput(text), text)
  {
    var t := Strip(text);
    var t1 := DropOpeningFence(t);
    var t2 := DropClosingFence(t1);
    StripInfix(text);
    DropOpeningFenceInfix(t);
    DropClosingFenceInfix(t1);
    StripInfix(t2);
    InfixTransitive(t1, t, text);
    InfixTransitive(t2, t1, text);
    InfixTransitive(Strip(t2), t2, text);
  }

  /** A "```json ... ```" wrapper, with blanks around it, is removed and the
      body stripped. */
  lemma CleanJsonFenced(ws: string, body: string, ws2: string)
    requires forall k :: 0 <= k < |ws| ==> IsSpace(ws[k])
    requires forall k :: 0 <= k < |ws2| ==> IsSpace(ws2[k])
    ensures CleanJsonOutput(ws + "```json" + body + "```" + ws2) == Strip(body)
  {
    var rest := body + "```";
    var s := "```json" + rest;
    assert ws + "```json" + body + "```" + ws2 == ws + s + ws2;
    BacktickEnds(ws, s, ws2);
    DropJsonOpening(rest);
    DropClosingOf(body);
  }

  /** A bare "``` ... ```" wrapper, with blanks around it, is removed and the
      body stripped, as long as the body does not itself begin with "json". */
  lemma CleanBareFenced(ws: string, body: string, ws2: string)
    requires forall k :: 0 <= k < |ws| ==> IsSpace(ws[k])
    requires forall k :: 0 <= k < |ws2| ==> IsSpace(ws2[k])
    requires !StartsWith(body, "json")
    ensures CleanJsonOutput(ws + "```" + body + "```" + ws2) == Strip(body)
  {
    var rest := body + "```";
    var s := "```" + rest;
    assert ws + "```" + body + "```" + ws2 == ws + s + ws2;
    BacktickEnds(ws, s, ws2);
    DropBareOpening(body);
    DropClosingOf(body);
  }

  /** A text that begins and ends with a backtick comes out of whitespace
      padding unchanged. */
  lemma BacktickEnds(ws: string, s: string, ws2: string)
    requires forall k :: 0 <= k < |ws| ==> IsSpace(ws[k])
    requires forall k :: 0 <= k < |ws2| ==> IsSpace(ws2[k])
    requires |s| > 0 && s[0] == '`' && s[|s| - 1] == '`'
    ensures Strip(ws + s + ws2) == s
  {
    StripPadded(ws, s, ws2);
  }

  /** A leading "```json" is dropped. */
  lemma DropJsonOpening(rest: string)
    ensures DropOpeningFence("```json" + rest) == rest
  {
    var t := "```json" + rest;
    assert t[..7] == "```json";
    assert t[7..] == rest;
  }

  /** A leading bare "```" is dropped when "json" does not follow it. */
  lemma DropBareOpening(body: string)
    requires !StartsWith(body, "json")
    ensures DropOpeningFence("```" + (body + "```")) == body + "```"
  {
    var rest := body + "```";
    var t := "```" + rest;
    assert t[..3] == "```";
    if |body| >= 4 {
      assert t[3..7] == body[..4];
    } else {
      assert t[3 + |body|] == '`';
    }
    assert !StartsWith(t, "```json");
    assert t[3..] == rest;
  }

  /** A trailing "```" is dropped. */
  lemma DropClosingOf(body: string)
    ensures DropClosingFence(body + "```") == body
  {
    var t := body + "```";
    assert t[|t| - 3..] == "```";
    assert t[..|t| - 3] == body;
  }

  /** A text without backticks is only stripped. */
  lemma CleanWithoutBackticks(text: string)
    requires '`' !in text
    ensures CleanJsonOutput(text) == Strip(text)
  {
    var t := Strip(text);
    StripInfix(text);
    InfixLacksChar(t, text, '`');
    if |t| >= 3 {
      assert t[0] != '`' && t[|t| - 1] != '`';
      assert !StartsWith(t, "```") by {
        assert "```"[0] == '`';
      }
      assert !StartsWith(t, "```json") by {
        assert "```json"[0] == '`';
      }
      assert !EndsWith(t, "```") by {
        assert t[|t| - 3..][2] == t[|t| - 1];
      }
    }
    StripIdempotent(text);
  }

  /** The (value, error) pair of this module's parser: the value may be any
      JSON value, not only an object. */
  datatype AnyParse = AnyParse(data: JsonValue, error: string)

  /** safe_json_parse here: clean, decode, and hand back whatever was decoded. */
  function SafeJsonParse(decode: Decoder, text: string): (r: AnyParse)
    ensures r.error == "" <==> decode(CleanJsonOutput(text)).Parsed?
    ensures r.error == "" ==> decode(CleanJsonOutput(text)) == Parsed(r.data)
    ensures r.error != "" ==> r.data == JObject(map[])
  {
    var cleaned := CleanJsonOutput(text);
    match decode(cleaned)
    case Parsed(v) => AnyParse(v, "")
    case SyntaxError(msg, pos) =>
      AnyParse(JObject(map[]), "JSON parsing error: " + DecodeErrorText(cleaned, msg, pos))
    case Crashed(message) => AnyParse(JObject(map[]), "Unexpected error: " + message)
  }

  /** A decoding failure is reported with the "JSON parsing error: " prefix and
      the decoder's message, line, column and position. */
  lemma SyntaxErrorReported(decode: Decoder, text: string)
    requires decode(CleanJsonOutput(text)).SyntaxError?
    ensures StartsWith(SafeJsonParse(decode, text).error, "JSON parsing error: ")
    ensures SafeJsonParse(decode, text).data == JObject(map[])
  {
    var cleaned := CleanJsonOutput(text);
    var e := decode(cleaned);
    var m := "JSON parsing error: ";
    assert SafeJsonParse(decode, text).error == m + DecodeErrorText(cleaned, e.msg, e.pos);
    assert (m + DecodeErrorText(cleaned, e.msg, e.pos))[..|m|] == m;
  }

  /** The two parse wrappers disagree on a top-level value that is not an
      object: for text without backticks or '{', which both cleaners merely
      strip, the utils wrapper rejects it and this one hands it back. */
  lemma NonObjectTopLevelDiverges(decode: Decoder, text: string, v: JsonValue)
    requires '`' !in text && '{' !in text
    requires decode(Strip(text)) == Parsed(v) && !v.JObject?
    ensures JsonUtils.SafeJsonParse(decode, text).error == "Parsed JSON is not a dictionary"
    ensures SafeJsonParse(decode, text) == AnyParse(v, "")
  {
    JsonUtils.NoBacktickNoFence(text);
    JsonUtils.ExtractWithoutFenceOrBraces(text);
    CleanWithoutBackticks(text);
  }

  /** The wrappers also disagree the other way on a list holding one object:
      the utils extractor trims "[{...}]" to its braces, so that wrapper
      returns the inner object, while this one hands back the whole list. */
  lemma ListedObjectDiverges(decode: Decoder, inner: string, o: JsonObject, v: JsonValue)
    requires '`' !in inner
    requires |inner| >= 2 && inner[0] == '{' && inner[|inner| - 1] == '}'
    requires decode(inner) == Parsed(JObject(o))
    requires decode("[" + inner + "]") == Parsed(v)
    ensures JsonUtils.SafeJsonParse(decode, "[" + inner + "]") == JsonUtils.ParseResult(o, "")
    ensures SafeJsonParse(decode, "[" + inner + "]") == AnyParse(v, "")
  {
    ListedObjectCleaned("[" + inner + "]", inner);
  }

  /** What the two cleaners make of "[" + inner + "]". */
  lemma ListedObjectCleaned(t: string, inner: string)
    requires t == "[" + inner + "]"
    requires '`' !in inner
    requires |inner| >= 2 && inner[0] == '{' && inner[|inner| - 1] == '}'
    ensures JsonUtils.ExtractJsonFromText(t) == inner
    ensures CleanJsonOutput(t) == t
  {
    assert forall k :: 1 <= k < |t| - 1 ==> t[k] == inner[k - 1];
    assert '`' !in t;
    ListedObjectExtracted(t, inner);
    CleanWithoutBackticks(t);
    BracketedStripped(t);
  }

  /** Text between '[' and ']' has nothing to strip. */
  lemma BracketedStripped(t: string)
    requires |t| >= 2 && t[0] == '[' && t[|t| - 1] == ']'
    ensures Strip(t) == t
  {
    StripStripped(t);
  }

  /** The utils extractor trims a backtick-free "[" + inner + "]" to inner. */
  lemma ListedObjectExtracted(t: string, inner: string)
    requires |inner| >= 2 && |t| == |inner| + 2
    requires '`' !in t && t[0] == '[' && t[|t| - 1] == ']'
    requires t[1..|inner| + 1] == inner
    requires inner[0] == '{' && inner[|inner| - 1] == '}'
    ensures JsonUtils.ExtractJsonFromText(t) == inner
  {
    JsonUtils.NoBacktickNoFence(t);
    assert t[1] == inner[0] && t[|inner|] == inner[|inner| - 1];
    IndexOfUnique(t, '{', 1);
    LastIndexOfUnique(t, '}', |inner|);
    JsonUtils.ExtractBetweenBraces(t);
  }
}
