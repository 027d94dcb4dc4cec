/** utils/json_utils.py: pulling a JSON object out of model output and parsing
    it without ever raising. */
module JsonUtils {
  import opened Text
  import opened JsonValues

  const JsonFence: string := "```json"
  const Fence: string := "```"

  /** The piece between the opening fence (which ends at `start`) and the next
      "```"; the whole text when that fence is never closed. */
  function CutFence(s: string, start: nat): (r: string)
    requires start <= |s|
    ensures |r| <= |s|
  {
    var end := FindFrom(s, Fence, start);
    if end != -1 then Strip(s[start..end]) else s
  }

  /** The markdown step: the first "```json ... ```" block wins over a bare
      "``` ... ```" block, and only the first block of either kind is used. */
  function StripFence(s: string): (r: string)
    ensures |r| <= |s|
  {
    if Contains(s, JsonFence) then CutFence(s, FindFrom(s, JsonFence, 0) + |JsonFence|)
    else if Contains(s, Fence) then CutFence(s, FindFrom(s, Fence, 0) + |Fence|)
    else s
  }

  /** Python's s[a:b] for 0 <= a, b <= len(s): empty when b comes before a. */
  function Slice(s: string, a: nat, b: nat): (r: string)
    requires a <= |s| && b <= |s|
    ensures |r| <= |s|
  {
    if a <= b then s[a..b] else ""
  }

  /** The object-boundary step: from the first '{' to the last '}', when the
      text holds both characters. */
  function TrimToBraces(s: string): (r: string)
    ensures |r| <= |s|
  {
    if '{' in s && '}' in s then Slice(s, IndexOf(s, '{'), LastIndexOf(s, '}') + 1)
    else s
  }

  /** extract_json_from_text: strip, cut the first fenced block, trim to the
      outer braces, strip again. */
  function ExtractJsonFromText(text: string): (r: string)
    ensures IsStripped(r)
    ensures |r| <= |text|
  {
    Strip(TrimToBraces(StripFence(Strip(text))))
  }

  /** clean_json_output, which simply delegates to the extractor. */
  function CleanJsonOutput(text: string): (r: string)
    ensures r == ExtractJsonFromText(text)
  {
    ExtractJsonFromText(text)
  }

  /** The (dict, error) pair the parse helpers return. */
  datatype ParseResult = ParseResult(data: JsonObject, error: string)

  /** safe_json_parse: extracts, decodes and insists on a top-level object; a
      failure of either kind gives an empty dict and a non-empty message, which
      says which kind of failure it was. */
  function SafeJsonParse(decode: Decoder, text: string): (r: ParseResult)
    ensures r.error == "" <==> decode(ExtractJsonFromText(text)).Parsed? && decode(ExtractJsonFromText(text)).value.JObject?
    ensures r.error == "" ==> decode(ExtractJsonFromText(text)) == Parsed(JObject(r.data))
    ensures r.error != "" ==> r.data == map[]
    ensures decode(ExtractJsonFromText(text)).Parsed? && !decode(ExtractJsonFromText(text)).value.JObject? ==>
      r.error == "Parsed JSON is not a dictionary"
    ensures decode(ExtractJsonFromText(text)).SyntaxError? ==>
      r.error == "JSON parsing error at position " + NatToString(decode(ExtractJsonFromText(text)).pos) + ": " + decode(ExtractJsonFromText(text)).msg
    ensures decode(ExtractJsonFromText(text)).Crashed? ==>
      r.error == "Unexpected error: " + decode(ExtractJsonFromText(text)).message
  {
    var cleaned := ExtractJsonFromText(text);
    match decode(cleaned)
    case Parsed(v) =>
      if v.JObject? then ParseResult(v.fields, "") else ParseResult(map[], "Parsed JSON is not a dictionary")
    case SyntaxError(msg, pos) =>
      ParseResult(map[], "JSON parsing error at position " + NatToString(pos) + ": " + msg)
    case Crashed(message) =>
      ParseResult(map[], "Unexpected error: " + message)
  }

  // ---------------------------------------------------------------------------
  // Properties of the extractor

  lemma CutFenceInfix(s: string, start: nat)
    requires start <= |s|
    ensures IsInfix(CutFence(s, start), s)
  {
    var end := FindFrom(s, Fence, start);
    if end != -1 {
      var inner := s[start..end];
      assert IsInfix(inner, s);
      StripInfix(inner);
      InfixTransitive(Strip(inner), inner, s);
    } else {
      assert s == s[0..|s|];
    }
  }

  lemma StripFenceInfix(s: string)
    ensures IsInfix(StripFence(s), s)
  {
    if Contains(s, JsonFence) {
      CutFenceInfix(s, FindFrom(s, JsonFence, 0) + |JsonFence|);
    } else if Contains(s, Fence) {
      CutFenceInfix(s, FindFrom(s, Fence, 0) + |Fence|);
    } else {
      assert s == s[0..|s|];
    }
  }

  lemma TrimToBracesInfix(s: string)
    ensures IsInfix(TrimToBraces(s), s)
  {
    if '{' in s && '}' in s {
      var a, b := IndexOf(s, '{'), LastIndexOf(s, '}') + 1;
      if a <= b {
        assert IsInfix(s[a..b], s);
      } else {
        assert "" == s[0..0];
      }
    } else {
      assert s == s[0..|s|];
    }
  }

  /** The extracted text is always one contiguous piece of the input. */
  lemma ExtractIsInfix(text: string)
    ensures IsInfix(ExtractJsonFromText(text), text)
  {
    var s := Strip(text);
    var f := StripFence(s);
    var b := TrimToBraces(f);
    StripInfix(text);
    StripFenceInfix(s);
    TrimToBracesInfix(f);
    StripInfix(b);
    InfixTransitive(f, s, text);
    InfixTransitive(b, f, text);
    InfixTransitive(Strip(b), b, text);
  }

  lemma JsonFenceHasFence(s: string)
    requires Contains(s, JsonFence)
    ensures Contains(s, Fence)
  {
    var k := FindFrom(s, JsonFence, 0);
    assert s[k..k + 3] == s[k..k + 7][..3];
    ContainsAt(s, Fence, k);
  }

  /** Without any fence, the fence step changes nothing. */
  lemma NoFenceKept(s: string)
    requires !Contains(s, Fence)
    ensures StripFence(s) == s
  {
    if Contains(s, JsonFence) {
      JsonFenceHasFence(s);
    }
  }

  /** Text with no fence and not both braces comes back merely stripped. */
  lemma ExtractWithoutFenceOrBraces(text: string)
    requires !Contains(text, Fence)
    requires !('{' in text && '}' in text)
    ensures ExtractJsonFromText(text) == Strip(text)
  {
    var s := Strip(text);
    StripInfix(text);
    InfixLacks(s, text, Fence);
    NoFenceKept(s);
    if '{' in s && '}' in s {
      if '{' !in text {
        InfixLacksChar(s, text, '{');
      } else {
        InfixLacksChar(s, text, '}');
      }
    }
    StripIdempotent(text);
  }

  /** Stripping moves the first occurrence of a visible character by the
      number of leading blanks removed. */
  lemma StripShiftsFirst(text: string, c: char)
    requires !IsSpace(c) && c in text
    ensures IndexOf(Strip(text), c) == IndexOf(text, c) - StripStart(text)
  {
    VisibleInsideStrip(text, IndexOf(text, c));
    IndexOfSlice(text, StripStart(text), StripEnd(text), c);
  }

  /** The same for the last occurrence. */
  lemma StripShiftsLast(text: string, c: char)
    requires !IsSpace(c) && c in text
    ensures LastIndexOf(Strip(text), c) == LastIndexOf(text, c) - StripStart(text)
  {
    VisibleInsideStrip(text, LastIndexOf(text, c));
    LastIndexOfSlice(text, StripStart(text), StripEnd(text), c);
  }

  /** The brace step in terms of the two indices it looks up. */
  lemma TrimAt(s: string, i: int, j: int)
    requires IndexOf(s, '{') == i && LastIndexOf(s, '}') == j
    requires 0 <= i && 0 <= j
    ensures TrimToBraces(s) == if i < j then s[i..j + 1] else ""
  {
  }

  /** The brace step on a string s whose first '{' and last '}' sit at i - lo
      and j - lo, when that span of s is text[i..j + 1]. */
  lemma TrimPiece(text: string, s: string, lo: int, i: int, j: int)
    requires 0 <= lo <= i < j
    requires IndexOf(s, '{') == i - lo && LastIndexOf(s, '}') == j - lo
    requires j + 1 <= |text| && s[i - lo..j - lo + 1] == text[i..j + 1]
    ensures TrimToBraces(s) == text[i..j + 1]
  {
    TrimAt(s, i - lo, j - lo);
  }

  /** Both braces survive stripping, shifted by the blanks removed in front. */
  lemma StrippedBraces(text: string)
    requires '{' in text && '}' in text
    ensures var i, j := IndexOf(text, '{'), LastIndexOf(text, '}');
            StripStart(text) <= i < StripEnd(text) && StripStart(text) <= j < StripEnd(text)
    ensures IndexOf(Strip(text), '{') == IndexOf(text, '{') - StripStart(text)
    ensures LastIndexOf(Strip(text), '}') == LastIndexOf(text, '}') - StripStart(text)
  {
    VisibleInsideStrip(text, IndexOf(text, '{'));
    VisibleInsideStrip(text, LastIndexOf(text, '}'));
    StripShiftsFirst(text, '{');
    StripShiftsLast(text, '}');
  }

  /** The brace step on the piece text[lo..hi], whose first '{' and last '}'
      sit at text positions i and j. */
  lemma TrimShifted(text: string, s: string, lo: int, hi: int, i: int, j: int)
    requires 0 <= lo <= i < hi <= |text| && lo <= j < hi && s == text[lo..hi]
    requires IndexOf(s, '{') == i - lo && LastIndexOf(s, '}') == j - lo
    ensures TrimToBraces(s) == if i < j then text[i..j + 1] else ""
  {
    if i < j {
      Reslice(text, s, lo, hi, i - lo, j - lo + 1, i, j + 1);
      TrimPiece(text, s, lo, i, j);
    } else {
      TrimAt(s, i - lo, j - lo);
    }
  }

  /** On stripped text the brace step keeps the first '{' to the last '}' of
      the unstripped text, because stripping moves both by the same amount. */
  lemma TrimStrippedBraces(text: string)
    requires '{' in text && '}' in text
    ensures var i, j := IndexOf(text, '{'), LastIndexOf(text, '}');
            TrimToBraces(Strip(text)) == if i < j then text[i..j + 1] else ""
  {
    StripBounds(text);
    StrippedBraces(text);
    TrimShifted(text, Strip(text), StripStart(text), StripEnd(text), IndexOf(text, '{'), LastIndexOf(text, '}'));
  }

  /** Without any fence the extractor is strip, trim to braces, strip. */
  lemma FenceFreeExtract(text: string)
    requires !Contains(text, Fence)
    ensures ExtractJsonFromText(text) == Strip(TrimToBraces(Strip(text)))
  {
    StripInfix(text);
    InfixLacks(Strip(text), text, Fence);
    NoFenceKept(Strip(text));
  }

  /** A piece that starts with '{' and ends with '}' is already stripped. */
  lemma BracedStripped(text: string, i: int, j: int)
    requires 0 <= i < j < |text| && text[i] == '{' && text[j] == '}'
    ensures Strip(text[i..j + 1]) == text[i..j + 1]
  {
    StripStripped(text[i..j + 1]);
  }

  /** With no fence, the result runs exactly from the first '{' to the last '}';
      when the last '}' comes before the first '{' the slice is empty. */
  lemma ExtractBetweenBraces(text: string)
    requires !Contains(text, Fence)
    requires '{' in text && '}' in text
    ensures var i, j := IndexOf(text, '{'), LastIndexOf(text, '}');
            ExtractJsonFromText(text) == if i < j then text[i..j + 1] else ""
  {
    var x := BraceSpan(text);
    ExtractFromTrim(text, x);
  }

  /** The span the brace step keeps from the stripped text, which is already
      stripped itself. */
  lemma BraceSpan(text: string) returns (x: string)
    requires '{' in text && '}' in text
    ensures var i, j := IndexOf(text, '{'), LastIndexOf(text, '}');
            x == if i < j then text[i..j + 1] else ""
    ensures TrimToBraces(Strip(text)) == x && Strip(x) == x
  {
    var i, j := IndexOf(text, '{'), LastIndexOf(text, '}');
    x := if i < j then text[i..j + 1] else "";
    if i < j {
      BracedStripped(text, i, j);
    } else {
      StripStripped(x);
    }
    TrimStrippedBraces(text);
  }

  /** With no fence, the extractor returns what the brace step keeps when that
      is already stripped. */
  lemma ExtractFromTrim(text: string, x: string)
    requires !Contains(text, Fence)
    requires TrimToBraces(Strip(text)) == x && Strip(x) == x
    ensures ExtractJsonFromText(text) == x
  {
    FenceFreeExtract(text);
  }

  /** A stripped text running from '{' to '}' with no fence is its own extraction. */
  lemma ExtractObjectShaped(r: string)
    requires !Contains(r, Fence)
    requires |r| >= 2 && r[0] == '{' && r[|r| - 1] == '}'
    ensures ExtractJsonFromText(r) == r
  {
    ExtractBetweenBraces(r);
    assert IndexOf(r, '{') == 0;
    assert LastIndexOf(r, '}') == |r| - 1;
    assert r[0..|r|] == r;
  }

  /** A fence-free piece running from '{' to '}' is its own extraction. */
  lemma BracedPieceFixed(text: string, i: int, j: int)
    requires !Contains(text, Fence)
    requires 0 <= i < j < |text| && text[i] == '{' && text[j] == '}'
    ensures ExtractJsonFromText(text[i..j + 1]) == text[i..j + 1]
  {
    var r := text[i..j + 1];
    SliceInfix(text, i, j + 1);
    InfixLacks(r, text, Fence);
    ExtractObjectShaped(r);
  }

  /** Idempotence when both braces occur. */
  lemma ExtractIdempotentBraced(text: string)
    requires !Contains(text, Fence)
    requires '{' in text && '}' in text
    ensures ExtractJsonFromText(ExtractJsonFromText(text)) == ExtractJsonFromText(text)
  {
    if IndexOf(text, '{') < LastIndexOf(text, '}') {
      ExtractIdempotentOrdered(text);
    } else {
      ExtractIdempotentCrossed(text);
    }
  }

  /** When the first '{' comes before the last '}': the result is that span,
      which is its own extraction. */
  lemma ExtractIdempotentOrdered(text: string)
    requires !Contains(text, Fence)
    requires '{' in text && '}' in text
    requires IndexOf(text, '{') < LastIndexOf(text, '}')
    ensures ExtractJsonFromText(ExtractJsonFromText(text)) == ExtractJsonFromText(text)
  {
    var x := OrderedSpan(text);
    FixedPointOf(text, x);
  }

  /** The span from the first '{' to the last '}' is the extraction of the
      text and its own extraction. */
  lemma OrderedSpan(text: string) returns (x: string)
    requires !Contains(text, Fence)
    requires '{' in text && '}' in text
    requires IndexOf(text, '{') < LastIndexOf(text, '}')
    ensures ExtractJsonFromText(text) == x && ExtractJsonFromText(x) == x
  {
    var i, j := IndexOf(text, '{'), LastIndexOf(text, '}');
    SpanIsExtract(text, i, j);
    x := text[i..j + 1];
    BracedPieceFixed(text, i, j);
  }

  lemma SpanIsExtract(text: string, i: int, j: int)
    requires !Contains(text, Fence)
    requires '{' in text && '}' in text
    requires i == IndexOf(text, '{') && j == LastIndexOf(text, '}') && i < j
    ensures 0 <= i < j < |text| && text[i] == '{' && text[j] == '}'
    ensures ExtractJsonFromText(text) == text[i..j + 1]
  {
    ExtractBetweenBraces(text);
  }

  /** When the last '}' comes before the first '{': the result is empty. */
  lemma ExtractIdempotentCrossed(text: string)
    requires !Contains(text, Fence)
    requires '{' in text && '}' in text
    requires IndexOf(text, '{') >= LastIndexOf(text, '}')
    ensures ExtractJsonFromText(ExtractJsonFromText(text)) == ExtractJsonFromText(text)
  {
    ExtractBetweenBraces(text);
    EmptyExtract();
    FixedPointOf(text, "");
  }

  lemma EmptyExtract()
    ensures ExtractJsonFromText("") == ""
  {
    NoBacktickNoFence("");
    ExtractWithoutFenceOrBraces("");
  }

  lemma FixedPointOf(text: string, x: string)
    requires ExtractJsonFromText(text) == x && ExtractJsonFromText(x) == x
    ensures ExtractJsonFromText(ExtractJsonFromText(text)) == ExtractJsonFromText(text)
  {
  }

  /** Idempotence when the text lacks one of the braces. */
  lemma ExtractIdempotentPlain(text: string)
    requires !Contains(text, Fence)
    requires !('{' in text && '}' in text)
    ensures ExtractJsonFromText(ExtractJsonFromText(text)) == ExtractJsonFromText(text)
  {
    ExtractWithoutFenceOrBraces(text);
    var r := Strip(text);
    StripInfix(text);
    InfixLacks(r, text, Fence);
    if '{' !in text {
      InfixLacksChar(r, text, '{');
    } else {
      InfixLacksChar(r, text, '}');
    }
    ExtractWithoutFenceOrBraces(r);
    StripIdempotent(text);
  }

  /** On fence-free text the extractor is idempotent. */
  lemma ExtractIdempotent(text: string)
    requires !Contains(text, Fence)
    ensures ExtractJsonFromText(ExtractJsonFromText(text)) == ExtractJsonFromText(text)
  {
    if '{' in text && '}' in text {
      ExtractIdempotentBraced(text);
    } else {
      ExtractIdempotentPlain(text);
    }
  }

  // ---------------------------------------------------------------------------
  // Fenced blocks

  /** No "```" starts where there is no backtick. */
  lemma NoFenceWithout(s: string, lo: int, hi: int)
    requires forall x :: lo <= x < hi && 0 <= x < |s| ==> s[x] != '`'
    ensures forall k :: lo <= k < hi ==> !IsAt(s, Fence, k)
  {
    forall k | lo <= k < hi
      ensures !IsAt(s, Fence, k)
    {
      if 0 <= k && k + 3 <= |s| {
        assert s[k..k + 3][0] == s[k] != '`';
      }
    }
  }

  /** Text without a backtick holds no fence. */
  lemma NoBacktickNoFence(s: string)
    requires '`' !in s
    ensures !Contains(s, Fence)
  {
    NoFenceWithout(s, 0, |s|);
    FindFromNone(s, Fence, 0);
  }

  /** When the text from `start` is a backtick-free body followed by "```",
      the cut keeps the stripped body. */
  lemma CutClosed(s: string, start: nat, body: string)
    requires start + |body| + 3 <= |s|
    requires s[start..start + |body|] == body && '`' !in body
    requires s[start + |body|..start + |body| + 3] == Fence
    ensures CutFence(s, start) == Strip(body)
  {
    var end := start + |body|;
    assert IsAt(s, Fence, end);
    forall x | start <= x < end && 0 <= x < |s|
      ensures s[x] != '`'
    {
      assert s[x] == body[x - start];
    }
    NoFenceWithout(s, start, end);
    FindFromIs(s, Fence, start, end);
    assert s[start..end] == body;
  }

  /** Where the first "```json" starts, the fence step keeps exactly the stripped
      body up to the next "```": earlier bare fences and later blocks are ignored. */
  lemma JsonFenceCut(s: string, p: string, body: string, q: string)
    requires s == p + JsonFence + body + Fence + q
    requires FindFrom(s, JsonFence, 0) == |p|
    requires '`' !in body
    ensures StripFence(s) == Strip(body)
  {
    var start := |p| + 7;
    assert s[start..start + |body|] == body;
    assert s[start + |body|..start + |body| + 3] == Fence;
    CutClosed(s, start, body);
  }

  /** A "```json" block that is never closed leaves the text as it was. */
  lemma UnclosedFenceKept(s: string, p: string, rest: string)
    requires s == p + JsonFence + rest
    requires FindFrom(s, JsonFence, 0) == |p|
    requires '`' !in rest
    ensures StripFence(s) == s
  {
    var start := |p| + 7;
    forall x | start <= x < |s|
      ensures s[x] != '`'
    {
      assert s[x] == rest[x - start];
    }
    NoFenceWithout(s, start, |s|);
    FindFromNone(s, Fence, start);
  }

  /** A bare "``` ... ```" block, when no "```json" occurs, gives its stripped body. */
  lemma BareFenceCut(s: string, p: string, body: string, q: string)
    requires s == p + Fence + body + Fence + q
    requires !Contains(s, JsonFence)
    requires '`' !in p && '`' !in body
    ensures StripFence(s) == Strip(body)
  {
    forall x | 0 <= x < |p|
      ensures s[x] != '`'
    {
      assert s[x] == p[x];
    }
    NoFenceWithout(s, 0, |p|);
    assert s[|p|..|p| + 3] == Fence;
    FindFromIs(s, Fence, 0, |p|);
    var start := |p| + 3;
    assert s[start..start + |body|] == body;
    assert s[start + |body|..start + |body| + 3] == Fence;
    CutClosed(s, start, body);
  }

  /** The first "```json" of p + "```json" + rest is the one after p when p
      holds none: the fence cannot overlap itself, since every shifted copy
      puts a backtick against one of the letters of "json". */
  lemma FirstJsonFence(p: string, rest: string)
    requires !Contains(p, JsonFence)
    ensures FindFrom(p + JsonFence + rest, JsonFence, 0) == |p|
  {
    var s := p + JsonFence + rest;
    assert s[|p|..|p| + 7] == JsonFence;
    FindFromLeast(p, JsonFence, 0);
    forall k | 0 <= k < |p|
      ensures !IsAt(s, JsonFence, k)
    {
      if k + 7 <= |p| {
        assert !IsAt(p, JsonFence, k);
        assert s[k..k + 7] == p[k..k + 7];
      } else {
        var d := |p| - k;
        var j := if d <= 3 then 3 else d;
        assert s[k + j] == s[|p|..|p| + 7][j - d] == '`';
        assert JsonFence[j] != '`';
        assert s[k..k + 7][j] == s[k + j];
      }
    }
    FindFromIs(s, JsonFence, 0, |p|);
  }

  /** Stripping text in which a fenced block follows p and q follows it keeps
      the block whole, with a tail of p before it and a head of q after it. */
  lemma StripAroundBlock(p: string, body: string, q: string) returns (p2: string, q2: string)
    ensures Strip(p + JsonFence + body + Fence + q) == p2 + JsonFence + body + Fence + q2
    ensures IsInfix(p2, p)
  {
    var text := p + JsonFence + body + Fence + q;
    var mid := JsonFence + body + Fence;
    assert text == p + mid + q;
    var a, b := |p|, |p| + |mid|;
    assert text[a] == '`' && text[b - 1] == '`';
    StripAround(text, a, b);
    var lo, hi := StripStart(text), StripEnd(text);
    SliceAround(p, mid, q, lo, hi);
    p2, q2 := p[lo..], q[..hi - |p| - |mid|];
    SliceInfix(p, lo, |p|);
  }

  /** An object with no backtick and braces at both ends comes through the
      brace step and the final strip unchanged. */
  lemma BracedBodyKept(body: string)
    requires |body| >= 2 && body[0] == '{' && body[|body| - 1] == '}'
    ensures Strip(body) == body && Strip(TrimToBraces(body)) == body
  {
    IndexOfUnique(body, '{', 0);
    LastIndexOfUnique(body, '}', |body| - 1);
    TrimAt(body, 0, |body| - 1);
    assert body[0..|body|] == body;
    StripStripped(body);
  }

  /** The extractor's main case: prose, a "```json" block holding an object,
      and more prose. The object comes back exactly, whatever surrounds the
      block, as long as no "```json" comes before it. */
  lemma ExtractFencedObject(p: string, body: string, q: string)
    requires !Contains(p, JsonFence)
    requires '`' !in body
    requires |body| >= 2 && body[0] == '{' && body[|body| - 1] == '}'
    ensures ExtractJsonFromText(p + JsonFence + body + Fence + q) == body
  {
    var p2, q2 := StripAroundBlock(p, body, q);
    InfixLacks(p2, p, JsonFence);
    var s := p2 + JsonFence + body + Fence + q2;
    assert s == p2 + JsonFence + (body + Fence + q2);
    FirstJsonFence(p2, body + Fence + q2);
    JsonFenceCut(s, p2, body, q2);
    BracedBodyKept(body);
  }
}
