/** agents/mobility/base.py: the section generator every mobility agent
    shares. An agent is two strings fixed at construction; generating a section
    is one chat request to the language model, whose reply is parsed by the
    utils parser. */
module Agents {
  import opened Text
  import opened JsonValues
  import JsonUtils

  /** The two messages of one chat request: the system and the human message. */
  datatype ChatRequest = ChatRequest(system: string, user: string)

  /** What one invocation of the model does: hands back a reply's content, or
      raises an exception with the given str(). */
  datatype LlmOutcome = Reply(content: string) | Raised(message: string)

  /** The language model, left abstract. */
  type Llm = ChatRequest -> LlmOutcome

  /** The rules every agent's system message starts with (one literal per line). */
  const UniversalPrompt: string :=
    "You are a Mobility Catalog Agent contributing one section of a structured mobility measure JSON.\n" +
    "\n" +
    "Follow these global rules:\n" +
    "\n" +
    "1. Output valid JSON only.\n" +
    "2. Only produce the section assigned to you.\n" +
    "3. Match field names and structure EXACTLY as the official schema defines.\n" +
    "4. Keep tone neutral, technical, and concise.\n" +
    "5. Avoid unverifiable claims, statistics, or speculation.\n" +
    "6. If you have no data for a field, return an empty string or empty array as appropriate.\n" +
    "7. Never include explanatory text, comments, or markdown.\n" +
    "\n" +
    "Wait for:\n" +
    "- The mobility measure name\n" +
    "- Any additional context provided\n" +
    "\n" +
    "Then output ONLY your assigned JSON section."

  const MeasurePrefix: string := "Mobility Measure: "
  const ContextHeader: string := "\n\nAdditional Context:\n"

  /** A BaseMobilityAgent: both fields are set by the constructor and never
      reassigned, so the agent is a value. */
  datatype MobilityAgent = MobilityAgent(sectionName: string, schemaPrompt: string)
  {
    /** The system message: the universal rules, a blank line, the section's
        schema. */
    function SystemContent(): string {
      UniversalPrompt + "\n\n" + schemaPrompt
    }

    /** The human message: the measure name, then the context under its own
        header when the context is non-empty. */
    function UserContent(measureName: string, context: string): string {
      if context != "" then MeasurePrefix + measureName + ContextHeader + context
      else MeasurePrefix + measureName
    }

    function Request(measureName: string, context: string): ChatRequest {
      ChatRequest(SystemContent(), UserContent(measureName, context))
    }

    function ParseErrorPrefix(): string {
      "JSON parsing error in " + sectionName + ": "
    }

    function CallErrorPrefix(): string {
      "Error generating " + sectionName + ": "
    }

    /** generate: one model call; the reply is stripped and handed to the utils
        parser. Success gives the parsed dict and ""; any failure gives {} and
        a non-empty message naming the section. */
    function Generate(llm: Llm, decode: Decoder, measureName: string, context: string): (r: Generation)
      ensures r.requests == [Request(measureName, context)]
      ensures r.error == "" <==>
        llm(Request(measureName, context)).Reply? &&
        JsonUtils.SafeJsonParse(decode, Strip(llm(Request(measureName, context)).content)).error == ""
      ensures r.error == "" ==>
        decode(JsonUtils.ExtractJsonFromText(Strip(llm(Request(measureName, context)).content))) == Parsed(JObject(r.data))
      ensures r.error != "" ==> r.data == map[]
    {
      var request := Request(measureName, context);
      match llm(request)
      case Reply(content) =>
        var parsed := JsonUtils.SafeJsonParse(decode, Strip(content));
        if parsed.error != "" then Generation(map[], ParseErrorPrefix() + parsed.error, [request])
        else Generation(parsed.data, "", [request])
      case Raised(message) =>
        Generation(map[], CallErrorPrefix() + message, [request])
    }
  }

  /** What generate returns, (data, error), with the chat requests it sent. */
  datatype Generation = Generation(data: JsonObject, error: string, requests: seq<ChatRequest>)

  /** The schema prompt can be read back from the system message, after the
      universal prompt and the blank line. */
  lemma SystemContentSplits(agent: MobilityAgent)
    ensures StartsWith(agent.SystemContent(), UniversalPrompt + "\n\n")
    ensures agent.SystemContent()[|UniversalPrompt| + 2..] == agent.schemaPrompt
  {
    var s := agent.SystemContent();
    var head := UniversalPrompt + "\n\n";
    assert s == head + agent.schemaPrompt;
    assert s[..|head|] == head;
    assert s[|head|..] == agent.schemaPrompt;
  }

  /** The human message starts with the measure name, and it carries the
      context header exactly when there is a context to add. */
  lemma UserContentShape(agent: MobilityAgent, measureName: string, context: string)
    ensures StartsWith(agent.UserContent(measureName, context), MeasurePrefix + measureName)
    ensures context == "" ==> agent.UserContent(measureName, context) == MeasurePrefix + measureName
    ensures context != "" ==> EndsWith(agent.UserContent(measureName, context), ContextHeader + context)
  {
    var u := agent.UserContent(measureName, context);
    var head := MeasurePrefix + measureName;
    if context != "" {
      assert u == head + (ContextHeader + context);
      assert u[..|head|] == head;
      assert u[|u| - |ContextHeader + context|..] == ContextHeader + context;
    } else {
      assert u[..|head|] == head;
    }
  }

  /** For one measure name, different contexts give different human messages:
      the context can be read back from the request. */
  lemma UserContentInjective(agent: MobilityAgent, measureName: string, c1: string, c2: string)
    requires agent.UserContent(measureName, c1) == agent.UserContent(measureName, c2)
    ensures c1 == c2
  {
    var head := MeasurePrefix + measureName;
    var u := agent.UserContent(measureName, c1);
    if c1 != "" && c2 != "" {
      assert |c1| == |c2|;
      assert c1 == u[|head + ContextHeader|..];
      assert c2 == u[|head + ContextHeader|..];
    }
  }

  /** The error message says which way generation failed: a reply that did not
      parse, or a call that raised. */
  lemma GenerateErrorKinds(agent: MobilityAgent, llm: Llm, decode: Decoder, measureName: string, context: string)
    ensures var r := agent.Generate(llm, decode, measureName, context);
      var outcome := llm(agent.Request(measureName, context));
      (StartsWith(r.error, agent.ParseErrorPrefix()) <==> outcome.Reply? && r.error != "") &&
      (StartsWith(r.error, agent.CallErrorPrefix()) <==> outcome.Raised?)
  {
    var r := agent.Generate(llm, decode, measureName, context);
    var p, q := agent.ParseErrorPrefix(), agent.CallErrorPrefix();
    assert p[0] == 'J' && q[0] == 'E';
    match llm(agent.Request(measureName, context))
    case Reply(content) =>
      if r.error != "" {
        assert r.error[..|p|] == p;
      }
    case Raised(message) =>
      assert r.error[..|q|] == q;
  }

  /** Stripping the reply before the extractor, which strips first anyway,
      changes nothing. */
  lemma StripBeforeExtractHarmless(content: string)
    ensures JsonUtils.ExtractJsonFromText(Strip(content)) == JsonUtils.ExtractJsonFromText(content)
  {
    StripIdempotent(content);
  }

  /** A reply whose extracted text decodes to JSON that is not an object (an
      array or a scalar) is a parse error for the section. */
  lemma NonObjectReplyRejected(agent: MobilityAgent, llm: Llm, decode: Decoder, measureName: string, context: string, v: JsonValue)
    requires llm(agent.Request(measureName, context)).Reply?
    requires decode(JsonUtils.ExtractJsonFromText(Strip(llm(agent.Request(measureName, context)).content))) == Parsed(v)
    requires !v.JObject?
    ensures agent.Generate(llm, decode, measureName, context).error ==
      agent.ParseErrorPrefix() + "Parsed JSON is not a dictionary"
  {
  }
}
