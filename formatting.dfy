/** utils/formatting.py: the research agent's output record, its required
    fields and the object it is printed from. */
module Formatting {
  import opened JsonValues

  /** The required fields, in the order they are checked. */
  const RequiredFields: seq<string> := ["query", "summary", "key_points", "sources_consulted"]

  /** The type each field must have: query and summary are str, key_points
      and sources_consulted are list. */
  predicate HasFieldType(field: string, v: JsonValue) {
    if field == "query" || field == "summary" then v.JString?
    else if field == "key_points" || field == "sources_consulted" then v.JArray?
    else true
  }

  /** The loop of validate_research_output over `fields`, returning False at
      the first missing or mistyped field. */
  function ValidateFields(state: JsonObject, fields: seq<string>): (r: bool)
    ensures r ==> forall k :: 0 <= k < |fields| ==> fields[k] in state
  {
    if |fields| == 0 then true
    else if fields[0] !in state then false
    else if !HasFieldType(fields[0], state[fields[0]]) then false
    else ValidateFields(state, fields[1..])
  }

  /** validate_research_output. */
  function ValidateResearchOutput(state: JsonObject): bool {
    ValidateFields(state, RequiredFields)
  }

  /** The record the research agent is expected to hold. */
  predicate WellFormed(state: JsonObject) {
    "query" in state && state["query"].JString? &&
    "summary" in state && state["summary"].JString? &&
    "key_points" in state && state["key_points"].JArray? &&
    "sources_consulted" in state && state["sources_consulted"].JArray?
  }

  /** dict.get(key, default). */
  function GetOr(state: JsonObject, key: string, default: JsonValue): (r: JsonValue)
    ensures key in state ==> r == state[key]
    ensures key !in state ==> r == default
  {
    if key in state then state[key] else default
  }

  /** The dict format_research_output serialises: the four fields, missing
      ones defaulting to "" or []. */
  function ResearchOutput(state: JsonObject): (r: JsonObject)
    ensures r.Keys == {"query", "summary", "key_points", "sources_consulted"}
  {
    map[
      "query" := GetOr(state, "query", JString("")),
      "summary" := GetOr(state, "summary", JString("")),
      "key_points" := GetOr(state, "key_points", JArray([])),
      "sources_consulted" := GetOr(state, "sources_consulted", JArray([]))]
  }

  // ---------------------------------------------------------------------------
  // Properties

  /** The loop finds every field present with its type exactly when all of
      them are. */
  lemma {:induction false} ValidateFieldsAll(state: JsonObject, fields: seq<string>)
    ensures ValidateFields(state, fields) <==>
      forall k :: 0 <= k < |fields| ==> fields[k] in state && HasFieldType(fields[k], state[fields[k]])
  {
    if |fields| > 0 {
      ValidateFieldsAll(state, fields[1..]);
      assert forall k :: 1 <= k < |fields| ==> fields[k] == fields[1..][k - 1];
    }
  }

  /** validate_research_output holds exactly for well-formed records. */
  lemma ValidateIffWellFormed(state: JsonObject)
    ensures ValidateResearchOutput(state) <==> WellFormed(state)
  {
    ValidateFieldsAll(state, RequiredFields);
    if WellFormed(state) {
      forall k | 0 <= k < 4
        ensures RequiredFields[k] in state && HasFieldType(RequiredFields[k], state[RequiredFields[k]])
      {
      }
    } else {
      assert !(forall k :: 0 <= k < 4 ==> RequiredFields[k] in state && HasFieldType(RequiredFields[k], state[RequiredFields[k]])) by {
        if !("query" in state && state["query"].JString?) {
          assert RequiredFields[0] == "query";
        } else if !("summary" in state && state["summary"].JString?) {
          assert RequiredFields[1] == "summary";
        } else if !("key_points" in state && state["key_points"].JArray?) {
          assert RequiredFields[2] == "key_points";
        } else {
          assert RequiredFields[3] == "sources_consulted";
        }
      }
    }
  }

  /** Keys other than the four are never looked at. */
  lemma ExtraKeysIgnored(state: JsonObject, key: string, v: JsonValue)
    requires key !in RequiredFields
    ensures ValidateResearchOutput(state[key := v]) == ValidateResearchOutput(state)
  {
    ValidateIffWellFormed(state);
    ValidateIffWellFormed(state[key := v]);
  }

  /** The formatted object keeps the fields that are there and fills in the
      others. */
  lemma ResearchOutputFields(state: JsonObject)
    ensures forall f :: f in RequiredFields && f in state ==> ResearchOutput(state)[f] == state[f]
    ensures "query" !in state ==> ResearchOutput(state)["query"] == JString("")
    ensures "summary" !in state ==> ResearchOutput(state)["summary"] == JString("")
    ensures "key_points" !in state ==> ResearchOutput(state)["key_points"] == JArray([])
    ensures "sources_consulted" !in state ==> ResearchOutput(state)["sources_consulted"] == JArray([])
  {
  }

  /** Formatting an already formatted object changes nothing. */
  lemma ResearchOutputIdempotent(state: JsonObject)
    ensures ResearchOutput(ResearchOutput(state)) == ResearchOutput(state)
  {
  }

  /** The formatted object passes validation exactly when every required
      field the state has is of the right type; a well-formed state is
      formatted to its four fields. */
  lemma ResearchOutputValid(state: JsonObject)
    ensures ValidateResearchOutput(ResearchOutput(state)) <==>
      forall f :: f in RequiredFields && f in state ==> HasFieldType(f, state[f])
    ensures WellFormed(state) ==> ResearchOutput(state) == map f | f in state && f in RequiredFields :: state[f]
  {
    var out := ResearchOutput(state);
    ValidateIffWellFormed(out);
    if forall f :: f in RequiredFields && f in state ==> HasFieldType(f, state[f]) {
      assert WellFormed(out) by {
        assert "query" in RequiredFields && "summary" in RequiredFields;
        assert "key_points" in RequiredFields && "sources_consulted" in RequiredFields;
      }
    } else {
      var f :| f in RequiredFields && f in state && !HasFieldType(f, state[f]);
      assert out[f] == state[f];
    }
  }
}
