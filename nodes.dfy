/** The LangGraph node wrappers of agents/mobility/all_agents.py,
    meta_agent.py, overview_agent.py and context_agent.py: each builds its
    agent, runs one generation on the measure in the state and turns the
    (data, error) pair into a two-key state update. */
module Nodes {
  import opened JsonValues
  import opened Agents

  /** How a node builds its update. The three hand-written nodes (meta,
      overview, context) put {} under their key on error; the sixteen nodes of
      all_agents.py pass generate's data through in both cases. */
  datatype NodeStyle = EmptyOnError | PassThrough

  /** One node: the agent's section name and the state key its node writes. */
  datatype NodeEntry = NodeEntry(sectionName: string, stateKey: string, style: NodeStyle)

  /** The 19 nodes. Only the context node writes under a key that differs from
      its section name. */
  const NodeTable: seq<NodeEntry> := [
    NodeEntry("meta", "meta", EmptyOnError),
    NodeEntry("overview", "overview", EmptyOnError),
    NodeEntry("context", "context_data", EmptyOnError),
    NodeEntry("evidence", "evidence", PassThrough),
    NodeEntry("impact", "impact", PassThrough),
    NodeEntry("requirements", "requirements", PassThrough),
    NodeEntry("infrastructure", "infrastructure", PassThrough),
    NodeEntry("operations", "operations", PassThrough),
    NodeEntry("costs", "costs", PassThrough),
    NodeEntry("risks", "risks", PassThrough),
    NodeEntry("monitoring", "monitoring", PassThrough),
    NodeEntry("checklist", "checklist", PassThrough),
    NodeEntry("lifecycle", "lifecycle", PassThrough),
    NodeEntry("roles", "roles", PassThrough),
    NodeEntry("financial", "financial", PassThrough),
    NodeEntry("compliance", "compliance", PassThrough),
    NodeEntry("visibility", "visibility", PassThrough),
    NodeEntry("selection", "selection", PassThrough),
    NodeEntry("scalability", "scalability", PassThrough)
  ]

  /** The part of the workflow state a node reads: the measure name, which is
      always set, and the optional free-text context. */
  datatype MeasureState = MeasureState(measureName: string, context: Option<string>)

  /** state.get("context", ""). */
  function ContextOf(state: MeasureState): string {
    if state.context.Some? then state.context.value else ""
  }

  /** A node's return value, {stateKey: section, "errors": errors}. */
  datatype NodeUpdate = NodeUpdate(stateKey: string, section: JsonObject, errors: seq<string>)
  {
    function Keys(): set<string> {
      {stateKey, "errors"}
    }
  }

  /** A node: builds the agent (the schema prompt is its own constant, a
      parameter here), generates, and wraps the pair. */
  function RunNode(entry: NodeEntry, schemaPrompt: string, llm: Llm, decode: Decoder, state: MeasureState): (r: NodeUpdate)
    ensures var g := MobilityAgent(entry.sectionName, schemaPrompt).Generate(llm, decode, state.measureName, ContextOf(state));
      r.stateKey == entry.stateKey &&
      (r.errors == [] <==> g.error == "") &&
      (g.error != "" ==> r.errors == [g.error] && r.section == map[]) &&
      (g.error == "" ==> r.section == g.data)
  {
    var g := MobilityAgent(entry.sectionName, schemaPrompt).Generate(llm, decode, state.measureName, ContextOf(state));
    match entry.style
    case EmptyOnError =>
      if g.error != "" then NodeUpdate(entry.stateKey, map[], [g.error])
      else NodeUpdate(entry.stateKey, g.data, [])
    case PassThrough =>
      if g.error != "" then NodeUpdate(entry.stateKey, g.data, [g.error])
      else NodeUpdate(entry.stateKey, g.data, [])
  }

  /** The two styles of node give the same update, because generate already
      returns {} whenever it reports an error. */
  lemma StylesAgree(entry: NodeEntry, schemaPrompt: string, llm: Llm, decode: Decoder, state: MeasureState)
    ensures RunNode(entry, schemaPrompt, llm, decode, state) ==
      RunNode(entry.(style := PassThrough), schemaPrompt, llm, decode, state)
  {
    var g := MobilityAgent(entry.sectionName, schemaPrompt).Generate(llm, decode, state.measureName, ContextOf(state));
    assert g.error != "" ==> g.data == map[];
  }

  /** An absent context behaves exactly like an empty one. */
  lemma MissingContextIsEmpty(entry: NodeEntry, schemaPrompt: string, llm: Llm, decode: Decoder, name: string)
    ensures RunNode(entry, schemaPrompt, llm, decode, MeasureState(name, None)) ==
      RunNode(entry, schemaPrompt, llm, decode, MeasureState(name, Some("")))
  {
    assert ContextOf(MeasureState(name, None)) == ContextOf(MeasureState(name, Some("")));
  }

  /** The keys the nodes write are pairwise distinct and never "errors", so
      every update has exactly two keys. */
  lemma StateKeysDistinct()
    ensures forall i, j :: 0 <= i < j < |NodeTable| ==> NodeTable[i].stateKey != NodeTable[j].stateKey
    ensures forall i :: 0 <= i < |NodeTable| ==> NodeTable[i].stateKey != "errors"
  {
  }

  /** Every update of a table node has exactly its own key and "errors". */
  lemma UpdateHasTwoKeys(i: nat, schemaPrompt: string, llm: Llm, decode: Decoder, state: MeasureState)
    requires i < |NodeTable|
    ensures var r := RunNode(NodeTable[i], schemaPrompt, llm, decode, state);
      r.Keys() == {NodeTable[i].stateKey, "errors"} && |r.Keys()| == 2
  {
    StateKeysDistinct();
  }

  /** Each agent writes under its own section name, except the context agent,
      which writes "context_data" so as not to overwrite the "context" input. */
  lemma KeysFollowSectionNames()
    ensures forall i :: 0 <= i < |NodeTable| && i != 2 ==> NodeTable[i].stateKey == NodeTable[i].sectionName
    ensures NodeTable[2].sectionName == "context" && NodeTable[2].stateKey == "context_data"
    ensures forall i :: 0 <= i < |NodeTable| ==> NodeTable[i].stateKey != "context"
  {
  }
}
