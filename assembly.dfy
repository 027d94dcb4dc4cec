/** agents/mobility/assembly_agent.py: the final node collects the 19
    section outputs from the state, stops at the first problem (a missing
    section, then a failed validation) and otherwise saves the merged
    document under a name derived from the measure. */
module Assembly {
  import opened Text
  import opened JsonValues
  import opened Validators
  import Nodes

  /** The state key the assembler reads a section from: the context section
      lives under "context_data". */
  function KeyFor(name: string): string {
    if name == "context" then "context_data" else name
  }

  /** The section outputs in the workflow state, by state key. */
  type SectionState = map<string, JsonObject>

  /** state.get(key, {}). */
  function Get(state: SectionState, key: string): JsonObject {
    if key in state then state[key] else map[]
  }

  /** The assembler's `sections` dict: all 19 names, each read from its key. */
  function SectionsOf(state: SectionState): (r: map<string, JsonObject>)
    ensures r.Keys == set n | n in SectionNames
  {
    map n | n in SectionNames :: Get(state, KeyFor(n))
  }

  /** The names among `names` whose section is empty, in order. */
  function MissingIn(state: SectionState, names: seq<string>): (r: seq<string>)
    ensures |r| <= |names|
  {
    if |names| == 0 then []
    else
      var last := names[|names| - 1];
      MissingIn(state, names[..|names| - 1]) + (if Get(state, KeyFor(last)) == map[] then [last] else [])
  }

  /** The `missing` list: the falsy sections in the order of the section map. */
  function Missing(state: SectionState): seq<string> {
    MissingIn(state, SectionNames)
  }

  const MissingPrefix: string := "Missing or empty sections: "
  const ValidationPrefix: string := "Validation failed: "
  const OutputDir: string := "research_output"
  const FileSuffix: string := "-mobility-measure.json"

  /** The measure name made safe for the file system: lower-cased, with
      blanks and slashes turned into dashes. */
  function CleanName(measureName: string): string {
    ReplaceChar(ReplaceChar(Lower(measureName), ' ', '-'), '/', '-')
  }

  /** The file name save_mobility_measure writes to. */
  function FileName(measureName: string): string {
    CleanName(measureName) + FileSuffix
  }

  /** What the save step writes: the file and the document. */
  datatype SaveRecord = SaveRecord(path: string, document: JsonObject)

  /** The node's state update, {complete_measure, output_path, errors}, with
      the file write it performed, if any. */
  datatype AssemblyUpdate = AssemblyUpdate(complete: JsonObject, outputPath: string, errors: seq<string>, saved: Option<SaveRecord>)

  /** assembly_agent_node, as a decision: missing sections, then validation,
      then save. `absolute` stands for Path.absolute, which depends on the
      working directory. */
  function Assemble(state: SectionState, measureName: string, absolute: string -> string): (r: AssemblyUpdate)
    ensures |r.errors| <= 1
    ensures r.saved.Some? <==> r.errors == []
    ensures r.errors != [] ==> r.complete == map[] && r.outputPath == ""
    ensures r.saved.Some? ==> r.saved.value == SaveRecord(r.outputPath, r.complete)
    ensures r.errors == [] ==> Missing(state) == [] && SectionErrors(r.complete, SectionNames) == []
    ensures Missing(state) != [] ==> r.errors == [MissingPrefix + Join(Missing(state), ", ")]
    ensures var errs := SectionErrors(Merged(SectionsOf(state)), SectionNames);
      Missing(state) == [] && errs != [] ==> r.errors == [ValidationPrefix + Join(errs, "; ")]
    ensures Missing(state) == [] && SectionErrors(Merged(SectionsOf(state)), SectionNames) == [] ==>
      r.errors == [] && r.complete == Merged(SectionsOf(state)) &&
      r.outputPath == absolute(OutputDir + "/" + FileName(measureName))
  {
    var missing := Missing(state);
    if missing != [] then
      AssemblyUpdate(map[], "", [MissingPrefix + Join(missing, ", ")], None)
    else
      var complete := Merged(SectionsOf(state));
      var validationErrors := SectionErrors(complete, SectionNames);
      if validationErrors != [] then
        AssemblyUpdate(map[], "", [ValidationPrefix + Join(validationErrors, "; ")], None)
      else
        var path := absolute(OutputDir + "/" + FileName(measureName));
        AssemblyUpdate(complete, path, [], Some(SaveRecord(path, complete)))
  }

  /** The node itself, calling the merge and validation routines in turn. */
  method AssemblyAgentNode(state: SectionState, measureName: string, absolute: string -> string) returns (r: AssemblyUpdate)
    ensures r == Assemble(state, measureName, absolute)
  {
    var sections := SectionsOf(state);
    var missing := Missing(state);
    if |missing| > 0 {
      return AssemblyUpdate(map[], "", [MissingPrefix + Join(missing, ", ")], None);
    }
    var complete := MergeSections(sections);
    var isValid, validationErrors := ValidateCompleteMeasure(complete);
    if !isValid {
      return AssemblyUpdate(map[], "", [ValidationPrefix + Join(validationErrors, "; ")], None);
    }
    var outputPath := absolute(OutputDir + "/" + FileName(measureName));
    r := AssemblyUpdate(complete, outputPath, [], Some(SaveRecord(outputPath, complete)));
  }

  // ---------------------------------------------------------------------------
  // Properties

  /** The assembler saves exactly when every section is non-empty and none
      is a dict holding its own name with a falsy value; what it saves is the
      merged document. */
  lemma AssembleSavesExactly(state: SectionState, measureName: string, absolute: string -> string)
    ensures var r := Assemble(state, measureName, absolute);
      r.saved.Some? <==>
        (forall n :: n in SectionNames ==> Get(state, KeyFor(n)) != map[]) &&
        !(exists n :: n in SectionNames && n in Get(state, KeyFor(n)) && !Truthy(Get(state, KeyFor(n))[n]))
    ensures var r := Assemble(state, measureName, absolute);
      r.saved.Some? ==> r.saved.value == SaveRecord(absolute(OutputDir + "/" + FileName(measureName)), Merged(SectionsOf(state)))
  {
    var filled := forall n :: n in SectionNames ==> Get(state, KeyFor(n)) != map[];
    if filled {
      NothingMissing(state, SectionNames);
      ValidationFailsOnlyOnFalsyWrapped(state);
    } else {
      var n :| n in SectionNames && Get(state, KeyFor(n)) == map[];
      MissingExactly(state, SectionNames, n);
    }
  }

  /** A name is reported missing exactly when it is one of the listed names
      and its section is empty. */
  lemma {:induction false} MissingExactly(state: SectionState, names: seq<string>, n: string)
    ensures n in MissingIn(state, names) <==> n in names && Get(state, KeyFor(n)) == map[]
  {
    if |names| > 0 {
      MissingExactly(state, names[..|names| - 1], n);
      MissingStep(state, names, n);
    }
  }

  /** One step of the induction: the last name is either n or leaves n's
      membership as it was. */
  lemma MissingStep(state: SectionState, names: seq<string>, n: string)
    requires |names| > 0
    requires n in MissingIn(state, names[..|names| - 1]) <==>
      n in names[..|names| - 1] && Get(state, KeyFor(n)) == map[]
    ensures n in MissingIn(state, names) <==> n in names && Get(state, KeyFor(n)) == map[]
  {
    var init, last := names[..|names| - 1], names[|names| - 1];
    assert names == init + [last];
    MissingSnoc(state, names);
    if n == last {
      assert n in names;
    } else {
      assert n in names <==> n in init;
    }
  }

  /** MissingIn adds the last name exactly when its section is empty. */
  lemma MissingSnoc(state: SectionState, names: seq<string>)
    requires |names| > 0
    ensures var last := names[|names| - 1];
      MissingIn(state, names) ==
        MissingIn(state, names[..|names| - 1]) + (if Get(state, KeyFor(last)) == map[] then [last] else [])
  {
  }

  /** When nothing is missing, the merge keeps all 19 sections. */
  lemma MergeKeepsAll(state: SectionState)
    requires Missing(state) == []
    ensures Merged(SectionsOf(state)).Keys == set n | n in SectionNames
  {
    forall n | n in SectionNames
      ensures SectionsOf(state)[n] != map[]
    {
      MissingExactly(state, SectionNames, n);
    }
  }

  /** With every section present, validation can fail only because some
      section is a dict holding its own name with a falsy value. */
  lemma ValidationFailsOnlyOnFalsyWrapped(state: SectionState)
    requires Missing(state) == []
    ensures SectionErrors(Merged(SectionsOf(state)), SectionNames) != [] <==>
      exists n :: n in SectionNames && n in Get(state, KeyFor(n)) && !Truthy(Get(state, KeyFor(n))[n])
  {
    var complete := Merged(SectionsOf(state));
    MergeKeepsAll(state);
    NoErrorsIffComplete(complete, SectionNames);
    forall n | n in SectionNames
      ensures Truthy(complete[n]) <==> !(n in Get(state, KeyFor(n)) && !Truthy(Get(state, KeyFor(n))[n]))
    {
      MissingExactly(state, SectionNames, n);
      MergedUnwraps(SectionsOf(state), n);
    }
  }

  /** The file name ends in the fixed suffix and its stem has no blank, no
      slash and no upper-case ASCII letter, one character per character of
      the measure name. */
  lemma FileNameShape(measureName: string)
    ensures EndsWith(FileName(measureName), FileSuffix)
    ensures |FileName(measureName)| == |measureName| + |FileSuffix|
    ensures forall k :: 0 <= k < |measureName| ==>
      var c := FileName(measureName)[k];
      c != ' ' && c != '/' && !('A' <= c <= 'Z')
  {
    var f := FileName(measureName);
    var stem := CleanName(measureName);
    assert f[|f| - |FileSuffix|..] == FileSuffix;
    forall k | 0 <= k < |measureName|
      ensures f[k] != ' ' && f[k] != '/' && !('A' <= f[k] <= 'Z')
    {
      assert f[k] == stem[k];
    }
  }

  /** Cleaning an already clean name changes nothing. */
  lemma CleanNameIdempotent(measureName: string)
    ensures CleanName(CleanName(measureName)) == CleanName(measureName)
  {
    var c := CleanName(measureName);
    forall k | 0 <= k < |c|
      ensures CleanName(c)[k] == c[k]
    {
    }
  }

  /** The assembler reads every section from the key its node writes, in the
      same order as the node table. */
  lemma NodesFeedAssembler()
    ensures |Nodes.NodeTable| == |SectionNames|
    ensures forall i :: 0 <= i < |SectionNames| ==>
      Nodes.NodeTable[i].sectionName == SectionNames[i] &&
      Nodes.NodeTable[i].stateKey == KeyFor(SectionNames[i])
  {
    Nodes.KeysFollowSectionNames();
    assert forall i :: 0 <= i < |SectionNames| ==> Nodes.NodeTable[i].sectionName == SectionNames[i];
  }

  // ---------------------------------------------------------------------------
  // The merge call as written

  /** What the node does as the source calls the merge: passing the dict
      positionally to a function that takes only keyword arguments raises
      TypeError. */
  datatype Outcome = Returned(update: AssemblyUpdate) | RaisedTypeError(message: string)

  const PositionalMergeError: string := "merge_sections() takes 0 positional arguments but 1 was given"

  function AssembleAsWritten(state: SectionState, measureName: string, absolute: string -> string): (r: Outcome)
    ensures Missing(state) != [] ==> r == Returned(Assemble(state, measureName, absolute))
  {
    var missing := Missing(state);
    if missing != [] then Returned(AssemblyUpdate(map[], "", [MissingPrefix + Join(missing, ", ")], None))
    else RaisedTypeError(PositionalMergeError)
  }

  /** As written, the node never reaches the save: every run either reports
      missing sections or raises. */
  lemma AsWrittenNeverSaves(state: SectionState, measureName: string, absolute: string -> string)
    ensures AssembleAsWritten(state, measureName, absolute).Returned? ==>
      AssembleAsWritten(state, measureName, absolute).update.saved == None
    ensures Missing(state) == [] ==> AssembleAsWritten(state, measureName, absolute).RaisedTypeError?
  {
  }

  /** Nothing is missing when every listed section is non-empty. */
  lemma {:induction false} NothingMissing(state: SectionState, names: seq<string>)
    requires forall n :: n in names ==> Get(state, KeyFor(n)) != map[]
    ensures MissingIn(state, names) == []
  {
    if |names| > 0 {
      NothingMissing(state, names[..|names| - 1]);
      assert names[|names| - 1] in names;
    }
  }

  const Filled: JsonObject := map["value" := JBool(true)]

  /** A state in which every node has written a small non-empty dict. */
  function FullState(): SectionState {
    map n | n in SectionNames :: KeyFor(n) := Filled
  }

  lemma FullStateFilled(n: string)
    requires n in SectionNames
    ensures Get(FullState(), KeyFor(n)) == Filled
  {
    assert KeyFor(n) in FullState();
  }

  lemma FullStateNothingMissing()
    ensures Missing(FullState()) == []
  {
    assert "value" in Filled;
    forall n | n in SectionNames
      ensures Get(FullState(), KeyFor(n)) != map[]
    {
      FullStateFilled(n);
    }
    NothingMissing(FullState(), SectionNames);
  }

  lemma FullStateMergedTruthy(n: string)
    requires n in SectionNames
    ensures n in Merged(SectionsOf(FullState()))
    ensures Truthy(Merged(SectionsOf(FullState()))[n])
  {
    FullStateFilled(n);
    var sections := SectionsOf(FullState());
    assert sections[n] == Filled;
    assert "value" in Filled;
    MergedUnwraps(sections, n);
    if n in Filled {
      assert Filled[n] == JBool(true);
    }
  }

  lemma FullStateValid()
    ensures Missing(FullState()) == []
    ensures SectionErrors(Merged(SectionsOf(FullState())), SectionNames) == []
  {
    FullStateNothingMissing();
    forall n | n in SectionNames
      ensures n in Merged(SectionsOf(FullState())) && Truthy(Merged(SectionsOf(FullState()))[n])
    {
      FullStateMergedTruthy(n);
    }
    NoErrorsIffComplete(Merged(SectionsOf(FullState())), SectionNames);
  }

  /** On the full state the intended node validates and saves, while the node
      as written raises TypeError at the merge. */
  lemma PositionalMergeCounterexample(measureName: string, absolute: string -> string)
    ensures Assemble(FullState(), measureName, absolute).errors == []
    ensures Assemble(FullState(), measureName, absolute).saved.Some?
    ensures AssembleAsWritten(FullState(), measureName, absolute) == RaisedTypeError(PositionalMergeError)
  {
    FullStateValid();
  }
}
