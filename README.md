# Mobility catalog: the deterministic core, in Dafny

The mobility catalog asks a language model for the 19 sections of a structured
description of an urban-mobility measure, one agent per section. It parses each
reply as JSON, checks that every section is there, merges the sections into one
document and saves it under a name derived from the measure. This project models
the deterministic code around the model calls and proves properties of it:

- **Extracting and parsing JSON from model output** (`text.dfy`, `json_values.dfy`,
  `json_utils.dfy`):
  - Python's `strip`, `find`, `rfind`, `lower` and `replace` on strings.
  - The extractor: strip, cut out the first fenced block, trim to the outer braces, strip again.
  - The parse wrapper, which never raises.
- **Validation and merging** (`validators.dfy`):
  - Per-section and whole-document validation.
  - The wrap/unwrap merge of section outputs.
  - The module's own, simpler cleaner and parse wrapper, which accepts JSON that is not an object.
- **The section generator** (`agents.dfy`): an agent is its section name and schema
  prompt. Generating is one chat request to the model. Its `(data, error)` result
  is either the parsed object and `""`, or `{}` and a message that names the section.
- **The 19 graph nodes** (`nodes.dfy`): each turns the generator's pair into a
  two-key state update. The context node writes `context_data`.
- **The assembler** (`assembly.dfy`), a strict decision chain:
  - Any missing section ends the run with one error.
  - Then any validation error ends it with one error.
  - Otherwise the merged document is saved under `research_output/<clean-name>-mobility-measure.json`.
- **The JSON repair agent** (`fixer.dfy`): a loop of at most four model calls.
  - Parse failures and other errors end the loop at once.
  - Rate limits are retried after a wait, taken from a `try again in <n><s|m>` hint
    or else 2·2^attempt seconds. The wait is capped at 15 s, and half a second is
    added before the sleep.
- **Small helpers**:
  - Unsplash image URLs (`image_search.dfy`).
  - The research output record (`formatting.dfy`).
  - The settings key check and the boolean flags (`settings.dfy`).

How the outside world is represented:

- The language model is a parameter:
  - a function from chat request to outcome for the generator;
  - a sequence of outcomes, one per call, for the repair loop.
- `json.loads` is an opaque `Decoder` parameter. It returns a value, a syntax error
  with message and position, or another exception.
- Each sleep is recorded as its duration, an exact `real`.
- Path absolutisation is a function parameter.
- A "raises" is a constructor of a result datatype.

## Notes on the code's behaviour

- The section generator makes exactly one model call. It has no retry, no fallback
  model and no random pre-request delay.
- The assembler fails on any missing or invalid section. It writes no partial
  document and no `_metadata` block, and computes no completion percentage.
- The extractor applies the fence step *and then* the brace step. It does not apply
  one or the other.

## Model

| member | source | states |
|---|---|---|
| Text.Strip | utils/json_utils.py:17 | the result has no leading or trailing whitespace and is no longer than the input |
| Text.StripInfix | utils/json_utils.py:17 | `strip` returns a contiguous piece of its input |
| Text.StripIdempotent | utils/json_utils.py:39 | stripping twice is stripping once |
| Text.StripPadded | utils/json_utils.py:17 | `strip` of a non-empty stripped text between runs of whitespace gives back that text |
| Text.FindFrom | utils/json_utils.py:22-23 | `find` returns -1 or an index at or after `start` where the pattern occurs |
| Text.FindFromLeast | utils/json_utils.py:22-23 | no occurrence lies between `start` and the index `find` returns, and none at all when it returns -1 |
| Text.IndexOf | utils/json_utils.py:35 | `find` of a character is -1 exactly when the character is absent, and otherwise an index holding it |
| Text.IndexOfFirst | utils/json_utils.py:35 | no earlier index holds the character |
| Text.LastIndexOf | utils/json_utils.py:36 | `rfind` is -1 exactly when the character is absent, and otherwise an index holding it |
| Text.LastIndexOfLast | utils/json_utils.py:36 | no later index holds the character |
| Text.Lower | config/settings.py:19 | lower-casing keeps the length and maps each character on its own |
| Text.ReplaceChar | agents/mobility/assembly_agent.py:120 | replace changes exactly the occurrences of the old character |
| Text.NatToString | utils/image_search.py:37 | `str(i)` is a non-empty run of decimal digits |
| JsonValues.DecodeErrorText | schemas/validators.py:132-133 | the text of a decode error starts with the decoder's message and goes on past it (line, column and position follow) |
| JsonUtils.ExtractJsonFromText | utils/json_utils.py:7-39 | the extracted text is stripped and never longer than the input |
| JsonUtils.FirstJsonFence | utils/json_utils.py:20-22 | `find("```json")` lands on the first fence when the text before it has none |
| JsonUtils.ExtractFencedObject | utils/json_utils.py:17-39 | prose, then "```json", a backtick-free object, "```" and more prose gives back exactly the object |
| JsonUtils.ExtractIsInfix | utils/json_utils.py:17-39 | the extracted text is one contiguous piece of the input |
| JsonUtils.ExtractWithoutFenceOrBraces | utils/json_utils.py:34-39 | with no fence and not both braces, the result is the stripped input |
| JsonUtils.ExtractBetweenBraces | utils/json_utils.py:34-37 | with no fence, the result runs from the first `{` to the last `}`, or is empty when the last `}` precedes the first `{` |
| JsonUtils.FenceFreeExtract | utils/json_utils.py:17-39 | with no fence, the extractor is strip, trim to braces, strip |
| JsonUtils.TrimStrippedBraces | utils/json_utils.py:34-37 | the brace step on the stripped text finds the same span as on the unstripped text |
| JsonUtils.NoFenceKept | utils/json_utils.py:20-31 | without any fence, the fence step changes nothing |
| JsonUtils.CutClosed | utils/json_utils.py:23-25 | a fence closed after a backtick-free body yields the stripped body |
| JsonUtils.JsonFenceCut | utils/json_utils.py:20-25 | a "```json" block wins: its stripped body is kept, and earlier bare fences and later blocks are ignored |
| JsonUtils.UnclosedFenceKept | utils/json_utils.py:20-25 | a "```json" block that is never closed leaves the text unchanged |
| JsonUtils.BareFenceCut | utils/json_utils.py:26-31 | with no "```json", the first bare block's stripped body is kept |
| JsonUtils.ExtractObjectShaped | utils/json_utils.py:17-39 | a fence-free text that starts with `{` and ends with `}` is its own extraction |
| JsonUtils.ExtractIdempotent | utils/json_utils.py:17-39 | on fence-free input, extracting twice is extracting once |
| JsonUtils.CleanJsonOutput | utils/json_utils.py:67-77 | clean_json_output delegates to the extractor unchanged |
| JsonUtils.SafeJsonParse | utils/json_utils.py:42-64 | no error exactly when the extracted text decodes to an object, whose fields are then returned; on any error the dict is empty, and the message is "Parsed JSON is not a dictionary" for any other decoded value, "JSON parsing error at position " + the position + ": " + the decoder's msg for a syntax error, and "Unexpected error: " + the exception text otherwise |
| JsonUtils.NoBacktickNoFence | utils/json_utils.py:20-31 | text without a backtick holds no fence |
| Validators.ValidateSection | schemas/validators.py:8-32 | valid exactly when errors are empty, exactly for a non-empty dict; one "is empty" or "must be a dictionary" message otherwise |
| Validators.SectionErrors | schemas/validators.py:55-60 | at most one message per checked section |
| Validators.ValidateCompleteMeasure | schemas/validators.py:35-62 | the loop builds the in-order error list; valid exactly when all 19 sections are present and truthy |
| Validators.NoErrorsIffComplete | schemas/validators.py:55-62 | the error list is empty exactly when every listed section is present and truthy |
| Validators.ExtraKeysIgnored | schemas/validators.py:55-60 | keys outside the required list never change the errors |
| Validators.MessagesDistinct | schemas/validators.py:58-60 | "Missing ..." and "Section ... is empty" messages never coincide, and each names one section |
| Validators.MissingReported | schemas/validators.py:57-58 | "Missing required section: X" is reported exactly when X is required and absent |
| Validators.EmptyReported | schemas/validators.py:59-60 | "Section 'X' is empty" is reported exactly when X is required, present and falsy |
| Validators.ErrorsAreReports | schemas/validators.py:55-60 | every message is one of the two kinds, naming a required section |
| Validators.Merged | schemas/validators.py:65-87 | the merged keys are exactly the sections with non-empty data |
| Validators.MergeSections | schemas/validators.py:71-87 | the loop yields the merge: non-empty sections only, each unwrapped, whatever the iteration order |
| Validators.MergedUnwraps | schemas/validators.py:78-85 | a section holding its own name is stored as that value, and any other as the whole dict |
| Validators.DropOpeningFence | schemas/validators.py:105-108 | a leading "```json" loses its 7 characters, else a leading "```" its 3, else the text is unchanged |
| Validators.DropClosingFence | schemas/validators.py:110-111 | a trailing "```" loses its 3 characters, else the text is unchanged |
| Validators.CleanJsonOutput | schemas/validators.py:90-115 | the cleaned text is stripped and never longer than the input |
| Validators.CleanIsInfix | schemas/validators.py:103-115 | the cleaned text is one contiguous piece of the input |
| Validators.CleanJsonFenced | schemas/validators.py:103-115 | a "```json ... ```" wrapper between whitespace is removed and the body stripped |
| Validators.CleanBareFenced | schemas/validators.py:103-115 | a bare "```...```" wrapper between whitespace, whose body does not start with "json", is removed and the body stripped |
| Validators.CleanWithoutBackticks | schemas/validators.py:103-115 | text without backticks is only stripped |
| Validators.SafeJsonParse | schemas/validators.py:118-135 | no error exactly when the cleaned text decodes; any decoded value is returned, object or not; on error the data is {} |
| Validators.SyntaxErrorReported | schemas/validators.py:132-133 | a decode failure gives {} and a "JSON parsing error: " message |
| Validators.NonObjectTopLevelDiverges | schemas/validators.py:128-131 | for text without backticks or '{' that decodes to a non-object value, this wrapper returns the value while the utils wrapper rejects it with "Parsed JSON is not a dictionary" |
| Validators.ListedObjectDiverges | utils/json_utils.py:34-59 | for a list "[" + o + "]" around a backtick-free object o, the utils wrapper returns o's fields with no error while this wrapper returns the whole list |
| Agents.MobilityAgent.Generate | agents/mobility/base.py:51-99 | one request; no error exactly when the reply parses to an object; the parsed fields on success, {} on any error |
| Agents.SystemContentSplits | agents/mobility/base.py:67 | the system message is the universal prompt, a blank line, then the schema prompt, which can be read back |
| Agents.UserContentShape | agents/mobility/base.py:70-72 | the human message starts with "Mobility Measure: " and the name, and ends with the context header and the context exactly when the context is non-empty |
| Agents.UserContentInjective | agents/mobility/base.py:70-72 | for one measure name, different contexts give different human messages |
| Agents.GenerateErrorKinds | agents/mobility/base.py:89-99 | "JSON parsing error in ..." exactly for a reply that fails to parse, "Error generating ..." exactly for a raised call |
| Agents.StripBeforeExtractHarmless | agents/mobility/base.py:82-87 | stripping the reply before the extractor changes nothing |
| Agents.NonObjectReplyRejected | agents/mobility/base.py:82-91 | a reply whose extracted text decodes to a non-object is a parse error for the section, with the message "Parsed JSON is not a dictionary" |
| Nodes.RunNode | agents/mobility/all_agents.py:40-43 | the update is under the node's key ("context_data" for the context node); errors are [] exactly when generate succeeds, else [error] with {}; the meta, overview and context nodes in their own files give the same update |
| Nodes.StylesAgree | agents/mobility/all_agents.py:42-43 | passing generate's data through on error equals writing {}, since generate returns {} then |
| Nodes.MissingContextIsEmpty | agents/mobility/all_agents.py:42 | an absent context behaves exactly like "" |
| Nodes.StateKeysDistinct | agents/mobility/all_agents.py:36-563 | the 19 state keys are pairwise distinct and none is "errors" |
| Nodes.UpdateHasTwoKeys | agents/mobility/all_agents.py:43 | every node update has two distinct keys, its own and "errors", which never collide |
| Nodes.KeysFollowSectionNames | agents/mobility/context_agent.py:28-40 | every node writes under its section name except the context node, which writes "context_data"; no node writes "context" |
| Assembly.SectionsOf | agents/mobility/assembly_agent.py:35-55 | the section map has exactly the 19 names |
| Assembly.NodesFeedAssembler | agents/mobility/assembly_agent.py:35-55 | the assembler reads each section from the key its node writes, in table order |
| Assembly.MissingIn | agents/mobility/assembly_agent.py:58 | at most one entry per checked name |
| Assembly.MissingExactly | agents/mobility/assembly_agent.py:58 | a name is listed missing exactly when it is one of the names and its section is empty |
| Assembly.NothingMissing | agents/mobility/assembly_agent.py:58 | nothing is missing when every section is non-empty |
| Assembly.Assemble | agents/mobility/assembly_agent.py:57-100 | missing sections give the one error "Missing or empty sections: " + their names joined by ", "; otherwise validation errors give the one error "Validation failed: " + the errors joined by "; "; otherwise no error, the merged sections as the document and the absolute output path of the clean file name; {} and "" on error; the save happens exactly on success |
| Assembly.AssembleSavesExactly | agents/mobility/assembly_agent.py:57-100 | the document is saved exactly when every section is non-empty and none holds its own name with a falsy value, and then the merged sections go to the absolute output path |
| Assembly.AssemblyAgentNode | agents/mobility/assembly_agent.py:17-100 | the node, calling the merge and validation loops, gives the decision chain's update, with its missing-section and validation messages and its success case |
| Assembly.MergeKeepsAll | agents/mobility/assembly_agent.py:58-72 | with nothing missing, the merge keeps all 19 sections |
| Assembly.ValidationFailsOnlyOnFalsyWrapped | agents/mobility/assembly_agent.py:58-77 | with nothing missing, validation fails exactly when some section is a dict holding its own name with a falsy value |
| Assembly.FileNameShape | agents/mobility/assembly_agent.py:120-121 | the file name ends in "-mobility-measure.json", and its stem has one character per name character, with no blank, slash or upper-case ASCII letter |
| Assembly.CleanNameIdempotent | agents/mobility/assembly_agent.py:120 | cleaning a clean name changes nothing |
| Assembly.AssembleAsWritten | agents/mobility/assembly_agent.py:72 | as written, the node equals the decision chain whenever a section is missing |
| Assembly.AsWrittenNeverSaves | agents/mobility/assembly_agent.py:72-100 | as written, the node never saves: with nothing missing, the positional merge call raises TypeError |
| Assembly.FullStateValid | agents/mobility/assembly_agent.py:58-77 | a state with every section filled passes both checks |
| Assembly.PositionalMergeCounterexample | agents/mobility/assembly_agent.py:72 | on a fully filled state, the intended chain saves while the code as written raises TypeError |
| JsonFixer.FixJson | agents/mobility/json_fixer.py:33-116 | the outcome, sleeps and requests are those of the run over the model's outcomes, with the fix request |
| JsonFixer.RetryLoop | agents/mobility/json_fixer.py:69-116 | the `for attempt` loop yields exactly the specified run |
| JsonFixer.Attempt | agents/mobility/json_fixer.py:70-116 | a rate limit with attempts left retries after the wait WaitTime reads, or raises its ValueError; any other error, or a rate limit on the last attempt, returns {} and "Error during JSON repair: " + the message; no error exactly when the reply parses to an object; {} with any error |
| JsonFixer.WaitTime | agents/mobility/json_fixer.py:98-107 | any wait is between 0 and 15 seconds |
| JsonFixer.NumberEnd | agents/mobility/json_fixer.py:99 | the run of `[\d.]` characters ends at a non-number character or the end |
| JsonFixer.HintFrom | agents/mobility/json_fixer.py:99 | `re.search` gives -1 or a position where the hint pattern matches |
| JsonFixer.HintFromLeast | agents/mobility/json_fixer.py:99 | `re.search` finds the first match: none before the position it returns, and none at all when it returns -1 |
| JsonFixer.HintFromIs | agents/mobility/json_fixer.py:99 | a match with none before it is the one `re.search` returns |
| JsonFixer.ParseDecimal | agents/mobility/json_fixer.py:101 | any value float() reads from digits and dots is non-negative |
| JsonFixer.StepsBounded | agents/mobility/json_fixer.py:97 | only attempts before the last are ever retried |
| JsonFixer.RunAfterRetries | agents/mobility/json_fixer.py:69-111 | retries m..n-1 and a finish at n give one request per attempt and one sleep per retry |
| JsonFixer.AttemptWaitsCapped | agents/mobility/json_fixer.py:107 | every wait asked for is within the 15-second cap |
| JsonFixer.RunCalls | agents/mobility/json_fixer.py:69 | between 1 and 4 calls with the same request, and one sleep between consecutive calls |
| JsonFixer.RunSleepsBounded | agents/mobility/json_fixer.py:107-110 | every sleep lasts between 0.5 and 15.5 seconds |
| JsonFixer.RunEndsAtLastCall | agents/mobility/json_fixer.py:69-116 | the run ends with its last call's decision, and every earlier call was retried |
| JsonFixer.FixJsonCalls | agents/mobility/json_fixer.py:64-111 | fix_json makes 1 to 4 identical calls, with sleeps of 0.5 to 15.5 s between them |
| JsonFixer.FixJsonRetriesOnlyRateLimits | agents/mobility/json_fixer.py:92-111 | every call before the last raised an error mentioning "429" or "rate_limit" |
| JsonFixer.FixJsonSleepsFollowWaits | agents/mobility/json_fixer.py:96-110 | each sleep of fix_json is the wait read from that attempt's rate-limit message plus half a second |
| JsonFixer.RunSleepsAre | agents/mobility/json_fixer.py:110 | the i-th sleep of a run is retried attempt i's wait plus half a second |
| JsonFixer.AttemptFinishes | agents/mobility/json_fixer.py:80-116 | a finishing attempt returns the parsed object with no error exactly when the reply parses; else {} with a "Fix attempts failed: " or "Error during JSON repair: " message, or float()'s ValueError |
| JsonFixer.FinishMeaning | agents/mobility/json_fixer.py:84-116 | a finishing attempt's outcome has no error exactly when its reply parses, and {} with any error |
| JsonFixer.FixJsonOutcome | agents/mobility/json_fixer.py:84-90 | fix_json returns no error exactly when its last call's reply parses to an object; with an error the dict is {} |
| JsonFixer.FixJsonReplyEndsLoop | agents/mobility/json_fixer.py:81-90 | a reply to the first call ends the loop after one call with no sleep |
| JsonFixer.DoubleExtractionHarmless | agents/mobility/json_fixer.py:81-82 | extracting before safe_json_parse, which extracts again, changes nothing on fence-free replies |
| JsonFixer.FixJsonRateLimitedThroughout | agents/mobility/json_fixer.py:96-116 | four rate limits without hints give sleeps of 2.5, 4.5 and 8.5 s, four calls, and the last error |
| JsonFixer.FixPromptCarries | agents/mobility/json_fixer.py:50-61 | the fix prompt carries the error, the broken JSON and the context verbatim between fixed headers |
| JsonFixer.HintRead | agents/mobility/json_fixer.py:99-102 | when p holds no start of the hint, the first match of p + "try again in <t><unit>" + rest has groups t and unit |
| JsonFixer.HintNumberChars | agents/mobility/json_fixer.py:99 | the number group holds only digits and dots |
| JsonFixer.WaitHintSeconds | agents/mobility/json_fixer.py:99-107 | a message whose first hint is "try again in <t>s" waits min(float(t), 15) seconds |
| JsonFixer.WaitHintMilliseconds | agents/mobility/json_fixer.py:99-107 | a message whose first hint is "try again in <t>m" waits min(float(t)/1000, 15) seconds |
| JsonFixer.WaitHintUnreadable | agents/mobility/json_fixer.py:99-101 | a first hint float() cannot read raises ValueError out of fix_json |
| JsonFixer.WaitHintDecimal | agents/mobility/json_fixer.py:99-107 | "try again in <w>.<f>s" waits min(w + f/10^len(f), 15) seconds |
| JsonFixer.WaitHintDecimalExample | agents/mobility/json_fixer.py:99-107 | "try again in 1.2s" waits 1.2 seconds |
| JsonFixer.NoHintTextWithoutT | agents/mobility/json_fixer.py:99 | a prefix without the letter t holds no start of the hint |
| JsonFixer.ParseDecimalPoint | agents/mobility/json_fixer.py:101 | float("<w>.<f>") is w + f/10^len(f) |
| JsonFixer.ParseDecimalAccepts | agents/mobility/json_fixer.py:101 | float() reads a digits-and-dots string exactly when it has a digit and at most one dot |
| JsonFixer.ParseDecimalOfNat | agents/mobility/json_fixer.py:101 | float(str(n)) is n |
| ImageSearch.GenerateSearchTerms | utils/image_search.py:44-66 | exactly five terms, each the base term plus its fixed suffix |
| ImageSearch.SliceLength | utils/image_search.py:35 | `terms[:count]` keeps min(count, n) items, counting a negative bound from the end |
| ImageSearch.Images | utils/image_search.py:30-41 | one URL per kept term, URL i built from term i and index i |
| ImageSearch.SearchUnsplashImages | utils/image_search.py:13-41 | the loop builds exactly those URLs |
| ImageSearch.BaseTermClean | utils/image_search.py:55 | the base term keeps the length and has no blank and no upper-case ASCII letter |
| ImageSearch.TermsDistinct | utils/image_search.py:58-64 | every term starts with the base term, and the five differ |
| ImageSearch.UrlCarriesTerm | utils/image_search.py:37 | a URL is the prefix, the term, "&sig=" and the index, each readable back |
| ImageSearch.ImagesDistinct | utils/image_search.py:35-38 | the URLs for one query are pairwise different |
| ImageSearch.ImagesCount | utils/image_search.py:35 | min(count, 5) URLs for count >= 0, and Python negative slicing otherwise |
| ImageSearch.GetMobilityMeasureImages | utils/image_search.py:69-88 | as written: the URLs for min(count, 3), at most 3 when count >= 0 |
| ImageSearch.NegativeCountExceedsCap | utils/image_search.py:83 | count = -1 yields four URLs, past the cap of three |
| ImageSearch.ImageCount | utils/image_search.py:83 | the clamped count is at most 3 and keeps any count in 0..3 |
| ImageSearch.GetMobilityMeasureImagesClamped | utils/image_search.py:83 | with the count clamped to 0..3, never more than three URLs |
| ImageSearch.ClampedWithinCap | utils/image_search.py:83 | clamping never yields more than three URLs and agrees with the code for counts in 0..3 |
| Formatting.ValidateFields | utils/formatting.py:39-49 | a passing loop means every field is present |
| Formatting.ValidateFieldsAll | utils/formatting.py:37-51 | the early-return loop passes exactly when every field is present with its type |
| Formatting.ValidateIffWellFormed | utils/formatting.py:27-51 | validate_research_output holds exactly for records with the two strings and two lists |
| Formatting.ExtraKeysIgnored | utils/formatting.py:37-51 | keys other than the four never change the verdict |
| Formatting.GetOr | utils/formatting.py:18-21 | `dict.get` gives the value when the key is present, else the default |
| Formatting.ResearchOutput | utils/formatting.py:17-22 | the formatted object has exactly the four keys |
| Formatting.ResearchOutputFields | utils/formatting.py:17-22 | present fields are kept; absent ones default to "" or [] |
| Formatting.ResearchOutputIdempotent | utils/formatting.py:17-22 | formatting a formatted object changes nothing |
| Formatting.ResearchOutputValid | utils/formatting.py:17-51 | the formatted object validates exactly when the fields present have the right types; a well-formed record is formatted to its four fields |
| Config.Getenv | config/settings.py:14-18 | `os.getenv` gives the set value, else the default |
| Config.FromEnv | config/settings.py:14-43 | the three keys are read from the environment, defaulting to "" |
| Config.Settings.Validate | config/settings.py:45-61 | passing implies a Pexels key; a failure raises one of the three messages |
| Config.FlagSpelling | config/settings.py:19 | a flag is on exactly when its text is "true" in any mix of cases |
| Config.FlagDefaults | config/settings.py:19-43 | unset flags default to MONEY_MODE, SEQUENTIAL_MODE and DEBUG off and ENABLE_RATE_LIMITING on |
| Config.MessagesDistinct | config/settings.py:47-61 | the three messages differ |
| Config.ValidateOkIff | config/settings.py:45-61 | validate returns exactly when the Pexels key and the chosen provider's key are set |
| Config.ValidateFirstFailure | config/settings.py:45-61 | the first failing check, in the order Groq, Anthropic, Pexels, decides the message |
| Config.UnusedProviderIgnored | config/settings.py:47-56 | the key of the provider not in use is never asked for |
| Config.PexelsAlwaysRequired | config/settings.py:57-61 | without PEXELS_API_KEY, validate raises in either mode |

## Left out

- The language model clients, prompt-template texts and `invoke`:
  - the model is a parameter, and the 19 schema prompts are a `schemaPrompt` parameter;
  - the universal prompt and the fixer's prompts are reproduced exactly.
- `json.loads` and `json.dumps`:
  - decoding is an opaque `Decoder` parameter;
  - `pretty_print_json`, `format_json_pretty` and the serialisation in `format_research_output` are not modelled (the dict it serialises is).
- Logging, `time.sleep`, `print_header`, `Settings.__repr__`, `BaseMobilityAgent.__str__`, the CLIs and the LangGraph wiring: I/O and framework code. Sleeps are recorded as durations.
- File writing and path absolutisation in `save_mobility_measure`:
  - the model records what would be written, and where;
  - `absolute` is a function parameter, because the result depends on the working directory.
- The numeric settings (TEMPERATURE, MAX_TOKENS, REQUEST_DELAY_MIN/MAX) are not modelled. FALLBACK_MODEL is read but never used by the code modelled here.
- Floating point: waits are exact reals, so `v / 1000` and the cap have no rounding.
- Text.Lower: lower-cases ASCII letters only, unlike Python's full Unicode `str.lower`.
- JsonFixer.IsNumberChar: takes `\d` as the ASCII digits, while Python's `re` also accepts other Unicode decimal digits.
- JsonFixer.ParseDecimal: covers the strings the `[\d.]+` group can capture (digits and dots). It does not cover the full float() grammar (signs, exponents, "inf", underscores).
- JsonFixer.WaitHintMilliseconds: an "m" unit means milliseconds, as in the code. A hint in minutes such as "2m30s" is therefore read as 2 ms.
- JsonValues.DecodeErrorText: its contract states only that the text starts with the decoder's message. The line, column and position that follow are computed in its body as Python does, and are not stated in the contract.
- Validators.Merged: models `merge_sections` on its annotated type, where every section is a dict. The "not a dict" branch cannot be reached for a dict.
- ImageSearch.GetMobilityMeasureImages: the exception handler is not modelled. Building strings from a string name cannot raise.

## Findings

| source | as written | input that shows it | evidently intended | confidence | as-written member | corrected member |
|---|---|---|---|---|---|---|
| agents/mobility/assembly_agent.py:72 | `merge_sections(sections)` passes the dict positionally to a function that takes only `**sections` | any state in which all 19 sections are non-empty | `merge_sections(**sections)`, so a complete run is merged, validated and saved | high, not executed | Assembly.PositionalMergeCounterexample | Assembly.Assemble |
| utils/image_search.py:83 | `min(count, 3)` caps only from above, so a negative count reaches `terms[:count]` | count = -1 gives `terms[:-1]`, four URLs | at most three URLs, the count clamped to 0..3 | medium, not executed | ImageSearch.NegativeCountExceedsCap | ImageSearch.GetMobilityMeasureImagesClamped |
