/** `call_model`: one language-model call. Outside JSON mode the reply text is
    returned as it is; in JSON mode it is turned into a dict by a strict parse of the
    fence-stripped text, else by a repair pass over the original text, else `{}`.
    A failed provider call yields `{}` in either mode. The provider call and the two
    parsers (`json5.loads`, `json_repair.loads`) are inputs: the completion as a
    value, each parser as a function that yields `None` where it would raise. */
module ModelCall {
  import opened PyStr
  import opened JsonValues

  /** What `create_chat_completion` did: raised, or returned the reply text. */
  datatype Completion = ProviderError | Completed(response: string)

  /** What `call_model` returns: the reply text itself, or a dict. */
  datatype Reply = Text(text: string) | Dict(fields: map<string, Json>)

  /** The stage of the JSON path that produced the dict, as the log records it. */
  datatype Stage = StrictParse | Repaired | EmptyFallback

  datatype Structured = Structured(stage: Stage, fields: map<string, Json>)

  /** A parser: the decoded value, or `None` where the Python parser raises. */
  type Parser = string -> Option<Json>

  /** The argument of the first `strip`: a SET of characters, `` ` `` j s o n and newline. */
  const FenceChars: string := "```json\n"

  /** The argument of the second `strip`. */
  const BacktickChars: string := "```"

  /** `response.strip("```json\n").strip("```")` */
  function Clean(response: string): (r: string)
    ensures |r| <= |response|
    ensures r != [] ==> r[0] !in FenceChars && r[|r| - 1] !in FenceChars
  {
    var once := Strip(response, FenceChars);
    BacktickIsFenceChar();
    StripSubsetNoop(response, FenceChars, BacktickChars);
    Strip(once, BacktickChars)
  }

  /** `cleaned.strip().startswith("{")` */
  predicate OpensObject(cleaned: string) {
    StartsWith(StripWhitespace(cleaned), "{")
  }

  /** `isinstance(v, dict)` on a parser's result, `None` when the parser raised. */
  function AsDict(v: Option<Json>): (r: Option<map<string, Json>>)
    ensures r.Some? <==> v.Some? && v.value.JObject?
    ensures r.Some? ==> v == Some(JObject(r.value))
  {
    match v
    case Some(JObject(fields)) => Some(fields)
    case _ => None
  }

  /** The strict attempt: skipped unless the cleaned text opens an object; kept only
      when `json5.loads` yields a dict. */
  function StrictAttempt(response: string, strictLoads: Parser): (r: Option<map<string, Json>>)
    ensures r.Some? <==> OpensObject(Clean(response)) && AsDict(strictLoads(Clean(response))).Some?
    ensures r.Some? ==> strictLoads(Clean(response)) == Some(JObject(r.value))
  {
    var cleaned := Clean(response);
    if OpensObject(cleaned) then AsDict(strictLoads(cleaned)) else None
  }

  /** The JSON path of `call_model` for a reply text `response`. */
  function ParseStructured(response: string, strictLoads: Parser, repairLoads: Parser): (r: Structured)
    ensures r.stage == StrictParse <==> StrictAttempt(response, strictLoads).Some?
    ensures r.stage == Repaired <==> StrictAttempt(response, strictLoads).None? && AsDict(repairLoads(response)).Some?
    ensures r.stage == StrictParse ==> strictLoads(Clean(response)) == Some(JObject(r.fields))
    ensures r.stage == Repaired ==> repairLoads(response) == Some(JObject(r.fields))
    ensures r.stage == EmptyFallback ==> r.fields == map[]
  {
    match StrictAttempt(response, strictLoads)
    case Some(fields) => Structured(StrictParse, fields)
    case None =>
      match AsDict(repairLoads(response))
      case Some(fields) => Structured(Repaired, fields)
      case None => Structured(EmptyFallback, map[])
  }

  /** `call_model(prompt, model, response_format)`, given what the provider did. */
  function CallModel(responseFormat: Option<string>, completion: Completion,
                     strictLoads: Parser, repairLoads: Parser): (r: Reply)
    ensures completion.ProviderError? ==> r == Dict(map[])
    ensures completion.Completed? && responseFormat != Some("json") ==> r == Text(completion.response)
    ensures responseFormat == Some("json") ==> r.Dict?
  {
    match completion
    case ProviderError => Dict(map[])
    case Completed(response) =>
      if responseFormat == Some("json") then Dict(ParseStructured(response, strictLoads, repairLoads).fields)
      else Text(response)
  }

  // ---------------------------------------------------------------------------
  // Cleaning

  /** The backtick is one of the fence characters. */
  lemma BacktickIsFenceChar()
    ensures forall c :: c in BacktickChars ==> c in FenceChars
  {
    assert forall c :: c in BacktickChars ==> c == '`';
    assert FenceChars[0] == '`';
  }

  /** The second `strip("```")` has nothing left to remove: cleaning is the single
      set-strip of { `` ` ``, j, s, o, n, newline } from both ends. */
  lemma CleanIsSetStrip(response: string)
    ensures Clean(response) == Strip(response, FenceChars)
  {
    BacktickIsFenceChar();
    StripSubsetNoop(response, FenceChars, BacktickChars);
  }

  /** A payload that starts with `{` and ends with `}` comes out of its Markdown
      fence unchanged, and an unfenced one is left as it is. */
  lemma CleanFencedObject(payload: string)
    requires payload != [] && payload[0] == '{' && payload[|payload| - 1] == '}'
    ensures Clean("```json\n" + payload + "\n```") == payload
    ensures Clean(payload) == payload
  {
    var fenced := "```json\n" + payload + "\n```";
    CleanIsSetStrip(fenced);
    CleanIsSetStrip(payload);
    assert fenced == "```json\n" + (payload + "\n```");
    LStripPrefix("```json\n", payload + "\n```", FenceChars);
    assert LStrip(payload + "\n```", FenceChars) == payload + "\n```";
    RStripSuffix(payload, "\n```", FenceChars);
    assert RStrip(payload, FenceChars) == payload;
    assert LStrip(payload, FenceChars) == payload;
  }

  /** Cleaning strips characters, not the prefix "```json": a reply that merely
      begins and ends with letters of "json" loses them too. */
  lemma CleanStripsLettersNotPrefix()
    ensures Clean("sonnet") == "et"
  {
    assert "sonnet" == "sonn" + "et";
    LStripPrefix("sonn", "et", FenceChars);
    assert LStrip("et", FenceChars) == "et";
    assert RStrip("et", FenceChars) == "et";
    assert Strip("sonnet", FenceChars) == "et";
    StripSubsetNoop("sonnet", FenceChars, BacktickChars);
  }

  /** The object check looks at the first character of the cleaned text that is not
      whitespace. */
  lemma OpensObjectIff(cleaned: string)
    ensures OpensObject(cleaned)
        <==> exists k: nat :: FirstKeptAt(cleaned, Whitespace, k) && cleaned[k] == '{'
  {
    StripFirstChar(cleaned, Whitespace);
  }

  // ---------------------------------------------------------------------------
  // The JSON path

  /** In JSON mode the reply is always a dict, and it is the strictly parsed dict,
      the repaired dict or `{}`. */
  lemma JsonModeYieldsDict(response: string, strictLoads: Parser, repairLoads: Parser)
    ensures var r := CallModel(Some("json"), Completed(response), strictLoads, repairLoads);
      && r.Dict?
      && (|| (OpensObject(Clean(response)) && strictLoads(Clean(response)) == Some(JObject(r.fields)))
          || repairLoads(response) == Some(JObject(r.fields))
          || r.fields == map[])
  {
  }

  /** A strictly parsed dict is returned, whatever the repair parser would do. */
  lemma StrictDictWins(response: string, strictLoads: Parser, repairLoads: Parser, fields: map<string, Json>)
    requires OpensObject(Clean(response))
    requires strictLoads(Clean(response)) == Some(JObject(fields))
    ensures ParseStructured(response, strictLoads, repairLoads) == Structured(StrictParse, fields)
    ensures CallModel(Some("json"), Completed(response), strictLoads, repairLoads) == Dict(fields)
  {
  }

  /** When the cleaned text does not open an object the strict parser is never
      consulted: the result is that of the repair pass for every strict parser. */
  lemma NoOpeningBraceSkipsStrict(response: string, strictLoads: Parser, otherLoads: Parser, repairLoads: Parser)
    requires !OpensObject(Clean(response))
    ensures ParseStructured(response, strictLoads, repairLoads).stage != StrictParse
    ensures CallModel(Some("json"), Completed(response), strictLoads, repairLoads)
         == CallModel(Some("json"), Completed(response), otherLoads, repairLoads)
  {
  }

  /** A strict parse that yields something other than a dict, or raises, falls
      through to the repair pass. */
  lemma StrictNonDictFallsThrough(response: string, strictLoads: Parser, repairLoads: Parser)
    requires AsDict(strictLoads(Clean(response))).None?
    ensures StrictAttempt(response, strictLoads).None?
    ensures ParseStructured(response, strictLoads, repairLoads).stage != StrictParse
    ensures ParseStructured(response, strictLoads, repairLoads) == ParseStructured(response, _ => None, repairLoads)
  {
  }

  /** The repair pass reads the original reply, not the cleaned text. */
  lemma RepairReadsOriginal(response: string, strictLoads: Parser, repairLoads: Parser, fields: map<string, Json>)
    requires StrictAttempt(response, strictLoads).None?
    requires repairLoads(response) == Some(JObject(fields))
    ensures ParseStructured(response, strictLoads, repairLoads) == Structured(Repaired, fields)
    ensures CallModel(Some("json"), Completed(response), strictLoads, repairLoads) == Dict(fields)
  {
  }

  /** When the repair pass raises or yields a non-dict the result is exactly `{}`. */
  lemma RepairFailureGivesEmpty(response: string, strictLoads: Parser, repairLoads: Parser)
    requires StrictAttempt(response, strictLoads).None?
    requires AsDict(repairLoads(response)).None?
    ensures ParseStructured(response, strictLoads, repairLoads) == Structured(EmptyFallback, map[])
    ensures CallModel(Some("json"), Completed(response), strictLoads, repairLoads) == Dict(map[])
  {
  }

  /** Text that begins with `{` opens an object. */
  lemma LeadingBraceOpensObject(cleaned: string)
    requires cleaned != [] && cleaned[0] == '{'
    ensures OpensObject(cleaned)
  {
    StripFirstChar(cleaned, Whitespace);
    assert cleaned[0] !in Whitespace;
  }

  /** A dict wrapped in a Markdown fence is strictly parsed from the bare payload. */
  lemma FencedObjectParsed(payload: string, strictLoads: Parser, repairLoads: Parser, fields: map<string, Json>)
    requires payload != [] && payload[0] == '{' && payload[|payload| - 1] == '}'
    requires strictLoads(payload) == Some(JObject(fields))
    ensures CallModel(Some("json"), Completed("```json\n" + payload + "\n```"), strictLoads, repairLoads)
         == Dict(fields)
  {
    var fenced := "```json\n" + payload + "\n```";
    CleanFencedObject(payload);
    assert Clean(fenced) == payload;
    LeadingBraceOpensObject(payload);
    StrictDictWins(fenced, strictLoads, repairLoads, fields);
  }
}
