/** The resume screening agent (backend/agent.py): client selection from the
    environment, the readiness check, and the validation and clamping applied
    to the language model's JSON reply.  The completion call itself is not
    modelled: its outcome is an input (`Reply`). */
module Agent {
  import opened Wrappers
  import opened Json
  import Text

  /** The process environment: variable name to value. */
  type Env = map<string, string>

  const AZURE_ENDPOINT := "AZURE_OPENAI_ENDPOINT"
  const AZURE_API_KEY := "AZURE_OPENAI_API_KEY"
  const AZURE_API_VERSION := "AZURE_OPENAI_API_VERSION"
  const AZURE_DEPLOYMENT := "AZURE_OPENAI_DEPLOYMENT_NAME"
  const OPENAI_API_KEY := "OPENAI_API_KEY"
  const OPENAI_MODEL := "OPENAI_MODEL"

  const DEFAULT_MODEL := "gpt-4o"
  const DEFAULT_API_VERSION := "2024-02-15-preview"

  const AZURE_KEY_MISSING := "AZURE_OPENAI_API_KEY environment variable is required for Azure OpenAI"
  const OPENAI_KEY_MISSING := "OPENAI_API_KEY environment variable is required"

  /** `os.getenv(key, default)`: the default is used only when the variable
      is unset, not when it is set to the empty string. */
  function GetEnvOr(env: Env, key: string, default: string): string {
    if key in env then env[key] else default
  }

  /** `bool(os.getenv(key))`: the variable is set and not empty. */
  predicate EnvSet(env: Env, key: string) {
    key in env && env[key] != ""
  }

  /** The arguments the client is constructed with. */
  datatype Client =
    | AzureClient(apiKey: string, apiVersion: string, endpoint: string)
    | OpenAIClient(apiKey: string)

  /** The fields `__init__` sets. */
  datatype ScreeningAgent = ScreeningAgent(client: Client, model: string, usingAzure: bool)

  /** `ResumeScreeningAgent.__init__`: a non-empty Azure endpoint selects Azure
      mode, which then needs the Azure key; otherwise the OpenAI key is
      needed.  In both modes the model falls back to "gpt-4o". */
  function Init(env: Env): (r: Result<ScreeningAgent, Error>)
    ensures r.Success? <==>
      (if EnvSet(env, AZURE_ENDPOINT) then EnvSet(env, AZURE_API_KEY) else EnvSet(env, OPENAI_API_KEY))
    ensures r.Success? ==> r.value.usingAzure == EnvSet(env, AZURE_ENDPOINT)
    ensures r.Success? ==> r.value.client.AzureClient? == r.value.usingAzure
    ensures r.Failure? ==> r.error == ValueError(
      if EnvSet(env, AZURE_ENDPOINT) then AZURE_KEY_MISSING else OPENAI_KEY_MISSING)
    // the client is built from the selected mode's variables
    ensures r.Success? && r.value.usingAzure ==>
      r.value.client == AzureClient(env[AZURE_API_KEY], GetEnvOr(env, AZURE_API_VERSION, DEFAULT_API_VERSION),
                                    env[AZURE_ENDPOINT])
    ensures r.Success? && !r.value.usingAzure ==> r.value.client == OpenAIClient(env[OPENAI_API_KEY])
    // the model is the mode's variable when it is set, and "gpt-4o" otherwise
    ensures r.Success? ==>
      r.value.model == GetEnvOr(env, if r.value.usingAzure then AZURE_DEPLOYMENT else OPENAI_MODEL, DEFAULT_MODEL)
    ensures r.Success? && r.value.usingAzure && AZURE_DEPLOYMENT !in env ==> r.value.model == DEFAULT_MODEL
    ensures r.Success? && !r.value.usingAzure && OPENAI_MODEL !in env ==> r.value.model == DEFAULT_MODEL
    ensures r.Success? && r.value.usingAzure && AZURE_API_VERSION !in env ==>
      r.value.client.apiVersion == DEFAULT_API_VERSION
  {
    if EnvSet(env, AZURE_ENDPOINT) then
      if !EnvSet(env, AZURE_API_KEY) then Failure(ValueError(AZURE_KEY_MISSING))
      else
        var client := AzureClient(env[AZURE_API_KEY],
                                  GetEnvOr(env, AZURE_API_VERSION, DEFAULT_API_VERSION),
                                  env[AZURE_ENDPOINT]);
        Success(ScreeningAgent(client, GetEnvOr(env, AZURE_DEPLOYMENT, DEFAULT_MODEL), true))
    else if !EnvSet(env, OPENAI_API_KEY) then Failure(ValueError(OPENAI_KEY_MISSING))
    else
      Success(ScreeningAgent(OpenAIClient(env[OPENAI_API_KEY]),
                             GetEnvOr(env, OPENAI_MODEL, DEFAULT_MODEL), false))
  }

  /** `is_ready`: it reads the environment again at call time.  A ready
      agent has the key of its own mode set. */
  predicate IsReady(agent: ScreeningAgent, env: Env)
    ensures IsReady(agent, env) ==> EnvSet(env, if agent.usingAzure then AZURE_API_KEY else OPENAI_API_KEY)
  {
    if agent.usingAzure then EnvSet(env, AZURE_API_KEY) && EnvSet(env, AZURE_ENDPOINT)
    else EnvSet(env, OPENAI_API_KEY)
  }

  /** An agent that was constructed reports ready as long as the environment
      is the one it was constructed from. */
  lemma ReadyAfterInit(env: Env)
    requires Init(env).Success?
    ensures IsReady(Init(env).value, env)
  {
  }

  /** Readiness looks only at the agent's own mode: in Azure mode the
      OpenAI key does not matter, and outside it the Azure variables do not. */
  lemma ReadyIgnoresOtherMode(agent: ScreeningAgent, env: Env, v: string)
    ensures agent.usingAzure ==> (IsReady(agent, env) <==> IsReady(agent, env[OPENAI_API_KEY := v]))
    ensures !agent.usingAzure ==>
      (IsReady(agent, env) <==> IsReady(agent, env[AZURE_API_KEY := v]))
      && (IsReady(agent, env) <==> IsReady(agent, env[AZURE_ENDPOINT := v]))
  {
    assert OPENAI_API_KEY != AZURE_API_KEY && OPENAI_API_KEY != AZURE_ENDPOINT;
  }

  /** Readiness is not fixed at construction: an Azure agent whose endpoint
      is later cleared reports not ready, although it was built. */
  lemma ReadinessFollowsEnvironment(env: Env)
    requires Init(env).Success? && Init(env).value.usingAzure
    ensures IsReady(Init(env).value, env)
    ensures !IsReady(Init(env).value, env[AZURE_ENDPOINT := ""])
  {
  }

  // ---------------------------------------------------------------------
  // Post-processing of the reply in `analyze_resume`
  // ---------------------------------------------------------------------

  const SCORE_FIELD := "overall_match_score"
  const CANDIDATE_NAME_FIELD := "candidate_name"

  const REQUIRED_FIELDS: seq<string> :=
    [SCORE_FIELD, "fit_summary", "strengths", "gaps", "recommendations", "detailed_analysis"]

  const PARSE_ERROR_PREFIX := "Failed to parse agent response as JSON: "
  const ANALYSIS_ERROR_PREFIX := "Error during resume analysis: "
  const MISSING_FIELD_PREFIX := "Missing required field: "

  /** What became of the completion request, up to `json.loads`. */
  datatype Reply =
    /** The call, or reading its content, raised something other than a
        JSON decoding error; `reason` is `str(e)`. */
    | CallFailed(reason: string)
    /** `json.loads` raised `JSONDecodeError`; `reason` is `str(e)`. */
    | NotJson(reason: string)
    /** `json.loads` returned an object. */
    | Decoded(analysis: Object)

  /** The first of `fields` that `analysis` lacks, if any. */
  function FirstMissing(fields: seq<string>, analysis: Object): (r: Option<string>)
    ensures r.None? <==> forall i :: 0 <= i < |fields| ==> fields[i] in analysis
    ensures r.Some? ==> exists k :: 0 <= k < |fields| && fields[k] == r.value
                                    && r.value !in analysis
                                    && forall i :: 0 <= i < k ==> fields[i] in analysis
    decreases |fields|
  {
    if fields == [] then None
    else if fields[0] !in analysis then Some(fields[0])
    else
      var r := FirstMissing(fields[1..], analysis);
      assert r.Some? ==> exists k :: 0 <= k < |fields| - 1 && fields[1..][k] == r.value
                                    && forall i :: 0 <= i < k ==> fields[1..][i] in analysis;
      r
  }

  /** The `for field in required_fields` loop: the first required field the
      analysis lacks, or None when it has them all. */
  method CheckRequiredFields(analysis: Object) returns (missing: Option<string>)
    ensures missing == FirstMissing(REQUIRED_FIELDS, analysis)
  {
    var i := 0;
    while i < |REQUIRED_FIELDS|
      invariant 0 <= i <= |REQUIRED_FIELDS|
      invariant FirstMissing(REQUIRED_FIELDS, analysis) == FirstMissing(REQUIRED_FIELDS[i..], analysis)
    {
      var field := REQUIRED_FIELDS[i];
      if field !in analysis {
        return Some(field);
      }
      assert REQUIRED_FIELDS[i..][1..] == REQUIRED_FIELDS[i + 1..];
      i := i + 1;
    }
    return None;
  }

  /** `candidate_name` is not among the required fields: dropping it never
      makes validation fail. */
  lemma CandidateNameNotRequired(analysis: Object)
    requires FirstMissing(REQUIRED_FIELDS, analysis).None?
    ensures FirstMissing(REQUIRED_FIELDS, analysis - {CANDIDATE_NAME_FIELD}).None?
  {
    forall i | 0 <= i < |REQUIRED_FIELDS|
      ensures REQUIRED_FIELDS[i] in analysis - {CANDIDATE_NAME_FIELD}
    {
      assert REQUIRED_FIELDS[i] != CANDIDATE_NAME_FIELD;
    }
  }

  /** Python's `float(v)` on a decoded JSON value. */
  function ToFloat(v: Value): (r: Result<real, Error>)
    ensures v.JNumber? ==> r == Success(v.x)
    ensures r.Success? <==> v.JNumber? || v.JBool?
  {
    match v
    case JNumber(x) => Success(x)
    case JBool(b) => Success(if b then 1.0 else 0.0)
    case JString(s) => Failure(ValueError("could not convert string to float: '" + s + "'"))
    case JNull => Failure(TypeError("float() argument must be a string or a real number, not 'NoneType'"))
    case JArray(_) => Failure(TypeError("float() argument must be a string or a real number, not 'list'"))
    case JObject(_) => Failure(TypeError("float() argument must be a string or a real number, not 'dict'"))
  }

  /** `max(0, min(100, x))`. */
  function Clamp(x: real): (r: real)
    ensures 0.0 <= r <= 100.0
    ensures 0.0 <= x <= 100.0 ==> r == x
    ensures x < 0.0 ==> r == 0.0
    ensures x > 100.0 ==> r == 100.0
  {
    var m := if x < 100.0 then x else 100.0;
    if m > 0.0 then m else 0.0
  }

  /** The outcome `analyze_resume` returns or raises for a given reply. */
  function PostProcess(reply: Reply): (r: Result<Object, Error>)
    // the clamped score lies in [0, 100]
    ensures r.Success? ==> reply.Decoded? && SCORE_FIELD in r.value
                           && r.value[SCORE_FIELD].JNumber?
                           && 0.0 <= r.value[SCORE_FIELD].x <= 100.0
    // no key is added or dropped, and only the score may change
    ensures r.Success? ==> r.value.Keys == reply.analysis.Keys
                           && forall k :: k in r.value && k != SCORE_FIELD ==> r.value[k] == reply.analysis[k]
    // a complete analysis whose score is already a number in range is returned as it is
    ensures reply.Decoded? && FirstMissing(REQUIRED_FIELDS, reply.analysis).None?
            && reply.analysis[SCORE_FIELD].JNumber?
            && 0.0 <= reply.analysis[SCORE_FIELD].x <= 100.0
            ==> r == Success(reply.analysis)
    // a missing field is reported by name, re-raised as RuntimeError
    ensures reply.Decoded? && FirstMissing(REQUIRED_FIELDS, reply.analysis).Some? ==>
      r == Failure(RuntimeError(ANALYSIS_ERROR_PREFIX + MISSING_FIELD_PREFIX
                                + FirstMissing(REQUIRED_FIELDS, reply.analysis).value))
    // a complete analysis keeps its keys, and its score is replaced by the
    // clamped float; a score float() refuses is re-raised as RuntimeError
    ensures reply.Decoded? && FirstMissing(REQUIRED_FIELDS, reply.analysis).None? ==>
      SCORE_FIELD in reply.analysis
    ensures reply.Decoded? && FirstMissing(REQUIRED_FIELDS, reply.analysis).None?
            && ToFloat(reply.analysis[SCORE_FIELD]).Success? ==>
      r == Success(reply.analysis[SCORE_FIELD := JNumber(Clamp(ToFloat(reply.analysis[SCORE_FIELD]).value))])
    ensures reply.Decoded? && FirstMissing(REQUIRED_FIELDS, reply.analysis).None?
            && ToFloat(reply.analysis[SCORE_FIELD]).Failure? ==>
      r == Failure(RuntimeError(ANALYSIS_ERROR_PREFIX + ToFloat(reply.analysis[SCORE_FIELD]).error.Str()))
    // a failed call is re-raised as RuntimeError with its message
    ensures reply.CallFailed? ==> r == Failure(RuntimeError(ANALYSIS_ERROR_PREFIX + reply.reason))
    // undecodable JSON is a ValueError; every other failure a RuntimeError
    ensures reply.NotJson? ==> r == Failure(ValueError(PARSE_ERROR_PREFIX + reply.reason))
    ensures r.Failure? && !reply.NotJson? ==>
      r.error.RuntimeError? && Text.StartsWith(r.error.message, ANALYSIS_ERROR_PREFIX)
  {
    match reply
    case CallFailed(reason) => Failure(RuntimeError(ANALYSIS_ERROR_PREFIX + reason))
    case NotJson(reason) => Failure(ValueError(PARSE_ERROR_PREFIX + reason))
    case Decoded(analysis) =>
      match FirstMissing(REQUIRED_FIELDS, analysis)
      case Some(field) =>
        Failure(RuntimeError(ANALYSIS_ERROR_PREFIX + MISSING_FIELD_PREFIX + field))
      case None =>
        assert SCORE_FIELD == REQUIRED_FIELDS[0];
        match ToFloat(analysis[SCORE_FIELD])
        case Failure(e) => Failure(RuntimeError(ANALYSIS_ERROR_PREFIX + e.Str()))
        case Success(x) =>
          var clamped := analysis[SCORE_FIELD := JNumber(Clamp(x))];
          assert clamped.Keys == analysis.Keys;
          assert analysis[SCORE_FIELD] == JNumber(Clamp(x)) ==> clamped == analysis;
          Success(clamped)
  }

  /** `analyze_resume` from the moment the reply is known: validation loop,
      score clamping in the dict, and the two exception handlers. */
  method AnalyzeResume(reply: Reply) returns (r: Result<Object, Error>)
    ensures r == PostProcess(reply)
  {
    match reply {
      case CallFailed(reason) =>
        r := Failure(RuntimeError(ANALYSIS_ERROR_PREFIX + reason));
      case NotJson(reason) =>
        r := Failure(ValueError(PARSE_ERROR_PREFIX + reason));
      case Decoded(analysis) =>
        var missing := CheckRequiredFields(analysis);
        if missing.Some? {
          r := Failure(RuntimeError(ANALYSIS_ERROR_PREFIX + MISSING_FIELD_PREFIX + missing.value));
        } else {
          assert SCORE_FIELD == REQUIRED_FIELDS[0];
          var score := ToFloat(analysis[SCORE_FIELD]);
          if score.Failure? {
            r := Failure(RuntimeError(ANALYSIS_ERROR_PREFIX + score.error.Str()));
          } else {
            var result := analysis;
            result := result[SCORE_FIELD := JNumber(Clamp(score.value))];
            r := Success(result);
          }
        }
    }
  }

  /** Example of the list order of `FirstMissing`: with both
      `fit_summary` and `gaps` absent (and the score present) the error names
      `fit_summary`. */
  lemma MissingFieldOrder(analysis: Object)
    requires SCORE_FIELD in analysis && "fit_summary" !in analysis && "gaps" !in analysis
    ensures PostProcess(Decoded(analysis))
         == Failure(RuntimeError(ANALYSIS_ERROR_PREFIX + MISSING_FIELD_PREFIX + "fit_summary"))
  {
    assert REQUIRED_FIELDS[1..][0] == "fit_summary";
    assert FirstMissing(REQUIRED_FIELDS[1..], analysis) == Some("fit_summary");
    assert FirstMissing(REQUIRED_FIELDS, analysis) == Some("fit_summary");
  }

  /** A score above the range is lowered to 100 and one below it raised to
      0, and the analysis is still returned. */
  lemma OutOfRangeScoreClamped(analysis: Object, x: real)
    requires FirstMissing(REQUIRED_FIELDS, analysis).None?
    requires SCORE_FIELD in analysis && analysis[SCORE_FIELD] == JNumber(x)
    ensures x > 100.0 ==> PostProcess(Decoded(analysis)) == Success(analysis[SCORE_FIELD := JNumber(100.0)])
    ensures x < 0.0 ==> PostProcess(Decoded(analysis)) == Success(analysis[SCORE_FIELD := JNumber(0.0)])
  {
  }
}
