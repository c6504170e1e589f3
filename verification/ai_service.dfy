/**
 * The AI dispatcher (backend/ai_service.py): the closed set of actions, the
 * placeholder text for each, the capability check over the provider
 * configuration, and the dispatch itself.
 */
module AiService {
  import opened Wrappers

  /** The actions a client may request on a note. */
  datatype AIAction = Summarize | ActionItems | Sentiment

  /** The string value of an action: its path segment and the `action` field of a result. */
  function Value(a: AIAction): (v: string)
    ensures a == Summarize <==> v == "summarize"
    ensures a == ActionItems <==> v == "action_items"
    ensures a == Sentiment <==> v == "sentiment"
  {
    match a
    case Summarize => "summarize"
    case ActionItems => "action_items"
    case Sentiment => "sentiment"
  }

  /** The action whose value is `v`, if any: the enum's lookup by value. */
  function FromValue(v: string): (r: Option<AIAction>)
    ensures r.Some? ==> Value(r.value) == v
  {
    if v == "summarize" then Some(Summarize)
    else if v == "action_items" then Some(ActionItems)
    else if v == "sentiment" then Some(Sentiment)
    else None
  }

  /** An action's value reads back as that action. */
  lemma ValueRoundTrip(a: AIAction)
    ensures FromValue(Value(a)) == Some(a)
  {
  }

  /** Exactly three strings name an action, and distinct actions have distinct values. */
  lemma ExactlyThreeActions(v: string, a: AIAction, b: AIAction)
    ensures FromValue(v).Some? <==> v in ["summarize", "action_items", "sentiment"]
    ensures Value(a) == Value(b) ==> a == b
  {
    assert FromValue(Value(a)) == Some(a);
  }

  /** The placeholder text returned for each action when no provider answers. */
  function MockResponse(a: AIAction): (text: string)
    ensures |text| > 0
  {
    match a
    case Summarize => "This is a mock summary. Enable AI integration for real results."
    case ActionItems => "\U{2022} Mock action item 1\n\U{2022} Mock action item 2\n\U{2022} Mock action item 3"
    case Sentiment => "Sentiment: Neutral (mock). Enable AI integration for real analysis."
  }

  /** Distinct actions have distinct placeholders. */
  lemma MockResponsesDistinct(a: AIAction, b: AIAction)
    requires a != b
    ensures MockResponse(a) != MockResponse(b)
  {
    // The three placeholders have different lengths.
    assert |MockResponse(Summarize)| == 63;
    assert |MockResponse(ActionItems)| == 62;
    assert |MockResponse(Sentiment)| == 67;
  }

  /** The provider settings the process environment holds; `None` when a variable is unset. */
  datatype Config = Config(endpoint: Option<string>, apiKey: Option<string>, deployment: Option<string>)

  /** Python truthiness of an environment lookup: set and not empty. */
  predicate Truthy(v: Option<string>)
  {
    v.Some? && v.value != ""
  }

  /**
   * Whether a real provider is configured: `bool(endpoint and key)`, where
   * `and` yields its first operand when that is falsy and its second
   * otherwise.
   */
  function IsAiEnabled(cfg: Config): (enabled: bool)
    ensures enabled <==> (cfg.endpoint.Some? && cfg.endpoint.value != ""
                          && cfg.apiKey.Some? && cfg.apiKey.value != "")
  {
    Truthy(if !Truthy(cfg.endpoint) then cfg.endpoint else cfg.apiKey)
  }

  /** The deployment name has no say in the capability flag. */
  lemma DeploymentIrrelevant(cfg: Config, deployment: Option<string>)
    ensures IsAiEnabled(cfg.(deployment := deployment)) == IsAiEnabled(cfg)
  {
  }

  /**
   * Runs `action` on a note's content. Without a provider this is the
   * placeholder; with one, the provider call is disabled in the source and
   * the placeholder is returned as well.
   */
  function RunAiAction(action: AIAction, content: string, cfg: Config): (text: string)
    ensures !IsAiEnabled(cfg) ==> text == MockResponse(action)
    ensures |text| > 0
  {
    if !IsAiEnabled(cfg) then MockResponse(action)
    else MockResponse(action)
  }

  /** The dispatcher's answer depends on the action alone: not on the content, not on the configuration. */
  lemma RunDependsOnActionOnly(action: AIAction, c1: string, c2: string, cfg1: Config, cfg2: Config)
    ensures RunAiAction(action, c1, cfg1) == RunAiAction(action, c2, cfg2) == MockResponse(action)
  {
  }
}
