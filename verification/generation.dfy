/** `generate_llm_response`: the chat-completion request and how its outcome becomes the answer text. */
module Generation {
  import opened Text

  const DefaultModel := "meta-llama/Llama-3.2-3B-Instruct"
  const MaxTokens: nat := 500
  const Temperature: real := 0.7

  /** A single-turn chat-completion request: one user message holding the prompt. */
  datatype ChatRequest = ChatRequest(model: string, role: string, content: string, maxTokens: nat, temperature: real)

  /** What the inference service did: replied with message content, or raised an exception with this text. */
  datatype Completion = Reply(content: string) | Raised(message: string)

  function UserRequest(prompt: string): ChatRequest {
    ChatRequest(DefaultModel, "user", prompt, MaxTokens, Temperature)
  }

  /** The warning sign (with its emoji variation selector) and the cross mark that open the answers. */
  const WarningSign := "\U{26A0}\U{FE0F}"
  const CrossMark := "\U{274C}"

  const RateLimitAnswer := WarningSign + " Rate limit reached. Please wait and try again."
  const InvalidTokenAnswer := CrossMark + " Invalid API token. Please check your token."
  const ErrorPrefix := CrossMark + " Error: "

  predicate IsRateLimit(msg: string) {
    Contains(Lower(msg), "rate limit") || Contains(msg, "429")
  }

  predicate IsAuthFailure(msg: string) {
    Contains(Lower(msg), "authorization") || Contains(msg, "401")
  }

  /**
    The answer text for a failed request. The rate-limit test comes first, so
    a message that is both a rate limit and an authorization failure reads as a
    rate limit; any other message is passed through after the error marker.
   */
  function ClassifyFailure(msg: string): (r: string)
    ensures r == RateLimitAnswer <==> IsRateLimit(msg)
    ensures r == InvalidTokenAnswer <==> !IsRateLimit(msg) && IsAuthFailure(msg)
    ensures r == ErrorPrefix + msg <==> !IsRateLimit(msg) && !IsAuthFailure(msg)
  {
    var generic := ErrorPrefix + msg;
    // The three answers differ in their first or third character.
    assert RateLimitAnswer[0] == WarningSign[0] == '\U{26A0}';
    assert InvalidTokenAnswer[0] == CrossMark[0] == '\U{274C}';
    assert generic[0] == CrossMark[0];
    assert InvalidTokenAnswer[2] == 'I';
    assert generic[2] == ErrorPrefix[2] == 'E';
    if IsRateLimit(msg) then RateLimitAnswer
    else if IsAuthFailure(msg) then InvalidTokenAnswer
    else generic
  }

  /** The string `generate_llm_response` returns: the stripped reply, or the classified failure. */
  function GenerateResponse(c: Completion): string {
    match c
    case Reply(content) => Strip(content)
    case Raised(message) => ClassifyFailure(message)
  }

  /**
    A reply is passed on with only surrounding white space removed: the answer
    is a slice of the content with white space cut off either side, and
    neither end of it is white space.
   */
  lemma ReplyIsStripped(content: string)
    ensures exists i, j :: IsTrimmedSlice(content, GenerateResponse(Reply(content)), i, j)
  {
    StripIsTrimmedSlice(content);
    var i, j :| IsTrimmedSlice(content, Strip(content), i, j);
    assert GenerateResponse(Reply(content)) == Strip(content);
    assert IsTrimmedSlice(content, GenerateResponse(Reply(content)), i, j);
  }
}
