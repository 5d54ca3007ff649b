/** The call to the chat model that every script makes: refuse to start
    without an API key, send the user prompt, and return what the model
    replied. The model itself is outside this model: `call` stands for it and
    maps a user prompt to the reply text or to the error the call raised. */
module Digest {
  import opened Wrappers
  import opened Text

  const MissingKey: string := "DEEPSEEK_API_KEY 环境变量未设置"

  /** The opening of the user prompt in the scripts that ask for a summary of
      at most a hundred characters. */
  const PromptHeader: string := "以下是今日的 AI 资讯，请按要求生成简讯（100字以内）：\n\n"

  /** `!DEEPSEEK_API_KEY`: the variable is unset or empty. */
  predicate KeyMissing(apiKey: Option<string>)
  {
    apiKey.None? || apiKey.value == []
  }

  /** Check the key, then call the model with `prompt`. */
  function Ask(prompt: string, apiKey: Option<string>, call: string -> Result<string, string>)
    : Result<string, string>
  {
    if KeyMissing(apiKey) then Failure(MissingKey) else call(prompt)
  }

  /** `result.substring(0, 100)` on the reply, for the scripts that cap the
      summary at a hundred characters. */
  function Summary(prompt: string, apiKey: Option<string>, call: string -> Result<string, string>)
    : (r: Result<string, string>)
    ensures KeyMissing(apiKey) ==> r == Failure(MissingKey)
    ensures r.Failure? <==> KeyMissing(apiKey) || call(prompt).Failure?
    ensures !KeyMissing(apiKey) && call(prompt).Failure? ==> r == call(prompt)
    ensures r.Success? ==>
              var reply := call(prompt).value;
              && r.value <= reply && |r.value| <= 100
              && (|reply| <= 100 ==> r.value == reply)
              && (|reply| > 100 ==> |r.value| == 100)
  {
    match Ask(prompt, apiKey, call)
    case Failure(e) => Failure(e)
    case Success(reply) => Success(Take(reply, 100))
  }
}
