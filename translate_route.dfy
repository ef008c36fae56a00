/** The translation route (`POST /api/translate`): validates the request,
    splits the combined content back into pages on the page separator,
    translates every page with the selected engine and answers with the
    translated pages in page order. The two engines are reached through
    function parameters standing for the remote calls. */
module TranslateRoute {
  import opened JsText
  import opened Protocol

  /** The JSON request body; every field may be absent (`undefined`). */
  datatype Request = Request(
    engine: Option<string>,
    openaiApiKey: Option<string>,
    openaiBaseUrl: Option<string>,
    openaiModel: Option<string>,
    deeplxApiKey: Option<string>,
    content: Option<string>,
    targetLanguage: Option<string>)

  /** What reading the body as JSON gives: a parse failure or the request. */
  datatype Payload = Unparsable(message: string) | Json(request: Request)

  /** One chat-completion call for one page: the client settings, the name of
      the target language the system prompt asks for, and the page text as
      the user message. */
  datatype ChatRequest = ChatRequest(
    apiKey: string, baseUrl: string, model: Option<string>,
    languageName: string, pageText: string)

  /** The call either throws (network or API error) or completes; the first
      choice's message content may be missing. */
  datatype ChatReply = ChatFailed(message: string) | ChatCompleted(content: Option<string>)

  /** One call of the DeepLX endpoint for one page. */
  datatype DeepLRequest = DeepLRequest(url: string, text: string, sourceLang: string, targetLang: string)

  /** The call either throws; or answers with a success status and a body
      that is not JSON, so that reading it throws; or answers with a
      success status and the JSON `null`, so that reading its `data` field
      throws; or answers with an HTTP status and, when the status is a
      success, a JSON object whose `data` field may be missing. */
  datatype DeepLReply =
    | DeepLUnreachable(message: string)
    | DeepLUnreadable(message: string)
    | DeepLNullBody(message: string)
    | DeepLAnswered(status: int, data: Option<string>)

  datatype Body = ErrorBody(error: string) | TranslatedBody(translatedPages: seq<string>)

  datatype Response = Response(status: int, body: Body)

  /** The result of translating one page: its text, or the error the page's
      task rejects with. */
  datatype PageOutcome = Translated(text: string) | Failed(message: string)

  const DefaultTargetLanguage: string := "ZH"
  const OpenAIDefaultBaseUrl: string := "https://api.openai.com/v1"
  /** The text that stands for a page whose provider reply is missing or empty. */
  const PageFallback: string := "Translation failed"

  /** The language codes the route knows and the names it puts in the prompt. */
  const Languages: map<string, string> := map[
    "EN" := "English",
    "ZH" := "Chinese (Simplified)",
    "JA" := "Japanese",
    "KO" := "Korean",
    "FR" := "French",
    "DE" := "German",
    "ES" := "Spanish",
    "RU" := "Russian"]

  /** `getLanguageName`: the table entry, or English for an unknown code. */
  function LanguageName(code: string): (r: string)
    ensures r in Languages.Values
    ensures code in Languages ==> r == Languages[code]
    ensures code !in Languages ==> r == Languages["EN"]
  {
    if code in Languages then Languages[code]
    else assert Languages["EN"] == "English"; "English"
  }

  /** The known codes name eight different languages: the table loses no
      information, and an unknown code reads as English. */
  lemma LanguageNameInjective(a: string, b: string)
    requires a in Languages && b in Languages
    requires LanguageName(a) == LanguageName(b)
    ensures a == b
  {
  }

  /** `pages.map(task)` gathered with `Promise.all`: every page translated,
      each result at its page's position; or the first failure, which
      fails the whole list. */
  function TranslatePages(pages: seq<string>, translate: string -> PageOutcome): (r: Result<seq<string>>)
    ensures r.Ok? <==> forall i :: 0 <= i < |pages| ==> translate(pages[i]).Translated?
    ensures r.Ok? ==> |r.value| == |pages|
    ensures r.Ok? ==> forall i :: 0 <= i < |pages| ==> r.value[i] == translate(pages[i]).text
    ensures r.Err? ==> exists i :: 0 <= i < |pages| && translate(pages[i]) == Failed(r.message)
    decreases |pages|
  {
    if |pages| == 0 then Ok([])
    else
      match translate(pages[0])
      case Failed(m) => Err(m)
      case Translated(t) =>
        match TranslatePages(pages[1..], translate)
        case Ok(ts) => Ok([t] + ts)
        case Err(m) => Err(m)
  }

  /** The failure reported is the one of the first failing page. */
  lemma {:induction false} TranslatePagesFirstFailure(pages: seq<string>, translate: string -> PageOutcome)
    requires TranslatePages(pages, translate).Err?
    ensures exists i :: (0 <= i < |pages| && translate(pages[i]) == Failed(TranslatePages(pages, translate).message) &&
      forall j :: 0 <= j < i ==> translate(pages[j]).Translated?)
    decreases |pages|
  {
    if translate(pages[0]).Translated? {
      var rest := pages[1..];
      TranslatePagesFirstFailure(rest, translate);
      var k :| 0 <= k < |rest| && translate(rest[k]) == Failed(TranslatePages(rest, translate).message) &&
        forall j :: 0 <= j < k ==> translate(rest[j]).Translated?;
      assert forall j :: 0 <= j < k + 1 ==> translate(pages[j]).Translated? by {
        forall j | 0 <= j < k + 1 ensures translate(pages[j]).Translated? {
          if j > 0 { assert pages[j] == rest[j - 1]; }
        }
      }
      assert pages[k + 1] == rest[k];
    }
  }

  /** The OpenAI task: a thrown error fails the page; a missing or empty
      message content becomes the fallback text. */
  function OpenAIOutcome(reply: ChatReply): (r: PageOutcome)
    ensures reply.ChatFailed? <==> r.Failed?
    ensures reply.ChatFailed? ==> r == Failed(reply.message)
    ensures reply.ChatCompleted? ==>
      r == Translated(if Truthy(reply.content) then reply.content.value else PageFallback)
    ensures r.Translated? ==> r.text != ""
  {
    match reply
    case ChatFailed(m) => Failed(m)
    case ChatCompleted(c) => Translated(OrElse(c, PageFallback))
  }

  /** The DeepLX task: a thrown error, a status outside 200-299, a body
      that cannot be read as JSON or a `null` body fails the page; a missing or empty `data`
      field becomes the fallback text. */
  function DeepLOutcome(reply: DeepLReply): (r: PageOutcome)
    ensures r.Failed? <==>
      reply.DeepLUnreachable? || reply.DeepLUnreadable? || reply.DeepLNullBody? ||
      !(200 <= reply.status < 300)
    ensures !reply.DeepLAnswered? ==> r == Failed(reply.message)
    ensures reply.DeepLAnswered? && !(200 <= reply.status < 300) ==>
      r.message == "DeepL translation failed: " + IntToDecimal(reply.status)
    ensures reply.DeepLAnswered? && 200 <= reply.status < 300 ==>
      r.text == (if Truthy(reply.data) then reply.data.value else PageFallback)
    ensures r.Translated? ==> r.text != ""
  {
    match reply
    case DeepLUnreachable(m) => Failed(m)
    case DeepLUnreadable(m) => Failed(m)
    case DeepLNullBody(m) => Failed(m)
    case DeepLAnswered(status, data) =>
      if !(200 <= status < 300) then Failed("DeepL translation failed: " + IntToDecimal(status))
      else Translated(OrElse(data, PageFallback))
  }

  /** The target language, `'ZH'` when the field is absent; a value that is
      present is kept, even an empty one. */
  function TargetLanguage(q: Request): (r: string)
    ensures q.targetLanguage.None? ==> r == DefaultTargetLanguage
    ensures q.targetLanguage.Some? ==> r == q.targetLanguage.value
  {
    if q.targetLanguage.Some? then q.targetLanguage.value else DefaultTargetLanguage
  }

  /** The chat call made for one page. */
  function ChatCall(q: Request, page: string): (r: ChatRequest)
    requires q.openaiApiKey.Some?
    ensures r.pageText == page && r.apiKey == q.openaiApiKey.value && r.model == q.openaiModel
    ensures r.baseUrl == (if Truthy(q.openaiBaseUrl) then q.openaiBaseUrl.value else OpenAIDefaultBaseUrl)
    ensures r.baseUrl != ""
    // the system prompt names the request's target language
    ensures r.languageName == LanguageName(TargetLanguage(q))
  {
    ChatRequest(q.openaiApiKey.value, OrElse(q.openaiBaseUrl, OpenAIDefaultBaseUrl),
                q.openaiModel, LanguageName(TargetLanguage(q)), page)
  }

  /** The DeepLX call made for one page; the key is part of the URL. */
  function DeepLCall(q: Request, page: string): (r: DeepLRequest)
    requires q.deeplxApiKey.Some?
    ensures r.text == page && r.sourceLang == "auto"
    ensures r.targetLang == TargetLanguage(q)
    ensures StartsWith(r.url, "https://api.deeplx.org/") && EndsWith(r.url, "/translate")
    ensures Contains(r.url, q.deeplxApiKey.value)
    // the key is what lies between the host and the path
    ensures |r.url| == 33 + |q.deeplxApiKey.value|
    ensures r.url[23..|r.url| - 10] == q.deeplxApiKey.value
  {
    var url := "https://api.deeplx.org/" + q.deeplxApiKey.value + "/translate";
    assert OccursAt(url, q.deeplxApiKey.value, 23);
    DeepLRequest(url, page, "auto", TargetLanguage(q))
  }

  /** The work each page gets with OpenAI selected. */
  function OpenAITask(q: Request, chat: ChatRequest -> ChatReply): string -> PageOutcome
    requires q.openaiApiKey.Some?
  {
    page => OpenAIOutcome(chat(ChatCall(q, page)))
  }

  /** The work each page gets with DeepLX selected. */
  function DeepLTask(q: Request, deepl: DeepLRequest -> DeepLReply): string -> PageOutcome
    requires q.deeplxApiKey.Some?
  {
    page => DeepLOutcome(deepl(DeepLCall(q, page)))
  }

  /** Completes the route: the translated pages with status 200, or the
      first page's error with status 500. */
  function Finish(t: Result<seq<string>>): (r: Response)
    ensures r.status == 200 <==> t.Ok?
    ensures t.Ok? ==> r.body == TranslatedBody(t.value)
    ensures t.Err? ==> r == Response(500, ErrorBody(t.message))
  {
    match t
    case Ok(ts) => Response(200, TranslatedBody(ts))
    case Err(m) => Response(500, ErrorBody(m))
  }

  /** The route handler. */
  function HandleTranslate(payload: Payload, chat: ChatRequest -> ChatReply, deepl: DeepLRequest -> DeepLReply): (r: Response)
    ensures r.status in {200, 400, 500}
    ensures r.status == 200 <==> r.body.TranslatedBody?
    // a body that is not JSON is answered from the handler's catch
    ensures payload.Unparsable? ==> r == Response(500, ErrorBody(payload.message))
    // content is checked first, whatever the engine
    ensures payload.Json? && !Truthy(payload.request.content) ==>
      r == Response(400, ErrorBody("Content is required"))
    // a success answers one text per page of the split content
    ensures r.status == 200 ==>
      payload.Json? && Truthy(payload.request.content) &&
      |r.body.translatedPages| == |Split(payload.request.content.value, PageSeparator)|
  {
    match payload
    case Unparsable(m) => Response(500, ErrorBody(m))
    case Json(q) =>
      if !Truthy(q.content) then Response(400, ErrorBody("Content is required"))
      else
        var pages := Split(q.content.value, PageSeparator);
        if q.engine == Some("openai") then
          if !Truthy(q.openaiApiKey) then Response(400, ErrorBody("OpenAI API key is required"))
          else Finish(TranslatePages(pages, OpenAITask(q, chat)))
        else if q.engine == Some("deeplx") then
          if !Truthy(q.deeplxApiKey) then Response(400, ErrorBody("Deeplx API key is required"))
          else Finish(TranslatePages(pages, DeepLTask(q, deepl)))
        else Response(400, ErrorBody("Invalid translation engine"))
  }

  /** The three engine checks: a 400 for OpenAI without its key, for DeepLX
      without its key, and for any other engine value. */
  lemma EngineValidation(q: Request, chat: ChatRequest -> ChatReply, deepl: DeepLRequest -> DeepLReply)
    requires Truthy(q.content)
    ensures var r := HandleTranslate(Json(q), chat, deepl);
      && (q.engine == Some("openai") && !Truthy(q.openaiApiKey) ==> r == Response(400, ErrorBody("OpenAI API key is required")))
      && (q.engine == Some("deeplx") && !Truthy(q.deeplxApiKey) ==> r == Response(400, ErrorBody("Deeplx API key is required")))
      && (q.engine != Some("openai") && q.engine != Some("deeplx") ==> r == Response(400, ErrorBody("Invalid translation engine")))
      && (r.status == 400 <==>
           (q.engine == Some("openai") && !Truthy(q.openaiApiKey)) ||
           (q.engine == Some("deeplx") && !Truthy(q.deeplxApiKey)) ||
           (q.engine != Some("openai") && q.engine != Some("deeplx")))
  {
  }

  /** With OpenAI selected, page i of the answer is derived from page i of
      the split content alone: the reply's content for that page's call, or
      the fallback text, never empty; any thrown call makes the whole answer
      a 500. */
  lemma OpenAIPagesInOrder(q: Request, chat: ChatRequest -> ChatReply, deepl: DeepLRequest -> DeepLReply)
    requires Truthy(q.content) && q.engine == Some("openai") && Truthy(q.openaiApiKey)
    ensures HandleTranslate(Json(q), chat, deepl).status == 500 <==>
      exists i :: 0 <= i < |Split(q.content.value, PageSeparator)| &&
        chat(ChatCall(q, Split(q.content.value, PageSeparator)[i])).ChatFailed?
    ensures var pages := Split(q.content.value, PageSeparator);
      var r := HandleTranslate(Json(q), chat, deepl);
      r.status == 200 ==>
        |r.body.translatedPages| == |pages| &&
        forall i :: 0 <= i < |pages| ==>
          && chat(ChatCall(q, pages[i])).ChatCompleted?
          && r.body.translatedPages[i] == OrElse(chat(ChatCall(q, pages[i])).content, PageFallback)
          && r.body.translatedPages[i] != ""
  {
    var pages := Split(q.content.value, PageSeparator);
    var task := OpenAITask(q, chat);
    var t := TranslatePages(pages, task);
    assert HandleTranslate(Json(q), chat, deepl) == Finish(t);
    forall i | 0 <= i < |pages|
      ensures task(pages[i]) == OpenAIOutcome(chat(ChatCall(q, pages[i])))
    {
    }
    if t.Err? {
      var i :| 0 <= i < |pages| && task(pages[i]) == Failed(t.message);
      assert chat(ChatCall(q, pages[i])).ChatFailed?;
      assert HandleTranslate(Json(q), chat, deepl).status == 500;
      assert exists k ::
        (0 <= k < |Split(q.content.value, PageSeparator)| &&
         chat(ChatCall(q, Split(q.content.value, PageSeparator)[k])).ChatFailed?);
    } else {
      forall i | 0 <= i < |pages|
        ensures chat(ChatCall(q, pages[i])).ChatCompleted?
      {
        assert task(pages[i]).Translated?;
      }
    }
  }

  /** With DeepLX selected, one page answered with a non-success status (or
      unreachable) fails the whole request with a 500; no partial list is
      answered. Otherwise page i of the answer comes from page i's call. */
  lemma DeepLAllOrNothing(q: Request, chat: ChatRequest -> ChatReply, deepl: DeepLRequest -> DeepLReply)
    requires Truthy(q.content) && q.engine == Some("deeplx") && Truthy(q.deeplxApiKey)
    ensures HandleTranslate(Json(q), chat, deepl).status == 500 <==>
      exists i :: 0 <= i < |Split(q.content.value, PageSeparator)| &&
        DeepLOutcome(deepl(DeepLCall(q, Split(q.content.value, PageSeparator)[i]))).Failed?
    ensures var pages := Split(q.content.value, PageSeparator);
      var r := HandleTranslate(Json(q), chat, deepl);
      r.status == 200 ==>
        |r.body.translatedPages| == |pages| &&
        forall i :: 0 <= i < |pages| ==>
          && deepl(DeepLCall(q, pages[i])).DeepLAnswered?
          && 200 <= deepl(DeepLCall(q, pages[i])).status < 300
          && r.body.translatedPages[i] == OrElse(deepl(DeepLCall(q, pages[i])).data, PageFallback)
          && r.body.translatedPages[i] != ""
  {
    var pages := Split(q.content.value, PageSeparator);
    var task := DeepLTask(q, deepl);
    var t := TranslatePages(pages, task);
    assert HandleTranslate(Json(q), chat, deepl) == Finish(t);
    forall i | 0 <= i < |pages|
      ensures task(pages[i]) == DeepLOutcome(deepl(DeepLCall(q, pages[i])))
    {
    }
    if t.Err? {
      var i :| 0 <= i < |pages| && task(pages[i]) == Failed(t.message);
      assert DeepLOutcome(deepl(DeepLCall(q, pages[i]))).Failed?;
      assert exists k ::
        (0 <= k < |Split(q.content.value, PageSeparator)| &&
         DeepLOutcome(deepl(DeepLCall(q, Split(q.content.value, PageSeparator)[k]))).Failed?);
    } else {
      forall i | 0 <= i < |pages|
        ensures !DeepLOutcome(deepl(DeepLCall(q, pages[i]))).Failed?
      {
        assert task(pages[i]).Translated?;
      }
    }
  }
}
