/** How the page and the routes fit together: the translation request the
    page builds, answered by the translation route and read back by the
    page; and the upload the image tab makes, answered by the upload
    route. */
module Pipeline {
  import opened JsText
  import opened Protocol
  import opened PageModel
  import opened TranslateRoute
  import UploadRoute
  import opened Home

  /** With OpenAI selected and pages the separator cannot confuse, the route
      sees exactly the page's markdowns; the page receives texts exactly when
      every page's chat call completed, and then page i shows the reply to
      page i's own call, or the route's fallback text; the page's own
      placeholder is never substituted. */
  lemma OpenAITranslationEndToEnd(
    pages: seq<Page>, openaiApiKey: string, openaiBaseUrl: string, openaiModel: string,
    deeplxApiKey: string, targetLanguage: string,
    chat: ChatRequest -> ChatReply, deepl: DeepLRequest -> DeepLReply)
    requires openaiApiKey != "" && |pages| >= 1 && TranslationContent(pages) != ""
    requires forall i :: 0 <= i < |pages| - 1 ==> Delimited(pages[i].markdown, PageSeparator)
    requires !Contains(pages[|pages| - 1].markdown, PageSeparator)
    ensures var q := TranslateRequestFor(OpenAI, openaiApiKey, openaiBaseUrl, openaiModel, deeplxApiKey, pages, targetLanguage);
      var reply := TranslateReplyOf(HandleTranslate(Json(q), chat, deepl));
      && Split(q.content.value, PageSeparator) == Markdowns(pages)
      && (reply.Received? <==> forall i :: 0 <= i < |pages| ==> chat(ChatCall(q, pages[i].markdown)).ChatCompleted?)
      && (reply.Received? ==> forall i :: 0 <= i < |pages| ==>
            RepairTranslated(pages, reply.data)[i].markdown ==
              OrElse(chat(ChatCall(q, pages[i].markdown)).content, PageFallback))
  {
    var q := TranslateRequestFor(OpenAI, openaiApiKey, openaiBaseUrl, openaiModel, deeplxApiKey, pages, targetLanguage);
    SplitJoin(Markdowns(pages), PageSeparator);
    OpenAIReceivedIff(q, pages, chat, deepl);
    OpenAIReceivedTexts(q, pages, chat, deepl);
  }

  lemma OpenAIReceivedIff(q: Request, pages: seq<Page>, chat: ChatRequest -> ChatReply, deepl: DeepLRequest -> DeepLReply)
    requires Truthy(q.content) && q.engine == Some("openai") && Truthy(q.openaiApiKey)
    requires Split(q.content.value, PageSeparator) == Markdowns(pages)
    ensures TranslateReplyOf(HandleTranslate(Json(q), chat, deepl)).Received? <==>
      forall i :: 0 <= i < |pages| ==> chat(ChatCall(q, pages[i].markdown)).ChatCompleted?
  {
    var ms := Markdowns(pages);
    EngineValidation(q, chat, deepl);
    OpenAIPagesInOrder(q, chat, deepl);
    if HandleTranslate(Json(q), chat, deepl).status != 200 {
      var i :| 0 <= i < |ms| && chat(ChatCall(q, ms[i])).ChatFailed?;
      assert ms[i] == pages[i].markdown;
    }
  }

  lemma OpenAIReceivedTexts(q: Request, pages: seq<Page>, chat: ChatRequest -> ChatReply, deepl: DeepLRequest -> DeepLReply)
    requires Truthy(q.content) && q.engine == Some("openai") && Truthy(q.openaiApiKey)
    requires Split(q.content.value, PageSeparator) == Markdowns(pages)
    ensures var reply := TranslateReplyOf(HandleTranslate(Json(q), chat, deepl));
      reply.Received? ==> forall i :: 0 <= i < |pages| ==>
        RepairTranslated(pages, reply.data)[i].markdown == OrElse(chat(ChatCall(q, pages[i].markdown)).content, PageFallback)
  {
    var ms := Markdowns(pages);
    OpenAIPagesInOrder(q, chat, deepl);
    var r := HandleTranslate(Json(q), chat, deepl);
    if r.status == 200 {
      forall i | 0 <= i < |pages|
        ensures RepairTranslated(pages, TranslateReplyOf(r).data)[i].markdown ==
          OrElse(chat(ChatCall(q, pages[i].markdown)).content, PageFallback)
      {
        assert ms[i] == pages[i].markdown;
      }
    }
  }

  /** The same for DeepLX: texts arrive exactly when every page's call
      answered with a success status, and page i shows page i's answer or
      the route's fallback text. */
  lemma DeepLTranslationEndToEnd(
    pages: seq<Page>, openaiApiKey: string, openaiBaseUrl: string, openaiModel: string,
    deeplxApiKey: string, targetLanguage: string,
    chat: ChatRequest -> ChatReply, deepl: DeepLRequest -> DeepLReply)
    requires deeplxApiKey != "" && |pages| >= 1 && TranslationContent(pages) != ""
    requires forall i :: 0 <= i < |pages| - 1 ==> Delimited(pages[i].markdown, PageSeparator)
    requires !Contains(pages[|pages| - 1].markdown, PageSeparator)
    ensures var q := TranslateRequestFor(DeepLX, openaiApiKey, openaiBaseUrl, openaiModel, deeplxApiKey, pages, targetLanguage);
      var reply := TranslateReplyOf(HandleTranslate(Json(q), chat, deepl));
      && Split(q.content.value, PageSeparator) == Markdowns(pages)
      && (reply.Received? <==> forall i :: 0 <= i < |pages| ==> !DeepLOutcome(deepl(DeepLCall(q, pages[i].markdown))).Failed?)
      && (reply.Received? ==> forall i :: 0 <= i < |pages| ==>
            RepairTranslated(pages, reply.data)[i].markdown ==
              OrElse(deepl(DeepLCall(q, pages[i].markdown)).data, PageFallback))
  {
    var q := TranslateRequestFor(DeepLX, openaiApiKey, openaiBaseUrl, openaiModel, deeplxApiKey, pages, targetLanguage);
    SplitJoin(Markdowns(pages), PageSeparator);
    DeepLReceivedIff(q, pages, chat, deepl);
    DeepLReceivedTexts(q, pages, chat, deepl);
  }

  lemma DeepLReceivedIff(q: Request, pages: seq<Page>, chat: ChatRequest -> ChatReply, deepl: DeepLRequest -> DeepLReply)
    requires Truthy(q.content) && q.engine == Some("deeplx") && Truthy(q.deeplxApiKey)
    requires Split(q.content.value, PageSeparator) == Markdowns(pages)
    ensures TranslateReplyOf(HandleTranslate(Json(q), chat, deepl)).Received? <==>
      forall i :: 0 <= i < |pages| ==> !DeepLOutcome(deepl(DeepLCall(q, pages[i].markdown))).Failed?
  {
    var ms := Markdowns(pages);
    EngineValidation(q, chat, deepl);
    DeepLAllOrNothing(q, chat, deepl);
    if HandleTranslate(Json(q), chat, deepl).status != 200 {
      var i :| 0 <= i < |ms| && DeepLOutcome(deepl(DeepLCall(q, ms[i]))).Failed?;
      assert ms[i] == pages[i].markdown;
    }
  }

  lemma DeepLReceivedTexts(q: Request, pages: seq<Page>, chat: ChatRequest -> ChatReply, deepl: DeepLRequest -> DeepLReply)
    requires Truthy(q.content) && q.engine == Some("deeplx") && Truthy(q.deeplxApiKey)
    requires Split(q.content.value, PageSeparator) == Markdowns(pages)
    ensures var reply := TranslateReplyOf(HandleTranslate(Json(q), chat, deepl));
      reply.Received? ==> forall i :: 0 <= i < |pages| ==>
        RepairTranslated(pages, reply.data)[i].markdown == OrElse(deepl(DeepLCall(q, pages[i].markdown)).data, PageFallback)
  {
    var ms := Markdowns(pages);
    DeepLAllOrNothing(q, chat, deepl);
    var r := HandleTranslate(Json(q), chat, deepl);
    if r.status == 200 {
      forall i | 0 <= i < |pages|
        ensures RepairTranslated(pages, TranslateReplyOf(r).data)[i].markdown ==
          OrElse(deepl(DeepLCall(q, pages[i].markdown)).data, PageFallback)
      {
        assert ms[i] == pages[i].markdown;
      }
    }
  }

  /** A result without text (no pages, or one empty page) is sent anyway and
      refused by the route; the page then only shows its generic message,
      since it looks for `message` where the route writes `error`. */
  lemma EmptyDocumentRefused(
    pages: seq<Page>, engine: Engine, openaiApiKey: string, openaiBaseUrl: string, openaiModel: string,
    deeplxApiKey: string, targetLanguage: string,
    chat: ChatRequest -> ChatReply, deepl: DeepLRequest -> DeepLReply)
    requires |pages| == 0 || (|pages| == 1 && pages[0].markdown == "")
    ensures var q := TranslateRequestFor(engine, openaiApiKey, openaiBaseUrl, openaiModel, deeplxApiKey, pages, targetLanguage);
      var reply := TranslateReplyOf(HandleTranslate(Json(q), chat, deepl));
      && HandleTranslate(Json(q), chat, deepl) == Response(400, ErrorBody("Content is required"))
      && reply == Refused(None)
      && ErrorMessage(reply, "Failed to translate content") == "Failed to translate content"
  {
    EmptyContent(pages);
  }

  /** The upload of an image tab: the page receives a URL exactly when the
      route stored the object, and that URL is the non-empty public URL of
      the object's key, so the OCR call goes ahead with it; a refusal carries
      the route's message. */
  lemma UploadEndToEnd(env: UploadRoute.Env, file: UploadRoute.UploadFile, uuid: string,
                       send: UploadRoute.PutObject -> Option<string>)
    ensures var out := UploadRoute.HandleUpload(env, UploadRoute.Parsed(Some(file)), uuid, send);
      var reply := UploadReplyOf(out.response);
      && (reply.Received? <==> out.put.Some? && send(out.put.value).None?)
      && (reply.Received? ==>
            UploadRoute.Configured(env) &&
            reply.data == UploadRoute.PublicUrl(env, UploadRoute.ObjectKey(env, uuid, file.mimeType)) &&
            reply.data != "")
      && (!reply.Received? ==> reply.Refused? && reply.message.Some?)
  {
    var out := UploadRoute.HandleUpload(env, UploadRoute.Parsed(Some(file)), uuid, send);
    if out.response.status == 200 {
      var url := out.response.body.imageUrl;
      var key := UploadRoute.ObjectKey(env, uuid, file.mimeType);
      assert EndsWith(url, "/" + key);
    }
  }

  /** The page's image check is looser than the route's: every type the
      route takes mentions `image`, but a type such as `text/image` passes
      the page and is refused by a configured route. */
  lemma ImageTypeChecks(t: string, env: UploadRoute.Env, uuid: string,
                        send: UploadRoute.PutObject -> Option<string>)
    requires UploadRoute.Configured(env)
    ensures StartsWith(t, UploadRoute.ImageTypePrefix) ==> Contains(t, "image")
    ensures var f := UploadRoute.UploadFile("text/image", []);
      && Contains(f.mimeType, "image")
      && UploadRoute.HandleUpload(env, UploadRoute.Parsed(Some(f)), uuid, send).response ==
           UploadRoute.Response(400, UploadRoute.Message("File must be an image"))
  {
    if StartsWith(t, UploadRoute.ImageTypePrefix) {
      assert t[0..5] == "image";
      assert OccursAt(t, "image", 0);
    }
    var m := "text/image";
    assert m[5..10] == "image";
    assert OccursAt(m, "image", 5);
    assert m[0] != UploadRoute.ImageTypePrefix[0];
  }
}
