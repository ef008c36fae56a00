/** The browser page's component state and its handlers: file selection
    with its type checks, the upload-then-OCR chain, translation of the
    current result, and the archive export. Every call to the application's
    own routes is returned as a `Call`, and what the client makes of the
    response is a `Reply` parameter. */
module Home {
  import opened JsText
  import opened Protocol
  import opened PageModel
  import TranslateRoute
  import UploadRoute

  /** A file picked in the browser: its MIME type and its bytes. */
  type File = UploadRoute.UploadFile

  /** The three input tabs. */
  datatype Mode = UrlMode | FileMode | ImageMode

  datatype Engine = OpenAI | DeepLX

  function EngineName(e: Engine): string {
    match e
    case OpenAI => "openai"
    case DeepLX => "deeplx"
  }

  /** What the client makes of one call: the JSON of an ok response, the
      `message` field of a non-ok response (absent when missing), or an
      exception (network failure, unreadable body). */
  datatype Reply<+T> = Received(data: T) | Refused(message: Option<string>) | Threw(error: string)

  /** The message of the error a failed call ends in: a refusal's message,
      or `fallback` when it has none; an exception's own message. */
  function ErrorMessage<T>(reply: Reply<T>, fallback: string): (r: string)
    requires !reply.Received?
    ensures fallback != "" ==> r != "" || reply.Threw?
  {
    if reply.Refused? then OrElse(reply.message, fallback) else reply.error
  }

  /** The calls the page makes to the application's own routes. */
  datatype Call =
    | UploadImage(file: File)
    | ProcessUrl(apiKey: string, documentUrl: string)
    | ProcessFile(file: File, apiKey: string)
    | ProcessImage(apiKey: string, imageUrl: string)
    | Translate(request: TranslateRoute.Request)

  predicate IsOcrCall(c: Call) {
    c.ProcessUrl? || c.ProcessFile? || c.ProcessImage?
  }

  /** How a handler ends: returning before doing anything, succeeding, or
      catching an error with its message. */
  datatype Outcome = Idle | Succeeded | Failed(message: string)

  /** The file the export saves. */
  datatype Download = Download(fileName: string, archive: Archive)

  const InvalidPdfMessage: string := "Invalid file type. Please upload a PDF file."
  const InvalidImageMessage: string := "Invalid file type. Please upload a image file."

  /** The JSON body of the translation call; the settings of the engine not
      selected are left out (`undefined`). */
  function TranslateRequestFor(
    engine: Engine, openaiApiKey: string, openaiBaseUrl: string, openaiModel: string,
    deeplxApiKey: string, pages: seq<Page>, targetLanguage: string): (r: TranslateRoute.Request)
    // the engine sent is one the route knows, and only its settings go along
    ensures r.engine == Some("openai") <==> engine == OpenAI
    ensures r.engine == Some("deeplx") <==> engine == DeepLX
    ensures r.openaiApiKey.Some? && r.openaiBaseUrl.Some? && r.openaiModel.Some? <==> engine == OpenAI
    ensures r.openaiApiKey.Some? || r.openaiBaseUrl.Some? || r.openaiModel.Some? <==> engine == OpenAI
    ensures r.deeplxApiKey.Some? <==> engine == DeepLX
    ensures engine == OpenAI ==>
      r.openaiApiKey == Some(openaiApiKey) && r.openaiBaseUrl == Some(openaiBaseUrl) && r.openaiModel == Some(openaiModel)
    ensures engine == DeepLX ==> r.deeplxApiKey == Some(deeplxApiKey)
    ensures r.content == Some(TranslationContent(pages)) && r.targetLanguage == Some(targetLanguage)
  {
    var openai := engine == OpenAI;
    TranslateRoute.Request(
      Some(EngineName(engine)),
      if openai then Some(openaiApiKey) else None,
      if openai then Some(openaiBaseUrl) else None,
      if openai then Some(openaiModel) else None,
      if !openai then Some(deeplxApiKey) else None,
      Some(TranslationContent(pages)),
      Some(targetLanguage))
  }

  /** The client's reading of a translation response: the pages of a
      success; otherwise no `message`, since the route reports errors in a
      field named `error`. */
  function TranslateReplyOf(resp: TranslateRoute.Response): (r: Reply<seq<string>>)
    ensures r.Received? <==> resp.status == 200 && resp.body.TranslatedBody?
    ensures r.Received? ==> r.data == resp.body.translatedPages
    // a refusal never carries a message, whatever the route wrote
    ensures !r.Received? ==> r == Refused(None)
  {
    if resp.status == 200 && resp.body.TranslatedBody? then Received(resp.body.translatedPages) else Refused(None)
  }

  /** The client's reading of an upload response: the URL of a success;
      otherwise the route's `message`, which does reach the page. */
  function UploadReplyOf(resp: UploadRoute.Response): (r: Reply<string>)
    ensures r.Received? <==> resp.status == 200 && resp.body.Uploaded?
    ensures r.Received? ==> r.data == resp.body.imageUrl
    ensures !r.Received? ==> r.Refused? && (resp.body.Message? <==> r.message.Some?)
    ensures !r.Received? && resp.body.Message? ==> r.message.value == resp.body.message
  {
    if resp.status == 200 && resp.body.Uploaded? then Received(resp.body.imageUrl)
    else Refused(if resp.body.Message? then Some(resp.body.message) else None)
  }

  /** What the result list shows of a page: its index, its length in
      characters, its first characters, and whether more follow. */
  datatype PageView = PageView(index: int, length: nat, preview: string, truncated: bool)

  const PreviewLength: nat := 250

  /** `markdown.substring(0, 250)`: a prefix of at most 250 characters, the
      whole text exactly when it is no longer than that. */
  function Preview(s: string): (r: string)
    ensures |r| <= PreviewLength && |r| <= |s| && r == s[..|r|]
    ensures r == s <==> |s| <= PreviewLength
    ensures |s| > PreviewLength ==> |r| == PreviewLength
  {
    if |s| <= PreviewLength then s else s[..PreviewLength]
  }

  /** A page as listed: the `... (click to expand)` mark appears exactly when
      the preview leaves something out. */
  function ViewOf(p: Page): (v: PageView)
    ensures v.index == p.index && v.length == |p.markdown|
    ensures v.preview == Preview(p.markdown)
    ensures v.truncated <==> v.preview != p.markdown
  {
    PageView(p.index, |p.markdown|, Preview(p.markdown), |p.markdown| > PreviewLength)
  }

  function Views(ps: seq<Page>): (r: seq<PageView>)
    ensures |r| == |ps| && forall i :: 0 <= i < |ps| ==> r[i] == ViewOf(ps[i])
  {
    seq(|ps|, i requires 0 <= i < |ps| => ViewOf(ps[i]))
  }

  class HomePage {
    var apiKey: string
    var pdfUrl: string
    var file: Option<File>
    var imageUrl: string
    var imageFile: Option<File>
    var result: Option<seq<Page>>
    var translatedResult: Option<seq<Page>>
    /** The message of the error banner, if one is shown. */
    var alert: Option<string>
    var translationEngine: Engine
    var openaiApiKey: string
    var openaiBaseUrl: string
    var openaiModel: string
    var deeplxApiKey: string
    var targetLanguage: string

    constructor ()
      ensures apiKey == "" && pdfUrl == "" && file.None? && imageUrl == "" && imageFile.None?
      ensures result.None? && translatedResult.None? && alert.None?
      ensures translationEngine == OpenAI && openaiApiKey == "" && deeplxApiKey == ""
      ensures openaiBaseUrl == "https://api.openai.com/v1" && openaiModel == "gpt-4o"
      ensures targetLanguage == "ZH"
    {
      apiKey, pdfUrl, file, imageUrl, imageFile := "", "", None, "", None;
      result, translatedResult, alert := None, None, None;
      translationEngine, openaiApiKey, deeplxApiKey := OpenAI, "", "";
      openaiBaseUrl, openaiModel := "https://api.openai.com/v1", "gpt-4o";
      targetLanguage := "ZH";
    }

    /** Picking a document: only a type mentioning `pdf` is taken; anything
        else raises the error banner and keeps the previous file. */
    method HandleFileChange(selected: Option<File>)
      modifies this`file, this`alert
      ensures selected.None? ==> file == old(file) && alert == old(alert)
      ensures selected.Some? && Contains(selected.value.mimeType, "pdf") ==>
        file == selected && alert == old(alert)
      ensures selected.Some? && !Contains(selected.value.mimeType, "pdf") ==>
        file == old(file) && alert == Some(InvalidPdfMessage)
    {
      if selected.Some? {
        if !Contains(selected.value.mimeType, "pdf") {
          alert := Some(InvalidPdfMessage);
          return;
        }
        file := selected;
      }
    }

    /** Picking an image: only a type mentioning `image` is taken. */
    method HandleImageFileChange(selected: Option<File>)
      modifies this`imageFile, this`alert
      ensures selected.None? ==> imageFile == old(imageFile) && alert == old(alert)
      ensures selected.Some? && Contains(selected.value.mimeType, "image") ==>
        imageFile == selected && alert == old(alert)
      ensures selected.Some? && !Contains(selected.value.mimeType, "image") ==>
        imageFile == old(imageFile) && alert == Some(InvalidImageMessage)
    {
      if selected.Some? {
        if !Contains(selected.value.mimeType, "image") {
          alert := Some(InvalidImageMessage);
          return;
        }
        imageFile := selected;
      }
    }

    method ClearFile()
      modifies this`file
      ensures file.None?
    {
      file := None;
    }

    /** Clearing the image also clears its URL, so the next image run uploads
        again. */
    method ClearImageFile()
      modifies this`imageFile, this`imageUrl
      ensures imageFile.None? && imageUrl == ""
    {
      imageFile := None;
      imageUrl := "";
    }

    /** The reset button drops the result; the translated result stays. */
    method ClearResults()
      modifies this`result
      ensures result.None?
    {
      result := None;
    }

    /** Uploads the selected image, if any; a received URL is stored in the
        image URL field and returned, anything else yields no URL. */
    method UploadImageToS3(reply: Reply<string>) returns (url: Option<string>, calls: seq<Call>)
      modifies this`imageUrl
      ensures imageFile.None? ==> calls == []
      ensures imageFile.Some? ==> calls == [UploadImage(imageFile.value)]
      ensures imageFile.Some? && reply.Received? ==> url == Some(reply.data) && imageUrl == reply.data
      ensures !(imageFile.Some? && reply.Received?) ==> url.None? && imageUrl == old(imageUrl)
    {
      url, calls := None, [];
      if imageFile.None? {
        return;
      }
      calls := [UploadImage(imageFile.value)];
      if reply.Received? {
        imageUrl := reply.data;
        url := Some(reply.data);
      }
    }

    /** The process button of one tab. Without an API key nothing happens.
        The URL and file tabs need their input; the image tab first uploads a
        selected image when no URL is set, and stops when that yields no URL.
        Then exactly one OCR call is made, and only its success replaces the
        result and drops the translated result. */
    method HandleProcessDocument(mode: Mode, upload: Reply<string>, ocr: Reply<seq<Page>>)
      returns (calls: seq<Call>, outcome: Outcome)
      modifies this`imageUrl, this`result, this`translatedResult, this`alert
      ensures apiKey == "" ==> calls == [] && outcome == Idle && alert == old(alert)
      ensures apiKey != "" ==> alert.None?
      // which calls are made
      ensures apiKey != "" && mode == UrlMode ==>
        if pdfUrl == "" then calls == [] && outcome == Failed("PDF URL is required")
        else calls == [ProcessUrl(apiKey, pdfUrl)]
      ensures apiKey != "" && mode == FileMode ==>
        if file.None? then calls == [] && outcome == Failed("File is required")
        else calls == [ProcessFile(file.value, apiKey)]
      ensures apiKey != "" && mode == ImageMode && imageFile.Some? && old(imageUrl) == "" ==>
        if upload.Received? && upload.data != "" then
          calls == [UploadImage(imageFile.value), ProcessImage(apiKey, upload.data)]
        else calls == [UploadImage(imageFile.value)] && outcome == Failed("Failed to upload image")
      ensures apiKey != "" && mode == ImageMode && !(imageFile.Some? && old(imageUrl) == "") ==>
        if old(imageUrl) == "" then calls == [] && outcome == Failed("Image URL is required")
        else calls == [ProcessImage(apiKey, old(imageUrl))]
      ensures imageUrl ==
        if apiKey != "" && mode == ImageMode && imageFile.Some? && old(imageUrl) == "" && upload.Received?
        then upload.data else old(imageUrl)
      // what the OCR reply does
      ensures |calls| >= 1 && IsOcrCall(calls[|calls| - 1]) && ocr.Received? ==>
        outcome == Succeeded && result == Some(ocr.data) && translatedResult.None?
      ensures |calls| >= 1 && IsOcrCall(calls[|calls| - 1]) && !ocr.Received? ==>
        outcome == Failed(ErrorMessage(ocr, "Failed to process document"))
      ensures !(|calls| >= 1 && IsOcrCall(calls[|calls| - 1]) && ocr.Received?) ==>
        !outcome.Succeeded? && result == old(result) && translatedResult == old(translatedResult)
    {
      calls := [];
      if apiKey == "" {
        outcome := Idle;
        return;
      }
      alert := None;
      var call: Call;
      match mode {
        case UrlMode =>
          if pdfUrl == "" {
            outcome := Failed("PDF URL is required");
            return;
          }
          call := ProcessUrl(apiKey, pdfUrl);
        case FileMode =>
          if file.None? {
            outcome := Failed("File is required");
            return;
          }
          call := ProcessFile(file.value, apiKey);
        case ImageMode =>
          var finalImageUrl := imageUrl;
          if imageFile.Some? && imageUrl == "" {
            var url;
            url, calls := UploadImageToS3(upload);
            if !Truthy(url) {
              outcome := Failed("Failed to upload image");
              return;
            }
            finalImageUrl := url.value;
          }
          if finalImageUrl == "" {
            outcome := Failed("Image URL is required");
            return;
          }
          call := ProcessImage(apiKey, finalImageUrl);
      }
      calls := calls + [call];
      if !ocr.Received? {
        outcome := Failed(ErrorMessage(ocr, "Failed to process document"));
        return;
      }
      result := Some(ocr.data);
      translatedResult := None;
      outcome := Succeeded;
    }

    /** The translate button: with a result and the selected engine's key,
        sends the joined markdown and, on success, pairs the returned texts
        with the result's pages by position. */
    method TranslateMarkdown(reply: Reply<seq<string>>) returns (call: Option<Call>, outcome: Outcome)
      modifies this`translatedResult
      ensures var keyMissing :=
          (translationEngine == OpenAI && openaiApiKey == "") ||
          (translationEngine == DeepLX && deeplxApiKey == "");
        && (result.None? || keyMissing ==> call.None? && outcome == Idle && translatedResult == old(translatedResult))
        && (result.Some? && !keyMissing ==>
              && call == Some(Translate(TranslateRequestFor(translationEngine, openaiApiKey, openaiBaseUrl,
                                          openaiModel, deeplxApiKey, result.value, targetLanguage)))
              && (reply.Received? ==>
                    outcome == Succeeded && translatedResult == Some(RepairTranslated(result.value, reply.data)))
              && (!reply.Received? ==>
                    outcome == Failed(ErrorMessage(reply, "Failed to translate content")) &&
                    translatedResult == old(translatedResult)))
    {
      call, outcome := None, Idle;
      if result.None? {
        return;
      }
      if translationEngine == OpenAI && openaiApiKey == "" {
        return;
      } else if translationEngine == DeepLX && deeplxApiKey == "" {
        return;
      }
      var request := TranslateRequestFor(translationEngine, openaiApiKey, openaiBaseUrl,
                                         openaiModel, deeplxApiKey, result.value, targetLanguage);
      call := Some(Translate(request));
      if !reply.Received? {
        outcome := Failed(ErrorMessage(reply, "Failed to translate content"));
        return;
      }
      translatedResult := Some(RepairTranslated(result.value, reply.data));
      outcome := Succeeded;
    }

    /** Drawing the results card, which happens after every state change:
        with a result set and at least one page, its pages are sorted by
        index where they are stored and listed; then a translated result
        with pages is sorted where it is stored too and listed below. An
        empty result lists nothing and sorts nothing. */
    method Render() returns (shown: seq<PageView>, shownTranslated: seq<PageView>)
      modifies this`result, this`translatedResult
      ensures result == (if old(result).Some? then Some(SortByIndex(old(result).value)) else None)
      ensures translatedResult ==
        if old(result).Some? && |old(result).value| > 0 && old(translatedResult).Some? && |old(translatedResult).value| > 0
        then Some(SortByIndex(old(translatedResult).value)) else old(translatedResult)
      ensures shown == (if result.Some? then Views(result.value) else [])
      ensures shownTranslated ==
        if result.Some? && |result.value| > 0 && translatedResult.Some? then Views(translatedResult.value) else []
      // both lists read in ascending index order, one entry per page
      ensures forall i, j :: 0 <= i < j < |shown| ==> shown[i].index <= shown[j].index
      ensures forall i, j :: 0 <= i < j < |shownTranslated| ==> shownTranslated[i].index <= shownTranslated[j].index
    {
      shown, shownTranslated := [], [];
      if result.None? || |result.value| == 0 {
        return;
      }
      result := Some(SortByIndex(result.value));
      shown := Views(result.value);
      if translatedResult.Some? && |translatedResult.value| > 0 {
        translatedResult := Some(SortByIndex(translatedResult.value));
        shownTranslated := Views(translatedResult.value);
      }
    }

    /** The download buttons: sorts the chosen result's pages by index where
        they are stored, then builds the archive from them and the images of
        the original result as it is stored after that sort. */
    method DownloadMarkdownWithImages(translated: bool) returns (download: Option<Download>)
      modifies this`result, this`translatedResult
      ensures var chosen := if translated then old(translatedResult) else old(result);
        && (chosen.None? ==> download.None? && result == old(result) && translatedResult == old(translatedResult))
        && (chosen.Some? && translated ==>
              translatedResult == Some(SortByIndex(chosen.value)) && result == old(result))
        && (chosen.Some? && !translated ==>
              result == Some(SortByIndex(chosen.value)) && translatedResult == old(translatedResult))
        && (chosen.Some? ==>
              download == Some(Download(
                if translated then "ocr-results-translated.zip" else "ocr-results.zip",
                ArchiveOf(SortByIndex(chosen.value), result))))
    {
      var chosen := if translated then translatedResult else result;
      if chosen.None? {
        download := None;
        return;
      }
      var sorted := SortByIndex(chosen.value);
      if translated {
        translatedResult := Some(sorted);
      } else {
        result := Some(sorted);
      }
      var zip := AssembleArchive(sorted, result);
      download := Some(Download(if translated then "ocr-results-translated.zip" else "ocr-results.zip", zip));
    }
  }
}
