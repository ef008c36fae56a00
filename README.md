# Mistral OCR processor — a Dafny model of its own logic

The application is a Next.js page. It sends a document (a PDF URL, a PDF
file, or an image) to an OCR service and shows the recognised pages as
markdown. It can translate those pages with OpenAI or DeepLX, and it exports
a zip archive holding `document.md` and the page images. Three parts of its
own logic are modelled here:

- **The page** (`src/app/page.tsx`).
  - Module `PageModel` holds the value-level logic:
    - the translation request content: page markdowns joined with `"\n\n---\n\n"`;
    - the positional re-pairing of translated texts with pages, with the `"Translation failed for this page"` placeholder;
    - the export order: a stable sort by page index;
    - the `## Page {index}` chunks of `document.md`;
    - the data-URL prefix strip;
    - the archive as a map from entry name to payload, built by the loop method `AssembleArchive`.
  - Module `Home` holds the component state as the class `HomePage`. Its handlers are methods over that state:
    - file selection with its type checks;
    - the upload-then-OCR chain with its early exits;
    - translation of the current result;
    - the export, which sorts the chosen page list where it is stored;
    - drawing the results card (`Render`), which sorts the displayed lists where they are stored and shows a 250-character preview of each page. The page draws after every state change, so `Render` runs between handlers.
  - Every call to the application's own routes is returned as a `Call`. What the page makes of the response is a `Reply` parameter.
- **The translation route** (`src/app/api/translate/route.ts`), module `TranslateRoute`:
  - the validation order;
  - the split of the content on the same separator;
  - the per-page, order-preserving mapping with the `"Translation failed"` fallback;
  - the all-or-nothing failure;
  - the language-name table.
- **The upload route** (`src/app/api/upload-image/route.ts`), module `UploadRoute`:
  - configuration, file and MIME checks;
  - the extension and the object key;
  - the four public-URL schemes, in order of precedence.

Two further modules support these:

- `JsText` models the JavaScript semantics the code relies on:
  - truthiness;
  - `indexOf`, `includes`, `startsWith`;
  - `join`, and `split` with the leftmost, non-overlapping cut;
  - `${int}`.
- `Protocol` models the separator protocol shared by client and route.

`Pipeline` composes all of them: client request, then route, then client re-pairing.

The OpenAI chat call, the DeepLX endpoint, the S3 `PutObjectCommand`, the uuid and the multipart parse are function parameters. So are the OCR replies.

**Split and join do not round-trip for every separator-free page.**

- Splitting the joined content gives back the pages exactly when every page but the last is *delimited* (`Protocol.Delimited`) and the last page does not contain the separator.
- For this separator, a page is delimited exactly when:
  - it does not contain `"\n\n---\n\n"`, and
  - it does not end with `"\n\n---"` or `"\n\n---\n"` (`Protocol.PageDelimitedIff`).
- A page that ends in a horizontal rule after a blank line is cut early. The next page then receives the rule (`Protocol.SeparatorFreeIsNotEnough`). Such a page is ordinary markdown.

**Route errors never reach the page.**

- The translation route reports errors in a field named `error`.
- The page reads `message` from a failed response. So every translation refusal is shown as `"Failed to translate content"` (`Pipeline.EmptyDocumentRefused`, `Home.TranslateReplyOf`).
- The upload route writes `message`, so its errors do reach the page.

## Model

| member | source | states |
|---|---|---|
| JsText.IndexOf | src/app/api/translate/route.ts:26 | the position found is an occurrence at or after the start, and no earlier position is one |
| JsText.Split | src/app/api/translate/route.ts:26 | a split with a non-empty separator always yields at least one piece (`"".split(sep)` is `[""]`) |
| JsText.SplitPiecesSeparatorFree | src/app/api/translate/route.ts:26 | no piece of a split contains the separator |
| JsText.SplitHead | src/app/api/upload-image/route.ts:56 | the first piece is the text before the first occurrence of the separator, or the whole text |
| JsText.SplitSecond | src/app/page.tsx:304 | with the separator present there is a second piece, the first piece of the text after the first occurrence |
| JsText.JoinSplit | src/app/api/translate/route.ts:26 | joining the pieces of a split with the same separator gives back the text |
| JsText.DecimalRoundTrip | src/app/page.tsx:289 | reading back the decimal rendering of a natural number gives the number |
| JsText.IntToDecimalInjective | src/app/page.tsx:289 | distinct page indices render as distinct headings |
| JsText.NatToDecimal | src/app/page.tsx:289 | the decimal rendering is a non-empty digit string, with a leading `0` only for zero |
| JsText.IntToDecimal | src/app/page.tsx:289 | a rendering starts with `-` exactly for a negative index; non-negative ones are digits; a negative one is `-` and digits without a leading zero |
| JsText.JoinStarts | src/app/page.tsx:316 | a join opens with its first part and, with two or more parts, with the first part and the separator |
| JsText.JoinFinishes | src/app/page.tsx:316 | a join of at least one part closes with its last part |
| JsText.OrElse | src/app/api/translate/route.ts:62 | `x \|\| fallback` is empty exactly when `x` is not truthy and the fallback is empty; it is the value when truthy and the fallback otherwise |
| Protocol.DelimitedIsSeparatorFree | src/app/api/translate/route.ts:26 | a page containing the separator is not delimited |
| Protocol.SplitJoin | src/app/api/translate/route.ts:26 | the route's split inverts the page's join when every page but the last is delimited and the last has no separator |
| Protocol.PageDelimitedIff | src/app/api/translate/route.ts:26 | for `"\n\n---\n\n"`, delimited is exactly: no separator inside and no trailing `"\n\n---"` or `"\n\n---\n"` (both directions) |
| Protocol.DelimitedPageShape | src/app/api/translate/route.ts:26 | a delimited page has neither the separator nor one of its two self-overlapping prefixes at its end |
| Protocol.OverlapCompletes | src/app/api/translate/route.ts:26 | a page ending with the first five or six separator characters has an occurrence that starts inside it |
| Protocol.NoEarlyOccurrence | src/app/api/translate/route.ts:26 | in a separator-free page without those endings, no occurrence starts inside the page |
| Protocol.ShortOverlap | src/app/api/translate/route.ts:26 | a window overlapping the page by one to four characters is not an occurrence |
| Protocol.LongOverlap | src/app/api/translate/route.ts:26 | a window overlapping by five or six characters is one only for those endings |
| Protocol.SeparatorFreeIsNotEnough | src/app/api/translate/route.ts:26 | the pages `"a\n\n---"`, `"b"` contain no separator but split back as `"a"`, `"---\n\nb"` |
| TranslateRoute.LanguageName | src/app/api/translate/route.ts:119-132 | a known code gives its table name; an unknown code gives English; the result is always one of the eight names |
| TranslateRoute.LanguageNameInjective | src/app/api/translate/route.ts:120-129 | the eight codes name eight different languages |
| TranslateRoute.TranslatePages | src/app/api/translate/route.ts:44-66 | success exactly when every page translated; as many texts as pages, text i from page i; a failure carries the message of a failing page |
| TranslateRoute.TranslatePagesFirstFailure | src/app/api/translate/route.ts:66 | the reported failure is that of the first failing page, all before it translated |
| TranslateRoute.OpenAIOutcome | src/app/api/translate/route.ts:53-62 | a thrown call fails the page with its message; a completed one gives the reply content when it is present and non-empty, `'Translation failed'` otherwise, so never an empty text |
| TranslateRoute.DeepLOutcome | src/app/api/translate/route.ts:77-96 | a page fails exactly when the call throws, the status is not 2xx, or a 2xx body is not JSON or is `null`; a thrown error keeps its message and a bad status reads `DeepL translation failed: {status}`; a success shows `data`, or the fallback when it is missing or empty, never an empty text |
| TranslateRoute.TargetLanguage | src/app/api/translate/route.ts:15 | an absent target is `ZH`; a present one is kept, even when empty |
| TranslateRoute.ChatCall | src/app/api/translate/route.ts:38-60 | the chat call carries the page, the key and the model as given, the base URL or its OpenAI default (never empty), and the name `getLanguageName` gives the request's target language |
| TranslateRoute.DeepLCall | src/app/api/translate/route.ts:77-87 | the DeepLX call sends the page from `auto` to the target language, to a URL on `api.deeplx.org` ending in `/translate` from which the key reads back |
| TranslateRoute.Finish | src/app/api/translate/route.ts:100-114 | a 200 exactly for a complete translation, carrying its texts; a failure is a 500 with its message |
| TranslateRoute.HandleTranslate | src/app/api/translate/route.ts:5-116 | statuses are 200, 400 or 500; 200 exactly with the page list; a body that is not JSON is a 500 with the parse error; missing content is a 400 before any engine check; a 200 answers one text per split page |
| TranslateRoute.EngineValidation | src/app/api/translate/route.ts:29-106 | the three 400s: OpenAI without key, DeepLX without key, any other engine; and no other 400 once content is present |
| TranslateRoute.OpenAIPagesInOrder | src/app/api/translate/route.ts:44-66 | a 500 exactly when some page's call throws; on a 200 text i is page i's reply content or the fallback, never empty |
| TranslateRoute.DeepLAllOrNothing | src/app/api/translate/route.ts:76-114 | a 500 exactly when some page fails, with no partial list; on a 200 text i is page i's `data` or the fallback |
| UploadRoute.Extension | src/app/api/upload-image/route.ts:56 | the extension is never empty |
| UploadRoute.UpToSlash | src/app/api/upload-image/route.ts:56 | reference definition: the prefix before the first `/` |
| UploadRoute.SplitHeadUpToSlash | src/app/api/upload-image/route.ts:56 | the first `/`-piece equals the reference prefix |
| UploadRoute.ExtensionOfImageType | src/app/api/upload-image/route.ts:56 | for `image/…`, the extension is the text up to any further `/`, or `jpg` when that is empty |
| UploadRoute.ObjectKey | src/app/api/upload-image/route.ts:56-60 | a key is the prefix and `/` when a prefix is set, then the uuid, then `.` and the extension, with nothing else in between (its length is the sum of those parts) |
| UploadRoute.UrlBase | src/app/api/upload-image/route.ts:79-94 | a public URL, when set, wins; otherwise an `https://` base, each fixed by its opening, closing and length: `{endpoint}/{bucket}` when path style is forced, `{bucket}.{endpoint}` with an endpoint otherwise, and `{bucket}.s3.{region}.amazonaws.com` without an endpoint, where the region reads back as `S3_REGION` or `us-east-1` |
| UploadRoute.PublicUrl | src/app/api/upload-image/route.ts:79-94 | every URL scheme ends with `/` and the object key |
| UploadRoute.HandleUpload | src/app/api/upload-image/route.ts:26-107 | configuration (route.ts:29) is checked before the form; a form that cannot be read is a 500 with its error; a missing file, an empty text entry and a non-`image/` type are 400s; a non-empty text entry is a 500 with the engine's `TypeError` message; a write happens exactly for a configured route and an image file, under the derived key; a throwing write is a 500 with its message; 200 exactly when the write succeeds, answering the key's public URL |
| UploadRoute.ObjectKeyInjective | src/app/api/upload-image/route.ts:59-60 | distinct uuids give distinct keys under the same prefix and type |
| UploadRoute.PublicUrlInjective | src/app/api/upload-image/route.ts:79-94 | distinct keys give distinct URLs under one configuration |
| UploadRoute.DistinctUploads | src/app/api/upload-image/route.ts:59-98 | uploading the same file twice with two uuids writes two keys and answers two URLs |
| PageModel.TranslationContent | src/app/page.tsx:227 | the route's split gives back exactly the pages' markdowns when every page but the last is delimited and the last has no separator |
| PageModel.RepairTranslated | src/app/page.tsx:254-259 | one page per original page at its position, with its index, no images and never an empty markdown; a present non-empty text i lands verbatim on page i, and a missing or empty one gives the placeholder |
| PageModel.RepairCompleteReply | src/app/page.tsx:257 | a reply of at least as many non-empty texts lands verbatim, text i on page i |
| PageModel.EmptyContent | src/app/page.tsx:227 | the request content is empty exactly for no pages or one empty page |
| PageModel.Insert | src/app/page.tsx:287 | insertion adds exactly the one page |
| PageModel.InsertSorted | src/app/page.tsx:287 | inserting into an ordered list keeps it ordered |
| PageModel.InsertBound | src/app/page.tsx:287 | a lower bound of all pages bounds the insertion |
| PageModel.SortedCons | src/app/page.tsx:287 | a page no greater than an ordered list extends it in order |
| PageModel.SortByIndex | src/app/page.tsx:287 | the export order is ascending by index and a permutation of the pages |
| PageModel.InsertWithIndex | src/app/page.tsx:287 | an inserted page goes ahead of every page of its own index, which keep their order |
| PageModel.SortIsStable | src/app/page.tsx:287 | pages sharing an index keep their relative order (the comparator sort is stable) |
| PageModel.SortSortedIsIdentity | src/app/page.tsx:287 | sorting pages already in order changes nothing, so a second export sorts nothing |
| PageModel.SortIdempotent | src/app/page.tsx:287 | sorting twice is sorting once, so a render or export after a render finds the pages in order |
| PageModel.PageChunkShape | src/app/page.tsx:288-289 | a chunk opens with `## Page `, then the index in decimal and a blank line, and ends with the page's markdown |
| PageModel.CombinedMarkdown | src/app/page.tsx:316 | `document.md` is empty exactly without pages; otherwise it opens with the first page's chunk and closes with the last page's markdown |
| PageModel.ExportChunks | src/app/page.tsx:286-291 | as many chunks as pages, each headed `## Page {index}` and a blank line, in ascending index order |
| PageModel.StripDataUrl | src/app/page.tsx:303-305 | a payload without the marker is kept; with the marker, what is kept is the text after its first occurrence up to the next occurrence or the end, and has no marker |
| PageModel.DataUrlRoundTrip | src/app/page.tsx:303-305 | a comma-free payload is kept as is, and recovered exactly from `data:<type>;base64,<payload>` |
| PageModel.CommaFreeHasNoMarker | src/app/page.tsx:303 | a comma-free text contains no marker |
| PageModel.AssembleArchive | src/app/page.tsx:283-319 | the loops build exactly the specified archive |
| PageModel.PushChunks | src/app/page.tsx:283-291 | the loop pushes exactly one chunk per page, in page order |
| PageModel.FileImageList | src/app/page.tsx:297-311 | the inner loop files one page's images exactly as the image-filing specification says |
| PageModel.FileImagesAppend | src/app/page.tsx:294-312 | filing two image lists in sequence is filing their concatenation |
| PageModel.FilePages | src/app/page.tsx:294-312 | filing page by page is filing all images as one list in page order |
| PageModel.FileImages | src/app/page.tsx:297-310 | an id is present exactly when it was before or some image with that id has a payload; then it holds the last such payload stripped; empty payloads are skipped |
| PageModel.ArchiveOf | src/app/page.tsx:293-319 | `document.md` holds the combined chunks; without an original result it is the only entry; any other entry is an id with a payload among the original result's images |
| PageModel.ArchiveContents | src/app/page.tsx:293-319 | `document.md` holds the combined chunks even over an image of that name; any other entry is the last image of the original result with that id |
| PageModel.ArchiveImagesIgnoreContent | src/app/page.tsx:293-313 | the image entries are the same whichever page list is exported |
| PageModel.SinglePageArchive | src/app/page.tsx:286-319 | one image-less page 0 exports as `document.md` = `## Page 0`, blank line, markdown |
| Home.ErrorMessage | src/app/page.tsx:246-249 | with a non-empty fallback, a refused call always yields a non-empty message |
| Home.TranslateRequestFor | src/app/page.tsx:227-243 | the request names the selected engine as the route spells it and carries only that engine's settings, the joined markdown and the target language |
| Home.TranslateReplyOf | src/app/page.tsx:245-251 | the pages arrive exactly for a 200 with a page list; any refusal has no message, since the route writes `error` |
| Home.UploadReplyOf | src/app/page.tsx:103-118 | the URL arrives exactly for a 200 with an upload body; a refusal carries the route's `message` exactly when it wrote one |
| Home.Preview | src/app/page.tsx:851-854 | the preview is a prefix of at most 250 characters, the whole markdown exactly when it is no longer than that (counted in characters; see "Left out") |
| Home.ViewOf | src/app/page.tsx:843-854 | a listed page shows its index, its length and its preview, with the expand mark exactly when the preview leaves something out |
| Home.HomePage.constructor | src/app/page.tsx:37-55 | the initial state: empty inputs, no results, OpenAI at its default URL and model, target `ZH` |
| Home.HomePage.HandleFileChange | src/app/page.tsx:60-76 | a type mentioning `pdf` is taken; any other raises the banner and keeps the previous file; no selection changes nothing |
| Home.HomePage.HandleImageFileChange | src/app/page.tsx:77-93 | the same for types mentioning `image` |
| Home.HomePage.ClearFile | src/app/page.tsx:340-342 | the file is cleared |
| Home.HomePage.ClearImageFile | src/app/page.tsx:344-347 | the image and its URL are cleared |
| Home.HomePage.ClearResults | src/app/page.tsx:779 | the result is cleared and the translated result kept |
| Home.HomePage.UploadImageToS3 | src/app/page.tsx:95-127 | without an image no call; otherwise one upload call, and a received URL is stored and returned |
| Home.HomePage.HandleProcessDocument | src/app/page.tsx:128-206 | no key: nothing; per tab the input checks and their messages; an upload first only when an image is set and no URL, stopping without a URL; at most one OCR call, whose success alone replaces the result and drops the translation |
| Home.HomePage.TranslateMarkdown | src/app/page.tsx:208-272 | no result or no key for the engine: nothing; otherwise one request with the joined markdown and only the selected engine's settings; a success stores the re-paired pages, a failure keeps the old ones |
| Home.HomePage.DownloadMarkdownWithImages | src/app/page.tsx:274-338 | the chosen list is sorted where it is stored; the archive is built from it and from the images of the original result as stored after that sort, under the name for the variant |
| Home.HomePage.Render | src/app/page.tsx:766-891 | with a non-empty result, the result's pages and then a non-empty translated result's pages are sorted where they are stored; the listed pages are one view per stored page, in ascending index order; nothing is listed or sorted otherwise |
| Pipeline.OpenAITranslationEndToEnd | src/app/page.tsx:227-261 | with delimited pages, the route sees exactly the page markdowns; texts arrive exactly when every chat call completes, and page i then shows page i's reply or the route's fallback |
| Pipeline.OpenAIReceivedIff | src/app/api/translate/route.ts:44-66 | with OpenAI and the pages' markdowns as the split content, the page receives texts exactly when every page's chat call completes |
| Pipeline.OpenAIReceivedTexts | src/app/page.tsx:254-259 | then page i shows the content of page i's own reply, or the route's fallback text |
| Pipeline.DeepLReceivedIff | src/app/api/translate/route.ts:76-100 | with DeepLX, texts arrive exactly when no page's call fails |
| Pipeline.DeepLReceivedTexts | src/app/page.tsx:254-259 | then page i shows page i's `data`, or the route's fallback text |
| Pipeline.DeepLTranslationEndToEnd | src/app/api/translate/route.ts:76-100 | the same through DeepLX, success exactly when every page's call succeeds |
| Pipeline.EmptyDocumentRefused | src/app/api/translate/route.ts:18-23 | an empty result is refused with a 400 and the page shows only the generic message |
| Pipeline.UploadEndToEnd | src/app/page.tsx:103-118 | the page receives a URL exactly when the object was written, and it is the non-empty public URL of the key |
| Pipeline.ImageTypeChecks | src/app/api/upload-image/route.ts:48 | every type the route accepts passes the page's check, but `text/image` passes the page and is refused by the route |

## Left out

- The OCR routes (`src/app/api/process-url`, `process-file`, `process-image`). Each wraps one call into the Mistral SDK. Their replies are the `ocr` parameter of `HandleProcessDocument`.
- Network and storage I/O: `fetch`, the OpenAI client, the DeepLX endpoint and the S3 client. They are function parameters, and uuid generation is an input.
- TranslateRoute.TranslatePages: `Promise.all` fails with the first rejection in time. The model reports the first failing page in page order. Scheduling is not modelled, and calls still running after a failure are not modelled either.
- TranslateRoute.ChatCall: keeps the language name and the page text of a chat request. It does not keep the system prompt's wording or the temperature.
- TranslateRoute.LanguageName: a plain object lookup would also find inherited names such as `constructor`. Only the eight own entries are modelled.
- JSON typing: request fields are modelled as absent or strings. `null`, numbers and other JSON types are not modelled. The `'ZH'` default applies only to an absent field, as in the destructuring default.
- Untyped provider and form values: two cases have their own constructors. One is a form `file` entry that is a text value (`UploadRoute.TextEntry`). The other is a 2xx DeepLX reply whose body is the JSON `null` (`TranslateRoute.DeepLNullBody`). A DeepLX `data` field that holds something other than a string, such as a number, is not modelled.
- UploadRoute.MissingTypeMessage: the `TypeError` text is the one Node's V8 engine produces. Another engine's wording is not modelled.
- Home.Preview: lengths and the 250 cut are counted in characters (Unicode scalar values), not in the UTF-16 code units that JavaScript's `length` and `substring` count. A text with characters outside the Basic Multilingual Plane, such as emoji, is cut and marked differently.
- Home.ViewOf: the displayed length is counted in characters, not in UTF-16 code units, for the same reason.
- JSZip internals: base64 decoding, compression, `generateAsync` and `file-saver`'s `saveAs`. The archive is a map from entry name to payload string.
- Home.HomePage.DownloadMarkdownWithImages:
  - The in-place `sort` is modelled as reassigning the chosen state field with the sorted list. Sharing of that array with other holders is not modelled.
  - The catch branch for a failing zip generation is not modelled.
- React rendering beyond the results list: toasts, and the `loading`/`translating`/`uploading` flags. Which buttons are shown or disabled is not modelled either. For example, Translate is offered only while no translated result exists.
- Home.HomePage.Render: when React renders is not modelled. `Render` is a method a caller runs between handlers.
- The banner's `setTimeout` auto-dismiss and the dismiss button.
- `console` output, and the S3 client construction and `config` export.
- The input fields' `onChange` setters are plain assignments of the class's fields.
- React's deferred state updates: `setImageUrl` takes effect at once in the model. The handler itself continues with its local URL, as the page does.
- A file picked in the browser is its MIME type and bytes. Only the first selected file is considered, as the page does.
