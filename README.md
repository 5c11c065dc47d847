# Response normaliser and artifact dispatch of the image scripts

The scripts send a prompt, and for editing also an input image, to an image-capable model. The model's reply is normalised into an ordered list of segments. The scripts write a segment as `{"str": text}` or `{"base64": payload}`; here it is `Text(s)` or `Image(b64)`. The list is then dispatched: each text is printed, and each image is saved under a timestamped file name. This project models that pipeline and proves properties of it in Dafny.

There are three validator variants:

- **OpenRouter** (`OpenRouter`, `openrouter.dfy`). It walks `choices → message → content / images` in a decoded JSON body (`Json`, `json.dfy`). It is soft-fail: a body without `choices` gives the empty list, and items it does not recognise are skipped. Only a Python runtime error on a value of the wrong type escapes it; that error is modelled as `Crash`.
- **LangChain content list** (`LangChain`, `langchain.dfy`). `response.content` must be a non-empty list of strings and `{"image_url": {"url": ...}}` dicts. It is fail-fast: the first malformed element raises `ValueError` with its index. The code is copied line for line into three scripts:
  - gemini2.5_image_generation/vertexai_image_editing_langchain.py:79-127;
  - gemini_image_generation/gemini_image_editing.py:77-125;
  - gemini_image_generation/gemini_image_generation.py:64-111.

  It is modelled once, and each row below cites the first copy.
- **GenAI SDK parts** (`GenAI`, `genai.dfy`). It checks down to `candidates[0].content.parts`, then gives one segment per part. Non-empty `text` wins over `inline_data`. String data passes through unchanged; bytes are base64-encoded. It is fail-fast. It appears in two scripts:
  - gemini2.5_image_generation/vertexai_image_editing_api.py:83-135;
  - gemini2.5_image_generation/vertexai_image_generation_api.py:70-122.

  It is modelled once, and each row below cites the first copy.

Every validator is written twice:

- as a specification function `Normalize`, a left fold `Segments.Gather` over the elements that stops at the first error;
- as a method `ValidateAndExtract` whose loops append to `extracted_list` as the code does. Each method is proved equal to `Normalize`, and the properties are proved about `Normalize`.

Around the validators sit these modules:

- **Text** (`text.dfy`): `split(',')[-1]`, `split('.')[0]` and `str.strip()`.
- **DataUri** (`datauri.dfy`): payload extraction from `data:<mime>;base64,<payload>`. The code keeps the text after the **last** comma. For a URI built around a base64 payload, this gives back exactly the payload.
- **Base64** (`base64.dfy`): encoding and strict decoding by section 4 of RFC 4648, with the decode-after-encode round trip.
- **Timestamp** (`timestamp.dfy`): `strftime("%Y-%m-%d_%H-%M-%S")` with a parser that inverts it. The clock read `datetime.now()` is not modelled; a `DateTime` value is passed in.
- **Paths** (`paths.dfy`): `basename`, `dirname` and the two file-name schemes:
  - `outputs/<stem>/<stem>_<ts>.png` for editing;
  - `outputs/new_generation/generate_<ts>.png` for generation.
- **Dispatch** (`dispatch.dfy`): `process_dict_str_and_image` as a method that turns a segment list into a trace of `PrintText`, `SaveImage(path, payload)` and `Warn` actions. The `k`-th save reads the clock as `clock(k)`.

The branching in the OpenRouter `main` on the validator's result is `OpenRouter.HandleResult`.

The code keeps the text after the last comma (`url.split(',')[-1]`). A data URI as defined in section 3 of RFC 2397 ends its header at the first comma. `DataUri.TwoCommasDisagree` shows where that first-comma split (`split(',', 1)[-1]`) would differ. `DataUri.OneCommaAgrees` shows that the two agree on a URI with a single comma.

## Model

| member | source | states |
|---|---|---|
| OpenRouter.ValidateAndExtract | gemini2.5_image_generation/openrouter_image_editing_api_eng.py:73-135 | the method, with its checks on `choices` and its nested loops, returns exactly `Normalize(response)`, the soft-fail extraction or the runtime error |
| OpenRouter.ExtractChoices | gemini2.5_image_generation/openrouter_image_editing_api_eng.py:105-130 | the loop over `choices` appends each choice's entries in order and stops at the first choice that raises |
| OpenRouter.ExtractChoice | gemini2.5_image_generation/openrouter_image_editing_api_eng.py:106-130 | one choice contributes its text entry and then its image entries; a non-dict choice or message is a runtime error |
| OpenRouter.ExtractImages | gemini2.5_image_generation/openrouter_image_editing_api_eng.py:115-130 | the loop over `images` appends each item's contribution in order |
| OpenRouter.ExtractImage | gemini2.5_image_generation/openrouter_image_editing_api_eng.py:117-130 | one `images` item contributes what `ImageEntry` says: nothing, one image, or a runtime error |
| OpenRouter.NoChoicesNoEntries | gemini2.5_image_generation/openrouter_image_editing_api_eng.py:100-103 | a dict response without a `choices` key yields the empty list and no error |
| OpenRouter.SoftFail | gemini2.5_image_generation/openrouter_image_editing_api_eng.py:97-135 | the validator raises nothing of its own: every failure is a runtime error on a value of the wrong type |
| OpenRouter.ContentEntryMeaning | gemini2.5_image_generation/openrouter_image_editing_api_eng.py:109-111 | a message yields at most one text entry; it yields one exactly when `content` is a string with a non-whitespace character, and the entry is that string unstripped |
| OpenRouter.ImageEntriesAreImages | gemini2.5_image_generation/openrouter_image_editing_api_eng.py:116-130 | everything the `images` loop appends is an image entry |
| OpenRouter.ChoiceLayout | gemini2.5_image_generation/openrouter_image_editing_api_eng.py:108-130 | within a choice the text entry, if any, comes first and every later entry is an image |
| OpenRouter.ChoiceOrder | gemini2.5_image_generation/openrouter_image_editing_api_eng.py:105-130 | choices are processed in order: the entries of choice `m` follow those of the choices before it in the result |
| OpenRouter.ImageUrlItem | gemini2.5_image_generation/openrouter_image_editing_api_eng.py:119-125 | an `image_url`-typed item with a string url containing a comma yields one image with exactly the text after the last comma, which holds no comma; a comma-less url yields nothing and no error |
| OpenRouter.IgnoredItems | gemini2.5_image_generation/openrouter_image_editing_api_eng.py:116-129 | a non-dict item, and a dict neither typed `image_url` nor holding `base64`, contribute nothing and raise nothing |
| OpenRouter.IgnoredImages | gemini2.5_image_generation/openrouter_image_editing_api_eng.py:114-115 | a non-list or empty `images` value contributes no image and raises nothing |
| OpenRouter.Base64Item | gemini2.5_image_generation/openrouter_image_editing_api_eng.py:128-129 | a dict not typed `image_url` with a string `base64` contributes that string verbatim |
| OpenRouter.HandleResult | gemini2.5_image_generation/openrouter_image_editing_api_eng.py:271-291 | `main`'s handling of one result: an exception is reported; an empty list is reported; a list with an image is dispatched; a text-only list has each text printed after a warning |
| OpenRouter.TextActionsPrintTexts | gemini2.5_image_generation/openrouter_image_editing_api_eng.py:282-284 | the text-only branch prints every text entry in order and saves nothing |
| OpenRouter.MainSavesImages | gemini2.5_image_generation/openrouter_image_editing_api_eng.py:273-286 | in every branch `main` prints exactly the texts and saves exactly the image payloads, in order; with no image entry it saves nothing |
| LangChain.ValidateAndExtract | gemini2.5_image_generation/vertexai_image_editing_langchain.py:79-127 | the method, with its checks and its `enumerate` loop, returns exactly `Normalize(response)`, the segment list or the first error |
| LangChain.ExtractItem | gemini2.5_image_generation/vertexai_image_editing_langchain.py:101-125 | the loop body for one element: a string gives one `Text`, a well-formed image dict one `Image`, and each malformed shape its own error with the element's index (what `ItemSegment` gives, characterised by `ItemSegmentMeaning`) |
| LangChain.ItemSegmentMeaning | gemini2.5_image_generation/vertexai_image_editing_langchain.py:100-125 | an element is accepted exactly when it is well formed, then becomes its one expected segment; a rejected element's error carries its index |
| LangChain.NormalizeOkIff | gemini2.5_image_generation/vertexai_image_editing_langchain.py:88-96 | a missing `content`, a non-list and an empty list are errors, never an empty success; otherwise success holds exactly when every element is well formed |
| LangChain.NormalizeOnePerElement | gemini2.5_image_generation/vertexai_image_editing_langchain.py:100-127 | on success there is exactly one segment per element, in order; a string becomes `Text` verbatim, empty and whitespace ones included; an image dict becomes the text after the url's last comma, which holds no comma |
| LangChain.NormalizeFirstError | gemini2.5_image_generation/vertexai_image_editing_langchain.py:109-125 | a failure is the error of the first malformed element, naming that element's index; every element before it is well formed and no partial list is returned |
| GenAI.ValidateAndExtract | gemini2.5_image_generation/vertexai_image_editing_api.py:83-135 | the method, with its guard checks and its parts loop, returns exactly `Normalize(response)` |
| GenAI.NormalizeGuards | gemini2.5_image_generation/vertexai_image_editing_api.py:91-111 | each guard gives its own error: missing candidates `NoCandidates`; `None` or empty candidates `CandidatesEmpty`; no `content` `NoCandidateContent`; a `None` content or no `parts` `NoParts`; `None` or empty parts `PartsEmpty`. Past the guards, success holds exactly when every part has non-empty text or inline data with data |
| GenAI.OnlyFirstCandidate | gemini2.5_image_generation/vertexai_image_editing_api.py:101-105 | candidates after the first never change the outcome |
| GenAI.NormalizeOnePerPart | gemini2.5_image_generation/vertexai_image_editing_api.py:115-131 | on success there is exactly one segment per part, in order; non-empty text wins over inline data; string data passes through; bytes are base64-encoded |
| GenAI.NormalizeFirstError | gemini2.5_image_generation/vertexai_image_editing_api.py:115-133 | a failure comes from the first part that raises; it is the `UnexpectedPart` error with that part's index exactly when the part has neither text nor inline data |
| Segments.GatherErrorSticks | gemini2.5_image_generation/vertexai_image_editing_langchain.py:100-125 | once an element has raised, later elements change nothing: there is no partial result |
| Segments.GatherOkIff | gemini2.5_image_generation/vertexai_image_editing_langchain.py:100-127 | the walk over the elements succeeds exactly when no element raises |
| Segments.GatherFirstError | gemini2.5_image_generation/vertexai_image_editing_langchain.py:100-125 | a failed walk reports the error of the first element that raises |
| Segments.GatherOrder | gemini2.5_image_generation/vertexai_image_editing_langchain.py:98-127 | what each element contributes appears after what the earlier elements contribute |
| Segments.GatherPrefix | gemini2.5_image_generation/vertexai_image_editing_langchain.py:98-127 | in a successful walk, the list after `m` elements is the list after `m - 1` elements followed by what element `m - 1` contributes, and a prefix of the final list |
| Segments.GatherStep | gemini2.5_image_generation/vertexai_image_editing_langchain.py:100-125 | one more element either appends its segments to the list so far, or its error is the outcome of the whole walk |
| Segments.GatherOneEach | gemini2.5_image_generation/vertexai_image_editing_langchain.py:98-127 | when each element contributes one segment, a successful walk has one segment per element, in element order |
| Segments.CountImagesZero | gemini2.5_image_generation/vertexai_image_editing_api.py:71-72 | no image is counted exactly when `any('base64' in res ...)` is false, that is when every segment is a text |
| Dispatch.ProcessSegments | gemini2.5_image_generation/vertexai_image_editing_api.py:61-79 | the trace is the no-image warning (only when asked for and no segment is an image) followed by one action per segment |
| Dispatch.ActionsAt | gemini2.5_image_generation/vertexai_image_editing_langchain.py:71-75 | one action per segment in segment order: a text is printed verbatim; an image is saved under the name built from its own save's clock reading |
| Dispatch.SavesAndPrints | gemini2.5_image_generation/openrouter_image_editing_api_eng.py:66-70 | exactly the image payloads are saved and exactly the texts printed, in list order; the number of saves is the number of images |
| Dispatch.SavedPathsAre | gemini2.5_image_generation/vertexai_image_editing_langchain.py:55-57 | the `k`-th image is saved under the file name for the `k`-th clock reading |
| Dispatch.SameSecondOverwrites | gemini_image_generation/gemini_image_generation.py:40-41 | two saves of one run write the same file exactly when their clock readings fall in the same second |
| Paths.Stem | gemini2.5_image_generation/openrouter_image_editing_api_eng.py:51 | the stem is the prefix of the base name up to its first `.`, and it holds no `/` and no `.` |
| Paths.NoSlashInTimestamp | gemini2.5_image_generation/openrouter_image_editing_api_eng.py:50 | a timestamp holds no `/`, so it adds no directory level |
| Paths.DirnameOfJoin | gemini2.5_image_generation/openrouter_image_editing_api_eng.py:52 | when `tail` holds no `/` and `dir` holds a character other than `/`, the directory of `dir/tail` is `dir` less its trailing slashes |
| Paths.EditPathDirectory | gemini2.5_image_generation/openrouter_image_editing_api_eng.py:50-52 | the directory created for an editing save is `outputs/<stem>`, or `outputs` for an empty stem |
| Paths.EditPathPieces | gemini2.5_image_generation/openrouter_image_editing_api_eng.py:51 | the stem and the timestamp sit at fixed offsets of an editing file name |
| Paths.EditPathCollision | gemini_image_generation/gemini_image_editing.py:53-55 | two editing file names are equal exactly when the inputs share a stem and the times fall in the same second |
| Paths.GenerationPathDirectory | gemini_image_generation/gemini_image_generation.py:41-42 | the directory created for a generation save is always `outputs/new_generation`, whatever the input |
| Paths.GenerationPathCollision | gemini_image_generation/gemini_image_generation.py:40-41 | two generation file names are equal exactly when the times fall in the same second |
| Paths.EditPathOfFile | gemini2.5_image_generation/vertexai_image_editing_langchain.py:49-56 | for `dir/name.ext` with no `/` or `.` in the name, the file is `outputs/name/name_<ts>.png`; `inputs/sample1.png` gives `outputs/sample1/sample1_<ts>.png` |
| Timestamp.Digits | gemini2.5_image_generation/vertexai_image_editing_langchain.py:55 | a zero-padded field has exactly its width and only decimal digits |
| Timestamp.ValueOfDigits | gemini2.5_image_generation/vertexai_image_editing_langchain.py:55 | a zero-padded field reads back as the number it was written from |
| Timestamp.DigitsOfValue | gemini2.5_image_generation/vertexai_image_editing_langchain.py:55 | a string of digits is the zero-padded form of the number it denotes |
| Timestamp.FormatLayout | gemini2.5_image_generation/vertexai_image_editing_langchain.py:55 | a timestamp is 19 characters, with the fields and the separators `-`, `_` at fixed offsets |
| Timestamp.FormatCharacters | gemini2.5_image_generation/vertexai_image_editing_langchain.py:55 | every character of a timestamp is a digit, `-` or `_` |
| Timestamp.ParseFormat | gemini2.5_image_generation/vertexai_image_editing_langchain.py:55 | parsing a timestamp gives the time back |
| Timestamp.FormatParse | gemini2.5_image_generation/vertexai_image_editing_langchain.py:55 | only the timestamp of `t` parses to `t` |
| Timestamp.FormatInjective | gemini_image_generation/gemini_image_generation.py:40 | two times give the same timestamp exactly when they fall in the same second |
| Text.AfterLast | gemini2.5_image_generation/vertexai_image_editing_langchain.py:121 | `split(sep)[-1]` is a suffix with no separator; it is preceded by a separator when the string has one, and is the whole string otherwise |
| Text.AfterLastOfJoin | gemini2.5_image_generation/vertexai_image_editing_langchain.py:121 | cutting `a + sep + b` after its last separator gives `b` when `b` holds none |
| Text.BeforeFirst | gemini2.5_image_generation/vertexai_image_editing_langchain.py:56 | `split(sep)[0]` is a prefix with no separator; it is followed by a separator when the string has one, and is the whole string otherwise |
| Text.BeforeFirstOfJoin | gemini2.5_image_generation/vertexai_image_editing_langchain.py:56 | cutting `a + sep + b` at its first separator gives `a` when `a` holds none |
| Text.StripLeft | gemini2.5_image_generation/openrouter_image_editing_api_eng.py:110 | the leading whitespace is removed, and what is left is a suffix that starts with a non-whitespace character |
| Text.StripRight | gemini2.5_image_generation/openrouter_image_editing_api_eng.py:110 | the trailing whitespace is removed, and what is left is a prefix that ends with a non-whitespace character |
| Text.StripEmptyIff | gemini2.5_image_generation/openrouter_image_editing_api_eng.py:110 | `s.strip()` is empty exactly when every character of `s` is whitespace |
| Text.StripTrailing | gemini2.5_image_generation/openrouter_image_editing_api_eng.py:52 | the trailing copies of a character are removed, and nothing else |
| Text.StripOneTrailing | gemini2.5_image_generation/openrouter_image_editing_api_eng.py:52 | removing trailing `c` from `a + c` gives `a` when `a` does not end in `c` |
| Json.IsSubstringOfChar | gemini2.5_image_generation/openrouter_image_editing_api_eng.py:122 | for a one-character key, Python's substring test `',' in url` is a character test |
| DataUri.ExtractEncoded | gemini2.5_image_generation/openrouter_image_editing_api_eng.py:122-124 | from `data:<mime>;base64,<Encode(bs)>` the last-comma cut gives the encoding back, and decoding it gives `bs`, whatever `mime` is |
| DataUri.AfterFirst | gemini2.5_image_generation/vertexai_image_editing_langchain.py:121 | the first-comma reading, for comparison: a data URI as defined in section 3 of RFC 2397 ends its header at the first comma; this is the text after the first separator, or the whole string when there is none |
| DataUri.OneCommaAgrees | gemini2.5_image_generation/vertexai_image_editing_langchain.py:121 | with a single comma the first-comma and last-comma readings agree |
| DataUri.TwoCommasDisagree | gemini2.5_image_generation/vertexai_image_editing_langchain.py:121 | with two commas the last-comma reading keeps only what follows the second, and the first-comma reading keeps more |
| DataUri.PngExample | gemini2.5_image_generation/vertexai_image_editing_langchain.py:105-122 | `data:image/png;base64,QUJD` gives `QUJD` |
| DataUri.ExtractIdempotent | gemini2.5_image_generation/vertexai_image_editing_langchain.py:121 | cutting an extracted payload again changes nothing |
| Base64.SymbolRoundTrip | gemini2.5_image_generation/vertexai_image_editing_api.py:129 | each 6-bit value has a symbol of the base64 alphabet that maps back to it |
| Base64.EncodeLength | gemini2.5_image_generation/vertexai_image_editing_api.py:129 | an encoding has `4 * ceil(n / 3)` characters |
| Base64.EncodeAlphabet | gemini2.5_image_generation/vertexai_image_editing_api.py:129 | an encoding uses only alphabet and padding characters, so it holds no comma |
| Base64.DecodeOne | gemini2.5_image_generation/vertexai_image_editing_api.py:129 | the final quantum `xy==` of a one-byte tail decodes to that byte |
| Base64.DecodeTwo | gemini2.5_image_generation/vertexai_image_editing_api.py:129 | the final quantum `xyz=` of a two-byte tail decodes to those two bytes |
| Base64.DecodeThree | gemini2.5_image_generation/vertexai_image_editing_api.py:129 | the four symbols of a full group decode to its three bytes, whether or not the quantum is the last |
| Base64.DecodeEncode | gemini2.5_image_generation/vertexai_image_editing_api.py:129 | decoding an encoding gives the bytes back |

## Left out

- Network and SDK calls are not modelled: the OpenRouter HTTP request, `chain.invoke`, `client.models.generate_content`, and credential and model setup. The response is an input of each validator.
- File and image I/O is not modelled: reading the input image, `base64.b64decode` with PIL decoding, `os.makedirs` and `img.save`. A save is a `SaveImage(path, payload)` action, so a payload that fails to decode, and the partial trace that would leave, are not modelled.
- The clock is a parameter. `datetime.now()` at the `k`-th save is `clock(k)`.
- Console output other than the dispatched texts and the warnings is not modelled: diagnostics, the full-response dump and token usage.
- The repetition loops in each `main` carry no data between runs and are not modelled. Only the OpenRouter `main`'s handling of one result is modelled.
- gemini2.5_image_generation/test.py is not part of this model: it makes one model call and prints the reply.
- `Json` numbers are integers. A float in the body takes the same branches as an integer here: truthiness, and a `TypeError` on `in`.
- Timestamp: years before 1000 are not modelled, because `%Y` may then have fewer than four digits.
- Base64: `Decode` is the strict decoder of RFC 4648 and serves only to state the encode-decode round trip. Python's default `b64decode`, which discards characters outside the alphabet, is not modelled.
- OpenRouter.ExtractImage (and the `ImageEntry` function it is proved equal to): a `base64` value that is not a string is a `Crash` at extraction. In the code, it goes into the list and fails later, in `b64decode` during dispatch. The model leaves out that delayed failure because decoding is not modelled.
- OpenRouter.ValidateAndExtract: all Python runtime errors on wrongly-typed values are one error, `Crash`. The exception type and message are not kept. A non-string `base64` value also makes it return `Crash` at extraction, where the code returns the list and fails later, in `b64decode` during dispatch.
- Only the SDK attributes the GenAI validator reads are modelled. Each is absent, `None`, or a value.
