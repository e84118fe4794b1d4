# NextHire interview core in Dafny

This project models three pieces of the NextHire interview platform and proves
properties of them:

- **Question generation** (`app/api/ai-model/route.jsx`). The `POST` handler
  reads a multipart form (with an optional resume) or a JSON body. It gates
  the resume on its file type and checks the API key and the job position in
  that order. It substitutes a default job description, fills the
  placeholders of the prompt template, calls the language model and turns the
  reply into questions with `extractQuestionsFromContent`. That extractor
  tries a fixed chain of strategies:
  1. The body of a fenced code block, then the whole text, parsed as JSON.
  2. An `interviewQuestions = [...]` assignment.
  3. The first bracketed span.
  4. A bulleted list.
  5. Failing all of these, the empty list.
- **The interview timer** (`app/interview/_components/TimerComponent.jsx`).
  It holds a count of elapsed seconds that an interval advances while the
  timer runs, reports each new value to `onTick`, and renders the count as
  `hh:mm:ss`.
- **The share dialog** (`components/ShareInterviewDialog.jsx`). It builds the
  interview link and writes the link-expiry setting to the interview record.
  An `updating` flag is raised while that write is in flight. It also builds
  the Gmail and WhatsApp links that carry the invitation.

Files:

- `options.dfy`: `Option`.
- `json.dfy`: JSON values, their truthiness, and how a template literal and
  `Array.prototype.join` render them.
- `js_text.dfy`: the JavaScript string operations the core uses:
  - `trim` and its white-space set;
  - `startsWith`, `endsWith`, `indexOf` and `includes`;
  - `replace` with a string pattern, both literal and as ECMA-262 evaluates
    `$` patterns;
  - ASCII lower-casing, `String(n)`, `padStart`, and `split(/\r?\n/)`.
- `uri_component.dfy`: `encodeURIComponent`, as percent-encoding of the UTF-8
  bytes of every character outside the unreserved set of ECMA-262. Also
  `decodeURIComponent` and the splitting of a query on `&`.
- `question_extraction.dfy`: `extractQuestionsFromContent`.
- `question_route.dfy`: the `POST` handler.
- `timer.dfy`: the timer component.
- `share_dialog.dfy`: the share dialog.

The foreign calls are parameters of the model:

- `JSON.parse` is a function `string -> Option<JsonValue>` (`None` when it
  throws).
- The chat completion is a function from the prompt to its outcome.
- What `req.formData()`, `req.json()` and the PDF and DOCX parsers produced
  is part of the request.
- The API key is a flag.
- The clock is an integer `now` in milliseconds.
- The host URL is a string.
- The outcome of the database update is a flag.

The template `QUESTIONS_PROMPT` (services/Constant.jsx:62-88) is written out
as a constant.

The chain is modelled as the code runs it. Besides the fenced block, the
bracketed span and the bullets, it parses the whole text directly and tries
an `interviewQuestions = [...]` assignment before the first bracketed span.

## Model

| member | source | states |
|---|---|---|
| QuestionExtraction.ExtractQuestions | app/api/ai-model/route.jsx:9-56 | The imperative extractor (it trims, builds the candidate list and returns early) returns exactly the strategy chain's answer for every reply. It is total: every input yields a list. |
| QuestionExtraction.TryCandidates | app/api/ai-model/route.jsx:19-28 | The loop over the candidates returns the first candidate that yields a list, or `None` when all of them fall through. The invariant is that every earlier candidate failed. |
| QuestionExtraction.TryFallbacks | app/api/ai-model/route.jsx:30-55 | After the candidates, the strategies are tried in order: the assignment, then the first bracketed span, then the bullets, then `[]`. Each returns as soon as it yields an array. |
| QuestionExtraction.BlankReplyYieldsNothing | app/api/ai-model/route.jsx:10-11 | A reply that is not a string, is empty, or is only white space gives `[]`. |
| QuestionExtraction.FenceMatch | app/api/ai-model/route.jsx:13-14 | A capture exists only when the text holds a fence, and the capture itself holds no fence. |
| QuestionExtraction.FenceFrom | app/api/ai-model/route.jsx:13 | From a given start, the lazy capture runs up to the next fence. It exists iff there is one, and it holds none. |
| QuestionExtraction.FenceMatchPlacement | app/api/ai-model/route.jsx:13-14 | There is a capture iff the text holds a fence and another fence after it. The capture starts after the first fence, after a `json` tag in any case when the tagged alternative matches, and after the white space that follows. It runs up to the next fence. |
| QuestionExtraction.CandidatesOf | app/api/ai-model/route.jsx:15-17 | The candidates are one or two texts. The whole text is always the last. |
| QuestionExtraction.FencedBodyFirst | app/api/ai-model/route.jsx:13-24 | A non-empty fenced body that yields questions decides the answer, whatever the whole text holds. |
| QuestionExtraction.WholeTextSecond | app/api/ai-model/route.jsx:15-25 | When there is no fenced body, or it yields nothing, a whole text that yields questions gives them. |
| QuestionExtraction.FoundInTwo | app/api/ai-model/route.jsx:19-28 | Of two candidates, the first one that succeeds gives the answer. |
| QuestionExtraction.OnlyBracketedCandidatesParsed | app/api/ai-model/route.jsx:20-21 | A candidate whose trimmed text starts with neither `[` nor `{` never reaches the parser. Its outcome is the same for any parser. |
| QuestionExtraction.FailedCandidatesFallThrough | app/api/ai-model/route.jsx:22-26 | Candidates fall through to the later strategies when they fail to parse, or parse to something that is neither an array nor carries an `interviewQuestions` array. |
| QuestionExtraction.SpanToClose | app/api/ai-model/route.jsx:30 | The lazy span from an opening `[` ends at the first `]` after it. There is none exactly when no `]` follows. |
| QuestionExtraction.AssignedArrayFrom | app/api/ai-model/route.jsx:30 | The assignment capture is a bracketed span that starts with `[` and ends at its first `]`. |
| QuestionExtraction.AssignmentAtPlacement | app/api/ai-model/route.jsx:30 | A match at `k` has the name there, in any case, then white space, `=`, white space and the `[` where the capture starts. The capture is the text from that `[`. |
| QuestionExtraction.AssignedArrayFirst | app/api/ai-model/route.jsx:30 | The capture found from `k` is that of the first position from `k` that has a match. |
| QuestionExtraction.AssignedArrayNone | app/api/ai-model/route.jsx:30 | Nothing is found from `k` only when no position from `k` on has a match. |
| QuestionExtraction.FirstBracketSpan | app/api/ai-model/route.jsx:38 | The `/\[[\s\S]*?\]/` match runs from the first `[` of the text to the first `]` after it. A match exists iff some `[` is followed by a `]`. |
| QuestionExtraction.NoStrategyYieldsEmpty | app/api/ai-model/route.jsx:55 | When every strategy fails, the answer is `[]`. |
| QuestionExtraction.BulletFallback | app/api/ai-model/route.jsx:46-53 | When the earlier strategies fail and some line is marked, the answer is one question per marked line, in order. Each is an object with type `General` and a string question. |
| QuestionExtraction.BulletsOfOneLine | app/api/ai-model/route.jsx:46-49 | A line contributes its text after the marker exactly when its trimmed form starts with `- ` or `* `. |
| QuestionExtraction.BulletsOfConcat | app/api/ai-model/route.jsx:46-50 | The questions of two runs of lines are those of the first followed by those of the second, so source order is kept. |
| QuestionExtraction.FinalFilterDropsNothing | app/api/ai-model/route.jsx:46-50 | The final `filter(Boolean)` removes nothing. |
| QuestionExtraction.BulletQuestionsWellFormed | app/api/ai-model/route.jsx:46-50 | Every bullet question is non-empty and does not start with white space. |
| QuestionExtraction.StrippedMarkedLine | app/api/ai-model/route.jsx:47-49 | A trimmed, marked line keeps non-empty text after its marker. |
| QuestionExtraction.GeneralQuestions | app/api/ai-model/route.jsx:52 | Every mapped bullet is `{question, type: 'General'}`. |
| QuestionExtraction.FilterConcat | app/api/ai-model/route.jsx:48-50 | Filtering distributes over concatenation, which is the order property of `filter`. |
| JsText.SplitLines | app/api/ai-model/route.jsx:46 | There is at least one piece, and no piece holds a line feed. |
| JsText.SplitLinesJoin | app/api/ai-model/route.jsx:46 | Joining the pieces with `\n` gives the text less the `\r` of each `\r\n`, so no other character is lost or moved. |
| JsText.TrimEmptyIffAllSpace | app/api/ai-model/route.jsx:10-11 | `trim()` is empty iff the text is only white space. |
| JsText.TrimIdempotent | app/api/ai-model/route.jsx:20 | Trimming twice is trimming once. |
| JsText.DecimalRoundTrip | app/interview/_components/TimerComponent.jsx:24-26 | `String(n)` reads back as `n`. |
| JsText.PadStart | app/interview/_components/TimerComponent.jsx:24-26 | `padStart` pads to the target length and never truncates. The original text ends the result, and only the pad character precedes it. |
| JsText.ReplaceFirst | app/api/ai-model/route.jsx:127-130 | Only the first occurrence is replaced, with the text around it kept. A text without the pattern is unchanged. |
| JsText.ReplaceFirstKeepsLaterOccurrences | app/api/ai-model/route.jsx:127-130 | Every later occurrence of the pattern survives the replacement. |
| JsText.ReplaceFirstWithin | app/api/ai-model/route.jsx:127-130 | Text appended after the first occurrence changes neither which occurrence is replaced nor itself. |
| JsText.ReplaceFirstAgreesWithoutDollar | app/api/ai-model/route.jsx:127-130 | With a value free of `$`, `replace` as JavaScript evaluates it equals the literal replacement. |
| JsText.DollarAmpersandRestoresPlaceholder | app/api/ai-model/route.jsx:127 | As written, the value `$&` puts the matched placeholder back. The literal replacement would change the text. |
| QuestionRoute.ReadFields | app/api/ai-model/route.jsx:60-114 | Reading the request by its content type gives exactly `ReadRequest`. |
| QuestionRoute.ReadMultipart | app/api/ai-model/route.jsx:67-101 | Reading the form follows `ReadForm`. A failed form read is 500. An unsupported file is 400. A parser that threw clears the description and adds one warning. |
| QuestionRoute.ReadJsonBody | app/api/ai-model/route.jsx:102-114 | A body that is not JSON gives 400. A `null` body gives 500. Otherwise the members are read with `\|\| ''`, and a `type` that is not an array becomes `[]`. |
| QuestionRoute.Check | app/api/ai-model/route.jsx:116-130 | The imperative checks reach exactly the decision `Decide`: the read, then the API key, then `jobPosition`, then the default description, then the conversion of the three `replace` values to strings, then the `type` argument. A conversion or `join` that throws answers 500 with the TypeError's message. |
| QuestionRoute.Post | app/api/ai-model/route.jsx:58-145 | The handler's response is exactly `Respond`, and the prompt it sends is exactly `PromptSent`. There is no prompt when the request is rejected. |
| QuestionRoute.UnsupportedFileRejectedFirst | app/api/ai-model/route.jsx:76-118 | A resume that is neither `.pdf` nor `.docx` gives 400, whether or not the API key is set. No prompt is sent. |
| QuestionRoute.RejectionSkipsModel | app/api/ai-model/route.jsx:99-121 | A rejected request gets its rejection as the response, and the model is never asked. |
| QuestionRoute.CheckOrder | app/api/ai-model/route.jsx:116-130 | With the key missing the answer is 500 first. With `jobPosition` missing it is 400. When one of the three `replace` values cannot be converted to a string it is 500. When the `type` argument throws it is 500 with that TypeError's message. The prompt is built iff the key is set, the position is truthy, the three values convert and the `type` argument evaluates. |
| QuestionRoute.WarningsFromFailedParse | app/api/ai-model/route.jsx:81-96 | An accepted request carries exactly one warning, for the file's format, when a resume parser threw. Otherwise it carries none. |
| QuestionRoute.ReadWarnings | app/api/ai-model/route.jsx:65-101 | The warnings of a request that was read come only from a parser that threw. |
| QuestionRoute.FailedParseRead | app/api/ai-model/route.jsx:81-97 | A `.pdf` or `.docx` resume whose parser threw is read with an empty description and one warning. |
| QuestionRoute.FailedParseUsesDefault | app/api/ai-model/route.jsx:81-124 | Such a request is not failed. It is asked with the default description and returns the one warning. |
| QuestionRoute.JsonTypeHasJoin | app/api/ai-model/route.jsx:110-130 | A JSON body that is not `null` is always read. Its `type` always has a `join`, and the argument evaluates iff every element converts to a string. |
| QuestionRoute.AcceptedValues | app/api/ai-model/route.jsx:119-130 | An accepted request fills the prompt with these values: the position; the description or the default; the duration or `''`; the types joined with `", "` when `type` is a non-empty array, and otherwise `General`. |
| QuestionRoute.TypeText | app/api/ai-model/route.jsx:130 | A non-empty array is joined with `", "` when every element converts, and throws the conversion TypeError otherwise. An empty array gives `General`. The `join` TypeError comes exactly from a non-empty string, or from an object whose `length` converts and compares greater than 0. An object whose `length` cannot be converted throws the conversion TypeError. Every other value gives `General`. |
| QuestionRoute.ObjectTypeLength | app/api/ai-model/route.jsx:130 | An object whose only member is `length` throws iff that `length` cannot be converted or compares greater than 0. The conversion TypeError comes exactly in the first case. |
| QuestionRoute.ArrayTypeElementThrows | app/api/ai-model/route.jsx:130 | An array `type` holding an element that cannot be converted, such as `[{"toString": 0}]`, throws the conversion TypeError. |
| QuestionRoute.ToStringPositionRejected | app/api/ai-model/route.jsx:110-143 | The JSON body `{"jobPosition": {"toString": x}}` gets 500 with the conversion TypeError's message, and no prompt is sent. |
| QuestionRoute.ToStringTypeElementRejected | app/api/ai-model/route.jsx:110-143 | The JSON body `{"jobPosition": "dev", "type": [{"toString": x}]}` gets 500 with the conversion TypeError's message, and no prompt is sent. |
| Json.ConversionFailures | app/api/ai-model/route.jsx:127-130 | Converting a value to a string fails exactly on an object with its own `toString` member and on an array holding such a value at any depth. An object with only its own `valueOf` converts. |
| Json.FalsyConverts | app/api/ai-model/route.jsx:119-129 | A falsy value always converts, so the default description and `duration \|\| ''` never throw. |
| QuestionRoute.ObjectTypeWithLength | app/api/ai-model/route.jsx:130 | A `length` of `n`, given as a number, as numeric text or as a one-element array, throws iff `n > 0`. A `length` of `true` throws and one of `false` does not. |
| Json.DigitTextPositive | app/api/ai-model/route.jsx:130 | A digit string compares greater than 0 iff one of its digits is not zero. |
| Json.DecimalLengthPositive | app/api/ai-model/route.jsx:130 | The decimal text of `n`, as a number, a string or the only element of an array, compares greater than 0 iff `n > 0`. |
| QuestionRoute.OrEmpty | app/api/ai-model/route.jsx:110-112 | `v \|\| ''` keeps a truthy value and otherwise gives `''`. |
| QuestionRoute.ErrorMessage | app/api/ai-model/route.jsx:143 | The error message is never empty and is kept when present. |
| QuestionRoute.PromptLayout | app/api/ai-model/route.jsx:126-130 | On `QUESTIONS_PROMPT`, the four values fill the first occurrences of their placeholders. The second `{{duration}}`, `{{type}}` and `{{jobTitle}}` reach the model unfilled. |
| QuestionRoute.FillPromptLayout | app/api/ai-model/route.jsx:126-130 | On any template of that shape, each value fills the placeholder right after its text, and the tail is kept. |
| QuestionRoute.TitleStep | app/api/ai-model/route.jsx:127 | The first `replace` finds the first `{{jobTitle}}` and changes nothing else. |
| QuestionRoute.PlaceholdersInTail | app/api/ai-model/route.jsx:126-130 | The tail of the template holds a `{{duration}}`, a `{{type}}` and a `{{jobTitle}}`. |
| QuestionRoute.PromptAssembly | app/api/ai-model/route.jsx:126-130 | An accepted request sends the template with its decided values in place. |
| QuestionRoute.PromptSentAsWritten | app/api/ai-model/route.jsx:126-130 | When no value holds `$`, the handler sends the prompt that the replacements as written build. |
| QuestionRoute.FillPromptAgreesWithoutDollar | app/api/ai-model/route.jsx:126-130 | With values free of `$`, the replacements as written build the same prompt as the literal ones. |
| QuestionRoute.DollarTitleSendsPlaceholder | app/api/ai-model/route.jsx:126-127 | As written, the job title `$&` sends the prompt the title `{{jobTitle}}` would send. |
| QuestionRoute.DollarTitleRestoresPlaceholder | app/api/ai-model/route.jsx:126-127 | The same as the row above, on any template of that shape. |
| Timer.ClockFields | app/interview/_components/TimerComponent.jsx:24-26 | `mm < 60` and `ss < 60`, and `hh*3600 + mm*60 + ss == elapsed`. |
| Timer.Pad2Shape | app/interview/_components/TimerComponent.jsx:24-26 | A field is at least two digits and ends with the whole decimal text of its number. Below 10 it is `0` followed by that text, and from 10 on it is the text itself. It is exactly two characters below 100. |
| Timer.Pad2RoundTrip | app/interview/_components/TimerComponent.jsx:24-26 | A padded field is all digits and reads back as its number. |
| Timer.DisplayFields | app/interview/_components/TimerComponent.jsx:28 | In `hh:mm:ss`, the colons sit six and three characters from the end. The two characters after each colon are the padded minutes and seconds, and the padded hours are everything before the first colon. |
| Timer.DisplayRoundTrip | app/interview/_components/TimerComponent.jsx:24-28 | Reading the rendered text back gives `elapsed`, so the display is injective. |
| Timer.DisplayWidth | app/interview/_components/TimerComponent.jsx:24-28 | The text is at least eight characters. It is exactly eight below 100 hours, and `hh` may grow past two digits. |
| Timer.Counting | app/interview/_components/TimerComponent.jsx:12-15 | After `n` ticks, `onTick` has seen `1, 2, ..., n`. |
| Timer.TimerState.constructor | app/interview/_components/TimerComponent.jsx:5-18 | `elapsed` starts at 0, and an interval is scheduled exactly when `isRunning`. |
| Timer.TimerState.Tick | app/interview/_components/TimerComponent.jsx:11-16 | A tick happens only while an interval is scheduled. `elapsed` grows by exactly one, and the new value goes to `onTick` when one is given. |
| Timer.TimerState.SetRunning | app/interview/_components/TimerComponent.jsx:9-22 | Changing `isRunning` clears the interval, and a new one is scheduled only when running. `elapsed` is never reset. |
| Timer.TimerState.Unmount | app/interview/_components/TimerComponent.jsx:19-21 | The cleanup clears the interval and keeps `elapsed`. |
| ShareDialog.InterviewUrlRoundTrip | components/ShareInterviewDialog.jsx:28 | The interview link is the host, `/interview/`, then the id, and the id is recovered from it. |
| ShareDialog.ExpiresAt | components/ShareInterviewDialog.jsx:33-41 | An expiry exists iff the option is `1hour`, `24hours` or `7days`, and it lies after `now`. |
| ShareDialog.ExpiryOffsets | components/ShareInterviewDialog.jsx:35-40 | The offsets are 3,600,000, 86,400,000 and 604,800,000 ms, and `never` gives `null`. |
| ShareDialog.ExpiryRoundTrip | components/ShareInterviewDialog.jsx:33-41 | Each option of the select is recovered from what it writes. Any other value writes what `never` writes. |
| ShareDialog.Requested | components/ShareInterviewDialog.jsx:45-48 | Every update writes `is_link_active = true`. It writes an expiry iff an expiring option was chosen. |
| ShareDialog.WriteTouchesOneRecord | components/ShareInterviewDialog.jsx:43-49 | The update changes the record with the interview's id and no other record, and adds none. |
| ShareDialog.ShareDialogState.constructor | components/ShareInterviewDialog.jsx:25-26 | The select starts at `never`, and no update is in flight. |
| ShareDialog.ShareDialogState.BeginUpdate | components/ShareInterviewDialog.jsx:30-48 | `updating` is raised, and the pending write is the chosen expiry with the link active. |
| ShareDialog.ShareDialogState.FinishUpdate | components/ShareInterviewDialog.jsx:51-58 | On both paths `updating` is lowered. The record is written unless the call failed. The notice names the outcome. |
| ShareDialog.ShareDialogState.UpdateLinkSecurity | components/ShareInterviewDialog.jsx:30-60 | The whole update: the record gets `Requested(option, now)` unless the call failed, `updating` is false afterwards, and the select is untouched. |
| ShareDialog.ShareDialogState.HandleExpiryChange | components/ShareInterviewDialog.jsx:62-65 | The select takes the value, and the update starts for that same value. |
| ShareDialog.RecipientName | components/ShareInterviewDialog.jsx:75 | The recipient is never empty, and an entered name is kept. |
| ShareDialog.RecipientDefault | components/ShareInterviewDialog.jsx:100 | With no name entered, the recipient is `Candidate`. |
| ShareDialog.GmailFields | components/ShareInterviewDialog.jsx:91-93 | The Gmail query's fields are `view=cm`, `fs=1`, then `to=` (only with an address), `su=` and `body=`. |
| ShareDialog.GmailRecipientCut | components/ShareInterviewDialog.jsx:91-93 | Without an address the query is the one with an address, minus the `&to=` parameter. |
| ShareDialog.RecipientParam | components/ShareInterviewDialog.jsx:91-93 | Over any subject and body, a Gmail link has a `to` parameter iff the address is non-empty. That parameter decodes to the address. |
| ShareDialog.GmailRecipient | components/ShareInterviewDialog.jsx:91-93 | The link `shareViaGmail` opens has `to` iff an address was entered, and `to` decodes to that address. |
| ShareDialog.SubjectAndBodyParams | components/ShareInterviewDialog.jsx:92-93 | With or without a recipient, `su` and `body` decode to the subject and the body. |
| ShareDialog.GmailMessage | components/ShareInterviewDialog.jsx:76-93 | The Gmail link carries the subject and the whole invitation, and the invitation holds the interview link. |
| ShareDialog.WhatsAppMessageSent | components/ShareInterviewDialog.jsx:101-112 | The WhatsApp link is `https://wa.me/?text=` followed by the encoded message. `text` decodes to the message, and the message holds the interview link. |
| ShareDialog.ShareLinksHoldLink | components/ShareInterviewDialog.jsx:85-112 | Both share links contain the encoded interview link. |
| UriComponent.Encode | components/ShareInterviewDialog.jsx:76-77 | `encodeURIComponent` output has only unreserved characters and `%`, so no `&`, `=`, `?` or `#` survives. It is never shorter than its input. |
| UriComponent.EncodeAppend | components/ShareInterviewDialog.jsx:77-89 | Encoding works character by character: the encoding of a concatenation is the concatenation of the encodings. |
| UriComponent.EncodeFixesExactlyUnreserved | components/ShareInterviewDialog.jsx:92 | Encoding leaves a text unchanged iff every character is unreserved. |
| UriComponent.DecodeEncode | components/ShareInterviewDialog.jsx:101-110 | `decodeURIComponent(encodeURIComponent(s)) == s` for every text. |
| UriComponent.EncodeInjective | components/ShareInterviewDialog.jsx:101-110 | Two texts with the same encoding are equal. |
| UriComponent.FieldsAfterSeparator | components/ShareInterviewDialog.jsx:92-93 | A parameter `&k=v` with `v` encoded adds exactly the field `k=v` to the query. |

## Left out

- Network, database and model I/O. OpenAI, Supabase, `req.formData()`,
  `req.json()`, `pdf-parse`, `mammoth` and `NextResponse` are inputs or
  outputs of the model. `Buffer.from` failing on a file is not modelled.
- The OpenAI model name and `console.error` are not modelled. They do not
  change a response.
- `JSON.parse` is a parameter. The JSON grammar of RFC 8259 is not modelled.
- The regular expressions are scanners that return the leftmost match. A
  general regex engine is not modelled.
- QuestionRoute.ReadJsonBody: a `null` body throws a `TypeError` in the
  source. The model gives its message as V8 words it. Other engines word it
  differently.
- JsText.ToLowerAscii: only ASCII letters are lower-cased. This agrees with
  `toLowerCase` for the `.pdf`/`.docx` suffix tests but not in general.
- Values that `String(...)` renders as `undefined` or `null` in the share
  messages. The interview fields are given as the text the template literal
  produces.
- `toISOString` is not modelled. Expiry times stay integers in milliseconds.
- Browser effects are not modelled: the `toast` notices beyond their text,
  `window.open`, the clipboard, the `copied` flag and its 2-second
  `setTimeout`.
- `setInterval` timing and React effect scheduling are not modelled. This
  includes StrictMode re-runs and the `onTick` captured by the first effect
  (a later `onTick` prop is not seen until `isRunning` changes). `Tick` is
  the interval callback, callable while an interval is scheduled.
- Timer.TimerState.Unmount: the component is discarded after unmount, so
  `Valid()` is not re-established.
- UriComponent.Encode: JavaScript strings can hold lone UTF-16 surrogates,
  on which `encodeURIComponent` throws. Dafny's `char` is a Unicode scalar
  value, so that input cannot be written.
- UriComponent.Fields: `URLSearchParams` reads `+` as a space. The model
  splits on `&` and decodes with `decodeURIComponent`, which matches Gmail
  and WhatsApp links because encoded text never holds `+`.
- ShareDialog.ShareDialogState.FinishUpdate: the select keeps the chosen
  value when the update fails, as in the source. A failed update does not
  revert `linkExpiry`.
- ShareDialog.ShareDialogState.UpdateLinkSecurity: requires that no update is
  in flight. Its only caller is the select, which is disabled while `updating`
  is set (components/ShareInterviewDialog.jsx:193).
- ShareDialog.ShareDialogState.BeginUpdate: requires that no update is in
  flight, for the same reason.
- ShareDialog.ShareDialogState.HandleExpiryChange: requires that no update
  is in flight, because the select is disabled while `updating` is set.
  Overlapping updates are not modelled.
- QuestionRoute.Post: the handler fills the prompt with `FillPrompt`, the
  literal replacement. That is the corrected behaviour of the finding below,
  and so are `Respond` and `PromptSent`. The code as written is
  `FillPromptAsWritten`. QuestionRoute.PromptSentAsWritten proves the two
  send the same prompt when no value holds `$`, and
  QuestionRoute.DollarTitleSendsPlaceholder shows a value on which they
  differ.
- QuestionRoute.PromptAssembly: states the literal fill, as `Post` does, and
  only for template pieces and values free of `{`. A value holding a
  placeholder can be reached by a later `replace`, and that case is left to
  `FillPrompt` itself.
- QuestionRoute.TypeText: `length > 0` follows the StringToNumber grammar of
  ECMA-262 on the text of the value, but reads a decimal literal with a
  non-zero digit as positive even when its value underflows to 0 (such as
  `1e-400`).
- The TypeError messages `type.join is not a function` and `Cannot convert
  object to primitive value` are worded as V8 words them. Other engines word
  them differently.
- QuestionRoute.ReadForm: a form whose `jobPosition` or `duration` entry is a
  file is not modelled. The form's text fields are strings.
- Timer.TimerState.constructor: `isRunning` is a parameter. A component
  rendered without the prop is the constructor called with `true`, the
  default at app/interview/_components/TimerComponent.jsx:5.
- QuestionRoute.PromptLayout: states the filled prompt for values free of
  `{`. A value holding a placeholder of its own can be reached by a later
  `replace`, and that case is left to `FillPrompt` itself.

## Findings

| source | as written | input that shows it | evidently intended | confidence | as-written member | corrected member |
|---|---|---|---|---|---|---|
| app/api/ai-model/route.jsx:126-130 | Each value is inserted with `String.prototype.replace(string, string)`, which expands `$&`, `` $` ``, `$'` and `$$` in the value | `jobPosition` = `$&`: the sent prompt still holds `{{jobTitle}}` where the title should be | Each value inserted literally | not executed | QuestionRoute.DollarTitleSendsPlaceholder | QuestionRoute.PromptLayout |
