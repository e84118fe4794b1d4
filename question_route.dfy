/** The request handling of the question-generation endpoint (`POST`):
    reading the fields of a multipart form or a JSON body, the file-type
    gate on an uploaded resume, the checks in their order, the default job
    description, the assembly of the prompt from its template, and the
    response built from the model's reply.

    The foreign calls are inputs: what `req.formData()` and `req.json()`
    produced, whether the API key is configured, the text the PDF or DOCX
    parser extracted (or that it threw), `JSON.parse` as `parse`, and the
    chat completion as `llm`, from the prompt to its outcome. */
module QuestionRoute {
  import opened Options
  import opened JsText
  import opened Json
  import opened QuestionExtraction

  // ---------------------------------------------------------------------
  // Requests and responses.

  /** The `resume` entry of a multipart form. A text entry has no
      `arrayBuffer` and is ignored. A file carries its name and what the
      parser chosen by its suffix made of it: the extracted text, or `None`
      when the parser threw. */
  datatype Entry =
    | Absent
    | TextEntry(text: string)
    | FileEntry(name: string, extraction: Option<string>)

  /** The outcome of `req.formData()`. A missing text field reads as ''. */
  datatype FormRead =
    | FormFailed(message: string)
    | Form(jobPosition: string, duration: string, typeField: string, resume: Entry)

  /** The outcome of `req.json()`. */
  datatype JsonRead = JsonFailed | JsonBody(body: JsonValue)

  /** A request: its `content-type` header ('' when absent), the outcomes of
      both body readers (only the one the header selects is used) and
      whether `OPENAI_API_KEY` is set to a non-empty value. */
  datatype Request = Request(contentType: string, form: FormRead, json: JsonRead, apiKeySet: bool)

  /** The outcome of the chat completion: the first choice's message
      content (`None` when missing or null), or the message of the error
      the client threw. */
  datatype Completion = Replied(content: Option<string>) | CallFailed(message: string)

  datatype Response =
    | Questions(questions: seq<JsonValue>, raw: string, warnings: seq<string>)
    | Failure(status: int, message: string)

  const MultipartType := "multipart/form-data"
  const UnsupportedFileMessage := "Unsupported file type. Please upload .pdf or .docx"
  const ExpectedJsonMessage := "Expected JSON body. If uploading a file, use multipart/form-data."
  const NullBodyMessage := "Cannot read properties of null (reading 'jobPosition')"
  const MissingKeyMessage := "Server configuration error: missing OPENAI_API_KEY"
  const MissingJobPositionMessage := "jobPosition is required"
  const TypeJoinMessage := "type.join is not a function"
  const ConversionMessage := "Cannot convert object to primitive value"
  const DefaultDescription := "No job description provided. Generate general questions for this role."
  const PdfWarning := "Failed to parse PDF content. Proceeding with general questions."
  const DocxWarning := "Failed to parse DOCX content. Proceeding with general questions."
  const ResumePrefix := "Resume Content:\n"

  // ---------------------------------------------------------------------
  // The prompt template.

  /** The template `QUESTIONS_PROMPT` of `services/Constant.jsx`, cut at its
      placeholders: `Segment0`, `{{jobTitle}}`, `Segment1`,
      `{{jobDescription}}`, `Segment2`, `{{duration}}`, `Segment3`,
      `{{type}}`, then `Tail`, which holds a second `{{duration}}`, a second
      `{{type}}` and a second `{{jobTitle}}`. */
  const Segment0: string := IntroLine + InputsLine + "Job Title: "

  const IntroLine: string := "You are an expert " + "technical interviewer.\n"

  const InputsLine: string :=
    "Based on the " + "following inputs, " + "generate a well-" + "structured list "
    + "of high-quality " + "interview questions:\n"

  const Segment1: string :=
    "\n"
    + "Job Description/Resume: "

  const Segment2: string :=
    "\n"
    + "Interview Duration: "

  const Segment3: string :=
    " minutes\n"
    + "Interview Type: "

  const Segment4: string :=
    "\n"
    + "\n"
    + "\U{1F4DD} Your task:\n"
    + "- If the Job Description contains resume content, carefully analyze the candidate's skills, experience, projects, and qualifications\n"
    + "- Extract key technical skills, technologies, and experiences from the resume\n"
    + "- Generate targeted questions that probe deeper into the specific experiences and skills mentioned in the resume\n"
    + "- For candidates with strong backgrounds, create more advanced questions matching their level\n"
    + "- If no resume is provided, analyze the job description to identify key responsibilities and required skills\n"
    + "- Generate a list of interview questions based on interview duration (aim for approximately "

  const Segment5: string :=
    "/5 questions)\n"
    + "- Adjust the number and depth of questions to match the interview duration\n"
    + "- Ensure the questions match the tone and structure of a real-life "

  const Segment6: string :=
    " interview\n"
    + "\n"
    + "\U{1F331} Format your response in JSON format with array list of questions.\n"
    + "format: interviewQuestions=[\n"
    + "  {\n"
    + "    question: \"\",\n"
    + "    type: \"Technical/Behavioral/Experience/Problem Solving/Leadership\"\n"
    + "  },\n"
    + "  ...\n"
    + "]\n"
    + "\n"
    + "\U{1F3AF} The goal is to create a structured, relevant, and time-optimized interview plan for a "

  const Segment7: string :=
    " role that aligns with the candidate's background if a resume is provided."

  const Tail: string := Segment4 + "{{duration}}" + Segment5 + "{{type}}" + Segment6 + "{{jobTitle}}" + Segment7

  const QuestionsPrompt: string :=
    Segment0 + "{{jobTitle}}" + Segment1 + "{{jobDescription}}" + Segment2 + "{{duration}}" + Segment3 + "{{type}}" + Tail

  /** The four `replace` calls in their order. Each replaces the first
      occurrence of its placeholder in the text produced so far, inserting
      the value literally. */
  function FillPrompt(template: string, title: string, description: string, duration: string, typeText: string): string {
    var p1 := ReplaceFirst(template, "{{jobTitle}}", title);
    var p2 := ReplaceFirst(p1, "{{jobDescription}}", description);
    var p3 := ReplaceFirst(p2, "{{duration}}", duration);
    ReplaceFirst(p3, "{{type}}", typeText)
  }

  /** The same calls as JavaScript evaluates them: `$` patterns in a value
      are expanded. */
  function FillPromptAsWritten(template: string, title: string, description: string, duration: string, typeText: string): string {
    var p1 := ReplaceFirstAsWritten(template, "{{jobTitle}}", title);
    var p2 := ReplaceFirstAsWritten(p1, "{{jobDescription}}", description);
    var p3 := ReplaceFirstAsWritten(p2, "{{duration}}", duration);
    ReplaceFirstAsWritten(p3, "{{type}}", typeText)
  }

  // ---------------------------------------------------------------------
  // The decision, as a function of the request.

  /** `v || ''` on a property read. */
  function OrEmpty(v: Option<JsonValue>): (r: JsonValue)
    ensures Truthy(r) || r == JString("")
    ensures v.Some? && Truthy(v.value) ==> r == v.value
    ensures !(v.Some? && Truthy(v.value)) ==> r == JString("")
  {
    if v.Some? && Truthy(v.value) then v.value else JString("")
  }

  /** `error?.message || 'Something went wrong'`. */
  function ErrorMessage(m: string): (r: string)
    ensures r != ""
    ensures m != "" ==> r == m
  {
    if m != "" then m else "Something went wrong"
  }

  /** The value of `type` read from a form: the field (or `'[]'` when it is
      empty) parsed, the empty array when parsing fails. */
  function TypeFromForm(field: string, parse: string -> Option<JsonValue>): JsonValue {
    match parse(if field != "" then field else "[]")
    case None => JArray([])
    case Some(v) => v
  }

  /** How the argument of the last `replace` evaluates: the text, or the
      message of the TypeError it throws. */
  datatype TypeOutcome = Typed(text: string) | Throws(message: string)

  /** The text that replaces `{{type}}`:
      `type && type.length > 0 ? type.join(", ") : "General"`.
      - A non-empty array is joined, which converts every element: an
        element that cannot be converted throws.
      - A non-empty string has a length but no `join`, so the call throws.
      - An object's `length` member is converted for the comparison, which
        throws when it cannot be converted. A length greater than zero then
        leads to the missing `join`, which throws.
      - Every other value has no positive length and gives "General". */
  function TypeText(t: JsonValue): (r: TypeOutcome)
    ensures t.JArray? && r.Typed? ==> r.text == if |t.items| > 0 then Join(t.items, ", ") else "General"
    ensures !t.JArray? && r.Typed? ==> r.text == "General"
    ensures r.Throws? ==> r == Throws(TypeJoinMessage) || r == Throws(ConversionMessage)
    ensures r == Throws(TypeJoinMessage) <==>
      || (t.JString? && t.s != "")
      || (t.JObject? && Member(t, "length").Some? && Convertible(Member(t, "length").value)
          && GreaterThanZero(Member(t, "length").value))
    ensures r == Throws(ConversionMessage) <==>
      || (t.JArray? && |t.items| > 0 && !Convertible(t))
      || (t.JObject? && Member(t, "length").Some? && !Convertible(Member(t, "length").value))
  {
    match t
    case JArray(items) =>
      if |items| == 0 then Typed("General")
      else if Convertible(t) then Typed(Join(items, ", "))
      else Throws(ConversionMessage)
    case JString(s) => if s != "" then Throws(TypeJoinMessage) else Typed("General")
    case JObject(_) =>
      var length := Member(t, "length");
      if length.None? then Typed("General")
      else if !Convertible(length.value) then Throws(ConversionMessage)
      else if GreaterThanZero(length.value) then Throws(TypeJoinMessage)
      else Typed("General")
    case _ => Typed("General")
  }

  /** A parsed form `type` that is an object with a `length` member throws
      exactly when that length cannot be converted, or compares greater
      than zero so that the missing `join` is called. */
  lemma ObjectTypeLength(length: JsonValue)
    ensures TypeText(JObject(map["length" := length])).Throws? <==> !Convertible(length) || GreaterThanZero(length)
    ensures TypeText(JObject(map["length" := length])) == Throws(ConversionMessage) <==> !Convertible(length)
  {
    var t := JObject(map["length" := length]);
    assert "length" in t.members && t.members["length"] == length;
    assert Member(t, "length") == Some(length);
  }

  /** Instances: a positive length throws, whether it is a number, numeric
      text, `true` or an array holding a number; a zero length or `false`
      gives "General". */
  lemma ObjectTypeWithLength(n: nat)
    ensures TypeText(JObject(map["length" := JNumber(DecimalString(n))])).Throws? <==> n > 0
    ensures TypeText(JObject(map["length" := JString(DecimalString(n))])).Throws? <==> n > 0
    ensures TypeText(JObject(map["length" := JArray([JNumber(DecimalString(n))])])).Throws? <==> n > 0
    ensures TypeText(JObject(map["length" := JBool(true)])).Throws?
    ensures TypeText(JObject(map["length" := JBool(false)])).Typed?
  {
    DecimalLengthPositive(n);
    assert JArray([JNumber(DecimalString(n))]).items[0] == JNumber(DecimalString(n));
    ObjectTypeLength(JNumber(DecimalString(n)));
    ObjectTypeLength(JString(DecimalString(n)));
    ObjectTypeLength(JArray([JNumber(DecimalString(n))]));
    ObjectTypeLength(JBool(true));
    ObjectTypeLength(JBool(false));
  }

  /** An array `type` with an element that cannot be converted, such as
      `[{"toString": 0}]`, throws in `join`, whatever comes before it. */
  lemma ArrayTypeElementThrows(items: seq<JsonValue>, x: JsonValue)
    requires !Convertible(x)
    ensures TypeText(JArray(items + [x])) == Throws(ConversionMessage)
  {
    ConversionFailures(map[], items, x);
  }

  /** The job description a resume entry gives, and the warnings it adds. */
  datatype ResumeRead = Unsupported | Described(description: string, warnings: seq<string>)

  predicate IsPdf(name: string) { EndsWith(ToLowerAscii(name), ".pdf") }
  predicate IsDocx(name: string) { EndsWith(ToLowerAscii(name), ".docx") }

  function ReadResume(resume: Entry): ResumeRead {
    match resume
    case FileEntry(name, extraction) =>
      if IsPdf(name) || IsDocx(name) then
        match extraction
        case Some(text) => Described(ResumePrefix + text, [])
        case None => Described("", [if IsPdf(name) then PdfWarning else DocxWarning])
      else Unsupported
    case _ => Described("", [])
  }

  /** The request fields once read, before the checks. */
  datatype Fields = Fields(jobPosition: JsonValue, jobDescription: JsonValue, duration: JsonValue,
                           typeValue: JsonValue, warnings: seq<string>)

  datatype Read = Stop(status: int, message: string) | Go(fields: Fields)

  function ReadForm(form: FormRead, parse: string -> Option<JsonValue>): Read {
    match form
    case FormFailed(m) => Stop(500, ErrorMessage(m))
    case Form(jobPosition, duration, typeField, resume) =>
      match ReadResume(resume)
      case Unsupported => Stop(400, UnsupportedFileMessage)
      case Described(description, warnings) =>
        Go(Fields(JString(jobPosition), JString(description), JString(duration),
                  TypeFromForm(typeField, parse), warnings))
  }

  /** A JSON body: reading a property of `null` throws; every other value
      that is not an object has none of the properties. */
  function ReadBody(json: JsonRead): Read {
    match json
    case JsonFailed => Stop(400, ExpectedJsonMessage)
    case JsonBody(body) =>
      if body.JNull? then Stop(500, NullBodyMessage)
      else
        var t := Member(body, "type");
        Go(Fields(OrEmpty(Member(body, "jobPosition")), OrEmpty(Member(body, "jobDescription")),
                  OrEmpty(Member(body, "duration")), if t.Some? && t.value.JArray? then t.value else JArray([]),
                  []))
  }

  function ReadRequest(req: Request, parse: string -> Option<JsonValue>): Read {
    if Includes(req.contentType, MultipartType) then ReadForm(req.form, parse) else ReadBody(req.json)
  }

  /** The four values that fill the placeholders, in the order of the
      `replace` calls. */
  datatype PromptValues = PromptValues(title: string, description: string, duration: string, typeText: string)

  /** What the handler decides before calling the model: an error response,
      or the values for the prompt with the warnings collected so far. */
  datatype Decision = Reject(status: int, message: string) | Ask(values: PromptValues, warnings: seq<string>)

  function Decide(req: Request, parse: string -> Option<JsonValue>): Decision {
    match ReadRequest(req, parse)
    case Stop(status, message) => Reject(status, message)
    case Go(f) =>
      if !req.apiKeySet then Reject(500, MissingKeyMessage)
      else if !Truthy(f.jobPosition) then Reject(400, MissingJobPositionMessage)
      else
        var description := if Truthy(f.jobDescription) then f.jobDescription else JString(DefaultDescription);
        var duration := OrEmpty(Some(f.duration));
        if !(Convertible(f.jobPosition) && Convertible(description) && Convertible(duration)) then
          Reject(500, ConversionMessage)
        else
          match TypeText(f.typeValue)
          case Throws(message) => Reject(500, message)
          case Typed(typeText) =>
            Ask(PromptValues(ToText(f.jobPosition), ToText(description), ToText(duration), typeText), f.warnings)
  }

  /** The template with its placeholders filled by `values`. */
  function Prompt(template: string, values: PromptValues): string {
    FillPrompt(template, values.title, values.description, values.duration, values.typeText)
  }

  /** The response: an error decided before the model call, an error thrown
      by the call, or the questions extracted from the reply together with
      the reply itself and the warnings. */
  function Respond(req: Request, template: string, parse: string -> Option<JsonValue>, llm: string -> Completion): Response {
    match Decide(req, parse)
    case Reject(status, message) => Failure(status, message)
    case Ask(values, warnings) =>
      match llm(Prompt(template, values))
      case CallFailed(m) => Failure(500, ErrorMessage(m))
      case Replied(content) =>
        var reply := if content.Some? then content.value else "";
        Questions(ExtractedQuestions(Text(reply), parse), reply, warnings)
  }

  /** The prompt sent to the model, if the handler gets that far. */
  function PromptSent(req: Request, template: string, parse: string -> Option<JsonValue>): Option<string> {
    match Decide(req, parse)
    case Reject(_, _) => None
    case Ask(values, _) => Some(Prompt(template, values))
  }

  // ---------------------------------------------------------------------
  // Prompt assembly on the template.

  /** The literal text before the fourth placeholder holds no `{`. The
      long line is checked a piece at a time. */
  lemma InputsLineBraceFree()
    ensures '{' !in InputsLine
  {
    assert '{' !in "Based on the " && '{' !in "following inputs, ";
    assert '{' !in "generate a well-" && '{' !in "structured list ";
    assert '{' !in "of high-quality " && '{' !in "interview questions:\n";
  }

  lemma IntroLineBraceFree()
    ensures '{' !in IntroLine && '{' !in "Job Title: "
  {
    assert '{' !in "You are an expert " && '{' !in "technical interviewer.\n";
  }

  lemma LeadingSegmentsBraceFree()
    ensures '{' !in Segment0 && '{' !in Segment1 && '{' !in Segment2 && '{' !in Segment3
  {
    InputsLineBraceFree();
    IntroLineBraceFree();
  }

  /** The first `replace` on a template of the shape below: the first
      `{{jobTitle}}` is the one right after `s0`, and only it is replaced. */
  lemma {:induction false} TitleStep(s0: string, s1: string, s2: string, s3: string, tail: string, title: string)
    requires '{' !in s0
    ensures IndexOf(s0 + "{{jobTitle}}" + s1 + "{{jobDescription}}" + s2 + "{{duration}}" + s3 + "{{type}}" + tail,
                    "{{jobTitle}}", 0) == Some(|s0|)
    ensures ReplaceFirst(s0 + "{{jobTitle}}" + s1 + "{{jobDescription}}" + s2 + "{{duration}}" + s3 + "{{type}}" + tail,
                         "{{jobTitle}}", title)
      == s0 + title + s1 + "{{jobDescription}}" + s2 + "{{duration}}" + s3 + "{{type}}" + tail
  {
    var x1 := s0 + "{{jobTitle}}";
    ReplaceAfterFreePrefix(s0, "{{jobTitle}}", title);
    ReplaceFirstWithin(x1, s1, "{{jobTitle}}", title);
    ReplaceFirstWithin(x1 + s1, "{{jobDescription}}", "{{jobTitle}}", title);
    ReplaceFirstWithin(x1 + s1 + "{{jobDescription}}", s2, "{{jobTitle}}", title);
    ReplaceFirstWithin(x1 + s1 + "{{jobDescription}}" + s2, "{{duration}}", "{{jobTitle}}", title);
    ReplaceFirstWithin(x1 + s1 + "{{jobDescription}}" + s2 + "{{duration}}", s3, "{{jobTitle}}", title);
    ReplaceFirstWithin(x1 + s1 + "{{jobDescription}}" + s2 + "{{duration}}" + s3, "{{type}}", "{{jobTitle}}", title);
    ReplaceFirstWithin(x1 + s1 + "{{jobDescription}}" + s2 + "{{duration}}" + s3 + "{{type}}", tail, "{{jobTitle}}", title);
  }

  /** Filling a template of this shape: text free of `{`, then the four
      placeholders in the order of the `replace` calls, each after text free
      of `{`. The first occurrence of each placeholder is the one right
      after its text, so it takes the value, and the tail is kept as it
      stands. */
  lemma {:induction false} FillPromptLayout(s0: string, s1: string, s2: string, s3: string, tail: string,
                                            title: string, description: string, duration: string, typeText: string)
    requires '{' !in s0 && '{' !in s1 && '{' !in s2 && '{' !in s3
    requires '{' !in title && '{' !in description && '{' !in duration
    ensures FillPrompt(s0 + "{{jobTitle}}" + s1 + "{{jobDescription}}" + s2 + "{{duration}}" + s3 + "{{type}}" + tail,
                       title, description, duration, typeText)
      == s0 + title + s1 + description + s2 + duration + s3 + typeText + tail
  {
    TitleStep(s0, s1, s2, s3, tail, title);

    var a2 := s0 + title + s1;
    var x2 := a2 + "{{jobDescription}}";
    ReplaceAfterFreePrefix(a2, "{{jobDescription}}", description);
    ReplaceFirstWithin(x2, s2, "{{jobDescription}}", description);
    ReplaceFirstWithin(x2 + s2, "{{duration}}", "{{jobDescription}}", description);
    ReplaceFirstWithin(x2 + s2 + "{{duration}}", s3, "{{jobDescription}}", description);
    ReplaceFirstWithin(x2 + s2 + "{{duration}}" + s3, "{{type}}", "{{jobDescription}}", description);
    ReplaceFirstWithin(x2 + s2 + "{{duration}}" + s3 + "{{type}}", tail, "{{jobDescription}}", description);

    var a3 := a2 + description + s2;
    var x3 := a3 + "{{duration}}";
    ReplaceAfterFreePrefix(a3, "{{duration}}", duration);
    ReplaceFirstWithin(x3, s3, "{{duration}}", duration);
    ReplaceFirstWithin(x3 + s3, "{{type}}", "{{duration}}", duration);
    ReplaceFirstWithin(x3 + s3 + "{{type}}", tail, "{{duration}}", duration);

    var a4 := a3 + duration + s3;
    ReplaceAfterFreePrefix(a4, "{{type}}", typeText);
    ReplaceFirstWithin(a4 + "{{type}}", tail, "{{type}}", typeText);
  }

  /** A text built like the tail of the template holds a `{{duration}}`, a
      `{{type}}` and a `{{jobTitle}}`. */
  lemma PlaceholdersInTail(s4: string, s5: string, s6: string, s7: string)
    ensures var s := s4 + "{{duration}}" + s5 + "{{type}}" + s6 + "{{jobTitle}}" + s7;
      Occurs(s, "{{duration}}") && Occurs(s, "{{type}}") && Occurs(s, "{{jobTitle}}")
  {
    var x1 := s4 + "{{duration}}";
    var x2 := x1 + s5 + "{{type}}";
    var x3 := x2 + s6 + "{{jobTitle}}";
    OccursAtEnd(s4, "{{duration}}");
    OccursExtended(x1, s5, "{{duration}}");
    OccursExtended(x1 + s5, "{{type}}", "{{duration}}");
    OccursExtended(x2, s6, "{{duration}}");
    OccursExtended(x2 + s6, "{{jobTitle}}", "{{duration}}");
    OccursExtended(x3, s7, "{{duration}}");
    OccursAtEnd(x1 + s5, "{{type}}");
    OccursExtended(x2, s6, "{{type}}");
    OccursExtended(x2 + s6, "{{jobTitle}}", "{{type}}");
    OccursExtended(x3, s7, "{{type}}");
    OccursAtEnd(x2 + s6, "{{jobTitle}}");
    OccursExtended(x3, s7, "{{jobTitle}}");
  }

  /** The prompt built from `QUESTIONS_PROMPT`: the first occurrence of each
      placeholder is replaced by its value, and the rest of the template is
      sent as it stands, so its second `{{duration}}`, `{{type}}` and
      `{{jobTitle}}` reach the model unfilled. The values are taken without
      `{`, so that none of them brings a placeholder of its own. */
  lemma PromptLayout(title: string, description: string, duration: string, typeText: string)
    requires '{' !in title && '{' !in description && '{' !in duration
    ensures FillPrompt(QuestionsPrompt, title, description, duration, typeText)
      == Segment0 + title + Segment1 + description + Segment2 + duration + Segment3 + typeText + Tail
    ensures var prompt := FillPrompt(QuestionsPrompt, title, description, duration, typeText);
      Occurs(prompt, "{{duration}}") && Occurs(prompt, "{{type}}") && Occurs(prompt, "{{jobTitle}}")
  {
    LeadingSegmentsBraceFree();
    FillPromptLayout(Segment0, Segment1, Segment2, Segment3, Tail, title, description, duration, typeText);
    PlaceholdersInTail(Segment4, Segment5, Segment6, Segment7);
    var filled := Segment0 + title + Segment1 + description + Segment2 + duration + Segment3 + typeText;
    OccursPrepended(filled, Tail, "{{duration}}");
    OccursPrepended(filled, Tail, "{{type}}");
    OccursPrepended(filled, Tail, "{{jobTitle}}");
  }

  /** On values free of `$` the replacements as JavaScript evaluates them
      and the literal replacements build the same prompt. */
  lemma FillPromptAgreesWithoutDollar(template: string, title: string, description: string, duration: string, typeText: string)
    requires '$' !in title && '$' !in description && '$' !in duration && '$' !in typeText
    ensures FillPromptAsWritten(template, title, description, duration, typeText)
      == FillPrompt(template, title, description, duration, typeText)
  {
    var p1 := ReplaceFirst(template, "{{jobTitle}}", title);
    ReplaceFirstAgreesWithoutDollar(template, "{{jobTitle}}", title);
    var p2 := ReplaceFirst(p1, "{{jobDescription}}", description);
    ReplaceFirstAgreesWithoutDollar(p1, "{{jobDescription}}", description);
    var p3 := ReplaceFirst(p2, "{{duration}}", duration);
    ReplaceFirstAgreesWithoutDollar(p2, "{{duration}}", duration);
    ReplaceFirstAgreesWithoutDollar(p3, "{{type}}", typeText);
  }

  /** As written, a job title `$&` in a template of this shape is expanded
      to the matched placeholder: the model receives the same prompt as for
      the title `{{jobTitle}}`, while the literal replacement inserts the two
      characters. */
  lemma DollarTitleRestoresPlaceholder(s0: string, s1: string, s2: string, s3: string, tail: string,
                                       description: string, duration: string, typeText: string)
    requires '{' !in s0
    requires '$' !in description && '$' !in duration && '$' !in typeText
    ensures var template := s0 + "{{jobTitle}}" + s1 + "{{jobDescription}}" + s2 + "{{duration}}" + s3 + "{{type}}" + tail;
      FillPromptAsWritten(template, "$&", description, duration, typeText)
        == FillPrompt(template, "{{jobTitle}}", description, duration, typeText)
    ensures var template := s0 + "{{jobTitle}}" + s1 + "{{jobDescription}}" + s2 + "{{duration}}" + s3 + "{{type}}" + tail;
      ReplaceFirst(template, "{{jobTitle}}", "$&") != template
  {
    var template := s0 + "{{jobTitle}}" + s1 + "{{jobDescription}}" + s2 + "{{duration}}" + s3 + "{{type}}" + tail;
    TitleStep(s0, s1, s2, s3, tail, "{{jobTitle}}");
    TitleStep(s0, s1, s2, s3, tail, "$&");
    DollarAmpersandRestoresPlaceholder(template, "{{jobTitle}}");
    var p1 := template;
    ReplaceFirstAgreesWithoutDollar(p1, "{{jobDescription}}", description);
    var p2 := ReplaceFirst(p1, "{{jobDescription}}", description);
    ReplaceFirstAgreesWithoutDollar(p2, "{{duration}}", duration);
    var p3 := ReplaceFirst(p2, "{{duration}}", duration);
    ReplaceFirstAgreesWithoutDollar(p3, "{{type}}", typeText);
  }

  /** The discrepancy on `QUESTIONS_PROMPT` itself: as written, the title
      `$&` sends the prompt that the title `{{jobTitle}}` would send. */
  lemma DollarTitleSendsPlaceholder(description: string, duration: string, typeText: string)
    requires '$' !in description && '$' !in duration && '$' !in typeText
    ensures FillPromptAsWritten(QuestionsPrompt, "$&", description, duration, typeText)
      == FillPrompt(QuestionsPrompt, "{{jobTitle}}", description, duration, typeText)
    ensures ReplaceFirst(QuestionsPrompt, "{{jobTitle}}", "$&") != QuestionsPrompt
  {
    LeadingSegmentsBraceFree();
    DollarTitleRestoresPlaceholder(Segment0, Segment1, Segment2, Segment3, Tail, description, duration, typeText);
  }

  // ---------------------------------------------------------------------
  // Properties of the decision.

  /** The file-type gate comes first: a multipart request whose resume file
      is neither `.pdf` nor `.docx` is rejected with 400 whether or not the
      API key is configured and whatever the other fields hold, and the
      model is not called. */
  lemma UnsupportedFileRejectedFirst(req: Request, template: string, parse: string -> Option<JsonValue>, llm: string -> Completion)
    requires Includes(req.contentType, MultipartType) && req.form.Form? && req.form.resume.FileEntry?
    requires !IsPdf(req.form.resume.name) && !IsDocx(req.form.resume.name)
    ensures Decide(req, parse) == Reject(400, UnsupportedFileMessage)
    ensures Respond(req, template, parse, llm) == Failure(400, UnsupportedFileMessage)
    ensures PromptSent(req, template, parse) == None
  {
  }

  /** A rejected request never reaches the model: the response is the
      rejection, whatever the model would have answered. */
  lemma RejectionSkipsModel(req: Request, template: string, parse: string -> Option<JsonValue>, llm: string -> Completion)
    requires Decide(req, parse).Reject?
    ensures Respond(req, template, parse, llm) == Failure(Decide(req, parse).status, Decide(req, parse).message)
    ensures PromptSent(req, template, parse) == None
  {
  }

  /** The values the first three `replace` calls convert to strings all
      convert. The default description and the `|| ''` replacement are
      strings, so only the values as read matter. */
  predicate ValuesConvert(f: Fields) {
    Convertible(f.jobPosition) && Convertible(f.jobDescription) && Convertible(f.duration)
  }

  /** The checks after reading, in their order: the API key (500), then
      `jobPosition` (400), then the conversions of the three `replace`
      values (500), then the evaluation of the `type` argument (500, with
      the message of its TypeError); a request passing all of them is sent
      to the model. */
  lemma CheckOrder(req: Request, parse: string -> Option<JsonValue>)
    requires ReadRequest(req, parse).Go?
    ensures !req.apiKeySet ==> Decide(req, parse) == Reject(500, MissingKeyMessage)
    ensures var f := ReadRequest(req, parse).fields;
      req.apiKeySet && !Truthy(f.jobPosition) ==> Decide(req, parse) == Reject(400, MissingJobPositionMessage)
    ensures var f := ReadRequest(req, parse).fields;
      (req.apiKeySet && Truthy(f.jobPosition) && !ValuesConvert(f)) ==>
        Decide(req, parse) == Reject(500, ConversionMessage)
    ensures var f := ReadRequest(req, parse).fields;
      (req.apiKeySet && Truthy(f.jobPosition) && ValuesConvert(f) && TypeText(f.typeValue).Throws?) ==>
        Decide(req, parse) == Reject(500, TypeText(f.typeValue).message)
    ensures var f := ReadRequest(req, parse).fields;
      Decide(req, parse).Ask? <==>
        req.apiKeySet && Truthy(f.jobPosition) && ValuesConvert(f) && TypeText(f.typeValue).Typed?
  {
    var f := ReadRequest(req, parse).fields;
    if !Truthy(f.jobDescription) {
      FalsyConverts(f.jobDescription);
    }
    if !Truthy(f.duration) {
      FalsyConverts(f.duration);
    }
  }

  /** A JSON body whose `jobPosition` is an object with its own `toString`
      is answered with 500 and the TypeError's message, and the model is not
      called. */
  lemma ToStringPositionRejected(contentType: string, form: FormRead, x: JsonValue, template: string,
                                 parse: string -> Option<JsonValue>, llm: string -> Completion)
    requires !Includes(contentType, MultipartType)
    ensures var req := Request(contentType, form, JsonBody(JObject(map["jobPosition" := JObject(map["toString" := x])])), true);
      Respond(req, template, parse, llm) == Failure(500, ConversionMessage) && PromptSent(req, template, parse) == None
  {
    var bad := JObject(map["toString" := x]);
    var body := JObject(map["jobPosition" := bad]);
    var req := Request(contentType, form, JsonBody(body), true);
    assert "toString" in bad.members;
    assert Member(body, "jobPosition") == Some(bad);
    assert Decide(req, parse) == Reject(500, ConversionMessage);
    RejectionSkipsModel(req, template, parse, llm);
  }

  /** A JSON body whose `type` holds an element with its own `toString` is
      answered with 500 and the TypeError's message, and the model is not
      called. */
  lemma ToStringTypeElementRejected(contentType: string, form: FormRead, x: JsonValue, template: string,
                                    parse: string -> Option<JsonValue>, llm: string -> Completion)
    requires !Includes(contentType, MultipartType)
    ensures var body := JObject(map["jobPosition" := JString("dev"), "type" := JArray([JObject(map["toString" := x])])]);
      var req := Request(contentType, form, JsonBody(body), true);
      Respond(req, template, parse, llm) == Failure(500, ConversionMessage) && PromptSent(req, template, parse) == None
  {
    var bad := JObject(map["toString" := x]);
    var body := JObject(map["jobPosition" := JString("dev"), "type" := JArray([bad])]);
    var req := Request(contentType, form, JsonBody(body), true);
    ArrayTypeElementThrows([], bad);
    assert [] + [bad] == [bad];
    assert Member(body, "jobPosition") == Some(JString("dev"));
    assert Member(body, "type") == Some(JArray([bad]));
    assert Member(body, "jobDescription") == None && Member(body, "duration") == None;
    assert Decide(req, parse) == Reject(500, ConversionMessage);
    RejectionSkipsModel(req, template, parse, llm);
  }

  /** Warnings come only from a resume parser that threw: none, or exactly
      the one naming the format of the file that could not be parsed. */
  lemma WarningsFromFailedParse(req: Request, parse: string -> Option<JsonValue>)
    requires Decide(req, parse).Ask?
    ensures Decide(req, parse).warnings ==
      if Includes(req.contentType, MultipartType) && req.form.resume.FileEntry? && req.form.resume.extraction.None?
      then [if IsPdf(req.form.resume.name) then PdfWarning else DocxWarning]
      else []
  {
    ReadWarnings(req, parse);
  }

  /** The warnings of a request that was read. */
  lemma ReadWarnings(req: Request, parse: string -> Option<JsonValue>)
    requires ReadRequest(req, parse).Go?
    ensures ReadRequest(req, parse).fields.warnings ==
      if Includes(req.contentType, MultipartType) && req.form.resume.FileEntry? && req.form.resume.extraction.None?
      then [if IsPdf(req.form.resume.name) then PdfWarning else DocxWarning]
      else []
  {
    if Includes(req.contentType, MultipartType) {
      assert req.form.Form?;
      match ReadResume(req.form.resume)
      case Unsupported =>
      case Described(_, _) =>
    }
  }

  /** Reading a form whose `.pdf` or `.docx` resume the parser could not
      read: the description is cleared and one warning is added. */
  lemma FailedParseRead(form: FormRead, parse: string -> Option<JsonValue>)
    requires form.Form? && form.resume.FileEntry? && form.resume.extraction.None?
    requires IsPdf(form.resume.name) || IsDocx(form.resume.name)
    ensures ReadForm(form, parse) ==
      Go(Fields(JString(form.jobPosition), JString(""), JString(form.duration), TypeFromForm(form.typeField, parse),
                [if IsPdf(form.resume.name) then PdfWarning else DocxWarning]))
  {
  }

  /** A `.pdf` or `.docx` resume the parser could not read does not fail the
      request: the description is cleared, so the prompt carries the default
      description, and one warning is returned. */
  lemma FailedParseUsesDefault(req: Request, parse: string -> Option<JsonValue>)
    requires Includes(req.contentType, MultipartType) && req.form.Form?
    requires req.form.resume.FileEntry? && req.form.resume.extraction.None?
    requires IsPdf(req.form.resume.name) || IsDocx(req.form.resume.name)
    requires req.apiKeySet && req.form.jobPosition != ""
    requires TypeText(TypeFromForm(req.form.typeField, parse)).Typed?
    ensures Decide(req, parse) ==
      Ask(PromptValues(req.form.jobPosition, DefaultDescription, req.form.duration,
                       TypeText(TypeFromForm(req.form.typeField, parse)).text),
          [if IsPdf(req.form.resume.name) then PdfWarning else DocxWarning])
  {
    FailedParseRead(req.form, parse);
  }

  /** A JSON body that is not `null` is read, and its `type` always has a
      `join`: a `type` that is not an array is replaced by `[]` when the body
      is read. The join throws only on an element that cannot be converted. */
  lemma JsonTypeHasJoin(req: Request, parse: string -> Option<JsonValue>)
    requires !Includes(req.contentType, MultipartType) && req.json.JsonBody? && !req.json.body.JNull?
    ensures ReadRequest(req, parse).Go?
    ensures TypeText(ReadRequest(req, parse).fields.typeValue) != Throws(TypeJoinMessage)
    ensures TypeText(ReadRequest(req, parse).fields.typeValue).Typed? <==>
      Convertible(ReadRequest(req, parse).fields.typeValue)
  {
  }

  /** The values of an accepted request: the job position; the description,
      or the default text when it is empty; the duration, or '' when it is
      empty or zero; the types joined with ", ", or "General" when there
      are none. */
  lemma AcceptedValues(req: Request, parse: string -> Option<JsonValue>)
    requires Decide(req, parse).Ask?
    ensures var f := ReadRequest(req, parse).fields;
      Decide(req, parse).values == PromptValues(
        ToText(f.jobPosition),
        if Truthy(f.jobDescription) then ToText(f.jobDescription) else DefaultDescription,
        if Truthy(f.duration) then ToText(f.duration) else "",
        if f.typeValue.JArray? && |f.typeValue.items| > 0 then Join(f.typeValue.items, ", ") else "General")
  {
  }

  /** The prompt an accepted request sends on a template shaped like
      `QUESTIONS_PROMPT` (see `PromptLayout` for the template itself): its
      values fill the first occurrences of the placeholders, and the tail of
      the template follows unchanged. */
  lemma PromptAssembly(req: Request, parse: string -> Option<JsonValue>,
                       s0: string, s1: string, s2: string, s3: string, tail: string)
    requires '{' !in s0 && '{' !in s1 && '{' !in s2 && '{' !in s3
    requires Decide(req, parse).Ask?
    requires var v := Decide(req, parse).values;
      '{' !in v.title && '{' !in v.description && '{' !in v.duration
    ensures var v := Decide(req, parse).values;
      PromptSent(req, s0 + "{{jobTitle}}" + s1 + "{{jobDescription}}" + s2 + "{{duration}}" + s3 + "{{type}}" + tail, parse)
        == Some(s0 + v.title + s1 + v.description + s2 + v.duration + s3 + v.typeText + tail)
  {
    var v := Decide(req, parse).values;
    FillPromptLayout(s0, s1, s2, s3, tail, v.title, v.description, v.duration, v.typeText);
  }

  /** The handler fills the prompt literally. Whenever no value holds `$`,
      that is the prompt the four `replace` calls send as JavaScript
      evaluates them. */
  lemma PromptSentAsWritten(req: Request, template: string, parse: string -> Option<JsonValue>)
    requires Decide(req, parse).Ask?
    requires var v := Decide(req, parse).values;
      '$' !in v.title && '$' !in v.description && '$' !in v.duration && '$' !in v.typeText
    ensures var v := Decide(req, parse).values;
      PromptSent(req, template, parse) == Some(FillPromptAsWritten(template, v.title, v.description, v.duration, v.typeText))
  {
    var v := Decide(req, parse).values;
    FillPromptAgreesWithoutDollar(template, v.title, v.description, v.duration, v.typeText);
  }

  // ---------------------------------------------------------------------
  // The handler.

  /** The first part of `POST(req)`: the fields read from a multipart form
      or a JSON body, by the content type. */
  method ReadFields(req: Request, parse: string -> Option<JsonValue>) returns (read: Read)
    ensures read == ReadRequest(req, parse)
  {
    if Includes(req.contentType, MultipartType) {
      read := ReadMultipart(req.form, parse);
    } else {
      read := ReadJsonBody(req.json);
    }
  }

  /** The multipart branch. The locals of the source are reassigned as the
      form is read, and a parser failure appends a warning. */
  method ReadMultipart(form: FormRead, parse: string -> Option<JsonValue>) returns (read: Read)
    ensures read == ReadForm(form, parse)
  {
    var jobDescription: JsonValue := JString("");
    var parseWarnings: seq<string> := [];
    if form.FormFailed? {
      return Stop(500, ErrorMessage(form.message));
    }
    var jobPosition := JString(form.jobPosition);
    var duration := JString(form.duration);
    var typeValue := match parse(if form.typeField != "" then form.typeField else "[]")
      case None => JArray([])
      case Some(v) => v;
    var file := form.resume;
    if file.FileEntry? {
      var filename := file.name;
      if IsPdf(filename) {
        if file.extraction.Some? {
          jobDescription := JString(ResumePrefix + file.extraction.value);
        } else {
          parseWarnings := parseWarnings + [PdfWarning];
          jobDescription := JString("");
        }
      } else if IsDocx(filename) {
        if file.extraction.Some? {
          jobDescription := JString(ResumePrefix + file.extraction.value);
        } else {
          parseWarnings := parseWarnings + [DocxWarning];
          jobDescription := JString("");
        }
      } else {
        return Stop(400, UnsupportedFileMessage);
      }
    }
    assert ReadResume(file) == Described(jobDescription.s, parseWarnings);
    return Go(Fields(jobPosition, jobDescription, duration, typeValue, parseWarnings));
  }

  /** The JSON branch: a body that failed to parse, a `null` body, or the
      members of the body. */
  method ReadJsonBody(json: JsonRead) returns (read: Read)
    ensures read == ReadBody(json)
  {
    if json.JsonFailed? {
      return Stop(400, ExpectedJsonMessage);
    }
    var body := json.body;
    if body.JNull? {
      return Stop(500, NullBodyMessage);
    }
    var jobPosition := OrEmpty(Member(body, "jobPosition"));
    var jobDescription := OrEmpty(Member(body, "jobDescription"));
    var duration := OrEmpty(Member(body, "duration"));
    var t := Member(body, "type");
    var typeValue := if t.Some? && t.value.JArray? then t.value else JArray([]);
    return Go(Fields(jobPosition, jobDescription, duration, typeValue, []));
  }

  /** The checks of `POST(req)` before the model is called: the request is
      read, the API key and the job position are required, an empty
      description is replaced by the default one, and the types are joined. */
  method Check(req: Request, parse: string -> Option<JsonValue>) returns (d: Decision)
    ensures d == Decide(req, parse)
  {
    var read := ReadFields(req, parse);
    if read.Stop? {
      return Reject(read.status, read.message);
    }
    var jobPosition := read.fields.jobPosition;
    var jobDescription := read.fields.jobDescription;
    var duration := read.fields.duration;
    var typeValue := read.fields.typeValue;

    if !req.apiKeySet {
      return Reject(500, MissingKeyMessage);
    }
    if !Truthy(jobPosition) {
      return Reject(400, MissingJobPositionMessage);
    }
    if !Truthy(jobDescription) {
      jobDescription := JString(DefaultDescription);
    }

    // The `replace` calls convert their values in order, then the `type`
    // argument is evaluated.
    var durationText := OrEmpty(Some(duration));
    if !Convertible(jobPosition) || !Convertible(jobDescription) || !Convertible(durationText) {
      return Reject(500, ConversionMessage);
    }
    var typeText := TypeText(typeValue);
    if typeText.Throws? {
      return Reject(500, typeText.message);
    }
    return Ask(PromptValues(ToText(jobPosition), ToText(jobDescription), ToText(durationText), typeText.text),
               read.fields.warnings);
  }

  /** `POST(req)` with `QUESTIONS_PROMPT` given as `template`. `asked` is the
      prompt passed to the model, `None` when the model is not called. */
  method Post(req: Request, template: string, parse: string -> Option<JsonValue>, llm: string -> Completion)
    returns (resp: Response, asked: Option<string>)
    ensures resp == Respond(req, template, parse, llm)
    ensures asked == PromptSent(req, template, parse)
  {
    var d := Check(req, parse);
    if d.Reject? {
      return Failure(d.status, d.message), None;
    }
    var values := d.values;
    var finalPrompt := FillPrompt(template, values.title, values.description, values.duration, values.typeText);
    asked := Some(finalPrompt);
    var completion := llm(finalPrompt);
    if completion.CallFailed? {
      return Failure(500, ErrorMessage(completion.message)), asked;
    }
    var reply := if completion.content.Some? then completion.content.value else "";
    var questions := ExtractQuestions(Text(reply), parse);
    return Questions(questions, reply, d.warnings), asked;
  }
}
