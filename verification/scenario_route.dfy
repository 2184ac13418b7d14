/** The pure parts of the scenario-practice endpoint: the system prompt
    assembled from the request's optional fields, and the classification of
    a failure into a rate-limit or a server error. */
module ScenarioRoute {
  import opened Wrappers
  import opened Text

  // ----- Error classification -----

  /** What a failed request threw: an `Error` with its message, or any other
      value, given here by its `String(...)` conversion. */
  datatype Thrown = ErrorObject(message: string) | OtherValue(asString: string)

  /** `errMsg`. */
  function ErrorText(e: Thrown): string {
    match e
    case ErrorObject(m) => m
    case OtherValue(t) => t
  }

  /** `isRateLimit`: a case-sensitive search for any of the three markers. */
  predicate IsRateLimit(t: string) {
    Contains(t, "429") || Contains(t, "quota") || Contains(t, "RESOURCE_EXHAUSTED")
  }

  /** The JSON error response: its HTTP status and its `error` field. */
  datatype ErrorResponse = ErrorResponse(status: int, error: string)

  function RespondToError(e: Thrown): ErrorResponse {
    if IsRateLimit(ErrorText(e)) then ErrorResponse(429, "RATE_LIMIT") else ErrorResponse(500, "SERVER_ERROR")
  }

  /** The three markers of a rate-limit error. */
  const RateLimitMarkers: seq<string> := ["429", "quota", "RESOURCE_EXHAUSTED"]

  /** A failure is answered 429 "RATE_LIMIT" exactly when one of the markers
      occurs at some position of its text, and 500 "SERVER_ERROR" otherwise. */
  lemma RespondToErrorSpec(e: Thrown)
    ensures RespondToError(e).status == 429
        <==> exists m, i :: m in RateLimitMarkers && OccursAt(ErrorText(e), m, i)
    ensures RespondToError(e) == ErrorResponse(429, "RATE_LIMIT") || RespondToError(e) == ErrorResponse(500, "SERVER_ERROR")
  {
    var t := ErrorText(e);
    ContainsAt(t, "429");
    ContainsAt(t, "quota");
    ContainsAt(t, "RESOURCE_EXHAUSTED");
    if exists m, i :: m in RateLimitMarkers && OccursAt(t, m, i) {
      var m, i :| m in RateLimitMarkers && OccursAt(t, m, i);
      assert m == "429" || m == "quota" || m == "RESOURCE_EXHAUSTED";
    }
  }

  /** Any message that mentions a marker somewhere is a rate limit, whatever
      surrounds it. */
  lemma MarkerAnywhere(before: string, marker: string, after: string)
    requires marker == "429" || marker == "quota" || marker == "RESOURCE_EXHAUSTED"
    ensures RespondToError(ErrorObject(before + marker + after)) == ErrorResponse(429, "RATE_LIMIT")
    ensures RespondToError(OtherValue(before + marker + after)) == ErrorResponse(429, "RATE_LIMIT")
  {
    ContainsSelf(marker);
    ContainsWithin(before, marker, after, marker);
  }

  /** The search is case-sensitive: "Quota exceeded" is a server error. */
  lemma CapitalisedQuotaIsServerError()
    ensures RespondToError(ErrorObject("Quota exceeded")) == ErrorResponse(500, "SERVER_ERROR")
  {
    var t := "Quota exceeded";
    assert '4' !in t && 'q' !in t && 'R' !in t;
    MissingCharNotContained(t, "429", 0);
    MissingCharNotContained(t, "quota", 0);
    MissingCharNotContained(t, "RESOURCE_EXHAUSTED", 0);
  }

  // ----- The system prompt -----

  /** The optional request fields the prompt uses; `None` when absent. */
  datatype ScenarioRequest = ScenarioRequest(
    currentLine: Option<string>,
    userRole: Option<string>,
    scenarioContext: Option<string>,
    partnerNextLine: Option<string>)

  /** A string field is truthy when present and non-empty. */
  predicate Given(v: Option<string>) {
    v.Some? && v.value != []
  }

  /** `userRole || "A"`. */
  function RoleText(v: Option<string>): string {
    if Given(v) then v.value else "A"
  }

  const LineHeader := "## 使用者目前需要翻譯的中文原句\n"
  const PartnerHeader := "## 對方角色的下一句中文台詞（請翻譯成日文放入 partner_reply）\n"
  const ContextHeader := "## 完整情境對話（供你理解上下文）\n"

  /** An optional section: its header and value, or nothing when the value is
      not given. */
  function Section(header: string, v: Option<string>, quoted: bool): (r: string)
    ensures r == [] <==> !Given(v)
  {
    if !Given(v) then []
    else if quoted then header + "「" + v.value + "」"
    else header + v.value
  }

  /** The opening instructions, without their first character. */
  const Intro :=
    "是專業的日語家教，正在進行「情境對話翻譯練習」。\n" +
    "目標用戶為繁體中文使用者，所有中文解釋**必須使用繁體中文**，禁止使用簡體中文。\n" +
    "\n" +
    "## 練習模式說明\n" +
    "使用者正在練習將中文情境對話翻譯成日文。\n"

  /** The words that introduce the learner's role. */
  const RoleLead := "使用者扮演角色 "

  /** The fixed instructions after the optional sections, without their last character. */
  const TailRest :=
    "## 你的任務\n" +
    "1. 判斷使用者的日文翻譯是否**文法正確**且**語義對應原句**\n" +
    "2. 如果使用者使用「普通形」，則從頭到尾就要用「普通形」回覆，反之亦然\n" +
    "3. 不需要逐字翻譯，只要語意正確、文法自然即可判定為通過\n" +
    "4. 若 passed 為 true 且有對方角色的下一句台詞，請將該台詞翻譯成日文放入 partner_reply\n" +
    "\n" +
    "## 輸出規則\n" +
    "你**必須**僅以純 JSON 格式回應，嚴禁包含 ```json 等 Markdown 標籤或任何其它文字。\n" +
    "\n" +
    "回應結構如下：\n" +
    "{\n" +
    "  \"passed\": true 或 false,\n" +
    "  \"reply\": \"你的回饋（繁體中文解釋，鼓勵使用者、說明對錯）\",\n" +
    "  \"suggested_translation\": \"你認為最自然的日文翻譯（僅在 passed 為 true 時提供參考翻譯）\",\n" +
    "  \"partner_reply\": \"對方角色的日文回覆（僅在 passed 為 true 且有下一句時提供，否則為空字串）\",\n" +
    "  \"corrections\": [\n" +
    "    {\n" +
    "      \"original\": \"使用者的翻譯\",\n" +
    "      \"corrected\": \"更正確/自然的說法\",\n" +
    "      \"explanation\": \"用繁體中文解釋問題\"\n" +
    "    }\n" +
    "  ],\n" +
    "  \"new_vocabulary\": [\n" +
    "    {\n" +
    "      \"kanji\": \"漢字（如有）\",\n" +
    "      \"kana\": \"假名\",\n" +
    "      \"meaning\": \"繁體中文意思\"\n" +
    "    }\n" +
    "  ]\n" +
    "}\n" +
    "\n" +
    "若 passed 為 true，corrections 可為空陣列。\n" +
    "若 passed 為 false，必須在 corrections 中說明錯誤。suggested_translation 和 partner_reply 設為空字串"

  /** The role sentence followed by a blank line. */
  function RolePart(req: ScenarioRequest): string {
    RoleLead + RoleText(req.userRole) + "。\n\n"
  }

  /** The three optional sections, each followed by a blank line. */
  function Slots(req: ScenarioRequest): string {
    Section(LineHeader, req.currentLine, true) + "\n\n"
      + Section(PartnerHeader, req.partnerNextLine, true) + "\n\n"
      + Section(ContextHeader, req.scenarioContext, false) + "\n\n"
  }

  /** The template between its outer line breaks, without its first and
      last character. */
  function Inner(req: ScenarioRequest): string {
    Intro + RolePart(req) + Slots(req) + TailRest
  }

  /** The template literal as written, starting and ending with a line break. */
  function Template(req: ScenarioRequest): string {
    "\n" + "你" + Inner(req) + "。" + "\n"
  }

  /** `systemInstruction`: the template, trimmed. */
  function SystemPrompt(req: ScenarioRequest): string {
    Trim(Template(req))
  }

  /** Trimming removes exactly the outer line breaks of the template: the
      prompt is the body, which starts and ends with a visible character. */
  lemma PromptIsBody(req: ScenarioRequest)
    ensures SystemPrompt(req) == "你" + Inner(req) + "。"
  {
    TrimFramed(Inner(req));
  }

  /** The prompt has no leading or trailing whitespace. */
  lemma PromptHasNoOuterSpace(req: ScenarioRequest)
    ensures var p := SystemPrompt(req);
      p != [] && !IsSpace(p[0]) && !IsSpace(p[|p| - 1])
  {
    PromptIsBody(req);
    FramedEnds(Inner(req));
  }

  lemma FramedEnds(x: string)
    ensures var p := "你" + x + "。";
      p != [] && !IsSpace(p[0]) && !IsSpace(p[|p| - 1])
  {
    var p := "你" + x + "。";
    assert p[0] == '你' && p[|p| - 1] == '。';
  }

  lemma TrimFramed(x: string)
    ensures Trim("\n" + "你" + x + "。" + "\n") == "你" + x + "。"
  {
    var b := "你" + x + "。";
    assert b[0] == '你' && b[|b| - 1] == '。';
    assert "\n" + "你" + x + "。" + "\n" == "\n" + b + "\n";
    TrimPadded("\n", b, "\n");
  }

  lemma ContainsPrefix(x: string, y: string)
    ensures Contains(x + y, x)
  {
    ContainsSelf(x);
    ContainsWithin([], x, y, x);
    assert [] + x + y == x + y;
  }

  lemma ContainsInFour(a: string, b: string, c: string, d: string, t: string)
    requires Contains(b, t) || Contains(c, t)
    ensures Contains(a + b + c + d, t)
  {
    if Contains(b, t) {
      ContainsWithin(a, b, c + d, t);
      assert a + b + c + d == a + b + (c + d);
    } else {
      ContainsWithin(a + b, c, d, t);
    }
  }

  lemma ContainsInSlots(s1: string, s2: string, s3: string, t: string)
    requires Contains(s1, t) || Contains(s2, t) || Contains(s3, t)
    ensures Contains(s1 + "\n\n" + s2 + "\n\n" + s3 + "\n\n", t)
  {
    var n := "\n\n";
    if Contains(s1, t) {
      ContainsWithin([], s1, n + s2 + n + s3 + n, t);
      assert [] + s1 + (n + s2 + n + s3 + n) == s1 + n + s2 + n + s3 + n;
    } else if Contains(s2, t) {
      ContainsWithin(s1 + n, s2, n + s3 + n, t);
      assert s1 + n + s2 + (n + s3 + n) == s1 + n + s2 + n + s3 + n;
    } else {
      ContainsWithin(s1 + n + s2 + n, s3, n, t);
    }
  }

  /** Whatever the prompt's inner text contains, the prompt contains. */
  lemma PromptContains(req: ScenarioRequest, t: string)
    requires Contains(RolePart(req), t) || Contains(Slots(req), t)
    ensures Contains(SystemPrompt(req), t)
  {
    ContainsInFour(Intro, RolePart(req), Slots(req), TailRest, t);
    ContainsWithin("你", Inner(req), "。", t);
    PromptIsBody(req);
  }

  /** The prompt names the learner's role, "A" when the request gives none. */
  lemma PromptNamesRole(req: ScenarioRequest)
    ensures Given(req.userRole) ==> Contains(SystemPrompt(req), RoleLead + req.userRole.value + "。")
    ensures !Given(req.userRole) ==> Contains(SystemPrompt(req), RoleLead + "A" + "。")
  {
    ContainsPrefix(RoleLead + RoleText(req.userRole) + "。", "\n\n");
    assert RolePart(req) == RoleLead + RoleText(req.userRole) + "。" + "\n\n";
    PromptContains(req, RoleLead + RoleText(req.userRole) + "。");
  }

  /** A given current line is quoted verbatim, in 「」, under its header. */
  lemma PromptQuotesCurrentLine(req: ScenarioRequest)
    requires Given(req.currentLine)
    ensures Contains(SystemPrompt(req), LineHeader + "「" + req.currentLine.value + "」")
  {
    var sec := Section(LineHeader, req.currentLine, true);
    ContainsSelf(sec);
    ContainsInSlots(sec, Section(PartnerHeader, req.partnerNextLine, true), Section(ContextHeader, req.scenarioContext, false), sec);
    PromptContains(req, sec);
  }

  /** A given partner line is quoted verbatim, in 「」, under its header. */
  lemma PromptQuotesPartnerLine(req: ScenarioRequest)
    requires Given(req.partnerNextLine)
    ensures Contains(SystemPrompt(req), PartnerHeader + "「" + req.partnerNextLine.value + "」")
  {
    var sec := Section(PartnerHeader, req.partnerNextLine, true);
    ContainsSelf(sec);
    ContainsInSlots(Section(LineHeader, req.currentLine, true), sec, Section(ContextHeader, req.scenarioContext, false), sec);
    PromptContains(req, sec);
  }

  /** A given scenario context follows its header unquoted. */
  lemma PromptIncludesContext(req: ScenarioRequest)
    requires Given(req.scenarioContext)
    ensures Contains(SystemPrompt(req), ContextHeader + req.scenarioContext.value)
  {
    var sec := Section(ContextHeader, req.scenarioContext, false);
    ContainsSelf(sec);
    ContainsInSlots(Section(LineHeader, req.currentLine, true), Section(PartnerHeader, req.partnerNextLine, true), sec, sec);
    PromptContains(req, sec);
  }

  /** With no optional field given, the three sections leave only the blank
      lines that separated them. */
  lemma EmptySectionsLeaveBlankLines(req: ScenarioRequest)
    requires !Given(req.currentLine) && !Given(req.partnerNextLine) && !Given(req.scenarioContext)
    ensures Slots(req) == "\n\n\n\n\n\n"
  {
  }
}
