/** What a chat bubble shows for a message, including while an assistant reply
    is still streaming in and is not yet valid JSON, and which feedback badges
    appear under it. */
module MessageBubble {
  import opened Wrappers
  import opened Text
  import opened Json
  import opened JsonString
  import opened ChatUtils
  import opened SidebarFeedback

  // ----- The partial-reply regex `/"reply"\s*:\s*"([^"]*)/` -----

  const ReplyKey := "\"reply\""

  /** `[^"]*`: the longest prefix without a double quote. */
  function QuoteFreeRun(u: string): (r: string)
    ensures |r| <= |u| && r == u[..|r|]
    ensures forall k :: 0 <= k < |r| ==> r[k] != '"'
    ensures |r| == |u| || u[|r|] == '"'
  {
    if u == [] || u[0] == '"' then [] else [u[0]] + QuoteFreeRun(u[1..])
  }

  /** The regex anchored at the start of `s`: the key, optional whitespace, a
      colon, optional whitespace, an opening quote, then the captured run. The
      greedy `\s*` cannot give back anything useful, so skipping all of it decides
      the match. */
  function MatchHere(s: string): Option<string> {
    if !StartsWith(s, ReplyKey) then None
    else
      var t := TrimStart(s[|ReplyKey|..]);
      if t == [] || t[0] != ':' then None
      else
        var u := TrimStart(t[1..]);
        if u == [] || u[0] != '"' then None
        else Some(QuoteFreeRun(u[1..]))
  }

  /** `rawText.match(...)`, group 1 of the leftmost match. */
  function ReplyCapture(s: string): (r: Option<string>)
    ensures r.Some? ==> forall k :: 0 <= k < |r.value| ==> r.value[k] != '"'
    decreases |s|
  {
    var here := MatchHere(s);
    if here.Some? then here
    else if s == [] then None
    else ReplyCapture(s[1..])
  }

  // ----- The manual fallback unescape -----

  /** `s.replace(/pat/g, rep)` for a literal pattern: left to right, without overlaps. */
  function ReplaceAll(s: string, pat: string, rep: string): (r: string)
    requires pat != []
    decreases |s|
  {
    if StartsWith(s, pat) then rep + ReplaceAll(s[|pat|..], pat, rep)
    else if s == [] then []
    else [s[0]] + ReplaceAll(s[1..], pat, rep)
  }

  /** Rewrites `\n`, then `\t`, then `\"`, and keeps everything else. */
  function ManualUnescape(c: string): string {
    ReplaceAll(ReplaceAll(ReplaceAll(c, "\\n", "\n"), "\\t", "\t"), "\\\"", "\"")
  }

  // ----- Display text -----

  /** The value bound to `displayText`: a string, or a truthy non-string `reply`
      that the code hands on as it is. */
  datatype Shown = ShownText(text: string) | ShownValue(value: Json)

  /** The parsed `reply` when the parse and its `reply` are both truthy. */
  function TruthyReply(parsed: Option<Json>): Option<Json> {
    if Truthy(parsed) && Truthy(Member(parsed.value, "reply")) then Member(parsed.value, "reply") else None
  }

  /** What is shown while the reply is still incomplete: the decoded capture,
      the hand-unescaped capture if decoding fails, or "..." when nothing (or
      only an empty string) was captured. */
  function StreamingText(raw: string): string {
    var capture := ReplyCapture(raw);
    if capture.Some? && capture.value != [] then
      var decoded := DecodeBody(capture.value);
      if decoded.Some? then decoded.value else ManualUnescape(capture.value)
    else "..."
  }

  /** `parsedJson`: assistant text goes through `parseJsonSafely`; user text is
      never parsed. */
  function ParsedJson(role: Role, raw: string, parse: string -> Option<Json>): Option<Json> {
    if role == User then None else ParseJsonSafely(raw, parse)
  }

  /** The display text for a message with role `role`, text `raw` and parse `parsed`. */
  function Display(role: Role, raw: string, parsed: Option<Json>): Shown {
    if role == User then ShownText(raw)
    else
      var reply := TruthyReply(parsed);
      if reply.Some? then
        if reply.value.JString? then ShownText(reply.value.s) else ShownValue(reply.value)
      else if StartsWith(Trim(raw), "{") || StartsWith(Trim(raw), "```") then ShownText(StreamingText(raw))
      else ShownText(raw)
  }

  /** The bubble's display text for a message with role `role` and text `raw`. */
  function DisplayText(role: Role, raw: string, parse: string -> Option<Json>): Shown {
    Display(role, raw, ParsedJson(role, raw, parse))
  }

  // ----- Feedback badges -----

  /** The result of rendering: a view, or the `TypeError` thrown while rendering. */
  datatype Rendered<T> = Rendered(view: T) | RenderThrows

  /** Which of the two badges appear; neither means the badge row is absent. */
  datatype BadgeRow = BadgeRow(corrections: bool, vocabulary: bool)

  /** The badges as written: `.length` is read on both fields of any truthy
      parse, and throws when a field is missing. */
  function Badges(role: Role, parsed: Option<Json>): Rendered<BadgeRow> {
    if role == User || !Truthy(parsed) then Rendered(BadgeRow(false, false))
    else
      var c := LengthPositive(Member(parsed.value, "corrections"));
      var v := LengthPositive(Member(parsed.value, "new_vocabulary"));
      if c.None? || v.None? then RenderThrows else Rendered(BadgeRow(c.value, v.value))
  }

  /** `x?.length > 0`: a missing field counts as empty. */
  function GuardedLengthPositive(x: Option<Json>): bool {
    LengthPositive(x) == Some(true)
  }

  /** The badges with the missing-field guard the typed code assumes. */
  function GuardedBadges(role: Role, parsed: Option<Json>): (r: BadgeRow)
    ensures Badges(role, parsed).Rendered? ==> Badges(role, parsed).view == r
    ensures r.corrections <==> role != User && Truthy(parsed) && GuardedLengthPositive(Member(parsed.value, "corrections"))
    ensures r.vocabulary <==> role != User && Truthy(parsed) && GuardedLengthPositive(Member(parsed.value, "new_vocabulary"))
  {
    if role == User || !Truthy(parsed) then BadgeRow(false, false)
    else BadgeRow(GuardedLengthPositive(Member(parsed.value, "corrections")),
                  GuardedLengthPositive(Member(parsed.value, "new_vocabulary")))
  }

  // ----- Properties -----

  /** User messages are never parsed: what `JSON.parse` would do changes
      nothing, the raw text is shown and no badge appears. */
  lemma UserTextUnparsed(raw: string, parse1: string -> Option<Json>, parse2: string -> Option<Json>)
    ensures DisplayText(User, raw, parse1) == DisplayText(User, raw, parse2) == ShownText(raw)
    ensures Badges(User, ParsedJson(User, raw, parse1)) == Rendered(BadgeRow(false, false))
  {
  }

  /** A complete reply whose parsed `reply` is a non-empty string shows exactly that string. */
  lemma CompleteReplyShown(raw: string, parsed: Option<Json>, reply: string)
    requires parsed.Some? && Member(parsed.value, "reply") == Some(JString(reply)) && reply != []
    ensures Display(Assistant, raw, parsed) == ShownText(reply)
  {
    assert Truthy(parsed) && Truthy(Member(parsed.value, "reply"));
  }

  /** Assistant text that is not JSON-shaped and has no truthy parsed reply is
      shown unchanged. */
  lemma PlainAssistantTextShown(raw: string, parsed: Option<Json>)
    requires TruthyReply(parsed).None?
    requires !StartsWith(Trim(raw), "{") && !StartsWith(Trim(raw), "```")
    ensures Display(Assistant, raw, parsed) == ShownText(raw)
  {
  }

  /** A capture always comes from an occurrence of the key. */
  lemma {:induction false} CaptureNeedsKey(s: string)
    requires ReplyCapture(s).Some?
    ensures Contains(s, ReplyKey)
    decreases |s|
  {
    if MatchHere(s).None? {
      CaptureNeedsKey(s[1..]);
    }
  }

  /** No match can start inside text without double quotes. */
  lemma {:induction false} CaptureSkipsPrefix(p: string, s: string)
    requires forall k :: 0 <= k < |p| ==> p[k] != '"'
    ensures ReplyCapture(p + s) == ReplyCapture(s)
    decreases |p|
  {
    if p != [] {
      assert (p + s)[0] == p[0];
      assert !StartsWith(p + s, ReplyKey);
      assert (p + s)[1..] == p[1..] + s;
      CaptureSkipsPrefix(p[1..], s);
    } else {
      assert p + s == s;
    }
  }

  lemma {:induction false} QuoteFreeRunStops(v: string, rest: string)
    requires forall k :: 0 <= k < |v| ==> v[k] != '"'
    requires rest == [] || rest[0] == '"'
    ensures QuoteFreeRun(v + rest) == v
    decreases |v|
  {
    if v == [] {
      assert v + rest == rest;
    } else {
      assert (v + rest)[0] == v[0];
      assert (v + rest)[1..] == v[1..] + rest;
      QuoteFreeRunStops(v[1..], rest);
      assert [v[0]] + v[1..] == v;
    }
  }

  /** The regex at the key: whitespace around the colon is skipped and the
      capture runs up to the next double quote or the end of the text. */
  lemma MatchAfterKey(ws1: string, ws2: string, v: string, rest: string)
    requires AllSpace(ws1) && AllSpace(ws2)
    requires forall k :: 0 <= k < |v| ==> v[k] != '"'
    requires rest == [] || rest[0] == '"'
    ensures MatchHere(ReplyKey + (ws1 + (":" + (ws2 + ("\"" + (v + rest)))))) == Some(v)
  {
    var u := "\"" + (v + rest);
    var t := ":" + (ws2 + u);
    var s := ReplyKey + (ws1 + t);
    assert s[..|ReplyKey|] == ReplyKey;
    assert s[|ReplyKey|..] == ws1 + t;
    TrimStartSkips(ws1, t);
    assert t[1..] == ws2 + u;
    TrimStartSkips(ws2, u);
    assert u[1..] == v + rest;
    QuoteFreeRunStops(v, rest);
  }

  /** The capture is what follows the first `"reply"` key, when no double quote
      comes before it. */
  lemma CaptureAfterKey(p: string, ws1: string, ws2: string, v: string, rest: string)
    requires forall k :: 0 <= k < |p| ==> p[k] != '"'
    requires AllSpace(ws1) && AllSpace(ws2)
    requires forall k :: 0 <= k < |v| ==> v[k] != '"'
    requires rest == [] || rest[0] == '"'
    ensures ReplyCapture(p + (ReplyKey + (ws1 + (":" + (ws2 + ("\"" + (v + rest))))))) == Some(v)
  {
    var tail := ReplyKey + (ws1 + (":" + (ws2 + ("\"" + (v + rest)))));
    CaptureSkipsPrefix(p, tail);
    MatchAfterKey(ws1, ws2, v, rest);
  }

  /** No match of the regex starts at position `i` of `t`. */
  predicate NoKeyAt(t: string, i: nat)
    requires i <= |t|
  {
    !StartsWith(t[i..], ReplyKey)
  }

  /** No match can start inside a prefix at none of whose positions the key
      starts. */
  lemma {:induction false} CaptureSkipsUnmatched(p: string, s: string)
    requires forall i :: 0 <= i < |p| ==> NoKeyAt(p + s, i)
    ensures ReplyCapture(p + s) == ReplyCapture(s)
    decreases |p|
  {
    if p == [] {
      assert p + s == s;
    } else {
      assert NoKeyAt(p + s, 0);
      assert (p + s)[0..] == p + s;
      assert (p + s)[1..] == p[1..] + s;
      forall i | 0 <= i < |p[1..]|
        ensures NoKeyAt(p[1..] + s, i)
      {
        assert NoKeyAt(p + s, i + 1);
        assert (p[1..] + s)[i..] == (p + s)[i + 1..];
      }
      CaptureSkipsUnmatched(p[1..], s);
    }
  }

  /** When the key follows a prefix that, with the key's opening quote, does
      not contain the key, no earlier position starts the key. */
  lemma KeyOnlyAfterPrefix(p: string, x: string)
    requires !Contains(p + "\"", ReplyKey)
    ensures forall i :: 0 <= i < |p| ==> NoKeyAt(p + (ReplyKey + x), i)
  {
    var t := p + (ReplyKey + x);
    ContainsAt(p + "\"", ReplyKey);
    forall i | 0 <= i < |p|
      ensures NoKeyAt(t, i)
    {
      assert t[i..][..7] == t[i..i + 7];
      if i + 7 <= |p| + 1 {
        assert t[i..i + 7] == (p + "\"")[i..i + 7];
        assert !OccursAt(p + "\"", ReplyKey, i);
      } else {
        assert t[i..i + 7][|p| - i] == t[|p|] == '"';
        assert ReplyKey[|p| - i] != '"';
      }
    }
  }

  /** The capture is the value after the key also when other fields come
      first, as long as none of them spells the key. */
  lemma CaptureAfterFields(p: string, ws1: string, ws2: string, v: string, rest: string)
    requires !Contains(p + "\"", ReplyKey)
    requires AllSpace(ws1) && AllSpace(ws2)
    requires forall k :: 0 <= k < |v| ==> v[k] != '"'
    requires rest == [] || rest[0] == '"'
    ensures ReplyCapture(p + (ReplyKey + (ws1 + (":" + (ws2 + ("\"" + (v + rest))))))) == Some(v)
  {
    var x := ws1 + (":" + (ws2 + ("\"" + (v + rest))));
    KeyOnlyAfterPrefix(p, x);
    CaptureSkipsUnmatched(p, ReplyKey + x);
    MatchAfterKey(ws1, ws2, v, rest);
  }

  /** In the field order the scenario endpoint asks for, `{"passed": true,
      "reply": "…`, the capture is the reply streamed so far. */
  lemma CaptureAfterPassed(v: string, rest: string)
    requires forall k :: 0 <= k < |v| ==> v[k] != '"'
    requires rest == [] || rest[0] == '"'
    ensures ReplyCapture("{\"passed\": true, " + (ReplyKey + ([] + (":" + (" " + ("\"" + (v + rest))))))) == Some(v)
  {
    var p := "{\"passed\": true, ";
    assert ReplyKey[5] == 'y' && 'y' !in p + "\"";
    MissingCharNotContained(p + "\"", ReplyKey, 5);
    CaptureAfterFields(p, [], " ", v, rest);
  }

  /** While a reply whose trimmed text opens with `{` or a fence streams in
      and has no truthy parsed `reply`, the bubble shows the decoded capture
      (hand-unescaped if it does not decode), or "..." for an empty capture. */
  lemma StreamingReplyShown(raw: string, v: string, parsed: Option<Json>)
    requires StartsWith(Trim(raw), "{") || StartsWith(Trim(raw), "```")
    requires ReplyCapture(raw) == Some(v)
    requires TruthyReply(parsed).None?
    ensures Display(Assistant, raw, parsed)
         == ShownText(if v == [] then "..." else if DecodeBody(v).Some? then DecodeBody(v).value else ManualUnescape(v))
  {
  }

  /** A text that opens with `{` counts as JSON-shaped. */
  lemma BraceOpeningIsJsonShaped(raw: string)
    requires raw != [] && raw[0] == '{'
    ensures StartsWith(Trim(raw), "{")
  {
    TrimKeepsHead(raw);
  }

  /** A JSON-shaped text where the regex finds no match shows the "..."
      placeholder, whether the key is missing or has no string value yet. */
  lemma NoCaptureShowsPlaceholder(raw: string, parsed: Option<Json>)
    requires StartsWith(Trim(raw), "{") || StartsWith(Trim(raw), "```")
    requires ReplyCapture(raw).None?
    requires TruthyReply(parsed).None?
    ensures Display(Assistant, raw, parsed) == ShownText("...")
  {
  }

  /** A JSON-shaped text without the key shows the "..." placeholder. */
  lemma NoKeyShowsPlaceholder(raw: string, parsed: Option<Json>)
    requires StartsWith(Trim(raw), "{") || StartsWith(Trim(raw), "```")
    requires !Contains(raw, ReplyKey)
    requires TruthyReply(parsed).None?
    ensures Display(Assistant, raw, parsed) == ShownText("...")
  {
    if ReplyCapture(raw).Some? {
      CaptureNeedsKey(raw);
    }
    NoCaptureShowsPlaceholder(raw, parsed);
  }

  /** What follows the key up to a non-string value holds no double quote
      and does not open with the key's first letter. */
  lemma AfterKeyQuoteFree(ws1: string, ws2: string, w: string)
    requires AllSpace(ws1) && AllSpace(ws2)
    requires forall k :: 0 <= k < |w| ==> w[k] != '"'
    ensures var x := ws1 + (":" + (ws2 + w));
      (forall k :: 0 <= k < |x| ==> x[k] != '"') && x[0] != 'r'
  {
    var x := ws1 + (":" + (ws2 + w));
    forall k | 0 <= k < |x| ensures x[k] != '"' {
      if k < |ws1| {
        assert x[k] == ws1[k] && IsSpace(ws1[k]);
      } else if k == |ws1| {
        assert x[k] == ':';
      } else if k < |ws1| + 1 + |ws2| {
        assert x[k] == ws2[k - |ws1| - 1] && IsSpace(ws2[k - |ws1| - 1]);
      } else {
        assert x[k] == w[k - |ws1| - 1 - |ws2|];
      }
    }
    if ws1 != [] {
      assert x[0] == ws1[0] && IsSpace(ws1[0]);
    }
  }

  /** At the key, a value that does not open with a quote fails the match. */
  lemma KeyMatchFails(ws1: string, ws2: string, w: string)
    requires AllSpace(ws1) && AllSpace(ws2)
    requires w == [] || (!IsSpace(w[0]) && w[0] != '"')
    ensures MatchHere(ReplyKey + (ws1 + (":" + (ws2 + w)))) == None
  {
    var c := ":" + (ws2 + w);
    var s := ReplyKey + (ws1 + c);
    assert s[..|ReplyKey|] == ReplyKey && s[|ReplyKey|..] == ws1 + c;
    TrimStartSkips(ws1, c);
    assert c[1..] == ws2 + w;
    TrimStartSkips(ws2, w);
  }

  /** A quote followed by anything but `r` cannot start the key. */
  lemma QuoteWithoutKey(x: string)
    requires x != [] && x[0] != 'r'
    ensures ReplyCapture("\"" + x) == ReplyCapture(x)
  {
    var y := "\"" + x;
    assert !StartsWith(y, ReplyKey) by {
      if |ReplyKey| <= |y| {
        assert y[..|ReplyKey|][1] == y[1] == x[0];
        assert ReplyKey[1] == 'r';
      }
    }
    assert MatchHere(y) == None;
    assert y[1..] == x;
  }

  /** Once the match at the key fails, the search moves past the key's
      opening quote. */
  lemma FailedKeySkipped(x: string)
    requires MatchHere(ReplyKey + x) == None
    ensures ReplyCapture(ReplyKey + x) == ReplyCapture((ReplyKey + x)[1..])
  {
  }

  /** No match starts inside the key's letters. */
  lemma KeyLettersSkipped(x: string)
    ensures ReplyCapture((ReplyKey + x)[1..]) == ReplyCapture("\"" + x)
  {
    KeyTail(x);
    CaptureSkipsPrefix("reply", "\"" + x);
  }

  /** The key's closing quote followed by quote-free text not starting with
      `r` holds no match. */
  lemma ClosingQuoteNoCapture(x: string)
    requires forall k :: 0 <= k < |x| ==> x[k] != '"'
    requires x != [] && x[0] != 'r'
    ensures ReplyCapture("\"" + x) == None
  {
    QuoteWithoutKey(x);
    QuoteFreeNoCapture(x);
  }

  /** Past the key's opening quote come its letters and its closing quote. */
  lemma KeyTail(x: string)
    ensures (ReplyKey + x)[1..] == "reply" + ("\"" + x)
  {
  }

  /** Text without double quotes holds no match. */
  lemma QuoteFreeNoCapture(x: string)
    requires forall k :: 0 <= k < |x| ==> x[k] != '"'
    ensures ReplyCapture(x) == None
  {
    assert x + [] == x;
    CaptureSkipsPrefix(x, []);
  }

  /** A key whose value does not open with a quote, as in `{"reply": null`
      or `{"reply": 3`, gives no match. */
  lemma KeyWithoutStringNotMatched(p: string, ws1: string, ws2: string, w: string)
    requires forall k :: 0 <= k < |p| ==> p[k] != '"'
    requires AllSpace(ws1) && AllSpace(ws2)
    requires forall k :: 0 <= k < |w| ==> w[k] != '"'
    requires w == [] || !IsSpace(w[0])
    ensures ReplyCapture(p + (ReplyKey + (ws1 + (":" + (ws2 + w))))) == None
  {
    var x := ws1 + (":" + (ws2 + w));
    AfterKeyQuoteFree(ws1, ws2, w);
    KeyMatchFails(ws1, ws2, w);
    FailedKeySkipped(x);
    KeyLettersSkipped(x);
    ClosingQuoteNoCapture(x);
    CaptureSkipsPrefix(p, ReplyKey + x);
  }

  /** While the key has no string value yet, as in `{"reply": null`, the
      bubble shows "...". */
  lemma KeyWithoutStringShowsPlaceholder(ws1: string, ws2: string, w: string, parsed: Option<Json>)
    requires AllSpace(ws1) && AllSpace(ws2)
    requires forall k :: 0 <= k < |w| ==> w[k] != '"'
    requires w == [] || !IsSpace(w[0])
    requires TruthyReply(parsed).None?
    ensures Display(Assistant, "{" + (ReplyKey + (ws1 + (":" + (ws2 + w)))), parsed) == ShownText("...")
  {
    var raw := "{" + (ReplyKey + (ws1 + (":" + (ws2 + w))));
    KeyWithoutStringNotMatched("{", ws1, ws2, w);
    BraceOpeningIsJsonShaped(raw);
    NoCaptureShowsPlaceholder(raw, parsed);
  }

  /** `{"reply": null` is a `{`, the key, a colon, a space and `null`. */
  lemma NullShape()
    ensures "{\"reply\": null" == "{" + (ReplyKey + ([] + (":" + (" " + "null"))))
  {
  }

  /** `{"reply": null` shows "...". */
  lemma NullReplyShowsPlaceholder(parsed: Option<Json>)
    requires TruthyReply(parsed).None?
    ensures Display(Assistant, "{\"reply\": null", parsed) == ShownText("...")
  {
    NullShape();
    KeyWithoutStringShowsPlaceholder([], " ", "null", parsed);
  }

  /** The usual opening `{"reply": "` is a `{`, the key, a colon and a space,
      and an opening quote. */
  lemma OpeningShape(v: string, rest: string)
    ensures "{\"reply\": \"" + v + rest == "{" + (ReplyKey + ([] + (":" + (" " + ("\"" + (v + rest))))))
  {
    var raw := "{\"reply\": \"" + v + rest;
    var tail := ReplyKey + ([] + (":" + (" " + ("\"" + (v + rest)))));
    assert |raw| == |"{" + tail|;
    assert forall k :: 0 <= k < 11 ==> raw[k] == ("{" + tail)[k];
    assert forall k :: 11 <= k < |raw| ==> raw[k] == (v + rest)[k - 11] == ("{" + tail)[k];
  }

  /** The capture after the usual opening `{"reply": "` of a streamed reply. */
  lemma CaptureAfterOpening(v: string, rest: string)
    requires forall k :: 0 <= k < |v| ==> v[k] != '"'
    requires rest == [] || rest[0] == '"'
    ensures ReplyCapture("{\"reply\": \"" + v + rest) == Some(v)
  {
    OpeningShape(v, rest);
    CaptureAfterKey("{", [], " ", v, rest);
  }

  /** A reply streamed inside a ```json fence is captured like a bare one. */
  lemma FencedOpeningCapture(v: string, rest: string)
    requires forall k :: 0 <= k < |v| ==> v[k] != '"'
    requires rest == [] || rest[0] == '"'
    ensures ReplyCapture("```json\n" + ("{\"reply\": \"" + v + rest)) == Some(v)
  {
    var fence := "```json\n";
    OpeningShape(v, rest);
    var tail := ReplyKey + ([] + (":" + (" " + ("\"" + (v + rest)))));
    assert fence + ("{\"reply\": \"" + v + rest) == (fence + "{") + tail;
    CaptureAfterKey(fence + "{", [], " ", v, rest);
  }

  /** A text that opens with a fence followed by `{` counts as JSON-shaped. */
  lemma FencedIsJsonShaped(raw: string)
    requires |raw| >= 9 && raw[..3] == "```" && raw[8] == '{'
    ensures StartsWith(Trim(raw), "```")
  {
    assert TrimStart(raw) == raw;
    TrimEndSpec(raw);
    var r := TrimEnd(raw);
    assert !IsSpace(raw[8]);
    assert |r| > 8;
    assert r[..3] == raw[..3];
  }

  /** While a reply streams in inside a ```json fence, the bubble shows the
      same text as for the bare reply. */
  lemma FencedOpeningShown(raw: string, v: string, rest: string, parsed: Option<Json>)
    requires raw == "```json\n" + ("{\"reply\": \"" + v + rest)
    requires forall k :: 0 <= k < |v| ==> v[k] != '"'
    requires rest == [] || rest[0] == '"'
    requires TruthyReply(parsed).None?
    ensures Display(Assistant, raw, parsed)
         == ShownText(if v == [] then "..." else if DecodeBody(v).Some? then DecodeBody(v).value else ManualUnescape(v))
  {
    FencedOpeningCapture(v, rest);
    assert raw[..3] == "```" && raw[8] == '{';
    FencedIsJsonShaped(raw);
    StreamingReplyShown(raw, v, parsed);
  }

  /** A streamed reply without `}` or backticks is handed to `JSON.parse` whole. */
  lemma OpeningParsedWhole(v: string, rest: string, parse: string -> Option<Json>)
    requires forall k :: 0 <= k < |v| ==> v[k] != '`' && v[k] != '}'
    requires forall k :: 0 <= k < |rest| ==> rest[k] != '`' && rest[k] != '}'
    requires v + rest != [] && !IsSpace((v + rest)[|v + rest| - 1])
    ensures ParseJsonSafely("{\"reply\": \"" + v + rest, parse) == parse("{\"reply\": \"" + v + rest)
  {
    var raw := "{\"reply\": \"" + v + rest;
    assert forall k :: 0 <= k < |v| ==> raw[11 + k] == v[k];
    assert forall k :: 0 <= k < |rest| ==> raw[11 + |v| + k] == rest[k];
    assert raw[|raw| - 1] == (v + rest)[|v + rest| - 1];
    WholeTextParsedWithoutClosingBrace(raw, parse);
  }

  /** A reply cut off mid-stream, such as `{"reply": "hel`, shows the text
      received so far once `JSON.parse` rejects it. */
  lemma PartialPlainReplyShown(v: string, parse: string -> Option<Json>)
    requires v != [] && !IsSpace(v[|v| - 1])
    requires forall k :: 0 <= k < |v| ==> IsPlain(v[k]) && v[k] != '`' && v[k] != '}'
    requires parse("{\"reply\": \"" + v) == None
    ensures DisplayText(Assistant, "{\"reply\": \"" + v, parse) == ShownText(v)
  {
    var raw := "{\"reply\": \"" + v;
    assert raw + [] == raw && v + [] == v;
    CaptureAfterOpening(v, []);
    OpeningParsedWhole(v, [], parse);
    DecodeWithoutEscapes(v);
    BraceOpeningIsJsonShaped(raw);
    StreamingReplyShown(raw, v, None);
  }

  /** An escape in the streamed reply is decoded: `{"reply": "line1\nline2"`
      shows a real newline between the two words. */
  lemma PartialEscapedReplyShown(a: string, b: string, parse: string -> Option<Json>)
    requires forall k :: 0 <= k < |a| ==> IsPlain(a[k]) && a[k] != '`' && a[k] != '}'
    requires forall k :: 0 <= k < |b| ==> IsPlain(b[k]) && b[k] != '`' && b[k] != '}'
    requires parse("{\"reply\": \"" + (a + "\\n" + b) + "\"") == None
    ensures DisplayText(Assistant, "{\"reply\": \"" + (a + "\\n" + b) + "\"", parse) == ShownText(a + "\n" + b)
  {
    var v := a + "\\n" + b;
    var raw := "{\"reply\": \"" + v + "\"";
    assert forall k :: 0 <= k < |v| ==> v[k] != '"' && v[k] != '`' && v[k] != '}' by {
      assert forall k :: 0 <= k < |a| ==> v[k] == a[k];
      assert forall k :: 0 <= k < |b| ==> v[|a| + 2 + k] == b[k];
    }
    CaptureAfterOpening(v, "\"");
    OpeningParsedWhole(v, "\"", parse);
    DecodeNewlineBetween(a, b);
    BraceOpeningIsJsonShaped(raw);
    StreamingReplyShown(raw, v, None);
  }

  /** `replace` leaves text without the pattern unchanged. */
  lemma {:induction false} ReplaceAllAbsent(s: string, pat: string, rep: string)
    requires pat != [] && !Contains(s, pat)
    ensures ReplaceAll(s, pat, rep) == s
    decreases |s|
  {
    if s != [] {
      ReplaceAllAbsent(s[1..], pat, rep);
      assert [s[0]] + s[1..] == s;
    }
  }

  /** A character in neither the text nor the replacement is not in the result. */
  lemma {:induction false} ReplaceAllAvoids(s: string, pat: string, rep: string, ch: char)
    requires pat != [] && ch !in s && ch !in rep
    ensures ch !in ReplaceAll(s, pat, rep)
    decreases |s|
  {
    if StartsWith(s, pat) {
      ReplaceAllAvoids(s[|pat|..], pat, rep, ch);
    } else if s != [] {
      ReplaceAllAvoids(s[1..], pat, rep, ch);
    }
  }

  /** The `\"` rewrite of the fallback never fires: a capture holds no double
      quote, so it cannot hold an escaped one. */
  lemma EscapedQuoteRewriteInert(c: string)
    requires '"' !in c
    ensures ManualUnescape(c) == ReplaceAll(ReplaceAll(c, "\\n", "\n"), "\\t", "\t")
  {
    var x := ReplaceAll(ReplaceAll(c, "\\n", "\n"), "\\t", "\t");
    ReplaceAllAvoids(c, "\\n", "\n", '"');
    ReplaceAllAvoids(ReplaceAll(c, "\\n", "\n"), "\\t", "\t", '"');
    MissingCharNotContained(x, "\\\"", 1);
    ReplaceAllAbsent(x, "\\\"", "\"");
  }

  /** Without backslashes the fallback keeps the capture as it is. */
  lemma ManualUnescapeNoBackslash(c: string)
    requires '\\' !in c
    ensures ManualUnescape(c) == c
  {
    MissingCharNotContained(c, "\\n", 0);
    ReplaceAllAbsent(c, "\\n", "\n");
    MissingCharNotContained(c, "\\t", 0);
    ReplaceAllAbsent(c, "\\t", "\t");
    MissingCharNotContained(c, "\\\"", 0);
    ReplaceAllAbsent(c, "\\\"", "\"");
  }

  /** `replace` steps over a prefix without backslashes when the pattern
      starts with one. */
  lemma {:induction false} ReplaceAllSkips(a: string, s: string, pat: string, rep: string)
    requires pat != [] && pat[0] == '\\' && '\\' !in a
    ensures ReplaceAll(a + s, pat, rep) == a + ReplaceAll(s, pat, rep)
    decreases |a|
  {
    if a == [] {
      assert a + s == s;
    } else {
      assert (a + s)[0] == a[0] && a[0] in a;
      assert (a + s)[1..] == a[1..] + s;
      ReplaceAllSkips(a[1..], s, pat, rep);
      assert [a[0]] + a[1..] == a;
    }
  }

  /** A backslash-free text, possibly cut off after one more backslash, is
      left alone by a two-character escape rewrite. */
  lemma TailInert(a: string, t: string, pat: string, rep: string)
    requires '\\' !in a && |pat| == 2 && pat[0] == '\\' && (t == [] || t == "\\")
    ensures ReplaceAll(a + t, pat, rep) == a + t
  {
    ReplaceAllSkips(a, t, pat, rep);
    if t != [] {
      assert !StartsWith(t, pat);
      assert t[1..] == [];
    }
  }

  /** The rewrite for an escape replaces it. */
  lemma EscapeRewritten(e: char, w: string, pat: string, rep: string)
    requires pat == ['\\', e]
    ensures ReplaceAll(['\\', e] + w, pat, rep) == rep + ReplaceAll(w, pat, rep)
  {
    assert StartsWith(['\\', e] + w, pat);
    assert (['\\', e] + w)[2..] == w;
  }

  /** Any other two-character escape rewrite keeps it. */
  lemma EscapeKept(e: char, b: string, t: string, pat: string, rep: string)
    requires '\\' !in b && e != '\\' && (t == [] || t == "\\")
    requires |pat| == 2 && pat[0] == '\\' && pat[1] != e
    ensures ReplaceAll(['\\', e] + (b + t), pat, rep) == ['\\', e] + (b + t)
  {
    var u := ['\\', e] + (b + t);
    assert !StartsWith(u, pat);
    assert u[1..] == ([e] + b) + t;
    TailInert([e] + b, t, pat, rep);
  }

  /** One escape between backslash-free texts: its own rewrite replaces it. */
  lemma EscapePass(a: string, e: char, b: string, t: string, pat: string, rep: string)
    requires '\\' !in a && '\\' !in b && (t == [] || t == "\\")
    requires pat == ['\\', e]
    ensures ReplaceAll(a + (['\\', e] + (b + t)), pat, rep) == a + (rep + (b + t))
  {
    ReplaceAllSkips(a, ['\\', e] + (b + t), pat, rep);
    EscapeRewritten(e, b + t, pat, rep);
    TailInert(b, t, pat, rep);
  }

  /** One escape between backslash-free texts: another rewrite keeps it. */
  lemma KeepPass(a: string, e: char, b: string, t: string, pat: string, rep: string)
    requires '\\' !in a && '\\' !in b && e != '\\' && (t == [] || t == "\\")
    requires |pat| == 2 && pat[0] == '\\' && pat[1] != e
    ensures ReplaceAll(a + (['\\', e] + (b + t)), pat, rep) == a + (['\\', e] + (b + t))
  {
    ReplaceAllSkips(a, ['\\', e] + (b + t), pat, rep);
    EscapeKept(e, b, t, pat, rep);
  }

  /** The fallback turns a `\n` escape into a line break. The text may end in
      a cut-off backslash, which the fallback keeps. */
  lemma ManualUnescapeNewline(a: string, b: string, t: string)
    requires '\\' !in a && '\\' !in b && (t == [] || t == "\\")
    ensures ManualUnescape(a + "\\n" + b + t) == a + "\n" + b + t
  {
    var s := a + "\\n" + b + t;
    var x := a + "\n" + b;
    var s1 := ReplaceAll(s, "\\n", "\n");
    assert s1 == x + t by {
      assert s == a + (['\\', 'n'] + (b + t));
      EscapePass(a, 'n', b, t, "\\n", "\n");
      assert a + ("\n" + (b + t)) == x + t;
    }
    assert '\\' !in x;
    var s2 := ReplaceAll(s1, "\\t", "\t");
    assert s2 == x + t by {
      TailInert(x, t, "\\t", "\t");
    }
    TailInert(x, t, "\\\"", "\"");
  }

  /** The fallback turns a `\t` escape into a tab. */
  lemma ManualUnescapeTab(a: string, b: string, t: string)
    requires '\\' !in a && '\\' !in b && (t == [] || t == "\\")
    ensures ManualUnescape(a + "\\t" + b + t) == a + "\t" + b + t
  {
    var s := a + "\\t" + b + t;
    var x := a + "\t" + b;
    assert s == a + (['\\', 't'] + (b + t));
    var s1 := ReplaceAll(s, "\\n", "\n");
    assert s1 == s by {
      KeepPass(a, 't', b, t, "\\n", "\n");
    }
    var s2 := ReplaceAll(s1, "\\t", "\t");
    assert s2 == x + t by {
      EscapePass(a, 't', b, t, "\\t", "\t");
      assert a + ("\t" + (b + t)) == x + t;
    }
    assert '\\' !in x;
    TailInert(x, t, "\\\"", "\"");
  }

  /** A reply cut off in the middle of an escape, `{"reply": "a\nb\`, does not
      decode, and the fallback still shows the earlier `\n` as a line break,
      keeping the dangling backslash. */
  lemma CutOffEscapeShown(a: string, b: string, parse: string -> Option<Json>)
    requires forall k :: 0 <= k < |a| ==> IsPlain(a[k]) && a[k] != '`' && a[k] != '}'
    requires forall k :: 0 <= k < |b| ==> IsPlain(b[k]) && b[k] != '`' && b[k] != '}'
    requires parse("{\"reply\": \"" + (a + "\\n" + b + "\\")) == None
    ensures DisplayText(Assistant, "{\"reply\": \"" + (a + "\\n" + b + "\\"), parse) == ShownText(a + "\n" + b + "\\")
  {
    var v := a + "\\n" + b + "\\";
    var raw := "{\"reply\": \"" + v;
    assert forall k :: 0 <= k < |v| ==> v[k] != '"' && v[k] != '`' && v[k] != '}' by {
      assert forall k :: 0 <= k < |a| ==> v[k] == a[k];
      assert forall k :: 0 <= k < |b| ==> v[|a| + 2 + k] == b[k];
    }
    assert raw + [] == raw && v + [] == v;
    CaptureAfterOpening(v, []);
    OpeningParsedWhole(v, [], parse);
    DecodeNewlineBetween(a, b);
    assert UnfinishedEscape("\\");
    DecodeRejectsUnfinishedEscape(a + "\\n" + b, "\\");
    assert '\\' !in a && '\\' !in b by {
      assert forall k :: 0 <= k < |a| ==> a[k] != '\\';
      assert forall k :: 0 <= k < |b| ==> b[k] != '\\';
    }
    ManualUnescapeNewline(a, b, "\\");
    BraceOpeningIsJsonShaped(raw);
    StreamingReplyShown(raw, v, None);
  }

  /** For a reply of the expected shape the badges match the sidebar: the
      corrections badge shows exactly when the sidebar lists correction cards,
      the vocabulary badge exactly when it has a vocabulary section, with or
      without the guard. */
  lemma BadgesMatchSidebar(fb: ParsedFeedback)
    ensures Badges(Assistant, Some(ToJson(fb))) == Rendered(BadgeRow(fb.corrections != [], fb.newVocabulary != []))
    ensures GuardedBadges(Assistant, Some(ToJson(fb))) == BadgeRow(fb.corrections != [], fb.newVocabulary != [])
    ensures var side := Sidebar(Some(fb));
      && (Badges(Assistant, Some(ToJson(fb))).view.corrections <==> side.corrections.CorrectionCards?)
      && (Badges(Assistant, Some(ToJson(fb))).view.vocabulary <==> side.vocabulary.Some?)
  {
    var j := ToJson(fb);
    assert Member(j, "corrections") == Some(JArray(CorrectionsJson(fb.corrections)));
    assert Member(j, "new_vocabulary") == Some(JArray(VocabJson(fb.newVocabulary)));
  }

  /** A parse without the two lists, such as `{"reply":"hi"}`, a bare `42` or
      `{}`, makes the badges throw while rendering. */
  lemma BadgesThrowWithoutLists()
    ensures Badges(Assistant, Some(JObject(map["reply" := JString("hi")]))) == RenderThrows
    ensures Badges(Assistant, Some(JNumber(42.0))) == RenderThrows
    ensures Badges(Assistant, Some(JObject(map[]))) == RenderThrows
  {
    assert Member(JObject(map["reply" := JString("hi")]), "corrections") == None;
    assert Member(JObject(map[]), "corrections") == None;
  }

  /** With the guard, the same reply renders and shows no badge. */
  lemma GuardedBadgesWithoutLists()
    ensures GuardedBadges(Assistant, Some(JObject(map["reply" := JString("hi")]))) == BadgeRow(false, false)
  {
    assert Member(JObject(map["reply" := JString("hi")]), "corrections") == None;
    assert Member(JObject(map["reply" := JString("hi")]), "new_vocabulary") == None;
  }
}
