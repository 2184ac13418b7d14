/** `parseJsonSafely` and `getMessageText`: turning a streamed chat message into
    text, and that text into a parsed value. `JSON.parse` itself is a parameter
    `parse`, with `None` standing for the `SyntaxError` it throws. */
module ChatUtils {
  import opened Wrappers
  import opened Text
  import opened Json

  // ----- Messages -----

  datatype Role = User | Assistant | System

  /** One element of a message's `parts`; only text parts carry display text. */
  datatype Part = TextPart(text: string) | OtherPart(kind: string)

  /** A chat message. `parts` is `None` when the field is missing or not an
      array; `content` is `None` when missing or not a string. */
  datatype Message = Message(id: string, role: Role, parts: Option<seq<Part>>, content: Option<string>)

  /** The in-order concatenation of the text parts. */
  function TextOf(parts: seq<Part>): string {
    if parts == [] then []
    else (if parts[0].TextPart? then parts[0].text else []) + TextOf(parts[1..])
  }

  /** `getMessageText`. */
  function MessageText(m: Option<Message>): string {
    match m
    case None => []
    case Some(msg) =>
      if msg.parts.Some? then TextOf(msg.parts.value)
      else msg.content.GetOr([])
  }

  /** Text extraction distributes over splitting the parts list. */
  lemma {:induction false} TextOfAppend(p: seq<Part>, q: seq<Part>)
    ensures TextOf(p + q) == TextOf(p) + TextOf(q)
  {
    if p != [] {
      assert (p + q)[1..] == p[1..] + q;
      TextOfAppend(p[1..], q);
    } else {
      assert p + q == q;
    }
  }

  /** A non-text part adds nothing to the text, wherever it sits. */
  lemma {:induction false} TextOfSkipsOther(p: seq<Part>, other: Part, q: seq<Part>)
    requires other.OtherPart?
    ensures TextOf(p + [other] + q) == TextOf(p + q)
    decreases |p|
  {
    var s := p + [other] + q;
    if p == [] {
      assert s == [other] + q && s[1..] == q && p + q == q;
    } else {
      assert s[0] == (p + q)[0] == p[0];
      assert s[1..] == p[1..] + [other] + q;
      assert (p + q)[1..] == p[1..] + q;
      TextOfSkipsOther(p[1..], other, q);
    }
  }

  /** With a `parts` array, neither a non-text part (wherever it sits) nor the
      `content` field changes the message text. */
  lemma PartsDecideText(m: Message, p: seq<Part>, q: seq<Part>, other: Part, content: Option<string>)
    requires m.parts == Some(p + q) && other.OtherPart?
    ensures MessageText(Some(m.(parts := Some(p + [other] + q), content := content))) == MessageText(Some(m))
  {
    TextOfSkipsOther(p, other, q);
  }

  /** A missing message has no text; without a `parts` array a message's text
      is its string `content`, or empty when there is none. */
  lemma MessageTextFallbacks(m: Message)
    ensures MessageText(None) == []
    ensures m.parts.None? && m.content.Some? ==> MessageText(Some(m)) == m.content.value
    ensures m.parts.None? && m.content.None? ==> MessageText(Some(m)) == []
  {
  }

  // ----- Sanitising and brace extraction -----

  const Fence := "```"

  /** Three backticks start `s`. */
  predicate FenceFirst(s: string) {
    |s| >= 3 && s[0] == '`' && s[1] == '`' && s[2] == '`'
  }

  /** The length of the fence the regex removes at the start of `s`: "```json"
      together with one newline after it, "```json", "```", or none (0). */
  function FenceAt(s: string): (n: nat)
    ensures n <= |s|
    ensures n > 0 <==> FenceFirst(s)
  {
    if !FenceFirst(s) then 0
    else if |s| >= 7 && s[3] == 'j' && s[4] == 's' && s[5] == 'o' && s[6] == 'n' then
      (if |s| > 7 && s[7] == '\n' then 8 else 7)
    else 3
  }

  /** `replace(/```json\n?|```/g, "")`: scanning left to right, removes each
      "```json" (with the one newline that may follow it) and each other "```". */
  function StripFences(s: string): string
    decreases |s|
  {
    if s == [] then []
    else if FenceAt(s) > 0 then StripFences(s[FenceAt(s)..])
    else [s[0]] + StripFences(s[1..])
  }

  predicate NoBacktick(s: string) {
    forall i :: 0 <= i < |s| ==> s[i] != '`'
  }

  /** The sanitised text `parseJsonSafely` works on. */
  function Sanitize(s: string): string {
    Trim(StripFences(s))
  }

  /** Position of the first `c` in `s`. */
  function FirstIndex(s: string, c: char): (r: Option<nat>)
    ensures r.Some? ==> r.value < |s| && s[r.value] == c
    ensures forall k :: 0 <= k < |s| && (r.None? || k < r.value) ==> s[k] != c
  {
    if s == [] then None
    else if s[0] == c then Some(0)
    else match FirstIndex(s[1..], c)
      case Some(i) => Some(i + 1)
      case None => None
  }

  /** Position of the last `c` in `s`. */
  function LastIndex(s: string, c: char): (r: Option<nat>)
    ensures r.Some? ==> r.value < |s| && s[r.value] == c
    ensures forall k :: 0 <= k < |s| && (r.None? || k > r.value) ==> s[k] != c
  {
    if s == [] then None
    else if s[|s| - 1] == c then Some(|s| - 1)
    else LastIndex(s[..|s| - 1], c)
  }

  /** The match of `/\{[\s\S]*\}/`: from the first `{` to the last `}`, provided
      that `}` comes after the `{`; otherwise no match. */
  function BraceSpan(s: string): (r: Option<(nat, nat)>)
    ensures r.Some? ==> var (i, j) := r.value;
      && i < j < |s| && s[i] == '{' && s[j] == '}'
      && (forall k :: 0 <= k < i ==> s[k] != '{')
      && (forall k :: j < k < |s| ==> s[k] != '}')
    ensures r.None? ==> forall i, j :: 0 <= i < j < |s| && s[i] == '{' ==> s[j] != '}'
  {
    match (FirstIndex(s, '{'), LastIndex(s, '}'))
    case (Some(i), Some(j)) => if i < j then Some((i, j)) else None
    case _ => None
  }

  /** The text `parseJsonSafely` hands to `JSON.parse`: the brace match when
      there is one, else the whole sanitised text. */
  function Candidate(sanitized: string): string {
    var span := BraceSpan(sanitized);
    if span.Some? then sanitized[span.value.0..span.value.1 + 1] else sanitized
  }

  /** `parseJsonSafely`: total (it never throws); `None` is its `null`. */
  function ParseJsonSafely(text: string, parse: string -> Option<Json>): Option<Json> {
    parse(Candidate(Sanitize(text)))
  }

  // ----- Properties -----

  /** Text without backticks has no fences to strip. */
  lemma {:induction false} StripFencesNoBacktick(s: string)
    requires NoBacktick(s)
    ensures StripFences(s) == s
  {
    if s != [] {
      assert s[0] != '`';
      StripFencesNoBacktick(s[1..]);
      assert [s[0]] + s[1..] == s;
    }
  }

  /** So for such text sanitising is just trimming. */
  lemma SanitizeNoBacktick(s: string)
    requires NoBacktick(s)
    ensures Sanitize(s) == Trim(s)
  {
    StripFencesNoBacktick(s);
  }

  /** A character that does not start a fence is kept and the scan moves on. */
  lemma StripFencesCons(c: char, t: string)
    requires !FenceFirst([c] + t)
    ensures StripFences([c] + t) == [c] + StripFences(t)
  {
    assert ([c] + t)[1..] == t;
  }

  /** Backtick-free text in front is kept verbatim and does not affect how the rest is stripped. */
  lemma {:induction false} StripFencesPrefix(x: string, y: string)
    requires NoBacktick(x)
    ensures StripFences(x + y) == x + StripFences(y)
  {
    if x != [] {
      var t := x[1..] + y;
      assert x + y == [x[0]] + t;
      StripFencesCons(x[0], t);
      StripFencesPrefix(x[1..], y);
      assert [x[0]] + (x[1..] + StripFences(y)) == x + StripFences(y);
    } else {
      assert x + y == y;
    }
  }

  /** If stripped text starts with two backticks, so did the input. */
  lemma StripFencesHead(t: string)
    requires !(|t| >= 2 && t[0] == '`' && t[1] == '`')
    ensures !(|StripFences(t)| >= 2 && StripFences(t)[0] == '`' && StripFences(t)[1] == '`')
  {
    if t != [] {
      assert [t[0]] + t[1..] == t;
      StripFencesCons(t[0], t[1..]);
      if t[0] == '`' && |t| >= 2 {
        assert [t[1]] + t[2..] == t[1..];
        StripFencesCons(t[1], t[2..]);
      }
    }
  }

  /** Three backticks in a row start the text exactly when it starts with a fence. */
  lemma FenceFirstIff(s: string)
    ensures StartsWith(s, Fence) <==> FenceFirst(s)
  {
    if |s| >= 3 {
      assert s[..3] == Fence <==> s[0] == '`' && s[1] == '`' && s[2] == '`';
    }
  }

  /** No fence survives sanitising: removing one fence never glues two others
      together. */
  lemma {:induction false} StripFencesLeavesNoFence(s: string)
    ensures !Contains(StripFences(s), Fence)
    decreases |s|
  {
    if s != [] && FenceAt(s) > 0 {
      StripFencesLeavesNoFence(s[FenceAt(s)..]);
    } else if s != [] {
      var r := StripFences(s[1..]);
      StripFencesLeavesNoFence(s[1..]);
      if s[0] == '`' {
        StripFencesHead(s[1..]);
      }
      var x := [s[0]] + r;
      assert x[1..] == r;
      FenceFirstIff(x);
    }
  }

  /** Splits the brace match around an object framed by brace-free noise. */
  lemma BraceSpanFramed(p: string, obj: string, q: string)
    requires |obj| >= 2 && obj[0] == '{' && obj[|obj| - 1] == '}'
    requires forall k :: 0 <= k < |p| ==> p[k] != '{'
    requires forall k :: 0 <= k < |q| ==> q[k] != '}'
    ensures BraceSpan(p + obj + q) == Some((|p|, |p| + |obj| - 1))
  {
    var t := p + obj + q;
    assert t[|p|] == '{' && t[|p| + |obj| - 1] == '}';
    assert forall k :: 0 <= k < |p| ==> t[k] == p[k];
    assert forall k :: |p| + |obj| <= k < |t| ==> t[k] == q[k - |p| - |obj|];
  }

  lemma NoBacktickConcat(a: string, b: string)
    requires NoBacktick(a) && NoBacktick(b)
    ensures NoBacktick(a + b)
  {
    assert forall k :: |a| <= k < |a + b| ==> (a + b)[k] == b[k - |a|];
  }

  /** Sanitising backtick-free text around a core with non-space ends trims the
      two sides and keeps the core. */
  lemma SanitizeFramed(before: string, obj: string, after: string)
    requires NoBacktick(before) && NoBacktick(obj) && NoBacktick(after)
    requires obj != [] && !IsSpace(obj[0]) && !IsSpace(obj[|obj| - 1])
    ensures Sanitize(before + obj + after) == TrimStart(before) + obj + TrimEnd(after)
  {
    NoBacktickConcat(before, obj);
    NoBacktickConcat(before + obj, after);
    SanitizeNoBacktick(before + obj + after);
    TrimAround(before, obj, after);
  }

  /** The brace match of an object framed by brace-free noise is the object. */
  lemma CandidateOfFramed(p: string, obj: string, q: string)
    requires |obj| >= 2 && obj[0] == '{' && obj[|obj| - 1] == '}'
    requires forall k :: 0 <= k < |p| ==> p[k] != '{'
    requires forall k :: 0 <= k < |q| ==> q[k] != '}'
    ensures Candidate(p + obj + q) == obj
  {
    BraceSpanFramed(p, obj, q);
    var t := p + obj + q;
    assert t[|p|..|p| + |obj|] == obj;
  }

  /** Trimming keeps a character absent from what remains. */
  lemma TrimmedLacks(before: string, after: string, c: char, d: char)
    requires forall k :: 0 <= k < |before| ==> before[k] != c
    requires forall k :: 0 <= k < |after| ==> after[k] != d
    ensures forall k :: 0 <= k < |TrimStart(before)| ==> TrimStart(before)[k] != c
    ensures forall k :: 0 <= k < |TrimEnd(after)| ==> TrimEnd(after)[k] != d
  {
    var p, q := TrimStart(before), TrimEnd(after);
    TrimStartSpec(before);
    TrimEndSpec(after);
    assert forall k :: 0 <= k < |p| ==> p[k] == before[|before| - |p| + k];
    assert forall k :: 0 <= k < |q| ==> q[k] == after[k];
  }

  /** The text handed to `JSON.parse` for an object framed by noise. */
  lemma CandidateFramed(before: string, obj: string, after: string)
    requires NoBacktick(before) && NoBacktick(obj) && NoBacktick(after)
    requires |obj| >= 2 && obj[0] == '{' && obj[|obj| - 1] == '}'
    requires forall k :: 0 <= k < |before| ==> before[k] != '{'
    requires forall k :: 0 <= k < |after| ==> after[k] != '}'
    ensures Candidate(Sanitize(before + obj + after)) == obj
  {
    SanitizeFramed(before, obj, after);
    TrimmedLacks(before, after, '{', '}');
    CandidateOfFramed(TrimStart(before), obj, TrimEnd(after));
  }

  /** Noise around a single object is ignored: with no `{` before it, no `}`
      after it and no backticks anywhere, exactly the object is parsed. */
  lemma NoiseIgnored(before: string, body: string, after: string, parse: string -> Option<Json>)
    requires NoBacktick(before) && NoBacktick(body) && NoBacktick(after)
    requires forall k :: 0 <= k < |before| ==> before[k] != '{'
    requires forall k :: 0 <= k < |after| ==> after[k] != '}'
    ensures ParseJsonSafely(before + "{" + body + "}" + after, parse) == parse("{" + body + "}")
  {
    var obj := "{" + body + "}";
    assert before + obj + after == before + "{" + body + "}" + after;
    NoBacktickConcat("{", body);
    NoBacktickConcat("{" + body, "}");
    CandidateFramed(before, obj, after);
  }

  lemma StripWrappedJsonFence(obj: string)
    requires NoBacktick(obj)
    ensures StripFences("```json\n" + obj + "\n```") == obj + "\n"
  {
    var s := "```json\n" + obj + "\n```";
    var t := obj + "\n";
    NoBacktickConcat(obj, "\n");
    assert s == "```json\n" + (t + Fence);
    assert FenceAt(s) == 8;
    assert s[8..] == t + Fence;
    StripFencesPrefix(t, Fence);
    assert StripFences(Fence) == [];
    assert t + [] == t;
  }

  lemma SanitizeFenced(obj: string)
    requires NoBacktick(obj) && obj != [] && !IsSpace(obj[0]) && !IsSpace(obj[|obj| - 1])
    ensures Sanitize("```json\n" + obj + "\n```") == obj
  {
    StripWrappedJsonFence(obj);
    TrimPadded([], obj, "\n");
    assert [] + obj + "\n" == obj + "\n";
  }

  lemma SanitizeBare(obj: string)
    requires NoBacktick(obj) && obj != [] && !IsSpace(obj[0]) && !IsSpace(obj[|obj| - 1])
    ensures Sanitize(obj) == obj
  {
    StripFencesNoBacktick(obj);
    TrimPadded([], obj, []);
    assert [] + obj + [] == obj;
  }

  lemma CandidateWhole(obj: string)
    requires |obj| >= 2 && obj[0] == '{' && obj[|obj| - 1] == '}'
    ensures Candidate(obj) == obj
  {
    BraceSpanFramed([], obj, []);
    assert [] + obj + [] == obj;
    assert obj[0..|obj|] == obj;
  }

  /** A reply wrapped in a ```json fence parses exactly like the bare reply. */
  lemma FencedLikeBare(obj: string, parse: string -> Option<Json>)
    requires NoBacktick(obj) && |obj| >= 2 && obj[0] == '{' && obj[|obj| - 1] == '}'
    ensures ParseJsonSafely("```json\n" + obj + "\n```", parse) == ParseJsonSafely(obj, parse) == parse(obj)
  {
    SanitizeFenced(obj);
    SanitizeBare(obj);
    CandidateWhole(obj);
  }

  /** Without any `}` there is no brace match, so the whole sanitised text is
      parsed; for text with no backticks and no outer whitespace that is the
      text itself. */
  lemma WholeTextParsedWithoutClosingBrace(s: string, parse: string -> Option<Json>)
    requires NoBacktick(s) && s != [] && !IsSpace(s[0]) && !IsSpace(s[|s| - 1])
    requires forall k :: 0 <= k < |s| ==> s[k] != '}'
    ensures ParseJsonSafely(s, parse) == parse(s)
  {
    SanitizeBare(s);
    assert BraceSpan(s).None?;
  }
}
