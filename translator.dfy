/** The pure part of the translation client: the user prompt sent to the
    provider, the lenient reading of the provider's answer, and the
    assembly of the result. The HTTP exchange, the clock and the JSON
    decoder stay outside; the decoder is a parameter
    `decode: string -> Option<ProviderTranslationPayload>`. */
module Translator {
  import opened Wrappers
  import opened Strings
  import opened Types
  import Inline

  // ---------------------------------------------------------------------
  // The user prompt
  // ---------------------------------------------------------------------

  /** The user prompt: source code, target code, then the text, in nineteen fixed characters plus the text. */
  function UserPrompt(request: TranslationRequest): (prompt: string)
    ensures |prompt| == 19 + |request.text|
    ensures prompt[..4] == "src=" && prompt[19..] == request.text
  {
    "src=" + Show(request.sourceLang) + ";tgt=" + Show(request.targetLang) + ";text=" + request.text
  }

  /** The reading of a prompt: both codes and the text, or nothing when the
      prompt does not have the prompt's shape. */
  function ReadUserPrompt(prompt: string): (r: Option<TranslationRequest>)
    ensures r.Some? ==> |prompt| >= 19 && prompt[19..] == r.value.text
  {
    if |prompt| < 19 || prompt[..4] != "src=" || prompt[6..11] != ";tgt=" || prompt[13..19] != ";text=" then None
    else
      match (ParseCode(prompt[4..6]), ParseCode(prompt[11..13]))
      case (Some(source), Some(target)) => Some(TranslationRequest(prompt[19..], source, target))
      case _ => None
  }

  /** The prompt carries the whole request: reading it back gives the request. */
  lemma ReadUserPromptInverts(request: TranslationRequest)
    ensures ReadUserPrompt(UserPrompt(request)) == Some(request)
  {
    var prompt := UserPrompt(request);
    var source, target := Show(request.sourceLang), Show(request.targetLang);
    assert prompt == "src=" + source + ";tgt=" + target + ";text=" + request.text;
    assert prompt[4..6] == source && prompt[11..13] == target;
    assert prompt[6..11] == ";tgt=" && prompt[13..19] == ";text=";
    ParseShow(request.sourceLang);
    ParseShow(request.targetLang);
  }

  /** Different requests are never sent as the same prompt. */
  lemma UserPromptInjective(a: TranslationRequest, b: TranslationRequest)
    requires UserPrompt(a) == UserPrompt(b)
    ensures a == b
  {
    ReadUserPromptInverts(a);
    ReadUserPromptInverts(b);
  }

  // ---------------------------------------------------------------------
  // `str::find` and `str::rfind` on one character
  // ---------------------------------------------------------------------

  /** The index of the first `c`, if any. */
  function FindFirst(s: string, c: char): (r: Option<nat>)
    ensures r.None? <==> c !in s
    ensures r.Some? ==> r.value < |s| && s[r.value] == c && c !in s[..r.value]
  {
    if s == [] then None
    else if s[0] == c then Some(0)
    else
      var r := FindFirst(s[1..], c);
      assert forall k :: 0 < k < |s| ==> s[k] == s[1..][k - 1];
      match r
      case None => None
      case Some(i) =>
        assert s[..i + 1] == [s[0]] + s[1..][..i];
        Some(i + 1)
  }

  /** The index of the last `c`, if any. */
  function FindLast(s: string, c: char): (r: Option<nat>)
    ensures r.None? <==> c !in s
    ensures r.Some? ==> r.value < |s| && s[r.value] == c && c !in s[r.value + 1..]
  {
    if s == [] then None
    else if s[|s| - 1] == c then Some(|s| - 1)
    else
      var r := FindLast(s[..|s| - 1], c);
      assert forall k :: 0 <= k < |s| - 1 ==> s[k] == s[..|s| - 1][k];
      match r
      case None => None
      case Some(j) =>
        assert s[j + 1..] == s[..|s| - 1][j + 1..] + [s[|s| - 1]];
        Some(j)
  }

  // ---------------------------------------------------------------------
  // `parse_json_content`
  // ---------------------------------------------------------------------

  /** What is handed to the decoder: a slice of the content, or the panic of
      an inclusive range whose end comes before its start. */
  datatype Candidate = Slice(json: string) | SlicePanic

  /** Lines 83-91 as written: from the first `{` to the last `}` inclusive
      when both exist, else the whole content. A `}` that comes more than one
      place before the first `{` makes `start..=end` a reversed range. */
  function JsonCandidate(content: string): (c: Candidate)
    ensures c.Slice? ==> |c.json| <= |content|
  {
    match FindFirst(content, '{')
    case None => Slice(content)
    case Some(start) =>
      match FindLast(content, '}')
      case None => Slice(content)
      case Some(end) =>
        if end + 1 < start then SlicePanic
        else Slice(content[start..end + 1])
  }

  /** Content without `{` is handed over whole. */
  lemma NoOpenBraceWholeContent(content: string)
    requires '{' !in content
    ensures JsonCandidate(content) == Slice(content)
  {
  }

  /** Content with a `{` but no `}` is handed over whole. */
  lemma NoCloseBraceWholeContent(content: string)
    requires '{' in content && '}' !in content
    ensures JsonCandidate(content) == Slice(content)
  {
  }

  /** With a `}` at or after a `{`, the candidate is the span from the first
      `{` to the last `}`: it starts with `{`, ends with `}`, and the content
      has no `{` before it and no `}` after it. */
  lemma {:induction false} BracedCandidate(content: string, i: nat, j: nat)
    requires i <= j < |content| && content[i] == '{' && content[j] == '}'
    ensures var c := JsonCandidate(content);
      && c.Slice? && |c.json| >= 2 && c.json[0] == '{' && c.json[|c.json| - 1] == '}'
      && (exists k :: 0 <= k <= |content| - |c.json|
            && content[k..k + |c.json|] == c.json && '{' !in content[..k] && '}' !in content[k + |c.json|..])
  {
    var start, end := CandidateSpan(content, i, j);
    SpanOf(content, start, end);
  }

  /** Where the candidate of `BracedCandidate` lies in the content. */
  lemma CandidateSpan(content: string, i: nat, j: nat) returns (start: nat, end: nat)
    requires i <= j < |content| && content[i] == '{' && content[j] == '}'
    ensures start < end < |content| && content[start] == '{' && content[end] == '}'
    ensures '{' !in content[..start] && '}' !in content[end + 1..]
    ensures JsonCandidate(content) == Slice(content[start..end + 1])
  {
    assert content[i] in content && content[j] in content;
    start := FindFirst(content, '{').value;
    end := FindLast(content, '}').value;
  }

  lemma SpanOf(content: string, start: nat, end: nat)
    requires start < end < |content| && content[start] == '{' && content[end] == '}'
    requires '{' !in content[..start] && '}' !in content[end + 1..]
    ensures var json := content[start..end + 1];
      && |json| >= 2 && json[0] == '{' && json[|json| - 1] == '}'
      && (exists k :: 0 <= k <= |content| - |json|
            && content[k..k + |json|] == json && '{' !in content[..k] && '}' !in content[k + |json|..])
  {
    var json := content[start..end + 1];
    assert content[start..start + |json|] == json && content[start + |json|..] == content[end + 1..];
  }

  /** The reversed range, on an input the pattern of lines 83-86 lets through. */
  lemma ReversedBracesPanic()
    ensures JsonCandidate("}x{") == SlicePanic
  {
    assert FindFirst("}x{", '{') == Some(2);
    assert FindLast("}x{", '}') == Some(0);
  }

  /** `i` is the first `{`, some `}` comes before `i - 1`, and none at or after it. */
  predicate ReversedAt(content: string, i: nat) {
    && 0 < i < |content| && content[i] == '{' && '{' !in content[..i]
    && '}' in content[..i - 1] && '}' !in content[i - 1..]
  }

  /** The panic happens exactly when some `}` comes before the first `{`,
      none comes at or after it, and the character just before it is not a
      `}` (an empty range `i..=i-1` is allowed). */
  lemma ReversedBracesExactly(content: string)
    ensures JsonCandidate(content).SlicePanic? <==> exists i :: ReversedAt(content, i)
  {
    if JsonCandidate(content).SlicePanic? {
      PanicIsReversed(content);
    }
    if exists i :: ReversedAt(content, i) {
      var i :| ReversedAt(content, i);
      ReversedPanics(content, i);
    }
  }

  lemma PanicIsReversed(content: string)
    requires JsonCandidate(content).SlicePanic?
    ensures ReversedAt(content, FindFirst(content, '{').value)
  {
    var start, end := FindFirst(content, '{').value, FindLast(content, '}').value;
    assert content[..start - 1][end] == '}';
    assert forall k :: start - 1 <= k < |content| ==> content[k] == content[end + 1..][k - end - 1];
  }

  lemma ReversedPanics(content: string, i: nat)
    requires ReversedAt(content, i)
    ensures JsonCandidate(content).SlicePanic?
  {
    assert content[i] in content;
    var start := FindFirst(content, '{').value;
    assert forall k :: 0 <= k < i ==> content[k] == content[..i][k];
    assert start == i;
    var k :| 0 <= k < i - 1 && content[..i - 1][k] == '}';
    assert content[k] in content;
    var end := FindLast(content, '}').value;
    assert forall m :: i - 1 <= m < |content| ==> content[m] == content[i - 1..][m - (i - 1)];
    assert end < i - 1;
  }

  /** When the last `}` sits right before the first `{`, the inclusive range
      is empty rather than reversed: the decoder is handed the empty string. */
  lemma AdjacentBracesEmptySlice(content: string, i: nat)
    requires 1 <= i < |content| && content[i - 1] == '}' && content[i] == '{'
    requires '{' !in content[..i] && '}' !in content[i..]
    ensures JsonCandidate(content) == Slice([])
  {
  }

  /** The candidate with the reversed range sent to the fallback the
      function's own comment promises: whole content instead of a panic. */
  function GuardedJsonCandidate(content: string): (json: string)
    ensures json == content || (|json| >= 2 && json[0] == '{' && json[|json| - 1] == '}')
    ensures |json| <= |content|
  {
    match FindFirst(content, '{')
    case None => content
    case Some(start) =>
      match FindLast(content, '}')
      case None => content
      case Some(end) =>
        if end < start then content
        else content[start..end + 1]
  }

  /** The guard changes only the reversed cases: wherever the slice is
      non-empty, the guarded candidate is the same slice. */
  lemma GuardedCandidateAgrees(content: string)
    ensures JsonCandidate(content).Slice? ==>
      var json := JsonCandidate(content).json;
      GuardedJsonCandidate(content) == json || (json == [] && GuardedJsonCandidate(content) == content)
  {
  }

  /** The payload used when the decoder rejects the candidate: the whole
      content, trimmed, with neither alternatives nor romanisation. */
  function Fallback(content: string): (p: ProviderTranslationPayload)
    ensures p.alternatives.None? && p.romanized.None?
    ensures p.translation == [] <==> IsBlank(content)
    ensures p.translation != [] ==> !IsWhitespace(p.translation[0]) && !IsWhitespace(p.translation[|p.translation| - 1])
  {
    ProviderTranslationPayload(Trim(content), None, None)
  }

  /** The decoder's answer on a candidate, or the fallback on the content. */
  function DecodeOrFallback(
    json: string, content: string, decode: string -> Option<ProviderTranslationPayload>): (p: ProviderTranslationPayload)
    ensures decode(json).Some? ==> p == decode(json).value
    ensures decode(json).None? ==> p.translation == Trim(content) && p.alternatives.None? && p.romanized.None?
  {
    match decode(json)
    case Some(parsed) => parsed
    case None => Fallback(content)
  }

  /** The outcome of `parse_json_content` as written: a payload, or the panic. */
  datatype ParseOutcome = Parsed(payload: ProviderTranslationPayload) | Panicked

  /** `parse_json_content` as written. It has no error case of its own: the
      only way not to produce a payload is the slice panic. */
  function ParseJsonContent(content: string, decode: string -> Option<ProviderTranslationPayload>): (r: ParseOutcome)
    ensures r.Panicked? <==> JsonCandidate(content).SlicePanic?
  {
    match JsonCandidate(content)
    case SlicePanic => Panicked
    case Slice(json) => Parsed(DecodeOrFallback(json, content, decode))
  }

  /** `parse_json_content` with the guarded candidate: always a payload. A
      decoded candidate is taken as it is; a rejected one gives the trimmed
      content (not the candidate) with no alternatives and no romanisation.
      Where the code as written does not panic and its slice is not empty,
      the payload is the one it gives. */
  function ParseJsonContentGuarded(content: string, decode: string -> Option<ProviderTranslationPayload>): (p: ProviderTranslationPayload)
    ensures decode(GuardedJsonCandidate(content)).Some? ==> p == decode(GuardedJsonCandidate(content)).value
    ensures decode(GuardedJsonCandidate(content)).None? ==> p == ProviderTranslationPayload(Trim(content), None, None)
    ensures JsonCandidate(content).Slice? && JsonCandidate(content).json != [] ==> ParseJsonContent(content, decode) == Parsed(p)
  {
    GuardedCandidateAgrees(content);
    DecodeOrFallback(GuardedJsonCandidate(content), content, decode)
  }

  // ---------------------------------------------------------------------
  // Result assembly in `translate`
  // ---------------------------------------------------------------------

  /** A romanisation is kept only when it is not blank. */
  function KeepNonBlank(romanized: Option<string>): (r: Option<string>)
    ensures r.Some? <==> romanized.Some? && !IsBlank(romanized.value)
    ensures r.Some? ==> r == romanized
  {
    match romanized
    case Some(text) => if Trim(text) == [] then None else Some(text)
    case None => None
  }

  /** Lines 73-78: the decoded translation, no alternatives, and the
      romanisation only when it is not blank. The latency is measured by
      the caller. */
  function AssembleResult(parsed: ProviderTranslationPayload, latencyMs: nat): (r: TranslationResult)
    ensures r.primaryText == parsed.translation
    ensures r.alternateTexts == []
    ensures r.romanizedText.Some? <==> parsed.romanized.Some? && !IsBlank(parsed.romanized.value)
    ensures r.romanizedText.Some? ==> r.romanizedText == parsed.romanized
  {
    TranslationResult(parsed.translation, [], KeepNonBlank(parsed.romanized), latencyMs)
  }

  /** What `translate` makes of the provider's message content. */
  function TranslateContent(
    content: string, decode: string -> Option<ProviderTranslationPayload>, latencyMs: nat): (r: TranslationResult)
    ensures r.alternateTexts == [] && r.providerLatencyMs == latencyMs
    ensures r.romanizedText.Some? ==> !IsBlank(r.romanizedText.value)
    ensures decode(GuardedJsonCandidate(content)).None? ==> r == TranslationResult(Trim(content), [], None, latencyMs)
  {
    AssembleResult(ParseJsonContentGuarded(content, decode), latencyMs)
  }

  /** A translated result is shown as the primary article, plus the
      romanised one when there is a romanisation, and never an alternatives
      article. */
  lemma TranslatedArticles(
    parsed: ParsedInlineQuery, content: string, decode: string -> Option<ProviderTranslationPayload>, latencyMs: nat)
    ensures var r := TranslateContent(content, decode, latencyMs);
      |Inline.TranslationArticles(parsed, r)| == if r.romanizedText.Some? then 2 else 1
  {
  }
}
