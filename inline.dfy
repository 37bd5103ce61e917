/** The inline-query interpreter and the display helpers (src/inline.rs):
    raw text becomes a normalised (text, source, target) query, and a
    translation result becomes the short list of articles offered back. */
module Inline {
  import opened Wrappers
  import opened Strings
  import opened Types

  const SegmentDelimiter: char := '|'
  const MaxTextLength: nat := 2048
  const DescriptionLength: nat := 80
  const Ellipsis: char := '\U{2026}'

  /** The statistical detector's verdict on a text, reduced to what the
      interpreter distinguishes. The detector itself is a parameter
      `detect: string -> Option<Lang>`; `None` means it gave no answer. */
  datatype Lang = Eng | Cmn | OtherLang

  // ---------------------------------------------------------------------
  // Character classes and the scanning `is_match`
  // ---------------------------------------------------------------------

  /** The five CJK intervals: U+3000-303F, U+3040-30FF, U+3400-4DBF, U+4E00-9FFF and U+F900-FAFF. */
  predicate IsCjk(c: char) {
    || ('\U{3000}' <= c <= '\U{303F}')
    || ('\U{3040}' <= c <= '\U{30FF}')
    || ('\U{3400}' <= c <= '\U{4DBF}')
    || ('\U{4E00}' <= c <= '\U{9FFF}')
    || ('\U{F900}' <= c <= '\U{FAFF}')
  }

  /** An ASCII letter, either case. */
  predicate IsAsciiLetter(c: char) {
    ('a' <= c <= 'z') || ('A' <= c <= 'Z')
  }

  predicate HasCjk(text: string) {
    exists i :: 0 <= i < |text| && IsCjk(text[i])
  }

  predicate HasAsciiLetter(text: string) {
    exists i :: 0 <= i < |text| && IsAsciiLetter(text[i])
  }

  /** `Regex::is_match` for an unanchored one-character class: a left-to-right
      scan that stops at the first character in the class. */
  function ClassMatches(text: string, inClass: char -> bool): (found: bool)
    ensures found <==> exists i :: 0 <= i < |text| && inClass(text[i])
  {
    if text == [] then false
    else if inClass(text[0]) then true
    else
      var found := ClassMatches(text[1..], inClass);
      assert forall i :: 0 < i < |text| ==> text[i] == text[1..][i - 1];
      found
  }

  // ---------------------------------------------------------------------
  // Direction detection
  // ---------------------------------------------------------------------

  /** `auto_detect_direction`: the first rule that applies decides. */
  function AutoDetectDirection(
    text: string, defaultSource: LanguageCode, defaultTarget: LanguageCode,
    detect: string -> Option<Lang>): (dir: (LanguageCode, LanguageCode))
    ensures HasCjk(text) ==> dir == (Zh, En)
    ensures !HasCjk(text) && detect(text) == Some(Eng) ==> dir == (En, Zh)
    ensures !HasCjk(text) && detect(text) == Some(Cmn) ==> dir == (Zh, En)
    ensures !HasCjk(text) && detect(text) != Some(Eng) && detect(text) != Some(Cmn) ==>
      dir == (if HasAsciiLetter(text) then (En, Zh) else (defaultSource, defaultTarget))
  {
    if ClassMatches(text, IsCjk) then (Zh, En)
    else
      match detect(text)
      case Some(Eng) => (En, Zh)
      case Some(Cmn) => (Zh, En)
      case _ =>
        if ClassMatches(text, IsAsciiLetter) then (En, Zh)
        else (defaultSource, defaultTarget)
  }

  /** The policy only ever yields Chinese to English, English to Chinese, or
      the caller's defaults. */
  lemma AutoDetectOutcomes(
    text: string, defaultSource: LanguageCode, defaultTarget: LanguageCode,
    detect: string -> Option<Lang>)
    ensures var dir := AutoDetectDirection(text, defaultSource, defaultTarget, detect);
      dir == (Zh, En) || dir == (En, Zh) || dir == (defaultSource, defaultTarget)
  {
  }

  // ---------------------------------------------------------------------
  // The direction prefix `^(?i)(en|zh)\s*(?:>|->)\s*(en|zh)\s*:?`
  // ---------------------------------------------------------------------

  /** The two captured code spellings and the text that follows the whole match. */
  datatype Captures = Captures(source: string, target: string, remainder: string)

  /** `r` is what is left of `s` once some prefix of it is consumed. */
  predicate IsSuffix(r: string, s: string) {
    |r| <= |s| && s[|s| - |r|..] == r
  }

  lemma DropIsSuffix(s: string, n: nat)
    requires n <= |s|
    ensures IsSuffix(s[n..], s)
  {
  }

  lemma SuffixSplit(r: string, s: string)
    requires IsSuffix(r, s)
    ensures s == s[..|s| - |r|] + r
  {
  }

  lemma SuffixTransitive(r: string, s: string, t: string)
    requires IsSuffix(r, s) && IsSuffix(s, t)
    ensures IsSuffix(r, t)
  {
    assert t[|t| - |r|..] == t[|t| - |s|..][|s| - |r|..];
  }

  /** A case-insensitive `en|zh` at the start. */
  predicate StartsWithCode(s: string) {
    |s| >= 2 && IsCodeSpelling(s[..2])
  }

  /** `\s*`: what is left once the leading white space is consumed. */
  function SkipBlank(s: string): (r: string)
    ensures IsSuffix(r, s)
    ensures r == [] || !IsWhitespace(r[0])
    ensures IsBlank(s[..|s| - |r|])
  {
    var i := SkipWhitespace(s, 0);
    assert forall k :: 0 <= k < i ==> s[..i][k] == s[k];
    s[i..]
  }

  /** `(?:>|->)`: what is left after an arrow at the start. */
  function SkipArrow(s: string): (r: Option<string>)
    ensures r.Some? ==> IsSuffix(r.value, s) && |r.value| < |s| && IsArrow(s[..|s| - |r.value|])
  {
    if |s| >= 1 && s[0] == '>' then Some(s[1..])
    else if |s| >= 2 && s[0] == '-' && s[1] == '>' then Some(s[2..])
    else None
  }

  /** The pattern after its arrow, `\s*(en|zh)\s*:?`: the target code and
      what follows the match. */
  function MatchTarget(t: string): (m: Option<(string, string)>)
    ensures m.Some? ==> IsCodeSpelling(m.value.0)
    ensures m.Some? ==> IsSuffix(m.value.1, t) && |m.value.1| <= |t| - 2
  {
    var v := SkipBlank(t);
    if !StartsWithCode(v) then None
    else
      var u := SkipBlank(v[2..]);
      var remainder := if u != [] && u[0] == ':' then u[1..] else u;
      DropIsSuffix(v, 2);
      SuffixTransitive(u, v[2..], v);
      SuffixTransitive(u, v, t);
      DropIsSuffix(u, |u| - |remainder|);
      SuffixTransitive(remainder, u, t);
      Some((v[..2], remainder))
  }

  /** The pattern after its source code, `\s*(?:>|->)` followed by the
      target part. */
  function MatchAfterSource(t: string): (m: Option<(string, string)>)
    ensures m.Some? ==> IsCodeSpelling(m.value.0)
    ensures m.Some? ==> IsSuffix(m.value.1, t) && |m.value.1| <= |t| - 3
  {
    var afterSource := SkipBlank(t);
    match SkipArrow(afterSource)
    case None => None
    case Some(afterArrow) =>
      var m := MatchTarget(afterArrow);
      if m.Some? then
        SuffixTransitive(afterArrow, afterSource, t);
        SuffixTransitive(m.value.1, afterArrow, t);
        m
      else None
  }

  /** The anchored direction pattern, consuming its parts left to right.
      Every quantifier in it is greedy and each is followed by a character it
      cannot consume, so the match is found without backtracking. */
  function MatchDirectionPrefix(s: string): (m: Option<Captures>)
    ensures m.Some? ==> IsSuffix(m.value.remainder, s) && |m.value.remainder| <= |s| - 5
    ensures m.Some? ==> m.value.source == s[..2] && IsCodeSpelling(m.value.source) && IsCodeSpelling(m.value.target)
  {
    if !StartsWithCode(s) then None
    else
      match MatchAfterSource(s[2..])
      case None => None
      case Some((target, remainder)) =>
        DropIsSuffix(s, 2);
        SuffixTransitive(remainder, s[2..], s);
        Some(Captures(s[..2], target, remainder))
  }

  // ---------------------------------------------------------------------
  // Segment normalisation
  // ---------------------------------------------------------------------

  /** Each piece trimmed, the empty ones dropped. */
  function CleanSegments(parts: seq<string>): (segments: seq<string>)
    ensures |segments| <= |parts|
    ensures forall i :: 0 <= i < |segments| ==> segments[i] != [] && Trim(segments[i]) == segments[i]
  {
    if parts == [] then []
    else
      var t := Trim(parts[0]);
      TrimIdempotent(parts[0]);
      (if t == [] then [] else [t]) + CleanSegments(parts[1..])
  }

  /** `normalize_segments`: split on `|`, trim, drop empty pieces, rejoin with `|`. */
  function NormalizeSegments(raw: string): (r: string)
    ensures |r| <= |raw|
    ensures r == [] <==> OnlyBlanksAndBars(raw)
  {
    var parts := Split(raw, SegmentDelimiter);
    var segments := CleanSegments(parts);
    CleanSegmentsShrink(parts, [SegmentDelimiter]);
    JoinSplit(raw, SegmentDelimiter);
    JoinBlanksAndBars(parts);
    CleanSegmentsEmpty(parts);
    Join(segments, [SegmentDelimiter])
  }

  /** `format_segments_for_display`: the same pieces, one per line. */
  function FormatSegmentsForDisplay(value: string): (r: string)
    ensures r == ReplaceChar(NormalizeSegments(value), SegmentDelimiter, '\n')
  {
    var segments := CleanSegments(Split(value, SegmentDelimiter));
    CleanSegmentsNoDelimiter(Split(value, SegmentDelimiter), SegmentDelimiter);
    ReplaceJoin(segments, SegmentDelimiter, '\n');
    Join(segments, "\n")
  }

  /** The first `n` characters (all of them when there are fewer). */
  function TakeChars(s: string, n: nat): (r: string)
    ensures r <= s && |r| == if |s| <= n then |s| else n
  {
    if |s| <= n then s else s[..n]
  }

  lemma JoinCons(a: string, ps: seq<string>, sep: string)
    ensures Join([a] + ps, sep) == if ps == [] then a else a + sep + Join(ps, sep)
  {
    assert ([a] + ps)[1..] == ps;
  }

  /** Cleaning keeps delimiter-free pieces delimiter-free. */
  lemma {:induction false} CleanSegmentsNoDelimiter(parts: seq<string>, d: char)
    requires forall i :: 0 <= i < |parts| ==> d !in parts[i]
    ensures forall i :: 0 <= i < |CleanSegments(parts)| ==> d !in CleanSegments(parts)[i]
  {
    if parts != [] {
      TrimKeepsAbsent(parts[0], d);
      CleanSegmentsNoDelimiter(parts[1..], d);
    }
  }

  /** Pieces that are already non-empty and trimmed survive cleaning unchanged. */
  lemma {:induction false} CleanSegmentsFixed(segments: seq<string>)
    requires forall i :: 0 <= i < |segments| ==> segments[i] != [] && Trim(segments[i]) == segments[i]
    ensures CleanSegments(segments) == segments
  {
    if segments != [] {
      CleanSegmentsFixed(segments[1..]);
      assert [segments[0]] + segments[1..] == segments;
    }
  }

  /** Cleaning never lengthens the joined text. */
  lemma {:induction false} CleanSegmentsShrink(parts: seq<string>, sep: string)
    ensures |Join(CleanSegments(parts), sep)| <= |Join(parts, sep)|
  {
    if parts != [] {
      var p, rest := parts[0], parts[1..];
      var t, c := Trim(p), CleanSegments(rest);
      assert parts == [p] + rest;
      CleanSegmentsShrink(rest, sep);
      JoinCons(p, rest, sep);
      if t == [] {
        assert CleanSegments(parts) == c;
        assert rest == [] ==> c == [];
      } else {
        assert CleanSegments(parts) == [t] + c;
        JoinCons(t, c, sep);
        assert c != [] ==> rest != [];
      }
    }
  }

  /** The pieces of a normalised text are exactly the cleaned pieces of the input. */
  lemma NormalizedPieces(raw: string)
    ensures var segments := CleanSegments(Split(raw, SegmentDelimiter));
      segments != [] ==> Split(NormalizeSegments(raw), SegmentDelimiter) == segments
  {
    var segments := CleanSegments(Split(raw, SegmentDelimiter));
    CleanSegmentsNoDelimiter(Split(raw, SegmentDelimiter), SegmentDelimiter);
    if segments != [] {
      SplitJoin(segments, SegmentDelimiter);
    }
  }

  /** A non-empty normalised text has no empty `|`-segment, and every segment
      is its own trim. */
  lemma NormalizeSegmentsShape(raw: string)
    ensures var n := NormalizeSegments(raw);
      n != [] ==> forall p :: p in Split(n, SegmentDelimiter) ==> p != [] && Trim(p) == p
  {
    NormalizedPieces(raw);
  }

  /** Normalising twice is normalising once. */
  lemma NormalizeSegmentsIdempotent(raw: string)
    ensures NormalizeSegments(NormalizeSegments(raw)) == NormalizeSegments(raw)
  {
    var segments := CleanSegments(Split(raw, SegmentDelimiter));
    NormalizedPieces(raw);
    if segments != [] {
      CleanSegmentsFixed(segments);
    } else {
      assert NormalizeSegments(raw) == [];
      assert Split([], SegmentDelimiter) == [[]];
    }
  }

  /** Nothing but `|` and white space. */
  predicate OnlyBlanksAndBars(s: string) {
    forall c :: c in s ==> IsWhitespace(c) || c == SegmentDelimiter
  }

  /** Without a `|`, being blanks and bars is being blank. */
  lemma BlankWithoutBars(p: string)
    requires SegmentDelimiter !in p
    ensures OnlyBlanksAndBars(p) <==> IsBlank(p)
  {
    if OnlyBlanksAndBars(p) {
      assert forall i :: 0 <= i < |p| ==> p[i] in p;
    }
  }

  /** A `|`-join of `|`-free pieces is blanks and bars exactly when every piece is blank. */
  lemma {:induction false} JoinBlanksAndBars(parts: seq<string>)
    requires forall i :: 0 <= i < |parts| ==> SegmentDelimiter !in parts[i]
    ensures OnlyBlanksAndBars(Join(parts, [SegmentDelimiter]))
      <==> forall i :: 0 <= i < |parts| ==> IsBlank(parts[i])
  {
    if parts != [] {
      BlankWithoutBars(parts[0]);
      if |parts| > 1 {
        var rest := parts[1..];
        JoinBlanksAndBars(rest);
        assert forall i :: 1 <= i < |parts| ==> parts[i] == rest[i - 1];
        var j := Join(rest, [SegmentDelimiter]);
        assert Join(parts, [SegmentDelimiter]) == parts[0] + [SegmentDelimiter] + j;
      }
    }
  }

  /** Cleaning leaves nothing exactly when every piece is blank. */
  lemma {:induction false} CleanSegmentsEmpty(parts: seq<string>)
    ensures CleanSegments(parts) == [] <==> forall i :: 0 <= i < |parts| ==> IsBlank(parts[i])
  {
    if parts != [] {
      var t, rest := Trim(parts[0]), parts[1..];
      CleanSegmentsEmpty(rest);
      assert CleanSegments(parts) == (if t == [] then [] else [t]) + CleanSegments(rest);
      BlankPieces(parts);
    }
  }

  lemma BlankPieces(parts: seq<string>)
    requires parts != []
    ensures (forall i :: 0 <= i < |parts| ==> IsBlank(parts[i]))
      <==> IsBlank(parts[0]) && forall i :: 0 <= i < |parts[1..]| ==> IsBlank(parts[1..][i])
  {
    assert forall i :: 1 <= i < |parts| ==> parts[i] == parts[1..][i - 1];
  }

  lemma ReplaceCharAppend(a: string, b: string, from: char, to: char)
    ensures ReplaceChar(a + b, from, to) == ReplaceChar(a, from, to) + ReplaceChar(b, from, to)
  {
  }

  lemma ReplaceCharAbsent(a: string, from: char, to: char)
    requires from !in a
    ensures ReplaceChar(a, from, to) == a
  {
  }

  /** Replacing the separator in a join of separator-free pieces re-joins them
      with the new separator. */
  lemma {:induction false} ReplaceJoin(parts: seq<string>, from: char, to: char)
    requires forall i :: 0 <= i < |parts| ==> from !in parts[i]
    ensures ReplaceChar(Join(parts, [from]), from, to) == Join(parts, [to])
  {
    if parts != [] {
      ReplaceCharAbsent(parts[0], from, to);
      if |parts| > 1 {
        ReplaceJoin(parts[1..], from, to);
        ReplaceCharAppend(parts[0] + [from], Join(parts[1..], [from]), from, to);
        ReplaceCharAppend(parts[0], [from], from, to);
      }
    }
  }

  /** Displaying a normalised query shows the same lines as displaying the raw text. */
  lemma DisplayOfNormalized(value: string)
    ensures FormatSegmentsForDisplay(NormalizeSegments(value)) == FormatSegmentsForDisplay(value)
  {
    var segments := CleanSegments(Split(value, SegmentDelimiter));
    NormalizedPieces(value);
    if segments != [] {
      CleanSegmentsFixed(segments);
    } else {
      assert Split([], SegmentDelimiter) == [[]];
    }
  }

  // ---------------------------------------------------------------------
  // The interpreter
  // ---------------------------------------------------------------------

  /** Lines 36-51: keep the first 2048 characters, normalise the segments,
      and give up when nothing is left. */
  function FinishQuery(portion: string, source: LanguageCode, target: LanguageCode): (r: Option<ParsedInlineQuery>)
    ensures r.Some? <==> NormalizeSegments(TakeChars(portion, MaxTextLength)) != []
    ensures r.Some? ==> r.value.sourceLang == source && r.value.targetLang == target
    ensures r.Some? ==> 0 < |r.value.text| <= MaxTextLength && |r.value.text| <= |portion|
    ensures r.Some? ==> NormalizeSegments(r.value.text) == r.value.text
    ensures r.Some? ==> r.value.text == NormalizeSegments(TakeChars(portion, MaxTextLength))
  {
    var truncated := TakeChars(portion, MaxTextLength);
    var normalized := NormalizeSegments(truncated);
    NormalizeSegmentsIdempotent(truncated);
    if normalized == [] then None
    else Some(ParsedInlineQuery(normalized, source, target))
  }

  /** `parse_inline_query`. The detector is consulted only when there is no
      direction prefix, and only on the whole trimmed text. */
  function ParseInlineQuery(
    rawQuery: string, defaultSource: LanguageCode, defaultTarget: LanguageCode,
    detect: string -> Option<Lang>): (r: Option<ParsedInlineQuery>)
    ensures IsBlank(rawQuery) ==> r == None
    ensures r.Some? ==> 0 < |r.value.text| <= MaxTextLength
    ensures r.Some? ==> NormalizeSegments(r.value.text) == r.value.text
  {
    var trimmed := Trim(rawQuery);
    if trimmed == [] then None
    else
      match MatchDirectionPrefix(trimmed)
      case Some(caps) =>
        // Parsing the captures cannot fail: the pattern captures only code spellings.
        var source := ParseCode(caps.source).value;
        var target := ParseCode(caps.target).value;
        FinishQuery(Trim(caps.remainder), source, target)
      case None =>
        var dir := AutoDetectDirection(trimmed, defaultSource, defaultTarget, detect);
        FinishQuery(trimmed, dir.0, dir.1)
  }

  // ---------------------------------------------------------------------
  // What the interpreter promises
  // ---------------------------------------------------------------------

  /** `\s*` stops exactly at the end of a white-space run. */
  lemma {:induction false} SkipWhitespaceTo(s: string, i: nat, j: nat)
    requires i <= j <= |s|
    requires forall k :: i <= k < j ==> IsWhitespace(s[k])
    requires j == |s| || !IsWhitespace(s[j])
    ensures SkipWhitespace(s, i) == j
    decreases j - i
  {
    if i < j {
      SkipWhitespaceTo(s, i + 1, j);
    }
  }

  /** `\s*` consumes a blank piece up to the next non-blank character. */
  lemma BlankPiece(w: string, t: string)
    requires IsBlank(w) && (t == [] || !IsWhitespace(t[0]))
    ensures SkipBlank(w + t) == t
  {
    var s := w + t;
    assert forall k :: 0 <= k < |w| ==> s[k] == w[k];
    if t != [] {
      assert s[|w|] == t[0];
    }
    SkipWhitespaceTo(s, 0, |w|);
    assert s[|w|..] == t;
  }

  /** `>` or `->`. */
  predicate IsArrow(arrow: string) {
    arrow == ">" || arrow == "->"
  }

  /** The direction pattern recognises every spelling it describes: two codes
      in any case, `>` or `->` with any white space around it, white space
      and an optional colon after; what remains is everything after that
      colon, or from the first character that is neither white space nor a
      colon. */
  lemma DirectionPrefixMatched(
    cs: string, w1: string, arrow: string, w2: string, ct: string, w3: string, colon: string, rest: string)
    requires IsCodeSpelling(cs) && IsCodeSpelling(ct)
    requires IsBlank(w1) && IsBlank(w2) && IsBlank(w3)
    requires IsArrow(arrow)
    requires colon == "" || colon == ":"
    requires colon == ":" || rest == [] || (!IsWhitespace(rest[0]) && rest[0] != ':')
    ensures MatchDirectionPrefix(cs + w1 + arrow + w2 + ct + w3 + colon + rest) == Some(Captures(cs, ct, rest))
  {
    Reassociate(cs, w1, arrow, w2, ct, w3, colon, rest);
    TargetMatched(w2, ct, w3, colon, rest);
    SourceMatched(cs, w1, arrow, w2 + (ct + (w3 + (colon + rest))), ct, rest);
  }

  /** The part up to the arrow: the source code, then the rest. */
  lemma SourceMatched(cs: string, w1: string, arrow: string, t3: string, ct: string, rest: string)
    requires IsCodeSpelling(cs) && IsBlank(w1) && IsArrow(arrow)
    requires MatchTarget(t3) == Some((ct, rest))
    ensures MatchDirectionPrefix(cs + (w1 + (arrow + t3))) == Some(Captures(cs, ct, rest))
  {
    var t1 := w1 + (arrow + t3);
    var s := cs + t1;
    assert s[..2] == cs && s[2..] == t1;
    ArrowMatched(w1, arrow, t3);
  }

  /** White space and an arrow are consumed up to the target part. */
  lemma ArrowMatched(w1: string, arrow: string, t3: string)
    requires IsBlank(w1) && IsArrow(arrow)
    ensures MatchAfterSource(w1 + (arrow + t3)) == MatchTarget(t3)
  {
    var t2 := arrow + t3;
    BlankPiece(w1, t2);
    if arrow == ">" {
      assert t2[0] == '>' && t2[1..] == t3;
    } else {
      assert t2[0] == '-' && t2[1] == '>' && t2[2..] == t3;
    }
    assert SkipArrow(t2) == Some(t3);
  }

  /** The part after the arrow: the target code, then everything after the
      optional colon. */
  lemma TargetMatched(w2: string, ct: string, w3: string, colon: string, rest: string)
    requires IsCodeSpelling(ct) && IsBlank(w2) && IsBlank(w3)
    requires colon == "" || colon == ":"
    requires colon == ":" || rest == [] || (!IsWhitespace(rest[0]) && rest[0] != ':')
    ensures MatchTarget(w2 + (ct + (w3 + (colon + rest)))) == Some((ct, rest))
  {
    var t6 := colon + rest;
    var t5 := w3 + t6;
    var t4 := ct + t5;
    assert t4[0] == ct[0];
    BlankPiece(w2, t4);
    assert SkipBlank(w2 + t4) == t4;
    assert t4[..2] == ct && t4[2..] == t5;
    assert StartsWithCode(t4);
    if colon == "" {
      assert t6 == rest;
      BlankPiece(w3, t6);
    } else {
      assert t6[0] == ':' && t6[1..] == rest;
      BlankPiece(w3, t6);
    }
    assert SkipBlank(t4[2..]) == t6;
  }

  /** The spelled prefix regrouped from the right, the way the pattern consumes it. */
  lemma Reassociate(cs: string, w1: string, arrow: string, w2: string, ct: string, w3: string, colon: string, rest: string)
    ensures cs + w1 + arrow + w2 + ct + w3 + colon + rest
      == cs + (w1 + (arrow + (w2 + (ct + (w3 + (colon + rest))))))
  {
    var t6 := colon + rest;
    var t5 := w3 + t6;
    var t4 := ct + t5;
    var t3 := w2 + t4;
    var t2 := arrow + t3;
    calc {
      cs + w1 + arrow + w2 + ct + w3 + colon + rest;
      (cs + w1 + arrow + w2 + ct + w3) + t6;
      (cs + w1 + arrow + w2 + ct) + t5;
      (cs + w1 + arrow + w2) + t4;
      (cs + w1 + arrow) + t3;
      (cs + w1) + t2;
    }
  }

  /** Conversely, a match is always a spelling of the pattern: the input is
      the source code, white space, an arrow, white space, the target code,
      white space and an optional colon, followed by the remainder, which
      starts with neither white space nor a colon unless the colon is there. */
  lemma MatchedPrefixShape(s: string) returns (w1: string, arrow: string, w2: string, w3: string, colon: string)
    requires MatchDirectionPrefix(s).Some?
    ensures var m := MatchDirectionPrefix(s).value;
      && IsBlank(w1) && IsBlank(w2) && IsBlank(w3) && IsArrow(arrow)
      && (colon == "" || colon == ":")
      && (colon == ":" || m.remainder == [] || (!IsWhitespace(m.remainder[0]) && m.remainder[0] != ':'))
      && s == m.source + w1 + arrow + w2 + m.target + w3 + colon + m.remainder
  {
    var m := MatchDirectionPrefix(s).value;
    var after := MatchAfterSource(s[2..]).value;
    assert m.target == after.0 && m.remainder == after.1;
    assert s == s[..2] + s[2..];
    w1, arrow, w2, w3, colon := AfterSourceShape(s[2..]);
    Reassociate(m.source, w1, arrow, w2, m.target, w3, colon, m.remainder);
  }

  /** What the part after the source code consumed: white space, an arrow,
      then the target part. */
  lemma AfterSourceShape(t: string) returns (w1: string, arrow: string, w2: string, w3: string, colon: string)
    requires MatchAfterSource(t).Some?
    ensures var m := MatchAfterSource(t).value;
      && IsBlank(w1) && IsBlank(w2) && IsBlank(w3) && IsArrow(arrow)
      && (colon == "" || colon == ":")
      && (colon == ":" || m.1 == [] || (!IsWhitespace(m.1[0]) && m.1[0] != ':'))
      && t == w1 + (arrow + (w2 + (m.0 + (w3 + (colon + m.1)))))
  {
    var afterSource := SkipBlank(t);
    w1 := t[..|t| - |afterSource|];
    SuffixSplit(afterSource, t);
    var afterArrow := SkipArrow(afterSource).value;
    arrow := afterSource[..|afterSource| - |afterArrow|];
    SuffixSplit(afterArrow, afterSource);
    assert MatchAfterSource(t) == MatchTarget(afterArrow);
    w2, w3, colon := TargetShape(afterArrow);
    assert t == w1 + (arrow + afterArrow);
  }

  /** What the target part consumed: white space, the target code, white
      space and an optional colon. */
  lemma TargetShape(t: string) returns (w2: string, w3: string, colon: string)
    requires MatchTarget(t).Some?
    ensures var m := MatchTarget(t).value;
      && IsBlank(w2) && IsBlank(w3)
      && (colon == "" || colon == ":")
      && (colon == ":" || m.1 == [] || (!IsWhitespace(m.1[0]) && m.1[0] != ':'))
      && t == w2 + (m.0 + (w3 + (colon + m.1)))
  {
    var v := SkipBlank(t);
    w2 := t[..|t| - |v|];
    SuffixSplit(v, t);
    assert v == v[..2] + v[2..];
    var u := SkipBlank(v[2..]);
    w3 := v[2..][..|v[2..]| - |u|];
    SuffixSplit(u, v[2..]);
    colon := ColonShape(u);
  }

  /** The optional colon that ends the prefix. */
  lemma ColonShape(u: string) returns (colon: string)
    ensures var rest := if u != [] && u[0] == ':' then u[1..] else u;
      && (colon == "" || colon == ":") && u == colon + rest
      && (colon == ":" || u == [] || u[0] != ':')
  {
    if u != [] && u[0] == ':' {
      colon := ":";
      assert u == colon + u[1..];
    } else {
      colon := "";
      assert u == colon + u;
    }
  }

  /** A text is what trimming keeps of its end, then a blank tail. */
  lemma TrailingBlank(rest: string) returns (kept: string, tail: string)
    ensures rest == kept + tail && IsBlank(tail)
    ensures Trim(kept) == Trim(rest)
    ensures kept == [] <==> IsBlank(rest)
    ensures kept != [] ==> !IsWhitespace(kept[|kept| - 1])
    ensures rest != [] && !IsWhitespace(rest[0]) ==> kept != [] && kept[0] == rest[0]
  {
    if Trim(rest) == [] {
      kept, tail := [], rest;
      assert rest == [] + rest;
    } else {
      kept, tail := KeptOfNonBlank(rest);
    }
  }

  lemma KeptOfNonBlank(rest: string) returns (kept: string, tail: string)
    requires Trim(rest) != []
    ensures rest == kept + tail && IsBlank(tail)
    ensures Trim(kept) == Trim(rest) && kept != [] && !IsWhitespace(kept[|kept| - 1])
    ensures !IsWhitespace(rest[0]) ==> kept[0] == rest[0]
  {
    var a, b := TrimDecompose(rest);
    kept, tail := rest[..b], rest[b..];
    PrefixParts(rest, a, b);
    TrimAround(rest[..a], rest[a..b], []);
  }

  lemma PrefixParts(s: string, a: nat, b: nat)
    requires a < b <= |s|
    ensures s == s[..b] + s[b..]
    ensures s[..b] == s[..a] + s[a..b] + []
    ensures s[..b][0] == s[0] && s[..b][b - 1] == s[a..b][b - a - 1]
  {
  }

  lemma Regroup(lead: string, prefix: string, rest: string, kept: string, tail: string)
    requires rest == kept + tail
    ensures lead + prefix + rest == lead + (prefix + kept) + tail
  {
  }

  /** With a direction prefix, the query is finished on what follows it. */
  lemma ParseWithPrefix(
    rawQuery: string, defaultSource: LanguageCode, defaultTarget: LanguageCode, detect: string -> Option<Lang>,
    prefix: string, rest: string, cs: string, ct: string)
    requires Trim(rawQuery) == prefix + rest && prefix != []
    requires MatchDirectionPrefix(prefix + rest) == Some(Captures(cs, ct, rest))
    ensures ParseInlineQuery(rawQuery, defaultSource, defaultTarget, detect)
      == FinishQuery(Trim(rest), ParseCode(cs).value, ParseCode(ct).value)
  {
  }

  /** An explicit direction decides the pair whatever the defaults and the
      detector say; the text is what follows the whole prefix (colon
      included), trimmed, truncated and normalised. */
  lemma ExplicitDirection(
    lead: string, cs: string, w1: string, arrow: string, w2: string, ct: string, w3: string, colon: string, rest: string,
    defaultSource: LanguageCode, defaultTarget: LanguageCode, detect: string -> Option<Lang>)
    requires IsBlank(lead)
    requires IsCodeSpelling(cs) && IsCodeSpelling(ct)
    requires IsBlank(w1) && IsBlank(w2) && IsBlank(w3)
    requires IsArrow(arrow)
    requires colon == "" || colon == ":"
    requires colon == ":" || rest == [] || (!IsWhitespace(rest[0]) && rest[0] != ':')
    ensures var prefix := cs + w1 + arrow + w2 + ct + w3 + colon;
      var r := ParseInlineQuery(lead + prefix + rest, defaultSource, defaultTarget, detect);
      var text := NormalizeSegments(TakeChars(Trim(rest), MaxTextLength));
      && (r.Some? <==> text != [])
      && (r.Some? ==> r == Some(ParsedInlineQuery(text, ParseCode(cs).value, ParseCode(ct).value)))
  {
    if colon == "" && IsBlank(rest) {
      var tail := w3 + rest;
      BlankConcat(w3, rest);
      assert lead + (cs + w1 + arrow + w2 + ct + w3 + colon) + rest == lead + (cs + w1 + arrow + w2 + ct) + tail;
      BarePrefix(lead, cs, w1, arrow, w2, ct, tail, defaultSource, defaultTarget, detect);
      NothingAfterPrefix(rest);
    } else {
      PrefixThenText(lead, cs, w1, arrow, w2, ct, w3, colon, rest, defaultSource, defaultTarget, detect);
    }
  }

  lemma NothingAfterPrefix(rest: string)
    requires IsBlank(rest)
    ensures NormalizeSegments(TakeChars(Trim(rest), MaxTextLength)) == []
  {
    assert TakeChars(Trim(rest), MaxTextLength) == [];
  }

  lemma PrefixThenText(
    lead: string, cs: string, w1: string, arrow: string, w2: string, ct: string, w3: string, colon: string, rest: string,
    defaultSource: LanguageCode, defaultTarget: LanguageCode, detect: string -> Option<Lang>)
    requires IsBlank(lead)
    requires IsCodeSpelling(cs) && IsCodeSpelling(ct)
    requires IsBlank(w1) && IsBlank(w2) && IsBlank(w3)
    requires IsArrow(arrow)
    requires colon == "" || colon == ":"
    requires colon == ":" || (!IsBlank(rest) && !IsWhitespace(rest[0]) && rest[0] != ':')
    ensures var prefix := cs + w1 + arrow + w2 + ct + w3 + colon;
      var r := ParseInlineQuery(lead + prefix + rest, defaultSource, defaultTarget, detect);
      var text := NormalizeSegments(TakeChars(Trim(rest), MaxTextLength));
      && (r.Some? <==> text != [])
      && (r.Some? ==> r == Some(ParsedInlineQuery(text, ParseCode(cs).value, ParseCode(ct).value)))
  {
    var prefix := cs + w1 + arrow + w2 + ct + w3 + colon;
    var kept, tail := TrailingBlank(rest);
    var core := prefix + kept;
    assert core[0] == cs[0];
    assert core[|core| - 1] == if kept != [] then kept[|kept| - 1] else ':';
    TrimAround(lead, core, tail);
    Regroup(lead, prefix, rest, kept, tail);
    DirectionPrefixMatched(cs, w1, arrow, w2, ct, w3, colon, kept);
    ParseWithPrefix(lead + prefix + rest, defaultSource, defaultTarget, detect, prefix, kept, cs, ct);
  }

  /** A prefix with nothing after it, such as `en>zh` typed on its own,
      matches the pattern but leaves no text, so it yields no query. */
  lemma BarePrefix(
    lead: string, cs: string, w1: string, arrow: string, w2: string, ct: string, tail: string,
    defaultSource: LanguageCode, defaultTarget: LanguageCode, detect: string -> Option<Lang>)
    requires IsBlank(lead) && IsBlank(tail)
    requires IsCodeSpelling(cs) && IsCodeSpelling(ct)
    requires IsBlank(w1) && IsBlank(w2) && IsArrow(arrow)
    ensures ParseInlineQuery(lead + (cs + w1 + arrow + w2 + ct) + tail, defaultSource, defaultTarget, detect) == None
  {
    var core := cs + w1 + arrow + w2 + ct;
    assert core[0] == cs[0] && core[|core| - 1] == ct[1];
    TrimAround(lead, core, tail);
    assert cs + w1 + arrow + w2 + ct + [] + "" + [] == core + [] == core;
    DirectionPrefixMatched(cs, w1, arrow, w2, ct, [], "", []);
    ParseWithPrefix(lead + core + tail, defaultSource, defaultTarget, detect, core, [], cs, ct);
    assert TakeChars(Trim([]), MaxTextLength) == [];
  }

  /** With an explicit direction and a single segment after it, the text is
      that segment, trimmed. */
  lemma ExplicitDirectionSingleSegment(
    lead: string, cs: string, w1: string, arrow: string, w2: string, ct: string, w3: string, colon: string, rest: string,
    defaultSource: LanguageCode, defaultTarget: LanguageCode, detect: string -> Option<Lang>)
    requires IsBlank(lead)
    requires IsCodeSpelling(cs) && IsCodeSpelling(ct)
    requires IsBlank(w1) && IsBlank(w2) && IsBlank(w3)
    requires IsArrow(arrow)
    requires colon == "" || colon == ":"
    requires colon == ":" || rest == [] || (!IsWhitespace(rest[0]) && rest[0] != ':')
    requires !IsBlank(rest) && SegmentDelimiter !in rest && |Trim(rest)| <= MaxTextLength
    ensures ParseInlineQuery(lead + (cs + w1 + arrow + w2 + ct + w3 + colon) + rest, defaultSource, defaultTarget, detect)
      == Some(ParsedInlineQuery(Trim(rest), ParseCode(cs).value, ParseCode(ct).value))
  {
    ExplicitDirection(lead, cs, w1, arrow, w2, ct, w3, colon, rest, defaultSource, defaultTarget, detect);
    TrimKeepsAbsent(rest, SegmentDelimiter);
    TrimIdempotent(rest);
    SingleSegment(Trim(rest));
  }

  /** The help text's own example: `zh>en: 开会推迟到几点?` asks for Chinese to
      English, and the text starts after the colon and its space. */
  lemma HelpExample(
    rawQuery: string, defaultSource: LanguageCode, defaultTarget: LanguageCode, detect: string -> Option<Lang>)
    requires rawQuery == "zh>en: \U{5F00}\U{4F1A}\U{63A8}\U{8FDF}\U{5230}\U{51E0}\U{70B9}?"
    ensures ParseInlineQuery(rawQuery, defaultSource, defaultTarget, detect)
      == Some(ParsedInlineQuery("\U{5F00}\U{4F1A}\U{63A8}\U{8FDF}\U{5230}\U{51E0}\U{70B9}?", Zh, En))
  {
    var cs, ct, space, text := "zh", "en", " ", "\U{5F00}\U{4F1A}\U{63A8}\U{8FDF}\U{5230}\U{51E0}\U{70B9}?";
    HelpExampleSpelling(cs, ct, space, text, rawQuery);
    HelpExampleCharacters(cs, ct, space, text);
    TrimAround(space, text, []);
    ExplicitDirectionSingleSegment([], cs, [], ">", [], ct, [], ":", space + text, defaultSource, defaultTarget, detect);
  }

  /** `zh>en: 开会推迟到几点?` cut into the pieces of the direction pattern. */
  lemma HelpExampleSpelling(cs: string, ct: string, space: string, text: string, s: string)
    requires cs == "zh" && ct == "en" && space == " "
    requires text == "\U{5F00}\U{4F1A}\U{63A8}\U{8FDF}\U{5230}\U{51E0}\U{70B9}?"
    requires s == "zh>en: \U{5F00}\U{4F1A}\U{63A8}\U{8FDF}\U{5230}\U{51E0}\U{70B9}?"
    ensures s == [] + (cs + [] + ">" + [] + ct + [] + ":") + (space + text)
  {
  }

  /** The characters of the help text's example that the interpreter looks at. */
  lemma HelpExampleCharacters(cs: string, ct: string, space: string, text: string)
    requires cs == "zh" && ct == "en" && space == " "
    requires text == "\U{5F00}\U{4F1A}\U{63A8}\U{8FDF}\U{5230}\U{51E0}\U{70B9}?"
    ensures ParseCode(cs) == Some(Zh) && ParseCode(ct) == Some(En)
    ensures IsBlank(space) && space + text + [] == space + text
    ensures text != [] && !IsWhitespace(text[0]) && !IsWhitespace(text[|text| - 1])
    ensures SegmentDelimiter !in space + text && |text| <= MaxTextLength
  {
  }

  /** The case the direction pattern does not guard against: it needs no
      word boundary, so `en>zhello` reads as the prefix `en>zh` and the
      text `ello`. */
  lemma PrefixWithoutBoundary(
    rawQuery: string, defaultSource: LanguageCode, defaultTarget: LanguageCode, detect: string -> Option<Lang>)
    requires rawQuery == "en>zhello"
    ensures ParseInlineQuery(rawQuery, defaultSource, defaultTarget, detect) == Some(ParsedInlineQuery("ello", En, Zh))
  {
    var cs, ct, text := "en", "zh", "ello";
    BoundarySpelling(cs, ct, text, rawQuery);
    BoundaryPrefixMatched(cs, ct, text, rawQuery);
    TrimFixed(rawQuery);
    TrimFixed(text);
    PlainTextAfterPrefix(rawQuery, defaultSource, defaultTarget, detect, cs + ">" + ct, text, cs, ct);
    assert ParseCode(cs) == Some(En) && ParseCode(ct) == Some(Zh);
  }

  /** `en>zhello` spelled as the direction pattern reads it. */
  lemma BoundarySpelling(cs: string, ct: string, text: string, s: string)
    requires cs == "en" && ct == "zh" && text == "ello" && s == "en>zhello"
    ensures s == cs + ">" + ct + text == cs + ([] + (">" + ([] + (ct + ([] + ([] + text))))))
    ensures IsCodeSpelling(cs) && IsCodeSpelling(ct)
    ensures SegmentDelimiter !in text && |text| <= MaxTextLength
    ensures !IsWhitespace(s[0]) && !IsWhitespace(s[|s| - 1]) && !IsWhitespace(text[0]) && text[0] != ':'
  {
  }

  /** The direction pattern's match on `en>zhello`. */
  lemma BoundaryPrefixMatched(cs: string, ct: string, text: string, s: string)
    requires IsCodeSpelling(cs) && IsCodeSpelling(ct)
    requires text != [] && !IsWhitespace(text[0]) && text[0] != ':'
    requires s == cs + ([] + (">" + ([] + (ct + ([] + ([] + text))))))
    ensures MatchDirectionPrefix(s) == Some(Captures(cs, ct, text))
  {
    TargetMatched([], ct, [], [], text);
    SourceMatched(cs, [], ">", [] + (ct + ([] + ([] + text))), ct, text);
  }

  /** A query whose text after the prefix is one short, trimmed segment keeps
      that text as it is. */
  lemma PlainTextAfterPrefix(
    rawQuery: string, defaultSource: LanguageCode, defaultTarget: LanguageCode, detect: string -> Option<Lang>,
    prefix: string, rest: string, cs: string, ct: string)
    requires Trim(rawQuery) == prefix + rest && rest != [] && Trim(rest) == rest
    requires SegmentDelimiter !in rest && |rest| <= MaxTextLength
    requires MatchDirectionPrefix(prefix + rest) == Some(Captures(cs, ct, rest))
    ensures ParseInlineQuery(rawQuery, defaultSource, defaultTarget, detect)
      == Some(ParsedInlineQuery(rest, ParseCode(cs).value, ParseCode(ct).value))
  {
    ParseWithPrefix(rawQuery, defaultSource, defaultTarget, detect, prefix, rest, cs, ct);
    FinishSingleSegment(rest, ParseCode(cs).value, ParseCode(ct).value);
  }

  lemma FinishSingleSegment(text: string, source: LanguageCode, target: LanguageCode)
    requires text != [] && Trim(text) == text && SegmentDelimiter !in text && |text| <= MaxTextLength
    ensures FinishQuery(Trim(text), source, target) == Some(ParsedInlineQuery(text, source, target))
  {
    SingleSegment(text);
    assert TakeChars(text, MaxTextLength) == text;
  }

  /** A trimmed text with no delimiter is already normalised. */
  lemma SingleSegment(s: string)
    requires s != [] && SegmentDelimiter !in s && Trim(s) == s
    ensures NormalizeSegments(s) == s && FormatSegmentsForDisplay(s) == s
  {
    SplitNoDelimiter(s, SegmentDelimiter);
    assert CleanSegments([s]) == [s] by {
      assert [s][1..] == [];
    }
  }

  /** Text with a character from one of the five CJK intervals, and no
      prefix, is read as Chinese to English whatever the defaults and the
      detector say. */
  lemma ChineseTextGoesToEnglish(
    rawQuery: string, defaultSource: LanguageCode, defaultTarget: LanguageCode, detect: string -> Option<Lang>)
    requires MatchDirectionPrefix(Trim(rawQuery)).None?
    requires HasCjk(Trim(rawQuery))
    ensures var r := ParseInlineQuery(rawQuery, defaultSource, defaultTarget, detect);
      r.Some? ==> r.value.sourceLang == Zh && r.value.targetLang == En
  {
  }

  /** Without a prefix or a CJK character, and with a detector answer that is
      neither English nor Mandarin, an ASCII letter means English to Chinese
      and anything else keeps the caller's defaults. */
  lemma UndetectedTextFallsBack(
    rawQuery: string, defaultSource: LanguageCode, defaultTarget: LanguageCode, detect: string -> Option<Lang>)
    requires MatchDirectionPrefix(Trim(rawQuery)).None?
    requires !HasCjk(Trim(rawQuery))
    requires detect(Trim(rawQuery)) != Some(Eng) && detect(Trim(rawQuery)) != Some(Cmn)
    ensures var r := ParseInlineQuery(rawQuery, defaultSource, defaultTarget, detect);
      var expected := if HasAsciiLetter(Trim(rawQuery)) then (En, Zh) else (defaultSource, defaultTarget);
      r.Some? ==> (r.value.sourceLang, r.value.targetLang) == expected
  {
  }

  /** Without a prefix, the query is the whole trimmed text, with the pair
      auto-detection chooses for it. */
  lemma UnprefixedQuery(
    rawQuery: string, defaultSource: LanguageCode, defaultTarget: LanguageCode, detect: string -> Option<Lang>)
    requires MatchDirectionPrefix(Trim(rawQuery)).None?
    ensures var dir := AutoDetectDirection(Trim(rawQuery), defaultSource, defaultTarget, detect);
      ParseInlineQuery(rawQuery, defaultSource, defaultTarget, detect) == FinishQuery(Trim(rawQuery), dir.0, dir.1)
  {
    if Trim(rawQuery) == [] {
      assert TakeChars([], MaxTextLength) == [];
    }
  }

  /** A query of nothing but `|` and white space yields no query. */
  lemma BlanksAndBarsGiveNothing(
    rawQuery: string, defaultSource: LanguageCode, defaultTarget: LanguageCode, detect: string -> Option<Lang>)
    requires OnlyBlanksAndBars(rawQuery)
    ensures ParseInlineQuery(rawQuery, defaultSource, defaultTarget, detect) == None
  {
    var trimmed := Trim(rawQuery);
    var a, b := TrimDecompose(rawQuery);
    SliceBlanksAndBars(rawQuery, a, b);
    if trimmed != [] {
      assert trimmed[0] in trimmed;
      assert !StartsWithCode(trimmed);
      var taken := TakeChars(trimmed, MaxTextLength);
      SliceBlanksAndBars(trimmed, 0, |taken|);
      assert taken == trimmed[0..|taken|];
    }
  }

  lemma SliceBlanksAndBars(s: string, i: nat, j: nat)
    requires OnlyBlanksAndBars(s) && i <= j <= |s|
    ensures OnlyBlanksAndBars(s[i..j])
  {
    var t := s[i..j];
    forall c | c in t ensures IsWhitespace(c) || c == SegmentDelimiter {
      var k :| 0 <= k < |t| && t[k] == c;
      assert t[k] == s[i + k] && s[i + k] in s;
    }
  }

  /** Without a prefix, a query yields nothing exactly when its first 2048
      trimmed characters are only `|` and white space. */
  lemma UnprefixedQueryEmpty(
    rawQuery: string, defaultSource: LanguageCode, defaultTarget: LanguageCode, detect: string -> Option<Lang>)
    requires MatchDirectionPrefix(Trim(rawQuery)).None?
    ensures ParseInlineQuery(rawQuery, defaultSource, defaultTarget, detect).None?
      <==> OnlyBlanksAndBars(TakeChars(Trim(rawQuery), MaxTextLength))
  {
  }

  /** Any accepted query's text is non-empty, at most 2048 characters long,
      and made of non-empty trimmed segments. */
  lemma QueryTextShape(
    rawQuery: string, defaultSource: LanguageCode, defaultTarget: LanguageCode, detect: string -> Option<Lang>)
    requires ParseInlineQuery(rawQuery, defaultSource, defaultTarget, detect).Some?
    ensures var text := ParseInlineQuery(rawQuery, defaultSource, defaultTarget, detect).value.text;
      && 0 < |text| <= MaxTextLength
      && forall p :: p in Split(text, SegmentDelimiter) ==> p != [] && Trim(p) == p
  {
    var text := ParseInlineQuery(rawQuery, defaultSource, defaultTarget, detect).value.text;
    NormalizeSegmentsShape(text);
  }

  // ---------------------------------------------------------------------
  // Article descriptions: `truncate`
  // ---------------------------------------------------------------------

  /** Every white-space character turned into a plain space. */
  function Flatten(s: string): (r: string)
    ensures |r| == |s|
    ensures forall i :: 0 <= i < |s| ==> r[i] == (if IsWhitespace(s[i]) then ' ' else s[i])
  {
    seq(|s|, i requires 0 <= i < |s| => if IsWhitespace(s[i]) then ' ' else s[i])
  }

  /** The only white space left is the plain space. */
  predicate IsSingleLine(s: string) {
    forall i :: 0 <= i < |s| && IsWhitespace(s[i]) ==> s[i] == ' '
  }

  /** `truncate`: one line, trimmed, and cut to `max` characters with an
      ellipsis as the last of them when it is longer. */
  function Truncate(s: string, max: nat): (r: string)
    requires max >= 1
    ensures |r| <= max
  {
    var line := Trim(Flatten(s));
    if |line| > max then line[..max - 1] + [Ellipsis] else line
  }

  lemma TruncateFacts(s: string, line: string)
    requires line == Trim(Flatten(s))
    ensures IsSingleLine(line)
    ensures line == [] <==> IsBlank(s)
  {
    var flat := Flatten(s);
    var a, b := TrimDecompose(flat);
    assert forall k :: 0 <= k < |line| ==> line[k] == flat[a + k];
    assert IsBlank(flat) <==> IsBlank(s) by {
      assert forall k :: 0 <= k < |s| ==> (IsWhitespace(flat[k]) <==> IsWhitespace(s[k]));
    }
  }

  /** What a description is: one trimmed line, empty exactly when the summary
      is blank; the whole flattened line when it fits, and otherwise its first
      `max - 1` characters followed by the ellipsis. */
  lemma TruncateShape(s: string, max: nat)
    requires max >= 1
    ensures var r := Truncate(s, max);
      IsSingleLine(r) && Trim(r) == r && (r == [] <==> IsBlank(s))
    ensures var line, r := Trim(Flatten(s)), Truncate(s, max);
      (|line| <= max ==> r == line)
      && (|line| > max ==> |r| == max && r[max - 1] == Ellipsis && r[..max - 1] <= line)
  {
    var line := Trim(Flatten(s));
    var r := Truncate(s, max);
    TruncateFacts(s, line);
    if |line| > max {
      assert r[..max - 1] == line[..max - 1];
      assert !IsWhitespace(Ellipsis);
      if max > 1 {
        assert r[0] == line[0];
      }
      TrimFixed(r);
    } else {
      TrimIdempotent(Flatten(s));
    }
  }

  /** A single line has nothing left to flatten. */
  lemma FlattenSingleLine(s: string)
    requires IsSingleLine(s)
    ensures Flatten(s) == s
  {
  }

  /** A description is a fixed point: truncating it again changes nothing. */
  lemma TruncateIdempotent(s: string, max: nat)
    requires max >= 1
    ensures Truncate(Truncate(s, max), max) == Truncate(s, max)
  {
    var r := Truncate(s, max);
    TruncateShape(s, max);
    FlattenSingleLine(r);
  }

  // ---------------------------------------------------------------------
  // `build_translation_articles`
  // ---------------------------------------------------------------------

  /** An inline article: its title, the message it sends, and its one-line description. */
  datatype Article = Article(title: string, content: string, description: string)

  /** The upper-case label of a code, as the header shows it. */
  function Label(c: LanguageCode): (tag: string)
    ensures tag == ToUpper(Show(c))
  {
    match c
    case En => "EN"
    case Zh => "ZH"
  }

  /** `🌐 EN → ZH`: the upper-cased codes around an arrow. */
  function Header(parsed: ParsedInlineQuery): (h: string)
    ensures |h| == 9 && h[2..4] == Label(parsed.sourceLang) && h[7..] == Label(parsed.targetLang)
  {
    "\U{1F310} " + Label(parsed.sourceLang) + " \U{2192} " + Label(parsed.targetLang)
  }

  /** The header tells the direction apart: two queries share a header
      exactly when they share the language pair. */
  lemma HeaderNamesDirection(p: ParsedInlineQuery, q: ParsedInlineQuery)
    ensures Header(p) == Header(q) <==> p.sourceLang == q.sourceLang && p.targetLang == q.targetLang
  {
    if Header(p) == Header(q) {
      assert Label(p.sourceLang) == Header(p)[2..4] == Label(q.sourceLang);
      assert Label(p.targetLang) == Header(p)[7..] == Label(q.targetLang);
      assert Label(En) != Label(Zh) by {
        assert Label(En)[0] == 'E' && Label(Zh)[0] == 'Z';
      }
    }
  }

  /** One article: the header with its kind as title, the header above the
      body as message, and a short description. */
  function MakeArticle(header: string, kind: string, body: string, summary: string): (a: Article)
    ensures |a.description| <= DescriptionLength
    ensures a.title == Title(header, kind)
    ensures a.content == header + "\n" + body
  {
    Article(Title(header, kind), header + "\n" + body, Truncate(summary, DescriptionLength))
  }

  /** The header, a middle dot, then the kind of article. */
  function Title(header: string, kind: string): string {
    header + " \U{00B7} " + kind
  }

  /** Every description fits the inline result list. */
  predicate ShortDescriptions(articles: seq<Article>) {
    forall i :: 0 <= i < |articles| ==> |articles[i].description| <= DescriptionLength
  }

  /** Each value in display form. */
  function Displayed(values: seq<string>): seq<string> {
    seq(|values|, i requires 0 <= i < |values| => FormatSegmentsForDisplay(values[i]))
  }

  /** At most the first three alternatives, each shown line by line. */
  function AlternativeSamples(alternates: seq<string>): (samples: seq<string>)
    ensures |samples| == if |alternates| < 3 then |alternates| else 3
    ensures forall i :: 0 <= i < |samples| ==> samples[i] == FormatSegmentsForDisplay(alternates[i])
  {
    Displayed(if |alternates| < 3 then alternates else alternates[..3])
  }

  /** Each line behind a bullet, one per line. */
  function Bullets(lines: seq<string>): string {
    Join(seq(|lines|, i requires 0 <= i < |lines| => "\U{2022} " + lines[i]), "\n")
  }

  /** The article for the primary text. */
  function PrimaryArticle(header: string, primaryText: string): Article {
    var primary := FormatSegmentsForDisplay(primaryText);
    MakeArticle(header, "Primary", primary, primary)
  }

  /** The article for the romanisation, when there is one. */
  function RomanizedArticles(header: string, romanizedText: Option<string>): seq<Article> {
    match romanizedText
    case None => []
    case Some(text) =>
      var romanized := FormatSegmentsForDisplay(text);
      [MakeArticle(header, "Romanized", romanized, romanized)]
  }

  /** The article for the alternatives, when there are any: up to three of
      them as bullets, described by the first. */
  function AlternativeArticles(header: string, alternates: seq<string>): seq<Article> {
    if alternates == [] then []
    else
      var samples := AlternativeSamples(alternates);
      [MakeArticle(header, "Alternatives", Bullets(samples), samples[0])]
  }

  /** The articles offered for one translation, in order. */
  function TranslationArticles(parsed: ParsedInlineQuery, translation: TranslationResult): (results: seq<Article>)
    ensures |results|
      == 1 + (if translation.romanizedText.Some? then 1 else 0) + (if translation.alternateTexts != [] then 1 else 0)
    ensures results[0] == PrimaryArticle(Header(parsed), translation.primaryText)
  {
    var header := Header(parsed);
    OptionalArticles(header, translation.romanizedText, translation.alternateTexts);
    [PrimaryArticle(header, translation.primaryText)]
    + RomanizedArticles(header, translation.romanizedText)
    + AlternativeArticles(header, translation.alternateTexts)
  }

  lemma ShortConcat(xs: seq<Article>, ys: seq<Article>)
    requires ShortDescriptions(xs) && ShortDescriptions(ys)
    ensures ShortDescriptions(xs + ys)
  {
  }

  /** The optional articles: one exactly when there is something to show,
      titled by its kind, with a short description. */
  lemma OptionalArticles(header: string, romanizedText: Option<string>, alternates: seq<string>)
    ensures var romanized := RomanizedArticles(header, romanizedText);
      && |romanized| == (if romanizedText.Some? then 1 else 0)
      && (romanizedText.Some? ==> romanized[0].title == Title(header, "Romanized"))
      && ShortDescriptions(romanized)
    ensures var alternatives := AlternativeArticles(header, alternates);
      && |alternatives| == (if alternates != [] then 1 else 0)
      && (alternates != [] ==> alternatives[|alternatives| - 1].title == Title(header, "Alternatives"))
      && ShortDescriptions(alternatives)
  {
    RomanizedArticleShape(header, romanizedText);
    AlternativeArticleShape(header, alternates);
  }

  lemma RomanizedArticleShape(header: string, romanizedText: Option<string>)
    ensures var romanized := RomanizedArticles(header, romanizedText);
      && |romanized| == (if romanizedText.Some? then 1 else 0)
      && (romanizedText.Some? ==> romanized[0].title == Title(header, "Romanized"))
      && ShortDescriptions(romanized)
  {
  }

  lemma AlternativeArticleShape(header: string, alternates: seq<string>)
    ensures var alternatives := AlternativeArticles(header, alternates);
      && |alternatives| == (if alternates != [] then 1 else 0)
      && (alternates != [] ==> alternatives[|alternatives| - 1].title == Title(header, "Alternatives"))
      && ShortDescriptions(alternatives)
  {
  }

  /** Only the first three alternates are shown: lists that agree on them
      give the same alternatives article. */
  lemma AlternativesShowFirstThree(header: string, xs: seq<string>, ys: seq<string>)
    requires |xs| >= 3 && |ys| >= 3 && xs[..3] == ys[..3]
    ensures AlternativeArticles(header, xs) == AlternativeArticles(header, ys)
  {
  }

  /** The alternatives article is described by the first alternate alone. */
  lemma AlternativesDescribedByFirst(header: string, alternates: seq<string>)
    requires alternates != []
    ensures AlternativeArticles(header, alternates)[0].description
      == Truncate(FormatSegmentsForDisplay(alternates[0]), DescriptionLength)
  {
  }

  /** The primary article comes first, the romanisation second when there is
      one, and the alternatives last when there are any. */
  lemma ArticlesInOrder(parsed: ParsedInlineQuery, translation: TranslationResult)
    ensures var results := TranslationArticles(parsed, translation);
      var header := Header(parsed);
      && results != []
      && results[0].title == Title(header, "Primary")
      && (translation.romanizedText.Some? ==> |results| > 1 && results[1].title == Title(header, "Romanized"))
      && (translation.alternateTexts != [] ==> results[|results| - 1].title == Title(header, "Alternatives"))
  {
    var header := Header(parsed);
    var primary := PrimaryArticle(header, translation.primaryText);
    var romanized := RomanizedArticles(header, translation.romanizedText);
    var alternatives := AlternativeArticles(header, translation.alternateTexts);
    OptionalArticles(header, translation.romanizedText, translation.alternateTexts);
    Positions(primary, romanized, alternatives);
  }

  lemma Positions(first: Article, middle: seq<Article>, last: seq<Article>)
    ensures var all := [first] + middle + last;
      && all[0] == first
      && (middle != [] ==> all[1] == middle[0])
      && (last != [] ==> all[|all| - 1] == last[|last| - 1])
  {
  }

  /** Every description fits on one line of at most 80 characters. */
  lemma ArticleDescriptionsShort(parsed: ParsedInlineQuery, translation: TranslationResult)
    ensures ShortDescriptions(TranslationArticles(parsed, translation))
  {
    var header := Header(parsed);
    var primary := PrimaryArticle(header, translation.primaryText);
    var romanized := RomanizedArticles(header, translation.romanizedText);
    var alternatives := AlternativeArticles(header, translation.alternateTexts);
    OptionalArticles(header, translation.romanizedText, translation.alternateTexts);
    ShortConcat([primary], romanized);
    ShortConcat([primary] + romanized, alternatives);
  }

  /** Push the romanised article when there is a romanisation. */
  method PushRomanized(results: seq<Article>, header: string, romanizedText: Option<string>) returns (extended: seq<Article>)
    ensures extended == results + RomanizedArticles(header, romanizedText)
  {
    extended := results;
    if romanizedText.Some? {
      var romanizedDisplay := FormatSegmentsForDisplay(romanizedText.value);
      extended := extended + [MakeArticle(header, "Romanized", romanizedDisplay, romanizedDisplay)];
    }
  }

  /** Push the alternatives article when there are any alternates. */
  method PushAlternatives(results: seq<Article>, header: string, alternates: seq<string>) returns (extended: seq<Article>)
    ensures extended == results + AlternativeArticles(header, alternates)
  {
    extended := results;
    if alternates != [] {
      var samples := AlternativeSamples(alternates);
      extended := extended + [MakeArticle(header, "Alternatives", Bullets(samples), samples[0])];
    }
  }

  /** `build_translation_articles`: the articles are pushed one by one. */
  method BuildTranslationArticles(parsed: ParsedInlineQuery, translation: TranslationResult) returns (results: seq<Article>)
    ensures results == TranslationArticles(parsed, translation)
  {
    var header := Header(parsed);
    var primaryDisplay := FormatSegmentsForDisplay(translation.primaryText);
    results := [MakeArticle(header, "Primary", primaryDisplay, primaryDisplay)];
    results := PushRomanized(results, header, translation.romanizedText);
    results := PushAlternatives(results, header, translation.alternateTexts);
  }
}
