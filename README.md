# TransLT inline translation relay — a Dafny model of its core

TransLT is a Telegram inline bot that relays English/Chinese translations
through a chat-completion provider. This project models the deterministic
core of the relay and proves properties of it:

- **the inline query interpreter** (`src/inline.rs`), which
  - trims the query and reads an optional direction prefix such as
    `en>zh:` or `ZH -> en`;
  - when there is no prefix, detects the direction from CJK characters, a
    language detector and ASCII letters, in that order;
  - keeps the first 2048 characters and normalises the `|`-separated
    segments;
- **the inline result list**: what is shown for a translation (primary,
  romanised and alternatives entries), in display form, with descriptions
  truncated to 80 characters;
- **the language codes** (`src/types.rs`): `en`/`zh` with lower-case display
  and case-insensitive parsing, and the record shapes that travel between the
  parts of the relay;
- **the translation client's pure part** (`src/translator.rs`):
  - the user prompt `src=…;tgt=…;text=…`;
  - the lenient decoding of the provider's answer (the span from the first
    `{` to the last `}`, the structured decode, and the fallback to the
    trimmed raw content);
  - the assembly of the `TranslationResult`.

Modules:

- `wrappers.dfy`: `Option`.
- `strings.dfy`: the Rust `str`/`char` behaviour the code relies on:
  - Unicode white space;
  - `trim`, `split` and `join`;
  - single-character replacement;
  - ASCII case mapping.
- `types.dfy`: `src/types.rs`.
- `inline.dfy`: `src/inline.rs`.
- `translator.dfy`: `src/translator.rs`.

Strings are sequences of Unicode scalar values, as a Rust `char` is one
scalar value. The source uses byte offsets in two places: the positions of
`{` and `}` found by `find` and `rfind`, and the end of the direction-prefix
match. The end of that match can fall after multi-byte white space such as
U+3000. Every one of these offsets lies on a character boundary, because
`find` and `rfind` return the start of a character and a regular-expression
match ends on one. A byte slice between character boundaries holds the same
characters as the character-indexed slice, so counting characters instead of
bytes changes no result.

Letter case is modelled as ASCII mapping. For the two codes this is exact.
`to_lowercase`, `to_uppercase` and the `(?i)` flag map non-ASCII characters
too, but no non-ASCII character folds to or from `e`, `n`, `z` or `h`, so
no other spelling is accepted and the header labels are the same.

Two foreign components are parameters of the model rather than code in it:

- the statistical language detector (`whatlang::detect`) is
  `detect: string -> Option<Lang>`;
- the serde JSON decoder of the provider payload is
  `decode: string -> Option<ProviderTranslationPayload>`.

The provider latency, which the source reads from the clock, is a `nat`
parameter.

`build_translation_articles` grows a vector by conditional pushes. It is
modelled as a method that grows a sequence, proved equal to a specification
function over which the ordering and counting lemmas are stated.

## Model

| member | source | states |
|---|---|---|
| Strings.IsWhitespace | src/inline.rs:17-22 | Unicode white space, as `trim` and `\s` read it, includes space, tab, line feed and carriage return. It includes no ASCII letter, no colon, no `>`, no `-` and no bar. |
| Strings.Trim | src/inline.rs:17-20 | The trim is no longer than its input. It is empty exactly when the input is all white space. A non-empty trim neither starts nor ends with white space. |
| Strings.TrimAround | src/inline.rs:28 | Trimming is determined by that contract: a white-space-free-ended core between blank ends is exactly what trim returns. |
| Strings.TrimIdempotent | src/inline.rs:89 | Trimming twice is trimming once. |
| Strings.Split | src/inline.rs:88 | Splitting yields at least one piece and no piece contains the delimiter. |
| Strings.Join | src/inline.rs:92 | The join of a non-empty list is as long as its pieces together plus one separator between each pair, and it starts with the first piece. |
| Strings.JoinSplit | src/inline.rs:88-92 | Rejoining the pieces of a split with the same delimiter gives back the original text. |
| Strings.SplitJoin | src/inline.rs:88-92 | Splitting a join of delimiter-free pieces gives back those pieces. |
| Types.ParseCode | src/types.rs:22-29 | `from_str` accepts exactly the case variants of `en` (giving En) and of `zh` (giving Zh), and rejects every other string. |
| Types.Show | src/types.rs:10-17 | The display of a code is a lower-case spelling of `en` or `zh`. |
| Types.LowerMatches | src/types.rs:23 | Lower-casing a string yields a given lower-case word exactly when the string is a case variant of it. |
| Types.ParseShow | src/types.rs:10-29 | Parsing the display of any code gives that code back. |
| Types.ShowParse | src/types.rs:10-29 | When parsing succeeds, displaying the result gives the lower-cased input. |
| Types.ParseShowUpper | src/types.rs:22-29 | The upper-case display of a code, as the result header shows it, parses back to the same code. |
| Inline.ClassMatches | src/inline.rs:64 | An unanchored one-character-class search succeeds exactly when some character of the text is in the class. |
| Inline.AutoDetectDirection | src/inline.rs:54-85 | The first applicable rule decides. A CJK character gives Zh to En whatever the detector says. Otherwise, detector English gives En to Zh and detector Mandarin gives Zh to En. Otherwise, an ASCII letter gives En to Zh, else the caller's defaults. |
| Inline.AutoDetectOutcomes | src/inline.rs:54-85 | Detection yields only Zh to En, En to Zh or the caller's defaults. |
| Inline.SkipBlank | src/inline.rs:22 | `\s*` consumes a blank prefix and stops at a non-white-space character or the end. |
| Inline.SkipArrow | src/inline.rs:22 | A successful arrow match consumes exactly a non-empty prefix that is `>` or `->`; what is left is the rest of the text. |
| Inline.MatchTarget | src/inline.rs:22 | A successful match of the target part captures a code spelling and leaves a strict suffix. |
| Inline.MatchAfterSource | src/inline.rs:22 | A successful match after the source code captures a code spelling and leaves a suffix at least three characters shorter. |
| Inline.MatchDirectionPrefix | src/inline.rs:22-28 | A match captures the first two characters as the source and a code spelling as the target. Both captures are code spellings, so the `.parse().unwrap()` calls cannot fail. The remainder is a suffix at least five characters shorter than the input. |
| Inline.DirectionPrefixMatched | src/inline.rs:22 | Every spelling of the pattern matches, with its captures. That means either code in any letter case, `>` or `->`, any white space around them, and an optional colon. This includes a bare prefix with nothing after it. Without a colon, the text after the prefix must not start with white space or a colon, because the greedy `\s*` and `:?` would take those. The text after the whole prefix is the remainder. |
| Inline.TargetMatched | src/inline.rs:22 | The target part of the pattern matches its code, and the remainder is what follows the optional colon, including the empty remainder. |
| Inline.ArrowMatched | src/inline.rs:22 | White space and an arrow after the source code are consumed entirely before the target is read. |
| Inline.SourceMatched | src/inline.rs:22-27 | A source code followed by a matching arrow-and-target part is captured with that target and remainder. |
| Inline.MatchedPrefixShape | src/inline.rs:22-28 | Conversely, every successful match is such a spelling. The text is the source code, blank, an arrow, blank, the target code, blank, an optional colon and the remainder. Without a colon, the remainder does not start with white space or a colon. |
| Inline.AfterSourceShape | src/inline.rs:22 | A successful match after the source code is blank, an arrow, blank, the target code, blank, an optional colon and the remainder. |
| Inline.TargetShape | src/inline.rs:22 | A successful target match is blank, the target code, blank, an optional colon and the remainder. |
| Inline.CleanSegments | src/inline.rs:89-91 | Cleaning keeps no more pieces than it is given, and each kept segment is non-empty and its own trim. |
| Inline.CleanSegmentsFixed | src/inline.rs:89-91 | Segments already non-empty and trimmed are kept as they are. |
| Inline.CleanSegmentsEmpty | src/inline.rs:89-91 | Cleaning leaves nothing exactly when every piece is blank. |
| Inline.CleanSegmentsShrink | src/inline.rs:87-93 | The joined clean segments are no longer than the joined pieces. |
| Inline.NormalizeSegments | src/inline.rs:87-93 | Normalisation only deletes characters: the result is no longer than the input. It is empty exactly when the input holds nothing but bars and white space. |
| Inline.NormalizedPieces | src/inline.rs:87-93 | When something remains, splitting the normalised text gives back exactly the cleaned segments. |
| Inline.NormalizeSegmentsShape | src/inline.rs:87-93 | A non-empty normalised text has no empty bar-separated segment, and every segment equals its own trim. |
| Inline.NormalizeSegmentsIdempotent | src/inline.rs:87-93 | Normalising twice equals normalising once. |
| Inline.JoinBlanksAndBars | src/inline.rs:88-92 | A bar-join of bar-free pieces holds only bars and white space exactly when every piece is blank. |
| Inline.FormatSegmentsForDisplay | src/inline.rs:95-102 | The display form is the normalised form with every bar turned into a line break. |
| Inline.DisplayOfNormalized | src/inline.rs:87-102 | Displaying the normalised text is the same as displaying the raw text. |
| Inline.ReplaceJoin | src/inline.rs:95-102 | Replacing the delimiter in a join of delimiter-free pieces is joining them with the replacement. |
| Inline.TakeChars | src/inline.rs:37-40 | Taking `n` characters gives a prefix of the text. It is the whole text when the text has at most `n` characters, and exactly the first `n` characters otherwise. |
| Inline.FinishQuery | src/inline.rs:36-51 | A query is produced exactly when the normalised first 2048 characters are non-empty. It carries the given pair, and its text is exactly that normalised portion. That text is non-empty, at most 2048 characters, no longer than the portion, and already normalised. |
| Inline.ParseInlineQuery | src/inline.rs:12-52 | A blank query yields nothing. Any returned query has non-empty, normalised text of at most 2048 characters. |
| Inline.ParseWithPrefix | src/inline.rs:24-29 | When the trimmed query starts with a matched prefix, the query is finished on the remainder with the captured codes. The defaults and the detector play no part. |
| Inline.ExplicitDirection | src/inline.rs:22-29 | An explicit direction decides the pair, in any letter case, whatever the defaults and the detector say. This includes a bare prefix such as `en>zh` with nothing after it. A query is returned exactly when the trimmed remainder after the whole prefix, colon included, normalises to something non-empty, and its text is that normalised remainder. |
| Inline.BarePrefix | src/inline.rs:22-51 | A query that is only a direction prefix without a colon, possibly surrounded by white space, yields no query. |
| Inline.NothingAfterPrefix | src/inline.rs:36-51 | A blank remainder normalises to nothing. |
| Inline.ExplicitDirectionSingleSegment | src/inline.rs:22-51 | With a prefix and a short, bar-free remainder, the query text is exactly the trimmed remainder, so the prefix never appears in it. |
| Inline.TrailingBlank | src/inline.rs:17 | A text splits into what trimming keeps of its end and a blank tail. |
| Inline.HelpExample | src/inline.rs:177 | The help text's example `zh>en: 开会推迟到几点?` reads as Chinese to English with the question as its text. |
| Inline.PrefixWithoutBoundary | src/inline.rs:22-29 | With no word boundary after the target, `en>zhello` is read as prefix `en>zh` and text `ello`. |
| Inline.BoundaryPrefixMatched | src/inline.rs:22 | A prefix followed directly by text (no white space, no colon) matches, and the text is the remainder. |
| Inline.PlainTextAfterPrefix | src/inline.rs:24-51 | A trimmed, bar-free remainder of at most 2048 characters is the query text unchanged. |
| Inline.SingleSegment | src/inline.rs:87-102 | A non-empty trimmed text without a bar is unchanged by normalisation and by display formatting. |
| Inline.ChineseTextGoesToEnglish | src/inline.rs:30-34 | With no prefix, a trimmed query with a character in one of the five CJK intervals yields Zh to En, whatever the defaults and the detector say. |
| Inline.UnprefixedQuery | src/inline.rs:17-51 | When the trimmed query has no direction prefix, the result is the query finished on the trimmed text with the detected direction. |
| Inline.UndetectedTextFallsBack | src/inline.rs:69-84 | With no prefix, no CJK character, and a detector answer that is neither English nor Mandarin, an ASCII letter yields En to Zh. Otherwise the caller's defaults are returned unchanged. |
| Inline.BlanksAndBarsGiveNothing | src/inline.rs:17-20 | A query of nothing but bars and white space yields no query. |
| Inline.UnprefixedQueryEmpty | src/inline.rs:30-51 | Without a prefix, the query is rejected exactly when its first 2048 trimmed characters are only bars and white space. |
| Inline.QueryTextShape | src/inline.rs:36-51 | Any accepted query's text is non-empty and at most 2048 characters. Each of its bar-separated segments is non-empty and its own trim. |
| Inline.Flatten | src/inline.rs:207 | Each white-space character becomes a space and every other character is kept, so the length is unchanged. |
| Inline.Truncate | src/inline.rs:206-214 | A description never exceeds the limit. |
| Inline.TruncateFacts | src/inline.rs:207-208 | The flattened, trimmed line has no line break, and it is empty exactly when the input is blank. |
| Inline.TruncateShape | src/inline.rs:206-214 | The description is one trimmed line, empty exactly when the input is blank. A line that fits is returned whole. A longer line becomes exactly `max` characters: its first `max - 1` characters, then `…`. |
| Inline.TruncateIdempotent | src/inline.rs:206-214 | Truncating a description again leaves it unchanged. |
| Inline.Label | src/inline.rs:110-111 | The header shows each code as the upper-case form of its display. |
| Inline.Header | src/inline.rs:108-112 | The header is nine characters, with the source label at positions 2-3 and the target label at positions 7-8. |
| Inline.HeaderNamesDirection | src/inline.rs:108-112 | Two headers are equal exactly when their queries have the same source and the same target. |
| Inline.MakeArticle | src/inline.rs:119-125 | An article's title is the header with its kind, its content is the header above the body, and its description fits 80 characters. |
| Inline.AlternativeSamples | src/inline.rs:144-149 | At most three alternates are sampled, the first ones, each in display form. |
| Inline.OptionalArticles | src/inline.rs:128-164 | There is one romanised entry exactly when a romanisation is present, and one alternatives entry exactly when there are alternates. Each is titled by its kind and has a short description. |
| Inline.TranslationArticles | src/inline.rs:104-166 | The list holds one entry, plus one for a romanisation, plus one for alternates. Its first entry is the primary entry built from the header and the primary text. |
| Inline.ArticlesInOrder | src/inline.rs:104-166 | The primary entry is first. The romanised entry is second when present. The alternatives entry is last when present. |
| Inline.AlternativesShowFirstThree | src/inline.rs:144-149 | Alternate lists that agree on their first three give the same alternatives entry. |
| Inline.AlternativesDescribedByFirst | src/inline.rs:162 | The alternatives entry is described by the first alternate alone, in display form and truncated to 80. |
| Inline.ArticleDescriptionsShort | src/inline.rs:125-162 | Every description in the list is at most 80 characters. |
| Inline.PushRomanized | src/inline.rs:128-140 | Pushing appends the romanised entry exactly when there is a romanisation. |
| Inline.PushAlternatives | src/inline.rs:142-164 | Pushing appends the alternatives entry exactly when there are alternates. |
| Inline.BuildTranslationArticles | src/inline.rs:104-166 | The pushes build exactly the specified list, so the count, order and description lemmas hold of the method's result. |
| Translator.UserPrompt | src/translator.rs:37-40 | The prompt is `src=` and the two codes in nineteen fixed characters, followed by the whole request text. |
| Translator.ReadUserPrompt | src/translator.rs:37-40 | A prompt that reads back carries its text after the nineteenth character. |
| Translator.ReadUserPromptInverts | src/translator.rs:37-40 | Reading a prompt back gives exactly the request it was built from. |
| Translator.UserPromptInjective | src/translator.rs:37-40 | Different requests never produce the same prompt. |
| Translator.FindFirst | src/translator.rs:83 | `find` fails exactly when the character is absent. Otherwise it returns the index of an occurrence with none before it. |
| Translator.FindLast | src/translator.rs:84 | `rfind` fails exactly when the character is absent. Otherwise it returns the index of an occurrence with none after it. |
| Translator.JsonCandidate | src/translator.rs:83-91 | The candidate, when the slice does not panic, is no longer than the content. |
| Translator.NoOpenBraceWholeContent | src/translator.rs:89-91 | Content without `{` is handed to the decoder whole. |
| Translator.NoCloseBraceWholeContent | src/translator.rs:84-88 | Content with a `{` but no `}` is handed to the decoder whole. |
| Translator.BracedCandidate | src/translator.rs:83-86 | With a `}` at or after a `{`, the candidate starts with `{` and ends with `}`. It is a span of the content with no `{` before it and no `}` after it. |
| Translator.ReversedBracesPanic | src/translator.rs:85 | On `}x{` the inclusive slice runs backwards, and the code as written panics. |
| Translator.ReversedBracesExactly | src/translator.rs:83-86 | The slice panics exactly when the last `}` lies more than one place before the first `{`. |
| Translator.AdjacentBracesEmptySlice | src/translator.rs:83-86 | When the last `}` lies directly before the first `{`, the inclusive range is empty rather than reversed, and the decoder is handed the empty text. |
| Translator.GuardedJsonCandidate | src/translator.rs:83-91 | The corrected candidate is never longer than the content. It is either the whole content or a span that starts with `{` and ends with `}`. |
| Translator.GuardedCandidateAgrees | src/translator.rs:83-91 | Wherever the code as written does not panic, the corrected candidate is the same slice. The only exception is an empty slice, which becomes the whole content. |
| Translator.Fallback | src/translator.rs:95-103 | The fallback payload is the trimmed content with no alternatives and no romanisation. It is empty exactly when the content is blank. |
| Translator.DecodeOrFallback | src/translator.rs:93-104 | A decoded candidate is taken as it is. A rejected one gives the trimmed content with no alternatives and no romanisation. |
| Translator.ParseJsonContent | src/translator.rs:81-105 | As written, parsing has no error case: it fails only through the slice panic, exactly when the candidate panics. |
| Translator.ParseJsonContentGuarded | src/translator.rs:81-105 | A decoded candidate is taken as it is. A rejected one gives the trimmed content, not the candidate, with no alternatives and no romanisation. Wherever the code as written yields a non-empty candidate, the corrected parse gives the same payload. |
| Translator.KeepNonBlank | src/translator.rs:76 | A romanisation is kept, unchanged, exactly when it is present and not blank. |
| Translator.AssembleResult | src/translator.rs:73-78 | The result's primary text is the decoded translation, it never carries alternates, and its romanisation is the decoded one exactly when that is not blank. |
| Translator.TranslateContent | src/translator.rs:71-104 | Every translated result has no alternates, carries the given latency, and any romanisation it carries is not blank. Content the decoder rejects comes back as its own trimmed text, with no alternates and no romanisation. |
| Translator.TranslatedArticles | src/translator.rs:73-78 | A translated result is shown as one entry, or two when it carries a romanisation; never with an alternatives entry. |

## Left out

- The Telegram dispatcher and handlers (`src/main.rs`), and configuration loading (`src/config.rs`), are I/O glue. They are not part of this model.
- The HTTP exchange in `translate` is network I/O. It covers the client, the timeout, bearer authentication, the status check and the envelope indexing into `choices[0].message.content`. The model starts from the message content.
- The endpoint resolution with `Url::parse`/`Url::join` and the constructor `Translator::new` rely on URL-library behaviour, so they are not modelled.
- The fixed system prompt is a constant the model has no use for.
- The serde decoder, including its `t`/`a`/`r` aliases, is foreign library behaviour. It is the `decode` parameter.
- `whatlang::detect` is a statistical foreign call. It is the `detect` parameter, with answers English, Mandarin, another language, or none.
- The regular-expression engine is not modelled. The three patterns are written out: a hand-written prefix matcher, and predicates for the two character classes with a left-to-right search.
- Uuid generation and the teloxide article types are random or presentation. An article is modelled as a title, a content and a description.
- The help and error articles (`build_help_article`, `build_error_article`) are fixed presentation text. Only the help text's example query is used, in `Inline.HelpExample`.
- The `warn!` log line on a failed decode (`src/translator.rs:97`) is logging I/O. Translator.DecodeOrFallback therefore returns only the payload, and the model cannot tell a decoded payload from the fallback.
- The provider latency comes from the wall clock. It is a parameter of `Translator.AssembleResult`.
- Inline.Truncate: requires `max >= 1`. In the source, `max - 1` underflows a `usize` when `max` is 0, but the only callers pass 80.
- Inline.BuildTranslationArticles: the vector that the source grows in place is a sequence value returned by the method; nothing else shares it.
- Translator.TranslateContent: it uses the corrected candidate (see Findings). On content where the code as written panics, it therefore describes the intended behaviour, not the panic. The as-written behaviour is `Translator.ParseJsonContent`.

## Findings

| source | as written | input that shows it | evidently intended | confidence | as-written member | corrected member |
|---|---|---|---|---|---|---|
| src/translator.rs:83-86 | The inclusive slice from the first `{` to the last `}` is taken without checking that the `}` comes after the `{`. When the last `}` is more than one place before the first `{`, the range runs backwards and the slice panics. An answer wrapped in prose such as `}x{` therefore aborts the request instead of reaching the raw-content fallback, which promises that `parse_json_content` never fails. | `}x{` | When no `}` follows the first `{`, hand the whole content to the decoder, as is already done when there is no `}` at all. The fallback then applies. | not executed | Translator.ReversedBracesPanic | Translator.GuardedJsonCandidate |
