/** The parts of Rust's `str` and `char` behaviour that the relay's text
    handling relies on, over strings as sequences of Unicode scalar values
    (a Dafny `char` is one scalar value, as a Rust `char` is). */
module Strings {

  /** Unicode White_Space: what `char::is_whitespace`, `str::trim` and the
      regular-expression class `\s` accept. */
  predicate IsWhitespace(c: char)
    ensures c == ' ' || c == '\t' || c == '\n' || c == '\r' ==> IsWhitespace(c)
    ensures IsWhitespace(c) ==>
      && !('a' <= c <= 'z') && !('A' <= c <= 'Z') && c != ':' && c != '>' && c != '-' && c != '|'
  {
    || ('\t' <= c <= '\r')
    || c == ' '
    || c == '\U{0085}' || c == '\U{00A0}' || c == '\U{1680}'
    || ('\U{2000}' <= c <= '\U{200A}')
    || c == '\U{2028}' || c == '\U{2029}' || c == '\U{202F}' || c == '\U{205F}'
    || c == '\U{3000}'
  }

  /** Every character is white space (the empty string included). */
  predicate IsBlank(s: string) {
    forall i :: 0 <= i < |s| ==> IsWhitespace(s[i])
  }

  lemma BlankConcat(a: string, b: string)
    requires IsBlank(a) && IsBlank(b)
    ensures IsBlank(a + b)
  {
    assert forall i :: |a| <= i < |a + b| ==> (a + b)[i] == b[i - |a|];
  }

  /** The first position at or after `i` that does not hold white space
      (`\s*` from `i`, and the scan `trim` makes from the left). */
  function SkipWhitespace(s: string, i: nat): (j: nat)
    requires i <= |s|
    ensures i <= j <= |s|
    ensures forall k :: i <= k < j ==> IsWhitespace(s[k])
    ensures j == |s| || !IsWhitespace(s[j])
    decreases |s| - i
  {
    if i < |s| && IsWhitespace(s[i]) then SkipWhitespace(s, i + 1) else i
  }

  /** The first position of the white-space run that ends at `j` (the scan
      `trim` makes from the right). */
  function SkipWhitespaceBack(s: string, j: nat): (i: nat)
    requires j <= |s|
    ensures i <= j
    ensures forall k :: i <= k < j ==> IsWhitespace(s[k])
    ensures i == 0 || !IsWhitespace(s[i - 1])
  {
    if j > 0 && IsWhitespace(s[j - 1]) then SkipWhitespaceBack(s, j - 1) else j
  }

  /** `str::trim`: drops leading and trailing white space. */
  function Trim(s: string): (r: string)
    ensures |r| <= |s|
    ensures r == [] <==> IsBlank(s)
    ensures r != [] ==> !IsWhitespace(r[0]) && !IsWhitespace(r[|r| - 1])
  {
    var i := SkipWhitespace(s, 0);
    if i == |s| then []
    else
      var j := SkipWhitespaceBack(s, |s|);
      assert i < j;
      s[i..j]
  }

  /** The trimmed text sits between a blank prefix and a blank suffix. */
  lemma TrimDecompose(s: string) returns (a: nat, b: nat)
    ensures a <= b <= |s| && Trim(s) == s[a..b]
    ensures IsBlank(s[..a]) && IsBlank(s[b..])
  {
    a := SkipWhitespace(s, 0);
    b := if a == |s| then |s| else SkipWhitespaceBack(s, |s|);
    assert forall k :: 0 <= k < a ==> s[..a][k] == s[k];
    assert forall k :: b <= k < |s| ==> s[b..][k - b] == s[k];
  }

  /** `trim` is determined by its contract: whatever sits between blank ends
      and neither starts nor ends with white space is the trim. */
  lemma TrimAround(lead: string, core: string, tail: string)
    requires IsBlank(lead) && IsBlank(tail)
    requires core == [] || (!IsWhitespace(core[0]) && !IsWhitespace(core[|core| - 1]))
    ensures Trim(lead + core + tail) == core
  {
    var s := lead + core + tail;
    var e := |lead| + |core|;
    assert forall k :: 0 <= k < |lead| ==> s[k] == lead[k];
    assert forall k :: e <= k < |s| ==> s[k] == tail[k - e];
    if core == [] {
      assert IsBlank(s);
    } else {
      assert s[|lead|] == core[0];
      assert s[e - 1] == core[|core| - 1];
      assert SkipWhitespace(s, 0) == |lead|;
      assert SkipWhitespaceBack(s, |s|) == e;
      assert s[|lead|..e] == core;
    }
  }

  /** A string with no white space at either end is its own trim. */
  lemma TrimFixed(s: string)
    requires s == [] || (!IsWhitespace(s[0]) && !IsWhitespace(s[|s| - 1]))
    ensures Trim(s) == s
  {
    TrimAround([], s, []);
    assert [] + s + [] == s;
  }

  /** Trimming is idempotent. */
  lemma TrimIdempotent(s: string)
    ensures Trim(Trim(s)) == Trim(s)
  {
    TrimFixed(Trim(s));
  }

  /** Trimming removes characters and adds none. */
  lemma TrimKeepsAbsent(s: string, c: char)
    requires c !in s
    ensures c !in Trim(s)
  {
    var a, b := TrimDecompose(s);
    assert forall k :: a <= k < b ==> s[a..b][k - a] == s[k];
  }

  /** `str::split` on a one-character delimiter: the maximal delimiter-free
      pieces, in order; there is always one more piece than delimiters. */
  function Split(s: string, d: char): (parts: seq<string>)
    ensures |parts| >= 1
    ensures forall i :: 0 <= i < |parts| ==> d !in parts[i]
  {
    if s == [] then [[]]
    else
      var rest := Split(s[1..], d);
      if s[0] == d then [[]] + rest
      else [[s[0]] + rest[0]] + rest[1..]
  }

  /** The characters of all parts together. */
  function TotalLength(parts: seq<string>): nat {
    if parts == [] then 0 else |parts[0]| + TotalLength(parts[1..])
  }

  /** `[&str]::join`: the parts with `sep` between consecutive ones. */
  function Join(parts: seq<string>, sep: string): (r: string)
    ensures parts != [] ==> |r| == TotalLength(parts) + (|parts| - 1) * |sep|
    ensures parts != [] ==> parts[0] <= r
  {
    if parts == [] then []
    else if |parts| == 1 then parts[0]
    else
      var rest := Join(parts[1..], sep);
      assert (|parts| - 1) * |sep| == (|parts| - 2) * |sep| + |sep|;
      parts[0] + sep + rest
  }

  /** Joining the pieces back with the delimiter restores the input. */
  lemma {:induction false} JoinSplit(s: string, d: char)
    ensures Join(Split(s, d), [d]) == s
  {
    if s != [] {
      var rest := Split(s[1..], d);
      JoinSplit(s[1..], d);
      if s[0] == d {
        assert ([[]] + rest)[1..] == rest;
      } else {
        var parts := [[s[0]] + rest[0]] + rest[1..];
        assert parts[1..] == rest[1..];
        if |rest| > 1 {
          assert Join(rest, [d]) == rest[0] + [d] + Join(rest[1..], [d]);
        }
      }
    }
  }

  /** A delimiter-free string is a single piece. */
  lemma {:induction false} SplitNoDelimiter(a: string, d: char)
    requires d !in a
    ensures Split(a, d) == [a]
  {
    if a != [] {
      assert d !in a[1..];
      SplitNoDelimiter(a[1..], d);
      assert [a[0]] + a[1..] == a;
    }
  }

  /** A delimiter-free head followed by a delimiter is split off as one piece. */
  lemma {:induction false} SplitAfterPiece(a: string, b: string, d: char)
    requires d !in a
    ensures Split(a + [d] + b, d) == [a] + Split(b, d)
  {
    if a == [] {
      assert a + [d] + b == [d] + b;
      assert ([d] + b)[1..] == b;
    } else {
      var s := a + [d] + b;
      assert s[0] == a[0];
      assert s[1..] == a[1..] + [d] + b;
      assert d !in a[1..];
      SplitAfterPiece(a[1..], b, d);
      assert [a[0]] + a[1..] == a;
    }
  }

  /** Splitting a join of delimiter-free pieces gives the pieces back. */
  lemma {:induction false} SplitJoin(parts: seq<string>, d: char)
    requires |parts| >= 1
    requires forall i :: 0 <= i < |parts| ==> d !in parts[i]
    ensures Split(Join(parts, [d]), d) == parts
  {
    if |parts| == 1 {
      SplitNoDelimiter(parts[0], d);
    } else {
      SplitJoin(parts[1..], d);
      SplitAfterPiece(parts[0], Join(parts[1..], [d]), d);
      assert [parts[0]] + parts[1..] == parts;
    }
  }

  /** Every character `c` of `s` replaced by `to` when it is `from`. */
  function ReplaceChar(s: string, from: char, to: char): (r: string)
    ensures |r| == |s|
    ensures forall i :: 0 <= i < |s| ==> r[i] == (if s[i] == from then to else s[i])
  {
    seq(|s|, i requires 0 <= i < |s| => if s[i] == from then to else s[i])
  }

  /** ASCII upper case of one character (`char::to_ascii_uppercase`). */
  function UpperAscii(c: char): char {
    if 'a' <= c <= 'z' then (c as int - 32) as char else c
  }

  /** ASCII lower case of one character (`char::to_ascii_lowercase`). */
  function LowerAscii(c: char): char {
    if 'A' <= c <= 'Z' then (c as int + 32) as char else c
  }

  function ToUpper(s: string): (r: string)
    ensures |r| == |s|
    ensures forall i :: 0 <= i < |s| ==> r[i] == UpperAscii(s[i])
  {
    seq(|s|, i requires 0 <= i < |s| => UpperAscii(s[i]))
  }

  function ToLower(s: string): (r: string)
    ensures |r| == |s|
    ensures forall i :: 0 <= i < |s| ==> r[i] == LowerAscii(s[i])
  {
    seq(|s|, i requires 0 <= i < |s| => LowerAscii(s[i]))
  }
}
