/** The tokenizers: `tokenRE.FindAllString` as a scanner over byte strings,
    followed by a loop that replaces number-like tokens by `<NUM>`.

    Two generations exist. The `nlp` package allows `'`, `.` and `,` between
    word characters and anchors its number pattern `^\d([\d\.\,]{4,})?$`; the
    older copies (the root package and `wikidump`) allow only `'` and `.` and
    search for the unanchored `\d[\d\.]+` anywhere in the token. */
module Tokenize {
  import opened Text

  const Num: Str := "<NUM>"

  /** The punctuation `tokenRE` admits between word characters; `comma`
      selects the `nlp` pattern, which also admits `,`. */
  predicate IsInnerPunct(c: Byte, comma: bool) {
    c == '\'' || c == '.' || (comma && c == ',')
  }

  /** Position `k` can be matched by one iteration of `(\w|\b['\.,]\b)`: a word
      character, or inner punctuation with a word character on both sides
      (the two `\b` assertions around a non-word byte). */
  predicate InToken(s: Str, k: nat, comma: bool)
    requires k < |s|
  {
    IsWord(s[k])
    || (IsInnerPunct(s[k], comma) && 0 < k && k + 1 < |s| && IsWord(s[k - 1]) && IsWord(s[k + 1]))
  }

  /** The end of the greedy `+` loop started at `i`. */
  function TokenEnd(s: Str, i: nat, comma: bool): (j: nat)
    requires i <= |s|
    ensures i <= j <= |s|
    ensures forall k :: i <= k < j ==> InToken(s, k, comma)
    ensures j == |s| || !InToken(s, j, comma)
    decreases |s| - i
  {
    if i < |s| && InToken(s, i, comma) then TokenEnd(s, i + 1, comma) else i
  }

  datatype Span = Span(start: nat, end: nat)

  /** `tokenRE.FindAllStringIndex(s[from:], -1)`: a match starts at the first
      position one iteration can match, and the greedy loop runs to the end of
      the run. */
  function TokenSpans(s: Str, from: nat, comma: bool): (r: seq<Span>)
    requires from <= |s|
    ensures forall i :: 0 <= i < |r| ==> from <= r[i].start < r[i].end <= |s|
    decreases |s| - from
  {
    if from == |s| then []
    else if InToken(s, from, comma) then
      var e := TokenEnd(s, from, comma);
      [Span(from, e)] + TokenSpans(s, e, comma)
    else TokenSpans(s, from + 1, comma)
  }

  /** What a token looks like: non-empty, starting and ending with a word
      character, with inner punctuation only between two word characters. */
  predicate IsTokenText(t: Str, comma: bool) {
    t != [] && IsWord(t[0]) && IsWord(t[|t| - 1])
    && forall k :: 0 < k < |t| - 1 ==>
         IsWord(t[k]) || (IsInnerPunct(t[k], comma) && IsWord(t[k - 1]) && IsWord(t[k + 1]))
  }

  /** Each span holds a well-formed token; the spans are in text order and
      apart, and each is a maximal run: the byte just after it cannot be
      matched. */
  ghost predicate WellTokenized(s: Str, comma: bool, r: seq<Span>)
    requires forall i :: 0 <= i < |r| ==> r[i].start < r[i].end <= |s|
  {
    (forall i :: 0 <= i < |r| ==> IsTokenText(s[r[i].start..r[i].end], comma))
    && (forall i :: 0 <= i < |r| - 1 ==> r[i].end < r[i + 1].start)
    && (forall i :: 0 <= i < |r| ==> r[i].end == |s| || !InToken(s, r[i].end, comma))
  }

  /** Tokenization from a position that is not inside a run. */
  lemma {:induction false} TokenSpansShape(s: Str, from: nat, comma: bool)
    requires from <= |s|
    requires from == 0 || from == |s| || !InToken(s, from - 1, comma) || !InToken(s, from, comma)
    ensures WellTokenized(s, comma, TokenSpans(s, from, comma))
    decreases |s| - from
  {
    if from < |s| {
      if InToken(s, from, comma) {
        var e := TokenEnd(s, from, comma);
        TokenSpansShape(s, e, comma);
        var rest := TokenSpans(s, e, comma);
        assert TokenSpans(s, from, comma) == [Span(from, e)] + rest;
        RunIsToken(s, from, e, comma);
        ConsWellTokenized(s, comma, Span(from, e), rest);
      } else {
        TokenSpansShape(s, from + 1, comma);
      }
    }
  }

  /** A token in front of a later, well-tokenized rest. */
  lemma ConsWellTokenized(s: Str, comma: bool, sp: Span, rest: seq<Span>)
    requires sp.start < sp.end <= |s| && IsTokenText(s[sp.start..sp.end], comma)
    requires sp.end == |s| || !InToken(s, sp.end, comma)
    requires forall i :: 0 <= i < |rest| ==> sp.end <= rest[i].start < rest[i].end <= |s|
    requires WellTokenized(s, comma, rest)
    ensures WellTokenized(s, comma, [sp] + rest)
  {
    var r := [sp] + rest;
    forall i | 0 <= i < |r| ensures IsTokenText(s[r[i].start..r[i].end], comma) {
      if i > 0 { assert r[i] == rest[i - 1]; }
    }
    forall i | 0 <= i < |r| - 1 ensures r[i].end < r[i + 1].start {
      if i > 0 {
        assert r[i] == rest[i - 1] && r[i + 1] == rest[i];
      } else {
        assert IsTokenText(s[rest[0].start..rest[0].end], comma);
        assert rest[0].start != sp.end;
      }
    }
    forall i | 0 <= i < |r| ensures r[i].end == |s| || !InToken(s, r[i].end, comma) {
      if i > 0 { assert r[i] == rest[i - 1]; }
    }
  }

  /** A maximal run of matchable positions that does not continue a run on
      its left is a well-formed token. */
  lemma RunIsToken(s: Str, a: nat, b: nat, comma: bool)
    requires a < b <= |s|
    requires a == 0 || !InToken(s, a - 1, comma)
    requires forall k :: a <= k < b ==> InToken(s, k, comma)
    requires b == |s| || !InToken(s, b, comma)
    ensures IsTokenText(s[a..b], comma)
  {
    var t := s[a..b];
    assert IsWord(t[0]) by {
      assert InToken(s, a, comma);
    }
    assert IsWord(t[|t| - 1]) by {
      assert InToken(s, b - 1, comma);
    }
    forall k | 0 < k < |t| - 1
      ensures IsWord(t[k]) || (IsInnerPunct(t[k], comma) && IsWord(t[k - 1]) && IsWord(t[k + 1]))
    {
      assert t[k] == s[a + k] && t[k - 1] == s[a + k - 1] && t[k + 1] == s[a + k + 1];
      assert InToken(s, a + k, comma);
    }
  }

  /** Every matchable position lies in one of the spans: no word character is
      lost by tokenization. */
  lemma {:induction false} SpanContaining(s: Str, from: nat, comma: bool, k: nat) returns (i: nat)
    requires from <= k < |s| && InToken(s, k, comma)
    ensures i < |TokenSpans(s, from, comma)|
    ensures TokenSpans(s, from, comma)[i].start <= k < TokenSpans(s, from, comma)[i].end
    decreases |s| - from
  {
    if InToken(s, from, comma) {
      var e := TokenEnd(s, from, comma);
      if k < e {
        i := 0;
      } else {
        var j := SpanContaining(s, e, comma, k);
        i := j + 1;
      }
    } else {
      assert from != k;
      i := SpanContaining(s, from + 1, comma, k);
    }
  }

  /** There are no tokens exactly when there are no word characters. */
  lemma NoTokensIffNoWords(s: Str, comma: bool)
    ensures TokenSpans(s, 0, comma) == [] <==> forall k :: 0 <= k < |s| ==> !IsWord(s[k])
  {
    if exists k :: 0 <= k < |s| && IsWord(s[k]) {
      var k :| 0 <= k < |s| && IsWord(s[k]);
      var i := SpanContaining(s, 0, comma, k);
    } else {
      NothingMatchable(s, 0, comma);
    }
  }

  lemma {:induction false} NothingMatchable(s: Str, from: nat, comma: bool)
    requires from <= |s|
    requires forall k :: 0 <= k < |s| ==> !IsWord(s[k])
    ensures TokenSpans(s, from, comma) == []
    decreases |s| - from
  {
    if from < |s| {
      assert !InToken(s, from, comma);
      NothingMatchable(s, from + 1, comma);
    }
  }

  /** Digits, `.` and `,`: the class `[\d\.\,]`. */
  predicate IsNumberByte(c: Byte) {
    IsDigit(c) || c == '.' || c == ','
  }

  /** `^\d([\d\.\,]{4,})?$` of the `nlp` package, run as the regex engine
      would: one digit, then the longest run of the class, which must reach
      the end and be empty or at least four long. */
  predicate IsNumber(t: Str) {
    t != [] && IsDigit(t[0])
    && var r := SpanEnd(t, 1, IsNumberByte);
       r == |t| && (r == 1 || r - 1 >= 4)
  }

  /** A token is replaced exactly when it is a single digit, or a digit
      followed by at least four digits, dots and commas. */
  lemma IsNumberMeans(t: Str)
    ensures IsNumber(t) <==>
      (|t| == 1 && IsDigit(t[0]))
      || (|t| >= 5 && IsDigit(t[0]) && forall k :: 1 <= k < |t| ==> IsNumberByte(t[k]))
  {
    if |t| >= 5 && IsDigit(t[0]) && forall k :: 1 <= k < |t| ==> IsNumberByte(t[k]) {
      AllClassReachesEnd(t, 1);
    }
  }

  lemma {:induction false} AllClassReachesEnd(t: Str, i: nat)
    requires i <= |t|
    requires forall k :: i <= k < |t| ==> IsNumberByte(t[k])
    ensures SpanEnd(t, i, IsNumberByte) == |t|
    decreases |t| - i
  {
    if i < |t| { AllClassReachesEnd(t, i + 1); }
  }

  /** Years are kept: a four-digit token is never replaced. */
  lemma FourDigitsKept(t: Str)
    requires |t| == 4
    ensures !IsNumber(t)
  {
    IsNumberMeans(t);
  }

  /** `\d[\d\.]+` of the older tokenizers, searched anywhere in the token: the
      first position from `i` where a digit is followed by a digit or a dot. */
  function FindNumber(t: Str, i: nat): (r: Option<nat>)
    requires i <= |t|
    ensures r.Some? ==> i <= r.value && r.value + 1 < |t|
    decreases |t| - i
  {
    if i + 1 >= |t| then None
    else if IsDigit(t[i]) && (IsDigit(t[i + 1]) || t[i + 1] == '.') then Some(i)
    else FindNumber(t, i + 1)
  }

  predicate ContainsNumber(t: Str) {
    FindNumber(t, 0).Some?
  }

  /** The search succeeds exactly when somewhere a digit is followed by a
      digit or a dot. */
  lemma {:induction false} FindNumberMeans(t: Str, i: nat)
    requires i <= |t|
    ensures FindNumber(t, i).Some? <==>
      exists k :: i <= k && k + 1 < |t| && IsDigit(t[k]) && (IsDigit(t[k + 1]) || t[k + 1] == '.')
    decreases |t| - i
  {
    if i + 1 < |t| {
      FindNumberMeans(t, i + 1);
      if exists k :: i <= k && k + 1 < |t| && IsDigit(t[k]) && (IsDigit(t[k + 1]) || t[k + 1] == '.') {
        var k :| i <= k && k + 1 < |t| && IsDigit(t[k]) && (IsDigit(t[k + 1]) || t[k + 1] == '.');
        if k != i { assert i + 1 <= k; }
      }
    }
  }

  /** The older pattern never replaces a single-character token, however
      numeric: `[\d\.]+` needs a second byte. */
  lemma SingleDigitKept(t: Str)
    requires |t| <= 1
    ensures !ContainsNumber(t)
  {
  }

  /** The tokens of the `nlp` package: one per match, in order, a match
      being replaced by `<NUM>` exactly when it is a number. */
  function Tokens(s: Str): (tokens: seq<Str>)
    ensures |tokens| == |TokenSpans(s, 0, true)|
  {
    var spans := TokenSpans(s, 0, true);
    seq(|spans|, i requires 0 <= i < |spans| =>
      var t := s[spans[i].start..spans[i].end];
      if IsNumber(t) then Num else t)
  }

  /** Tokenize of the `nlp` package: the loop over the matches. */
  method Tokenize(s: Str) returns (tokens: seq<Str>)
    ensures tokens == Tokens(s)
  {
    var spans := TokenSpans(s, 0, true);
    tokens := [];
    for i := 0 to |spans|
      invariant tokens == Tokens(s)[..i]
    {
      var token := s[spans[i].start..spans[i].end];
      if IsNumber(token) {
        token := Num;
      }
      tokens := tokens + [token];
    }
  }

  /** tokenize of the older packages: inner punctuation without `,`, and the
      number pattern searched anywhere in the token. */
  method TokenizeLegacy(s: Str) returns (out: seq<Str>)
    ensures var spans := TokenSpans(s, 0, false);
      |out| == |spans|
      && forall i :: 0 <= i < |spans| ==>
           var t := s[spans[i].start..spans[i].end];
           out[i] == if ContainsNumber(t) then Num else t
  {
    var spans := TokenSpans(s, 0, false);
    out := [];
    for i := 0 to |spans|
      invariant |out| == i
      invariant forall j :: 0 <= j < i ==>
        var t := s[spans[j].start..spans[j].end];
        out[j] == if ContainsNumber(t) then Num else t
    {
      var token := s[spans[i].start..spans[i].end];
      if ContainsNumber(token) {
        token := Num;
      }
      out := out + [token];
    }
  }
}
