/** Wikitext clean-up and wikilink extraction for the Wikipedia dump parser.

    Go's regular expressions are written out as scanners over byte strings;
    each scanner follows RE2's leftmost-first semantics for its pattern. */
module WikiSyntax {
  import opened Text

  predicate IsLower(c: Byte) { 'a' <= c <= 'z' }

  /** The characters allowed inside a start tag: `[a-z0-9 "=]`. */
  predicate IsTagChar(c: Byte) { IsLower(c) || ('0' <= c <= '9') || c == ' ' || c == '"' || c == '=' }

  // An occurrence of the `special` pattern: `{{`, `{|`, `|}`, `}}`, a start tag
  // `<[a-z][a-z0-9 "=]*/?>` (self-closing or not) or an end tag `</[a-z]+>`.
  // `opens` is true for the first two kinds and for start tags.
  datatype Marker = Marker(start: nat, end: nat, opens: bool)

  /** A start tag as the `special` pattern accepts it. */
  ghost predicate IsStartTag(t: Str) {
    |t| >= 3 && t[0] == '<' && IsLower(t[1]) && t[|t| - 1] == '>'
    && (forall k :: 2 <= k < |t| - 2 ==> IsTagChar(t[k]))
    && (IsTagChar(t[|t| - 2]) || t[|t| - 2] == '/' || |t| == 3)
  }

  /** An end tag `</[a-z]+>`. */
  ghost predicate IsEndTag(t: Str) {
    |t| >= 4 && t[0] == '<' && t[1] == '/' && t[|t| - 1] == '>'
    && forall k :: 2 <= k < |t| - 1 ==> IsLower(t[k])
  }

  /** The match of `special` anchored at position `i`, if any. */
  function MarkerAt(s: Str, i: nat): (r: Option<Marker>)
    requires i <= |s|
    ensures r.Some? ==> r.value.start == i < r.value.end <= |s|
  {
    if i + 1 < |s| && s[i] == '{' && (s[i + 1] == '{' || s[i + 1] == '|') then
      Some(Marker(i, i + 2, true))
    else if i + 1 < |s| && s[i + 1] == '}' && (s[i] == '|' || s[i] == '}') then
      Some(Marker(i, i + 2, false))
    else if i + 1 < |s| && s[i] == '<' && IsLower(s[i + 1]) then
      var k := SpanEnd(s, i + 2, IsTagChar);
      if k < |s| && s[k] == '>' then Some(Marker(i, k + 1, true))
      else if k + 1 < |s| && s[k] == '/' && s[k + 1] == '>' then Some(Marker(i, k + 2, true))
      else None
    else if i + 2 < |s| && s[i] == '<' && s[i + 1] == '/' && IsLower(s[i + 2]) then
      var k := SpanEnd(s, i + 2, IsLower);
      if k < |s| && s[k] == '>' then Some(Marker(i, k + 1, false)) else None
    else None
  }

  /** Every match of `special` is one of its alternatives, and `opens` tells
      the openers (`{{`, `{|`, start tags) from the closers. */
  lemma MarkerShape(s: Str, i: nat)
    requires i <= |s| && MarkerAt(s, i).Some?
    ensures var m := MarkerAt(s, i).value; var t := s[i..m.end];
      if m.opens then t == "{{" || t == "{|" || IsStartTag(t)
      else t == "}}" || t == "|}" || IsEndTag(t)
  {
    var m := MarkerAt(s, i).value;
    if m.end == i + 2 {
      assert s[i..i + 2] == [s[i], s[i + 1]];
    }
  }

  /** `special.FindStringIndex(s[from:])`: the leftmost marker at or after `from`. */
  function FindMarker(s: Str, from: nat): (r: Option<Marker>)
    requires from <= |s|
    ensures r.None? ==> forall k :: from <= k <= |s| ==> MarkerAt(s, k).None?
    ensures r.Some? ==> from <= r.value.start <= |s| && MarkerAt(s, r.value.start) == r
    ensures r.Some? ==> forall k :: from <= k < r.value.start ==> MarkerAt(s, k).None?
    decreases |s| - from
  {
    match MarkerAt(s, from)
    case Some(m) => Some(m)
    case None => if from == |s| then None else FindMarker(s, from + 1)
  }

  /** `.*>` where `.` excludes the newline: a `>` at or after `i` with no newline before it. */
  function AngleBeforeNewline(t: Str, i: nat): bool
    requires i <= |t|
    decreases |t| - i
  {
    i < |t| && t[i] != '\n' && (t[i] == '>' || AngleBeforeNewline(t, i + 1))
  }

  /** `starttag.MatchString(t[a:])` for the pattern `<[a-z].*>`. */
  function MatchesStartTag(t: Str, a: nat): bool
    requires a <= |t|
    decreases |t| - a
  {
    a + 1 < |t| && ((t[a] == '<' && IsLower(t[a + 1]) && AngleBeforeNewline(t, a + 2))
                    || MatchesStartTag(t, a + 1))
  }

  /** `endtag.MatchString(t[a:])` for the pattern `</[a-z]+>`. */
  function MatchesEndTag(t: Str, a: nat): bool
    requires a <= |t|
    decreases |t| - a
  {
    a + 2 < |t| && ((t[a] == '<' && t[a + 1] == '/' && IsLower(t[a + 2])
                     && var k := SpanEnd(t, a + 2, IsLower); k < |t| && t[k] == '>')
                    || MatchesEndTag(t, a + 1))
  }

  /** The `switch` on a marker's text: openers increase the depth, closers
      decrease it but never below zero. */
  function SwitchDepth(tag: Str, depth: nat): nat {
    if tag == "{{" || tag == "{|" || MatchesStartTag(tag, 0) then depth + 1
    else if (tag == "}}" || tag == "|}" || MatchesEndTag(tag, 0)) && depth > 0 then depth - 1
    else depth
  }

  lemma {:induction false} NoOpenAngleNoMatch(t: Str, a: nat)
    requires a <= |t|
    requires forall k :: a <= k < |t| ==> t[k] != '<'
    ensures !MatchesStartTag(t, a) && !MatchesEndTag(t, a)
    decreases |t| - a
  {
    if a + 1 < |t| { NoOpenAngleNoMatch(t, a + 1); }
  }

  lemma {:induction false} TagCharsReachAngle(t: Str, i: nat)
    requires i < |t| && t[|t| - 1] == '>'
    requires forall k :: i <= k < |t| ==> t[k] != '\n'
    ensures AngleBeforeNewline(t, i)
    decreases |t| - i
  {
    if t[i] != '>' { TagCharsReachAngle(t, i + 1); }
  }

  /** The `switch` classifies every marker by its kind: the text of a marker
      matches `starttag` exactly when the marker is a start tag, so openers
      always increase the depth and closers never do. */
  lemma MarkerClassification(s: Str, m: Marker, depth: nat)
    requires m.start <= |s| && MarkerAt(s, m.start) == Some(m)
    ensures SwitchDepth(s[m.start..m.end], depth)
            == if m.opens then depth + 1 else if depth > 0 then depth - 1 else 0
  {
    var t := s[m.start..m.end];
    MarkerShape(s, m.start);
    if m.opens {
      if t != "{{" && t != "{|" {
        TagCharsReachAngle(t, 2);
      }
    } else if t == "}}" || t == "|}" {
      assert t[0] != '<' && t[1] != '<';
      NoOpenAngleNoMatch(t, 0);
    } else {
      assert t[0] == '<' && t[1] == '/';
      NoOpenAngleNoMatch(t, 1);
      assert !MatchesStartTag(t, 0);
      var k := SpanEnd(t, 2, IsLower);
      assert k == |t| - 1;
      assert MatchesEndTag(t, 0);
    }
  }

  /** What the clean-up loop writes for the rest `s` of the input at nesting
      depth `depth`: text outside every marker while the depth is zero. */
  function Strip(s: Str, depth: nat): Str
    decreases |s|
  {
    match FindMarker(s, 0)
    case None => if depth == 0 then s else []
    case Some(m) =>
      (if depth == 0 then s[..m.start] else [])
      + Strip(s[m.end..], SwitchDepth(s[m.start..m.end], depth))
  }

  /** The loop shared by `Cleanup` in the dump parser and `cleanup` in the
      early prototype: it removes tables, template calls and tags together
      with everything nested inside them. */
  method StripMarkup(s0: Str) returns (out: Str)
    ensures out == Strip(s0, 0)
    ensures IsSubsequence(out, s0)
  {
    var s := s0;
    var depth: nat := 0;
    out := [];
    while true
      invariant out + Strip(s, depth) == Strip(s0, 0)
      decreases |s|
    {
      var next := FindMarker(s, 0);
      if next.None? {
        StripLastStep(out, s, depth);
        if depth == 0 {
          out := out + s;
        }
        break;
      }
      var i, j := next.value.start, next.value.end;
      ghost var d0, out0 := depth, out;
      if depth == 0 {
        out := out + s[..i];
      }
      var tag := s[i..j];
      if tag == "{{" || tag == "{|" || MatchesStartTag(tag, 0) {
        depth := depth + 1;
      } else if tag == "}}" || tag == "|}" || MatchesEndTag(tag, 0) {
        if depth > 0 {
          depth := depth - 1;
        }
      }
      StripStep(out0, s, d0, out, depth);
      s := s[j..];
    }
    StripIsSubsequence(s0, 0);
  }

  /** One turn of the clean-up loop keeps `out + Strip(s, depth)` unchanged. */
  lemma StripStep(out0: Str, s: Str, d0: nat, out: Str, d: nat)
    requires FindMarker(s, 0).Some?
    requires var m := FindMarker(s, 0).value;
      out == out0 + (if d0 == 0 then s[..m.start] else [])
      && d == SwitchDepth(s[m.start..m.end], d0)
    ensures out + Strip(s[FindMarker(s, 0).value.end..], d) == out0 + Strip(s, d0)
  {
    var m := FindMarker(s, 0).value;
    var before := if d0 == 0 then s[..m.start] else [];
    var rest := Strip(s[m.end..], d);
    assert Strip(s, d0) == before + rest;
    AppendAssoc(out0, before, rest);
  }

  /** The last turn of the clean-up loop, when no marker is left. */
  lemma StripLastStep(out: Str, s: Str, depth: nat)
    requires FindMarker(s, 0).None?
    ensures out + Strip(s, depth) == if depth == 0 then out + s else out
  {
  }

  /** Cleanup (dump parser): the stripped text is HTML-unescaped and put in
      Unicode normal form C. Both library conversions are parameters. */
  method Cleanup(s: Str, unescape: Str -> Str, nfc: Str -> Str) returns (r: Str)
    ensures r == nfc(unescape(Strip(s, 0)))
  {
    var raw := StripMarkup(s);
    r := nfc(unescape(raw));
  }

  /** cleanup (early prototype): the stripped text is only HTML-unescaped. */
  method CleanupPrototype(s: Str, unescape: Str -> Str) returns (r: Str)
    ensures r == unescape(Strip(s, 0))
  {
    var raw := StripMarkup(s);
    r := unescape(raw);
  }

  /** The output consists of pieces of the input, in order. */
  lemma {:induction false} StripIsSubsequence(s: Str, depth: nat)
    ensures IsSubsequence(Strip(s, depth), s)
    ensures |Strip(s, depth)| <= |s|
    decreases |s|
  {
    match FindMarker(s, 0)
    case None =>
      SubsequenceReflexive(s);
    case Some(m) =>
      var d := SwitchDepth(s[m.start..m.end], depth);
      StripIsSubsequence(s[m.end..], d);
      var rest := Strip(s[m.end..], d);
      assert s == s[..m.start] + (s[m.start..m.end] + s[m.end..]);
      SubsequenceOfSuffix(rest, s[m.start..m.end], s[m.end..]);
      if depth == 0 {
        SubsequenceOfPrefixed(rest, s[..m.start], s[m.start..m.end] + s[m.end..]);
      } else {
        assert [] + rest == rest;
        SubsequenceOfSuffix(rest, s[..m.start], s[m.start..m.end] + s[m.end..]);
      }
    SubsequenceLength(Strip(s, depth), s);
  }

  /** Text without any marker passes through unchanged at depth zero, and is
      dropped entirely inside an open construct. */
  lemma NoMarkerUnchanged(s: Str, depth: nat)
    requires forall k :: 0 <= k <= |s| ==> MarkerAt(s, k).None?
    ensures Strip(s, depth) == if depth == 0 then s else []
  {
  }

  /** No closing marker starts anywhere in `s`. */
  ghost predicate NoCloser(s: Str) {
    forall k :: 0 <= k <= |s| && MarkerAt(s, k).Some? ==> MarkerAt(s, k).value.opens
  }

  /** What may follow `<` in a start tag: a lower-case letter, then tag characters. */
  predicate IsTagName(name: Str) {
    |name| >= 1 && IsLower(name[0]) && forall k :: 1 <= k < |name| ==> IsTagChar(name[k])
  }

  /** Inside an open table, template or tag, nothing is written until a
      closer brings the depth back to zero: text that holds no closer at all
      contributes nothing, however many openers it contains. */
  lemma {:induction false} UnclosedDropsRest(s: Str, depth: nat)
    requires depth > 0
    requires NoCloser(s)
    ensures Strip(s, depth) == []
    decreases |s|
  {
    match FindMarker(s, 0)
    case None =>
    case Some(m) =>
      MarkerClassification(s, m, depth);
      var t := s[m.end..];
      forall k | 0 <= k <= |t| && MarkerAt(t, k).Some?
        ensures MarkerAt(t, k).value.opens
      {
        MarkerAtSuffix(s, m.end, k);
      }
      assert NoCloser(t);
      UnclosedDropsRest(t, depth + 1);
  }

  /** Scanning a suffix finds the same markers, shifted. */
  lemma MarkerAtSuffix(s: Str, j: nat, k: nat)
    requires j <= |s| && k <= |s| - j
    ensures MarkerAt(s[j..], k) == match MarkerAt(s, j + k)
      case None => None
      case Some(m) => Some(Marker(k, m.end - j, m.opens))
  {
    var t := s[j..];
    var i := j + k;
    if k < |t| { assert t[k] == s[i]; }
    if k + 1 < |t| { assert t[k + 1] == s[i + 1]; }
    if k + 2 < |t| { assert t[k + 2] == s[i + 2]; }
    if k + 1 < |t| && t[k] == '<' && IsLower(t[k + 1]) {
      StartTagSuffix(s, j, k);
    } else if k + 2 < |t| && t[k] == '<' && t[k + 1] == '/' && IsLower(t[k + 2]) {
      EndTagSuffix(s, j, k);
    }
  }

  lemma StartTagSuffix(s: Str, j: nat, k: nat)
    requires j <= |s| && k + 1 < |s| - j && s[j + k] == '<' && IsLower(s[j + k + 1])
    ensures MarkerAt(s[j..], k) == match MarkerAt(s, j + k)
      case None => None
      case Some(m) => Some(Marker(k, m.end - j, m.opens))
  {
    var t := s[j..];
    assert t[k] == s[j + k] && t[k + 1] == s[j + k + 1];
    SpanEndSuffix(s, j, k + 2, IsTagChar);
    var e := SpanEnd(t, k + 2, IsTagChar);
    if e < |t| { assert t[e] == s[e + j]; }
    if e + 1 < |t| { assert t[e + 1] == s[e + j + 1]; }
  }

  lemma EndTagSuffix(s: Str, j: nat, k: nat)
    requires j <= |s| && k + 2 < |s| - j && s[j + k] == '<' && s[j + k + 1] == '/' && IsLower(s[j + k + 2])
    ensures MarkerAt(s[j..], k) == match MarkerAt(s, j + k)
      case None => None
      case Some(m) => Some(Marker(k, m.end - j, m.opens))
  {
    var t := s[j..];
    assert t[k] == s[j + k] && t[k + 1] == s[j + k + 1] && t[k + 2] == s[j + k + 2];
    SpanEndSuffix(s, j, k + 2, IsLower);
    var e := SpanEnd(t, k + 2, IsLower);
    if e < |t| { assert t[e] == s[e + j]; }
  }

  lemma {:induction false} SpanEndSuffix(s: Str, j: nat, k: nat, p: Byte -> bool)
    requires j <= |s| && k <= |s| - j
    ensures SpanEnd(s[j..], k, p) == SpanEnd(s, j + k, p) - j
    decreases |s| - j - k
  {
    if k < |s| - j && p(s[j + k]) { SpanEndSuffix(s, j, k + 1, p); }
  }

  /** Text in which no marker can start: no braces, no angle brackets, and no
      trailing bar that a following brace could complete. */
  predicate Inert(t: Str) {
    (forall k :: 0 <= k < |t| ==> t[k] != '{' && t[k] != '}' && t[k] != '<')
    && (t == [] || t[|t| - 1] != '|')
  }

  lemma {:induction false} FindMarkerSkipsInert(s: Str, from: nat, to: nat)
    requires from <= to <= |s| && Inert(s[from..to])
    ensures FindMarker(s, from) == FindMarker(s, to)
    decreases |s| - from
  {
    if from < to {
      assert s[from] == s[from..to][0];
      assert from + 1 < to ==> s[from + 1] == s[from..to][1];
      assert from + 1 == to ==> s[from] == s[from..to][|s[from..to]| - 1];
      assert MarkerAt(s, from).None?;
      assert s[from + 1..to] == s[from..to][1..];
      FindMarkerSkipsInert(s, from + 1, to);
    }
  }

  /** One step of the clean-up loop over inert text followed by a marker. */
  lemma StripPastInert(pre: Str, tag: Str, post: Str, depth: nat)
    requires Inert(pre)
    requires var s := pre + tag + post;
      MarkerAt(s, |pre|).Some? && MarkerAt(s, |pre|).value.end == |pre| + |tag|
    ensures Strip(pre + tag + post, depth)
            == (if depth == 0 then pre else []) + Strip(post, SwitchDepth(tag, depth))
  {
    var s := pre + tag + post;
    assert s[0..|pre|] == pre;
    FindMarkerSkipsInert(s, 0, |pre|);
    assert s[..|pre|] == pre && s[|pre|..|pre| + |tag|] == tag && s[|pre| + |tag|..] == post;
  }

  lemma BraceMarkerAt(pre: Str, tag: Str, post: Str)
    requires tag == "{{" || tag == "{|" || tag == "}}" || tag == "|}"
    ensures var s := pre + tag + post;
      MarkerAt(s, |pre|) == Some(Marker(|pre|, |pre| + 2, tag[0] == '{'))
  {
    var s := pre + tag + post;
    assert s[|pre|] == tag[0] && s[|pre| + 1] == tag[1];
  }

  lemma BraceSwitch(tag: Str, depth: nat)
    requires tag == "{{" || tag == "{|" || tag == "}}" || tag == "|}"
    ensures SwitchDepth(tag, depth)
            == if tag[0] == '{' then depth + 1 else if depth > 0 then depth - 1 else 0
  {
    NoOpenAngleNoMatch(tag, 0);
  }

  /** A table or a template call is removed together with its contents. */
  lemma ConstructDropped(before: Str, open: Str, inner: Str, close: Str, after: Str)
    requires Inert(before) && Inert(inner)
    requires open == "{{" || open == "{|"
    requires close == "}}" || close == "|}"
    ensures Strip(before + open + inner + close + after, 0) == before + Strip(after, 0)
  {
    var post := inner + close + after;
    assert before + open + inner + close + after == before + open + post;
    BraceMarkerAt(before, open, post);
    StripPastInert(before, open, post, 0);
    BraceSwitch(open, 0);
    BraceMarkerAt(inner, close, after);
    StripPastInert(inner, close, after, 1);
    BraceSwitch(close, 1);
    var x := Strip(after, 0);
    assert Strip(post, 1) == [] + x == x;
    assert Strip(before + open + post, 0) == before + x;
  }

  /** A closer with nothing open is ignored: it is dropped and the depth stays zero. */
  lemma SpuriousCloserIgnored(before: Str, close: Str, after: Str)
    requires Inert(before)
    requires close == "}}" || close == "|}"
    ensures Strip(before + close + after, 0) == before + Strip(after, 0)
  {
    BraceMarkerAt(before, close, after);
    StripPastInert(before, close, after, 0);
    BraceSwitch(close, 0);
  }

  /** A self-closing tag such as `<references/>` counts as an opener, so when
      no closer follows, the rest of the text is dropped. */
  lemma SelfClosingTagDropsRest(before: Str, name: Str, after: Str)
    requires Inert(before)
    requires IsTagName(name) && NoCloser(after)
    ensures Strip(before + "<" + name + "/>" + after, 0) == before
  {
    var tag := "<" + name + "/>";
    assert before + "<" + name + "/>" + after == before + tag + after;
    SelfClosingMarkerAt(before, name, after);
    StripPastInert(before, tag, after, 0);
    UnclosedDropsRest(after, 1);
    assert Strip(after, 1) == [];
  }

  lemma SelfClosingMarkerAt(pre: Str, name: Str, post: Str)
    requires IsTagName(name)
    ensures var s := pre + ("<" + name + "/>") + post;
      MarkerAt(s, |pre|) == Some(Marker(|pre|, |pre| + |name| + 3, true))
      && SwitchDepth("<" + name + "/>", 0) == 1
  {
    var tag := "<" + name + "/>";
    var s := pre + tag + post;
    var i := |pre|;
    assert s[i] == '<' && s[i + 1] == name[0];
    assert forall x :: i + 2 <= x < i + 1 + |name| ==> s[x] == name[x - i - 1];
    assert s[i + 1 + |name|] == '/' && s[i + 2 + |name|] == '>';
    SpanEndStops(s, i + 2, i + 1 + |name|, IsTagChar);
    assert MarkerAt(s, i) == Some(Marker(i, i + |tag|, true));
    assert s[i..i + |tag|] == tag;
    MarkerClassification(s, Marker(i, i + |tag|, true), 0);
  }

  // ---------------------------------------------------------------------
  // Wikilinks

  /** A link as counted by ExtractLinks: the anchor text and the target page. */
  datatype Link = Link(anchor: Str, target: Str)

  /** One match of the link pattern `(\w*)\[\[([^]]+)\]\](\w*)`: the word
      characters glued before it, the text between the brackets and the word
      characters glued after it. */
  datatype LinkMatch = LinkMatch(start: nat, end: nat, before: Str, body: Str, after: Str)

  predicate NotCloseBracket(c: Byte) { c != ']' }

  predicate AllWord(s: Str) { forall k :: 0 <= k < |s| ==> IsWord(s[k]) }

  /** The match of the link pattern anchored at `p`. `\w*` cannot give back a
      word character to `\[\[`, and `[^]]+` cannot end anywhere but at the
      first `]`, so each part of the match is determined by `p`. */
  function LinkAt(s: Str, p: nat): (r: Option<LinkMatch>)
    requires p <= |s|
    ensures r.Some? ==> r.value.start == p < r.value.end <= |s|
  {
    var q := SpanEnd(s, p, IsWord);
    if q + 1 < |s| && s[q] == '[' && s[q + 1] == '[' then
      var r := SpanEnd(s, q + 2, NotCloseBracket);
      if r > q + 2 && r + 1 < |s| && s[r + 1] == ']' then
        var e := SpanEnd(s, r + 2, IsWord);
        Some(LinkMatch(p, e, s[p..q], s[q + 2..r], s[r + 2..e]))
      else None
    else None
  }

  /** A link match is the text it was cut from: word characters, `[[`, the
      body, `]]` and word characters. */
  lemma LinkShape(s: Str, p: nat)
    requires p <= |s| && LinkAt(s, p).Some?
    ensures var m := LinkAt(s, p).value;
      s[p..m.end] == m.before + "[[" + m.body + "]]" + m.after
  {
    var m := LinkAt(s, p).value;
    var q := SpanEnd(s, p, IsWord);
    var r := SpanEnd(s, q + 2, NotCloseBracket);
    var e := m.end;
    assert m.before == s[p..q] && m.body == s[q + 2..r] && m.after == s[r + 2..e];
    assert s[q..q + 2] == "[[" && s[r..r + 2] == "]]";
    FiveSlices(s, p, q, r, e);
  }

  lemma FiveSlices(s: Str, p: nat, q: nat, r: nat, e: nat)
    requires p <= q && q + 2 <= r && r + 2 <= e <= |s|
    ensures s[p..e] == s[p..q] + s[q..q + 2] + s[q + 2..r] + s[r..r + 2] + s[r + 2..e]
  {
    SliceSplit(s, p, q, e);
    SliceSplit(s, q, q + 2, e);
    SliceSplit(s, q + 2, r, e);
    SliceSplit(s, r, r + 2, e);
  }

  /** The parts of a link match: the glued parts are word characters, the
      body is non-empty and has no `]`, and the trailing run is the longest. */
  lemma LinkParts(s: Str, p: nat)
    requires p <= |s| && LinkAt(s, p).Some?
    ensures var m := LinkAt(s, p).value;
      AllWord(m.before) && AllWord(m.after)
      && m.body != [] && ']' !in m.body
      && (m.end == |s| || !IsWord(s[m.end]))
  {
    var m := LinkAt(s, p).value;
    var q := SpanEnd(s, p, IsWord);
    var r := SpanEnd(s, q + 2, NotCloseBracket);
    assert m.body == s[q + 2..r];
    forall k | 0 <= k < |m.body| ensures m.body[k] != ']' {
      assert m.body[k] == s[q + 2 + k];
    }
  }

  /** `m` is the match of the link pattern anchored at its start, at or after `from`. */
  predicate IsLinkMatchFrom(s: Str, from: nat, m: LinkMatch) {
    from <= m.start <= |s| && LinkAt(s, m.start) == Some(m)
  }

  /** The leftmost link match at or after `from`. */
  function NextLink(s: Str, from: nat): (r: Option<LinkMatch>)
    requires from <= |s|
    ensures r.Some? ==> IsLinkMatchFrom(s, from, r.value)
    decreases |s| - from
  {
    match LinkAt(s, from)
    case Some(m) => Some(m)
    case None => if from == |s| then None else NextLink(s, from + 1)
  }

  /** No match of the pattern starts between `from` and the match found, nor
      anywhere after `from` when none is found. */
  lemma {:induction false} NextLinkLeftmost(s: Str, from: nat, p: nat)
    requires from <= p <= |s|
    requires NextLink(s, from).None? || p < NextLink(s, from).value.start
    ensures LinkAt(s, p).None?
    decreases p - from
  {
    if from < p {
      assert LinkAt(s, from).None?;
      NextLinkLeftmost(s, from + 1, p);
    }
  }

  /** `linkRE.FindAllStringSubmatch(s[from:], -1)`: successive leftmost,
      non-overlapping matches. */
  function LinkMatches(s: Str, from: nat): (r: seq<LinkMatch>)
    requires from <= |s|
    decreases |s| - from
  {
    match NextLink(s, from)
    case None => []
    case Some(m) => [m] + LinkMatches(s, m.end)
  }

  /** Every element of `r` is a match of the pattern at or after `from`, the
      elements are in text order without overlap, and no match was skipped. */
  ghost predicate MatchesInOrder(s: Str, from: nat, r: seq<LinkMatch>) {
    Ordered(s, from, r) && NoneSkipped(s, from, r)
  }

  /** Every element of `r` is a match at or after `from`, in text order
      without overlap. */
  ghost predicate Ordered(s: Str, from: nat, r: seq<LinkMatch>) {
    from <= |s|
    && (forall i :: 0 <= i < |r| ==> IsLinkMatchFrom(s, from, r[i]) && r[i].start < r[i].end <= |s|)
    && (forall i :: 0 <= i < |r| - 1 ==> r[i].end <= r[i + 1].start)
  }

  /** No match starts before the first element of `r`, in a gap between two,
      or after the last (anywhere at or after `from` when `r` is empty). */
  ghost predicate NoneSkipped(s: Str, from: nat, r: seq<LinkMatch>)
    requires Ordered(s, from, r)
  {
    (forall p :: from <= p <= |s| && (r == [] || p < r[0].start) ==> LinkAt(s, p).None?)
    && (forall i, p :: 0 <= i < |r| - 1 && r[i].end <= p < r[i + 1].start ==> LinkAt(s, p).None?)
    && (forall p :: r != [] && r[|r| - 1].end <= p <= |s| ==> LinkAt(s, p).None?)
  }

  lemma {:induction false} LinkMatchesInOrder(s: Str, from: nat)
    requires from <= |s|
    ensures MatchesInOrder(s, from, LinkMatches(s, from))
    decreases |s| - from
  {
    match NextLink(s, from)
    case None =>
      forall p | from <= p <= |s| ensures LinkAt(s, p).None? {
        NextLinkLeftmost(s, from, p);
      }
    case Some(m) =>
      LinkMatchesInOrder(s, m.end);
      var rest := LinkMatches(s, m.end);
      assert LinkMatches(s, from) == [m] + rest;
      OrderedCons(s, from, m, rest);
      NoneSkippedCons(s, from, m, rest);
  }

  lemma OrderedCons(s: Str, from: nat, m: LinkMatch, rest: seq<LinkMatch>)
    requires from <= |s| && IsLinkMatchFrom(s, from, m) && m.start < m.end <= |s|
    requires Ordered(s, m.end, rest)
    ensures Ordered(s, from, [m] + rest)
  {
    var r := [m] + rest;
    forall i | 0 <= i < |r| ensures IsLinkMatchFrom(s, from, r[i]) && r[i].start < r[i].end <= |s| {
      if i > 0 { assert r[i] == rest[i - 1]; }
    }
    forall i | 0 <= i < |r| - 1 ensures r[i].end <= r[i + 1].start {
      if i > 0 { assert r[i] == rest[i - 1] && r[i + 1] == rest[i]; }
      else { assert r[1] == rest[0]; }
    }
  }

  lemma NoneSkippedCons(s: Str, from: nat, m: LinkMatch, rest: seq<LinkMatch>)
    requires from <= |s| && NextLink(s, from) == Some(m) && m.start < m.end <= |s|
    requires Ordered(s, m.end, rest) && NoneSkipped(s, m.end, rest)
    requires Ordered(s, from, [m] + rest)
    ensures NoneSkipped(s, from, [m] + rest)
  {
    var r := [m] + rest;
    forall p | from <= p <= |s| && p < r[0].start ensures LinkAt(s, p).None? {
      NextLinkLeftmost(s, from, p);
    }
    NoneInGapsCons(s, from, m, rest);
    forall p | r[|r| - 1].end <= p <= |s| ensures LinkAt(s, p).None? {
      if rest != [] { assert r[|r| - 1] == rest[|rest| - 1]; }
    }
  }

  /** The gap after `m` is the part of `rest`'s range before its first match. */
  lemma NoneInGapsCons(s: Str, from: nat, m: LinkMatch, rest: seq<LinkMatch>)
    requires Ordered(s, m.end, rest) && NoneSkipped(s, m.end, rest)
    requires Ordered(s, from, [m] + rest)
    ensures var r := [m] + rest;
      forall i, p :: 0 <= i < |r| - 1 && r[i].end <= p < r[i + 1].start ==> LinkAt(s, p).None?
  {
    var r := [m] + rest;
    forall i, p | 0 <= i < |r| - 1 && r[i].end <= p < r[i + 1].start ensures LinkAt(s, p).None? {
      if i > 0 { assert r[i] == rest[i - 1] && r[i + 1] == rest[i]; }
      else { assert r[1] == rest[0]; }
    }
  }

  /** normSpace: trim, then turn every run of white space into one space. */
  function NormSpace(s: Str): (r: Str)
    ensures r == [] || (!IsTrimSpace(r[0]) && !IsTrimSpace(r[|r| - 1]))
    ensures forall k :: 0 <= k < |r| && IsRegexSpace(r[k]) ==> r[k] == ' '
    ensures forall k :: 0 <= k < |r| - 1 ==> !(IsRegexSpace(r[k]) && IsRegexSpace(r[k + 1]))
  {
    CollapseSpace(TrimSpace(s))
  }

  /** normSpace keeps every byte that is not white space, in order, and yields
      the empty string exactly for all-white-space input. */
  lemma NormSpaceKeepsContent(s: Str)
    ensures Erase(NormSpace(s)) == Erase(s)
    ensures NormSpace(s) == [] <==> Erase(s) == []
  {
    var t := TrimSpace(s);
    EraseTrimSpace(s);
    CollapseKeepsContent(t);
    EraseKeepsHead(CollapseSpace(t));
  }

  /** Two words with white space between and around them normalise to the
      words joined by exactly one space. */
  lemma NormSpaceTwoWords(w1: Str, a: Str, w2: Str, b: Str, w3: Str)
    requires AllTrimSpace(w1) && AllTrimSpace(w3)
    requires w2 != [] && AllRegexSpace(w2)
    requires a != [] && NoRegexSpace(a) && !IsTrimSpace(a[0])
    requires b != [] && NoRegexSpace(b) && !IsTrimSpace(b[|b| - 1])
    ensures NormSpace(w1 + a + w2 + b + w3) == a + " " + b
  {
    var m := a + w2 + b;
    assert m[0] == a[0] && m[|m| - 1] == b[|b| - 1];
    assert TrimSpace(w1 + a + w2 + b + w3) == m by {
      AppendAssoc(w1, a, w2);
      AppendAssoc(w1, a + w2, b);
      TrimAround(w1, m, w3);
    }
    CollapseRun(a, w2, b);
    CollapseNoSpace(a);
    CollapseNoSpace(b);
  }

  /** The anchor of wikisyntax_test.go: a line break and an indentation
      between two words become one space. */
  lemma ChuckNorrisAnchor(s: Str)
    requires s == "Chuck\n          Norris"
    ensures NormSpace(s) == "Chuck Norris"
  {
    JoinWords(s, [], "Chuck", "\n          ", "Norris", [], "Chuck Norris");
  }

  lemma JoinWords(s: Str, w1: Str, a: Str, w2: Str, b: Str, w3: Str, r: Str)
    requires s == w1 + a + w2 + b + w3 && r == a + " " + b
    requires AllTrimSpace(w1) && AllTrimSpace(w3)
    requires w2 != [] && AllRegexSpace(w2)
    requires a != [] && NoRegexSpace(a) && !IsTrimSpace(a[0])
    requires b != [] && NoRegexSpace(b) && !IsTrimSpace(b[|b| - 1])
    ensures NormSpace(s) == r
  {
    NormSpaceTwoWords(w1, a, w2, b, w3);
  }

  lemma EraseKeepsHead(r: Str)
    ensures r != [] && !IsTrimSpace(r[0]) ==> Erase(r) != []
  {
  }

  /** The target and the anchor text of a link body: split at the first `|`,
      or the whole body for both. */
  function SplitPipe(body: Str): (r: (Str, Str))
    ensures '|' !in body ==> r == (body, body)
    ensures '|' in body ==> '|' !in r.0 && body == r.0 + "|" + r.1
  {
    match IndexByte(body, '|')
    case None => (body, body)
    case Some(p) =>
      assert body == body[..p] + "|" + body[p + 1..];
      (body[..p], body[p + 1..])
  }

  /** The target with any section reference (from the first `#` on) removed. */
  function CutSection(target: Str): (r: Str)
    ensures '#' !in r
    ensures '#' !in target ==> r == target
    ensures '#' in target ==> |r| < |target| && target[..|r|] == r && target[|r|] == '#'
  {
    match IndexByte(target, '#')
    case None => target
    case Some(h) => target[..h]
  }

  /** The ASCII case of `unicode.ToUpper` on the first character. */
  function UpperFirst(t: Str): (r: Str)
    ensures |r| == |t| && forall k :: 1 <= k < |t| ==> r[k] == t[k]
    ensures t != [] ==> !IsLower(r[0]) && (!IsLower(t[0]) ==> r[0] == t[0])
    ensures t != [] && IsLower(t[0]) ==> r[0] as int == t[0] as int - 32
  {
    if t != [] && IsLower(t[0]) then [(t[0] as int - 32) as char] + t[1..] else t
  }

  /** The target in the form used by `<redirect>` elements: underscores
      become spaces, white space is normalised, and the first letter is upper case. */
  function NormalizeTarget(t: Str): (r: Str)
    ensures '_' !in r
    ensures r == [] || (!IsTrimSpace(r[0]) && !IsTrimSpace(r[|r| - 1]) && !IsLower(r[0]))
    ensures forall k :: 0 <= k < |r| - 1 ==> !(IsRegexSpace(r[k]) && IsRegexSpace(r[k + 1]))
  {
    var n := NormSpace(ReplaceByte(t, '_', ' '));
    NoUnderscoreLeft(t);
    UpperFirstKeepsShape(n);
    UpperFirst(n)
  }

  /** The cut at the first `#` of a target. */
  lemma CutAt(t: Str, h: nat)
    requires h < |t| && t[h] == '#' && '#' !in t[..h]
    ensures CutSection(t) == t[..h]
  {
  }

  /** The link target of wikisyntax_test.go whose underscores, surrounding
      white space and section reference all go: `_target _page_ #\nsection`
      becomes `Target page`. */
  lemma TargetPageTarget(t: Str)
    requires t == "_target _page_ #\nsection"
    ensures NormalizeTarget(CutSection(t)) == "Target page"
  {
    var c := CutTargetPage(t);
    var u := UnderscoresTargetPage(c);
    var n := TargetPageWords(u);
    var r := UpperTargetPage(n);
  }

  lemma CutTargetPage(t: Str) returns (c: Str)
    requires t == "_target _page_ #\nsection"
    ensures c == "_target _page_ " && CutSection(t) == c
  {
    c := "_target _page_ ";
    assert t[..15] == c;
    CutAt(t, 15);
  }

  lemma UnderscoresTargetPage(c: Str) returns (u: Str)
    requires c == "_target _page_ "
    ensures u == " target  page  " && ReplaceByte(c, '_', ' ') == u
  {
    u := " target  page  ";
  }

  lemma TargetPageWords(u: Str) returns (n: Str)
    requires u == " target  page  "
    ensures n == "target page" && NormSpace(u) == n
  {
    n := "target page";
    JoinWords(u, " ", "target", "  ", "page", "  ", n);
  }

  lemma UpperTargetPage(n: Str) returns (r: Str)
    requires n == "target page"
    ensures r == "Target page" && UpperFirst(n) == r
  {
    r := "Target page";
    assert UpperFirst(n)[0] == 'T';
  }

  /** Upper-casing the first letter keeps a normalised string normalised. */
  lemma UpperFirstKeepsShape(n: Str)
    requires '_' !in n
    requires n == [] || (!IsTrimSpace(n[0]) && !IsTrimSpace(n[|n| - 1]))
    requires forall k :: 0 <= k < |n| - 1 ==> !(IsRegexSpace(n[k]) && IsRegexSpace(n[k + 1]))
    ensures var r := UpperFirst(n);
      '_' !in r
      && (r == [] || (!IsTrimSpace(r[0]) && !IsTrimSpace(r[|r| - 1]) && !IsLower(r[0])))
      && forall k :: 0 <= k < |r| - 1 ==> !(IsRegexSpace(r[k]) && IsRegexSpace(r[k + 1]))
  {
    var r := UpperFirst(n);
    if n != [] {
      assert r == [r[0]] + n[1..];
    }
  }

  lemma NoUnderscoreLeft(t: Str)
    ensures '_' !in NormSpace(ReplaceByte(t, '_', ' '))
  {
    var u := ReplaceByte(t, '_', ' ');
    var n := NormSpace(u);
    assert '_' !in u by {
      forall k | 0 <= k < |u| ensures u[k] != '_' { }
    }
    assert Erase(n) == Erase(u) by { NormSpaceKeepsContent(u); }
    forall k | 0 <= k < |n| ensures n[k] != '_' {
      if !IsTrimSpace(n[k]) {
        ErasedMember(u, n, k);
      }
    }
  }

  /** A target normalises to nothing exactly when it holds only underscores
      and white space. */
  lemma NormalizeTargetBlank(t: Str)
    ensures NormalizeTarget(t) == [] <==> IsBlankTarget(t)
  {
    var u := ReplaceByte(t, '_', ' ');
    NormSpaceKeepsContent(u);
    BlankIffNoContent(t, u);
  }

  predicate IsBlankTarget(t: Str) {
    forall k :: 0 <= k < |t| ==> t[k] == '_' || IsTrimSpace(t[k])
  }

  lemma {:induction false} BlankIffNoContent(t: Str, u: Str)
    requires u == ReplaceByte(t, '_', ' ')
    ensures Erase(u) == [] <==> IsBlankTarget(t)
    decreases |t|
  {
    if t != [] {
      BlankIffNoContent(t[1..], u[1..]);
      assert forall k :: 0 <= k < |t| - 1 ==> t[1..][k] == t[k + 1];
    }
  }

  /** A byte that white-space normalisation keeps was already in its input. */
  lemma ErasedMember(u: Str, n: Str, k: nat)
    requires k < |n| && Erase(n) == Erase(u) && !IsTrimSpace(n[k])
    ensures n[k] in u
  {
    assert n == n[..k] + [n[k]] + n[k + 1..];
    EraseConcat(n[..k] + [n[k]], n[k + 1..]);
    EraseConcat(n[..k], [n[k]]);
    assert n[k] in Erase(n);
    EraseSubset(u);
  }

  lemma {:induction false} EraseSubset(u: Str)
    ensures forall c :: c in Erase(u) ==> c in u
    decreases |u|
  {
    if u != [] { EraseSubset(u[1..]); }
  }

  /** What one match contributes to the frequency table, if anything. A body
      whose target holds a `:` is a file, category or other namespace link and
      is skipped, as is a link whose target is empty once its section
      reference is cut off and its white space normalised. */
  function LinkOf(m: LinkMatch): (r: Option<Link>)
    ensures var (target, anchor) := SplitPipe(m.body); var t := CutSection(target);
      r.None? <==> (':' in target || IsBlankTarget(t))
    ensures r.Some? ==> var (target, anchor) := SplitPipe(m.body);
      r.value.anchor == m.before + NormSpace(anchor) + m.after
      && r.value.target == NormalizeTarget(CutSection(target))
      && r.value.target != [] && !IsLower(r.value.target[0])
  {
    var (target, anchor) := SplitPipe(m.body);
    NormalizeTargetBlank(CutSection(target));
    if ':' in target then None
    else
      var t := NormalizeTarget(CutSection(target));
      if t == [] then None else Some(Link(m.before + NormSpace(anchor) + m.after, t))
  }

  /** The UTF-8 encoding of U+FFFD, the replacement character that decoding
      the first rune of an empty string yields and that upper-casing keeps. */
  const ReplacementChar: Str := ['\U{00EF}', '\U{00BF}', '\U{00BD}']

  /** The target normalisation as the source writes it: the emptiness test
      comes before white space is normalised, so an empty normalised target
      gets the replacement character as its "upper-cased first letter". */
  function NormalizeTargetAsWritten(t: Str): (r: Str)
    ensures NormalizeTarget(t) != [] ==> r == NormalizeTarget(t)
    ensures NormalizeTarget(t) == [] ==> r == ReplacementChar
  {
    var n := NormSpace(ReplaceByte(t, '_', ' '));
    if n == [] then ReplacementChar else UpperFirst(n)
  }

  /** The per-match step as the source writes it: only an empty cut target is skipped. */
  function LinkOfAsWritten(m: LinkMatch): (r: Option<Link>)
    ensures var (target, anchor) := SplitPipe(m.body);
      r.None? <==> (':' in target || CutSection(target) == [])
  {
    var (target, anchor) := SplitPipe(m.body);
    if ':' in target then None
    else
      var t := CutSection(target);
      if t == [] then None
      else Some(Link(m.before + NormSpace(anchor) + m.after, NormalizeTargetAsWritten(t)))
  }

  /** `[[ ]]`: the source records a link to the
      title made of the replacement character, where a blank target is meant
      to be skipped like an empty one. */
  lemma BlankTargetAsWritten(m: LinkMatch)
    requires m.body == " "
    ensures LinkOfAsWritten(m) == Some(Link(m.before + m.after, ReplacementChar))
    ensures LinkOf(m) == None
  {
    assert '|' !in m.body && '#' !in m.body && ':' !in m.body;
    assert IsBlankTarget(m.body);
    NormalizeTargetBlank(m.body);
    var a := NormSpace(m.body);
    assert a == [] by {
      NormSpaceKeepsContent(m.body);
      assert m.body[1..] == [];
    }
    assert m.before + a + m.after == m.before + m.after;
  }

  /** The per-match step of the extraction loop: as the source writes it
      (`asWritten`), or with blank targets dropped as intended. */
  function StepLink(asWritten: bool, m: LinkMatch): Option<Link> {
    if asWritten then LinkOfAsWritten(m) else LinkOf(m)
  }

  /** The links a sequence of matches contributes, in order. */
  function KeptLinks(ms: seq<LinkMatch>, asWritten: bool): (r: seq<Link>)
    ensures |r| <= |ms|
  {
    if ms == [] then []
    else KeptLinks(ms[..|ms| - 1], asWritten)
         + (match StepLink(asWritten, ms[|ms| - 1]) case None => [] case Some(l) => [l])
  }

  /** `freq` counts every link of `links`, and nothing else. */
  ghost predicate IsFrequencyTable(freq: map<Link, nat>, links: seq<Link>) {
    (forall l :: l in freq <==> l in links)
    && forall l :: l in freq ==> freq[l] == multiset(links)[l]
  }

  /** `extractLinks` as the source writes it: the frequency table of the
      links in `s`, a blank target counted under U+FFFD. A link occurring
      several times is counted several times. */
  method ExtractLinks(s: Str) returns (freq: map<Link, nat>)
    ensures IsFrequencyTable(freq, KeptLinks(LinkMatches(s, 0), true))
  {
    freq := ExtractLinksWith(s, true);
  }

  /** `extractLinks` corrected: links whose target is blank are skipped. */
  method ExtractLinksCorrected(s: Str) returns (freq: map<Link, nat>)
    ensures IsFrequencyTable(freq, KeptLinks(LinkMatches(s, 0), false))
    ensures forall l :: l in freq ==> l.target != [] && !IsLower(l.target[0])
  {
    freq := ExtractLinksWith(s, false);
    forall l | l in freq ensures l.target != [] && !IsLower(l.target[0]) {
      CorrectedTargets(LinkMatches(s, 0), l);
    }
  }

  /** Every link the corrected step keeps has a non-empty target that does
      not start with a lower-case letter. */
  lemma {:induction false} CorrectedTargets(ms: seq<LinkMatch>, l: Link)
    requires l in KeptLinks(ms, false)
    ensures l.target != [] && !IsLower(l.target[0])
    decreases |ms|
  {
    var init := KeptLinks(ms[..|ms| - 1], false);
    if l !in init {
      assert StepLink(false, ms[|ms| - 1]) == Some(l);
    } else {
      CorrectedTargets(ms[..|ms| - 1], l);
    }
  }

  /** The loop of `extractLinks` over the matches, with the per-match step
      chosen by `asWritten`. */
  method ExtractLinksWith(s: Str, asWritten: bool) returns (freq: map<Link, nat>)
    ensures IsFrequencyTable(freq, KeptLinks(LinkMatches(s, 0), asWritten))
  {
    var candidates := LinkMatches(s, 0);
    freq := map[];
    var i := 0;
    while i < |candidates|
      invariant 0 <= i <= |candidates|
      invariant IsFrequencyTable(freq, KeptLinks(candidates[..i], asWritten))
    {
      ghost var freq0 := freq;
      var link := StepLink(asWritten, candidates[i]);
      if link.Some? {
        freq := Bump(freq, link.value);
      }
      ExtractStep(candidates, i, asWritten, link, freq0, freq);
      i := i + 1;
    }
    assert candidates[..i] == candidates;
  }

  /** `[[ ]]`: the source counts one link to the title U+FFFD with an empty
      anchor, where the corrected loop counts nothing. */
  lemma BlankLinkCounted()
    ensures KeptLinks(LinkMatches("[[ ]]", 0), true) == [Link([], ReplacementChar)]
    ensures KeptLinks(LinkMatches("[[ ]]", 0), false) == []
  {
    var m := LinkMatch(0, 5, [], " ", []);
    BlankLinkMatches("[[ ]]", m);
    BlankTargetAsWritten(m);
    KeptOfOne(m, true);
    KeptOfOne(m, false);
  }

  lemma KeptOfOne(m: LinkMatch, asWritten: bool)
    ensures KeptLinks([m], asWritten) == match StepLink(asWritten, m) case None => [] case Some(l) => [l]
  {
    assert [m][..0] == [];
  }

  /** The one match in `[[ ]]`. */
  lemma BlankLinkMatches(s: Str, m: LinkMatch)
    requires s == "[[ ]]" && m == LinkMatch(0, 5, [], " ", [])
    ensures LinkMatches(s, 0) == [m]
  {
    assert LinkAt(s, 0) == Some(m) by {
      assert s[0] == '[' && s[1] == '[' && s[2] == ' ' && s[3] == ']' && s[4] == ']';
      assert SpanEnd(s, 0, IsWord) == 0;
      assert SpanEnd(s, 2, NotCloseBracket) == 3 by {
        assert SpanEnd(s, 3, NotCloseBracket) == 3;
      }
      assert SpanEnd(s, 5, IsWord) == 5;
      assert s[0..0] == [] && s[2..3] == [s[2]] && s[5..5] == [];
    }
    assert NextLink(s, 0) == Some(m);
    assert LinkAt(s, 5).None? by {
      assert SpanEnd(s, 5, IsWord) == 5;
    }
    assert NextLink(s, 5) == None;
  }

  /** `freq[l]++` on a Go map: a missing key counts as zero. */
  function Bump(freq: map<Link, nat>, l: Link): (r: map<Link, nat>)
    ensures l in r && r[l] == (if l in freq then freq[l] else 0) + 1
    ensures forall x :: x != l ==> (x in r <==> x in freq) && (x in freq ==> r[x] == freq[x])
  {
    freq[l := if l in freq then freq[l] + 1 else 1]
  }

  /** One turn of the extraction loop keeps the table exact. */
  lemma ExtractStep(ms: seq<LinkMatch>, i: nat, asWritten: bool, link: Option<Link>,
                    freq0: map<Link, nat>, freq: map<Link, nat>)
    requires i < |ms| && link == StepLink(asWritten, ms[i])
    requires IsFrequencyTable(freq0, KeptLinks(ms[..i], asWritten))
    requires freq == if link.Some? then Bump(freq0, link.value) else freq0
    ensures IsFrequencyTable(freq, KeptLinks(ms[..i + 1], asWritten))
  {
    KeptLinksStep(ms, i, asWritten);
    match link
    case None =>
      assert KeptLinks(ms[..i + 1], asWritten) == KeptLinks(ms[..i], asWritten) + [];
    case Some(l) =>
      CountOneMore(freq0, KeptLinks(ms[..i], asWritten), l);
  }

  lemma KeptLinksStep(ms: seq<LinkMatch>, i: nat, asWritten: bool)
    requires i < |ms|
    ensures KeptLinks(ms[..i + 1], asWritten)
            == KeptLinks(ms[..i], asWritten) + match StepLink(asWritten, ms[i]) case None => [] case Some(l) => [l]
  {
    assert ms[..i + 1][..i] == ms[..i];
  }

  /** Counting one more occurrence of `l` keeps the table exact. */
  lemma CountOneMore(freq: map<Link, nat>, links: seq<Link>, l: Link)
    requires IsFrequencyTable(freq, links)
    ensures IsFrequencyTable(Bump(freq, l), links + [l])
  {
    var links' := links + [l];
    var freq' := Bump(freq, l);
    assert multiset(links') == multiset(links) + multiset{l};
    forall x ensures x in freq' <==> x in links' {
      assert x in links' <==> x in links || x == l;
    }
  }
}
