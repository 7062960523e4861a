/** The paragraph splitters handed to `bufio.Scanner`: a paragraph ends at
    the leftmost match of the regular expression `\n\s*\n` (a newline, white
    space, a newline, as long as possible); without one, all remaining data
    is a paragraph once the input is exhausted, and more data is asked for
    otherwise. */
module SplitPara {
  import opened Text

  /** The result of a split function: how many bytes to consume and the
      token, `None` standing for Go's nil slice (no token). The error result
      is always nil and is left out. */
  datatype Split = Split(advance: nat, token: Option<Str>)

  /** A match of `\n\s*\n`: newlines at both ends and white space between. */
  predicate IsSeparator(x: Str) {
    |x| >= 2 && x[0] == '\n' && x[|x| - 1] == '\n'
    && forall k :: 0 <= k < |x| ==> IsRegexSpace(x[k])
  }

  ghost predicate SeparatorFree(s: Str) {
    forall p, q :: 0 <= p < q <= |s| ==> !IsSeparator(s[p..q])
  }

  /** `data[a:b]` is the match `FindIndex` reports: no match starts before
      `a`, and the greedy `\s*` makes it the longest one starting at `a`. */
  ghost predicate FirstSeparator(data: Str, a: nat, b: nat) {
    a < b <= |data| && IsSeparator(data[a..b])
    && (forall p, q :: 0 <= p < a && p < q <= |data| ==> !IsSeparator(data[p..q]))
    && (forall q :: b < q <= |data| ==> !IsSeparator(data[a..q]))
  }

  /** The last newline in `s[a:b]`. */
  function LastNewline(s: Str, a: nat, b: nat): (r: Option<nat>)
    requires a <= b <= |s|
    ensures r.Some? ==> a <= r.value < b && s[r.value] == '\n'
                        && forall k :: r.value < k < b ==> s[k] != '\n'
    ensures r.None? ==> forall k :: a <= k < b ==> s[k] != '\n'
    decreases b - a
  {
    if b <= a then None
    else if s[b - 1] == '\n' then Some(b - 1)
    else LastNewline(s, a, b - 1)
  }

  /** The end of the longest separator starting at `p`: just past the last
      newline of the white-space run that follows the newline at `p`. */
  function SeparatorAt(s: Str, p: nat): (r: Option<nat>)
    requires p <= |s|
    ensures r.Some? ==> p < r.value <= |s|
  {
    if p < |s| && s[p] == '\n' then
      match LastNewline(s, p + 1, SpanEnd(s, p + 1, IsRegexSpace))
      case Some(k) => Some(k + 1)
      case None => None
    else None
  }

  /** `paraEnd.FindIndex(data[from:])`, as positions in `data`. */
  function FindParaEnd(s: Str, from: nat): (r: Option<(nat, nat)>)
    requires from <= |s|
    ensures r.Some? ==> from <= r.value.0 < r.value.1 <= |s|
    decreases |s| - from
  {
    if from == |s| then None
    else match SeparatorAt(s, from)
      case Some(e) => Some((from, e))
      case None => FindParaEnd(s, from + 1)
  }

  /** What `SeparatorAt` finds is a separator, and no separator from `p`
      is longer. */
  lemma SeparatorAtSound(s: Str, p: nat)
    requires p <= |s| && SeparatorAt(s, p).Some?
    ensures IsSeparator(s[p..SeparatorAt(s, p).value])
    ensures forall q :: SeparatorAt(s, p).value < q <= |s| ==> !IsSeparator(s[p..q])
  {
    var w := SpanEnd(s, p + 1, IsRegexSpace);
    var e := SeparatorAt(s, p).value;
    forall q | e < q <= |s| ensures !IsSeparator(s[p..q]) {
    }
    forall k | 0 <= k < e - p ensures IsRegexSpace(s[p..e][k]) {
      assert s[p..e][k] == s[p + k];
    }
  }

  /** A separator starting at `p` is found there. */
  lemma SeparatorAtComplete(s: Str, p: nat, q: nat)
    requires p < q <= |s| && IsSeparator(s[p..q])
    ensures SeparatorAt(s, p).Some?
  {
    assert s[p..q][0] == s[p];
    var w := SpanEnd(s, p + 1, IsRegexSpace);
    forall k | p + 1 <= k < q ensures IsRegexSpace(s[k]) {
      assert s[p..q][k - p] == s[k];
    }
    assert s[p..q][q - 1 - p] == s[q - 1];
  }

  /** The scan finds the first separator at or after `from`, and finds none
      only if there is none. */
  lemma {:induction false} FindParaEndLeftmost(s: Str, from: nat, p: nat, q: nat)
    requires from <= p < q <= |s| && IsSeparator(s[p..q])
    ensures FindParaEnd(s, from).Some? && FindParaEnd(s, from).value.0 <= p
    decreases |s| - from
  {
    if SeparatorAt(s, from).None? {
      if from == p {
        SeparatorAtComplete(s, p, q);
      }
      FindParaEndLeftmost(s, from + 1, p, q);
    }
  }

  lemma {:induction false} FindParaEndSound(s: Str, from: nat)
    requires from <= |s| && FindParaEnd(s, from).Some?
    ensures var (a, b) := FindParaEnd(s, from).value;
            IsSeparator(s[a..b]) && forall q :: b < q <= |s| ==> !IsSeparator(s[a..q])
    decreases |s| - from
  {
    if SeparatorAt(s, from).Some? {
      SeparatorAtSound(s, from);
    } else {
      FindParaEndSound(s, from + 1);
    }
  }

  /** The scan from the start reports exactly the match of `FindIndex`, and
      reports none exactly when the data holds no separator. */
  lemma FindParaEndMeans(s: Str)
    ensures FindParaEnd(s, 0).Some? ==>
            FirstSeparator(s, FindParaEnd(s, 0).value.0, FindParaEnd(s, 0).value.1)
    ensures FindParaEnd(s, 0).None? <==> SeparatorFree(s)
  {
    forall p, q | 0 <= p < q <= |s| && IsSeparator(s[p..q])
      ensures FindParaEnd(s, 0).Some? && FindParaEnd(s, 0).value.0 <= p
    {
      FindParaEndLeftmost(s, 0, p, q);
    }
    if FindParaEnd(s, 0).Some? {
      FindParaEndSound(s, 0);
    }
  }

  /** There is at most one first separator. */
  lemma FirstSeparatorUnique(data: Str, a: nat, b: nat, a': nat, b': nat)
    requires FirstSeparator(data, a, b) && FirstSeparator(data, a', b')
    ensures a == a' && b == b'
  {
  }

  /** `splitPara` of semanticizest/main.go and client/main.go: the data
      before the first separator, consuming the separator; all the data at
      the end of the input; otherwise a request for more data. */
  function SplitPlain(data: Str, atEOF: bool): (r: Split)
    ensures r.advance <= |data|
  {
    match FindParaEnd(data, 0)
    case Some((a, b)) => Split(b, Some(data[..a]))
    case None => if atEOF then Split(|data|, Some(data)) else Split(0, None)
  }

  /** With a separator, the token is the data before it and the separator
      is consumed with it. */
  lemma SplitPlainSeparator(data: Str, atEOF: bool, a: nat, b: nat)
    requires FirstSeparator(data, a, b)
    ensures SplitPlain(data, atEOF) == Split(b, Some(data[..a]))
    ensures data[..a] + data[a..b] == data[..SplitPlain(data, atEOF).advance]
  {
    FindParaEndMeans(data);
    var (a', b') := FindParaEnd(data, 0).value;
    FirstSeparatorUnique(data, a, b, a', b');
  }

  /** Without a separator, the whole data at the end of the input, and
      nothing, consuming nothing, before it. */
  lemma SplitPlainNoSeparator(data: Str, atEOF: bool)
    requires SeparatorFree(data)
    ensures SplitPlain(data, atEOF) == if atEOF then Split(|data|, Some(data)) else Split(0, None)
  {
    FindParaEndMeans(data);
  }

  /** A token never contains a separator. */
  lemma SplitPlainTokenFree(data: Str, atEOF: bool)
    requires SplitPlain(data, atEOF).token.Some?
    ensures SeparatorFree(SplitPlain(data, atEOF).token.value)
  {
    FindParaEndMeans(data);
    var t := SplitPlain(data, atEOF).token.value;
    if FindParaEnd(data, 0).Some? {
      var a := FindParaEnd(data, 0).value.0;
      forall p, q | 0 <= p < q <= |t| ensures !IsSeparator(t[p..q]) {
        assert t[p..q] == data[p..q];
      }
    }
  }

  /** At the end of the input with nothing left, the token is the empty,
      non-nil slice: `bufio.Scanner` reports it as one more, empty,
      paragraph without consuming anything, and does so on every call. */
  lemma SplitPlainEmptyAtEOF()
    ensures SplitPlain([], true) == Split(0, Some([]))
  {
    assert FindParaEnd([], 0) == None;
  }

  /** `splitPara` with the missing end-of-input check: no token once the data
      is used up. */
  function SplitPlainFixed(data: Str, atEOF: bool): (r: Split)
    ensures r.advance <= |data|
  {
    if atEOF && data == [] then Split(0, None) else SplitPlain(data, atEOF)
  }

  /** Every token comes with progress, as `bufio.Scanner` requires of a
      split function at the end of the input. */
  lemma SplitPlainFixedProgress(data: Str, atEOF: bool)
    ensures SplitPlainFixed(data, atEOF).token.Some? ==> SplitPlainFixed(data, atEOF).advance > 0
  {
    if FindParaEnd(data, 0).Some? {
      assert FindParaEnd(data, 0).value.1 > 0;
    }
  }

  /** `bytes.TrimSpace` of a possibly nil slice: nil when nothing is left. */
  function TrimToken(t: Option<Str>): (r: Option<Str>)
    ensures r.Some? ==> r.value != [] && !IsTrimSpace(r.value[0]) && !IsTrimSpace(r.value[|r.value| - 1])
  {
    match t
    case None => None
    case Some(s) => if TrimSpace(s) == [] then None else Some(TrimSpace(s))
  }

  /** `splitPara` of cmd/semanticizest/main.go: the same split, the token
      trimmed of white space. */
  function SplitTrimmed(data: Str, atEOF: bool): (r: Split)
    ensures r.advance <= |data|
  {
    var s := SplitPlain(data, atEOF);
    Split(s.advance, TrimToken(s.token))
  }

  lemma SeparatorFreeSlice(s: Str, i: nat, j: nat)
    requires i <= j <= |s| && SeparatorFree(s)
    ensures SeparatorFree(s[i..j])
  {
    forall p, q | 0 <= p < q <= j - i ensures !IsSeparator(s[i..j][p..q]) {
      assert s[i..j][p..q] == s[i + p..i + q] by {
        forall k | 0 <= k < q - p ensures s[i..j][p..q][k] == s[i + p + k] {
          assert s[i..j][p + k] == s[i + p + k];
        }
      }
    }
  }

  /** A trimmed token is non-empty, has no white space at either end, holds
      no separator, and is only handed out with progress. */
  lemma SplitTrimmedToken(data: Str, atEOF: bool)
    requires SplitTrimmed(data, atEOF).token.Some?
    ensures var t := SplitTrimmed(data, atEOF).token.value;
            t != [] && !IsTrimSpace(t[0]) && !IsTrimSpace(t[|t| - 1]) && SeparatorFree(t)
    ensures SplitTrimmed(data, atEOF).advance > 0
  {
    SplitPlainTokenFree(data, atEOF);
    var t := SplitPlain(data, atEOF).token.value;
    TrimSpaceIsSlice(t);
    var i, j :| 0 <= i <= j <= |t| && TrimSpace(t) == t[i..j];
    SeparatorFreeSlice(t, i, j);
    if FindParaEnd(data, 0).Some? {
      assert FindParaEnd(data, 0).value.1 > 0;
    }
  }

  /** A paragraph without newlines and without white space at its ends,
      then a blank line: the paragraph, consuming the blank line. */
  lemma FirstOfTwo(first: Str, rest: Str)
    requires first != [] && '\n' !in first
    requires !IsTrimSpace(first[0]) && !IsTrimSpace(first[|first| - 1])
    requires rest != [] && !IsRegexSpace(rest[0])
    ensures SplitTrimmed(first + "\n\n" + rest, true) == Split(|first| + 2, Some(first))
  {
    var data := first + "\n\n" + rest;
    var n := |first|;
    forall p, q | 0 <= p < n && p < q <= |data| ensures !IsSeparator(data[p..q]) {
      assert data[p..q][0] == first[p];
    }
    forall q | n + 2 < q <= |data| ensures !IsSeparator(data[n..q]) {
      assert data[n..q][2] == rest[0];
    }
    assert data[n..n + 2] == "\n\n";
    SplitPlainSeparator(data, true, n, n + 2);
    assert data[..n] == first;
    assert TrimSpace(first) == first;
  }

  /** The last paragraph, ending in a newline, at the end of the input. */
  lemma LastParagraph(second: Str)
    requires second != [] && '\n' !in second
    requires !IsTrimSpace(second[0]) && !IsTrimSpace(second[|second| - 1])
    ensures SplitTrimmed(second + "\n", true) == Split(|second| + 1, Some(second))
  {
    var rest := second + "\n";
    forall p, q | 0 <= p < q <= |rest| ensures !IsSeparator(rest[p..q]) {
      if p < |second| {
        assert rest[p] == second[p];
        assert rest[p..q][0] == rest[p];
      }
    }
    SplitPlainNoSeparator(rest, true);
    assert TrimRight(rest) == TrimRight(second);
  }

  /** The calls `bufio.Scanner` makes on two paragraphs separated by one
      blank line, the second ending in a newline, when all of it is buffered
      and the input ends there: the first paragraph, then the second, then
      no token for the empty rest, which ends the scan. */
  lemma TwoParagraphsAround(first: Str, second: Str)
    requires first != [] && second != []
    requires '\n' !in first && '\n' !in second
    requires !IsTrimSpace(first[0]) && !IsTrimSpace(first[|first| - 1])
    requires !IsTrimSpace(second[0]) && !IsTrimSpace(second[|second| - 1])
    ensures var data := first + "\n\n" + second + "\n";
            SplitTrimmed(data, true) == Split(|first| + 2, Some(first))
            && data[|first| + 2..] == second + "\n"
            && SplitTrimmed(second + "\n", true) == Split(|second| + 1, Some(second))
  {
    var rest := second + "\n";
    var data := first + "\n\n" + rest;
    assert first + "\n\n" + second + "\n" == data;
    assert SplitTrimmed(data, true) == Split(|first| + 2, Some(first)) by {
      FirstOfTwo(first, rest);
    }
    assert data[|first| + 2..] == rest;
    assert SplitTrimmed(rest, true) == Split(|second| + 1, Some(second)) by {
      LastParagraph(second);
    }
  }

  /** Nothing left at the end of the input: no token, which ends the scan. */
  lemma NothingLeft(data: Str)
    requires data == []
    ensures SplitTrimmed(data, true) == Split(0, None)
  {
    assert FindParaEnd(data, 0) == None;
  }

  /** On "first paragraph\n\nsecond\n" the scanner gets "first paragraph",
      then "second", then no more tokens. */
  lemma TwoParagraphs(data: Str)
    requires data == "first paragraph\n\nsecond\n"
    ensures SplitTrimmed(data, true) == Split(17, Some(data[..15]))
    ensures data[..15] == "first paragraph"
    ensures SplitTrimmed(data[17..], true) == Split(7, Some(data[17..23]))
    ensures data[17..23] == "second"
    ensures SplitTrimmed(data[24..], true) == Split(0, None)
  {
    var first := data[..15];
    var second := data[17..23];
    assert first == "first paragraph";
    assert second == "second";
    assert data == first + "\n\n" + second + "\n";
    TwoParagraphsAround(first, second);
    NothingLeft(data[24..]);
  }
}
