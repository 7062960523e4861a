/** Byte strings and the ASCII character classes shared by the scanners.

    Go strings are sequences of bytes; a `Byte` here is a character whose code
    is below 256, so that string literals can be written directly. */
module Text {

  type Byte = c: char | c as int < 256
  type Str = seq<Byte>

  datatype Option<T> = None | Some(value: T)

  /** `\w` of Go's regexp package: ASCII letters, digits and underscore. */
  predicate IsWord(c: Byte) {
    ('a' <= c <= 'z') || ('A' <= c <= 'Z') || ('0' <= c <= '9') || c == '_'
  }

  /** `\d` of Go's regexp package. */
  predicate IsDigit(c: Byte) {
    '0' <= c <= '9'
  }

  /** `\s` of Go's regexp package: tab, newline, form feed, carriage return, space. */
  predicate IsRegexSpace(c: Byte) {
    c == '\t' || c == '\n' || c == '\U{000C}' || c == '\r' || c == ' '
  }

  /** The ASCII part of `unicode.IsSpace`, used by `strings.TrimSpace` and
      `bytes.TrimSpace`; unlike `\s` it includes the vertical tab. */
  predicate IsTrimSpace(c: Byte) {
    IsRegexSpace(c) || c == '\U{000B}'
  }

  predicate AllTrimSpace(s: Str) {
    forall k :: 0 <= k < |s| ==> IsTrimSpace(s[k])
  }

  /** Drops leading white space. */
  function TrimLeft(s: Str): (r: Str)
    ensures |r| <= |s| && r == s[|s| - |r|..]
    ensures AllTrimSpace(s[..|s| - |r|])
    ensures r == [] || !IsTrimSpace(r[0])
  {
    if s != [] && IsTrimSpace(s[0]) then
      var r := TrimLeft(s[1..]);
      assert s[1..][|s| - 1 - |r|..] == s[|s| - |r|..];
      assert forall k :: 0 <= k < |s| - |r| ==> IsTrimSpace(s[k]) by {
        forall k | 0 <= k < |s| - |r| ensures IsTrimSpace(s[k]) {
          if k > 0 { assert s[k] == s[1..][..|s| - 1 - |r|][k - 1]; }
        }
      }
      r
    else s
  }

  /** Drops trailing white space. */
  function TrimRight(s: Str): (r: Str)
    ensures |r| <= |s| && r == s[..|r|]
    ensures AllTrimSpace(s[|r|..])
    ensures r == [] || !IsTrimSpace(r[|r| - 1])
  {
    if s != [] && IsTrimSpace(s[|s| - 1]) then
      var init := s[..|s| - 1];
      var r := TrimRight(init);
      assert init[..|r|] == s[..|r|];
      assert forall k :: |r| <= k < |s| ==> IsTrimSpace(s[k]) by {
        forall k | |r| <= k < |s| ensures IsTrimSpace(s[k]) {
          if k < |s| - 1 { assert s[k] == init[|r|..][k - |r|]; }
        }
      }
      r
    else s
  }

  /** `strings.TrimSpace` / `bytes.TrimSpace` on ASCII white space: the result
      is a slice of the input whose first and last bytes are not white space,
      and everything cut off on either side is white space. */
  function TrimSpace(s: Str): (r: Str)
    ensures r != [] ==> !IsTrimSpace(r[0]) && !IsTrimSpace(r[|r| - 1])
  {
    TrimRight(TrimLeft(s))
  }

  /** Trimming removes exactly the white space around a stretch that neither
      starts nor ends with white space. */
  lemma TrimAround(w1: Str, m: Str, w3: Str)
    requires AllTrimSpace(w1) && AllTrimSpace(w3)
    requires m != [] && !IsTrimSpace(m[0]) && !IsTrimSpace(m[|m| - 1])
    ensures TrimSpace(w1 + m + w3) == m
  {
    assert w1 + m + w3 == w1 + (m + w3);
    TrimLeftRun(w1, m + w3);
    TrimRightRun(m, w3);
  }

  lemma {:induction false} TrimLeftRun(w: Str, m: Str)
    requires AllTrimSpace(w)
    requires m == [] || !IsTrimSpace(m[0])
    ensures TrimLeft(w + m) == m
    decreases |w|
  {
    if w == [] {
      assert w + m == m;
    } else {
      assert (w + m)[1..] == w[1..] + m;
      TrimLeftRun(w[1..], m);
    }
  }

  lemma {:induction false} TrimRightRun(m: Str, w: Str)
    requires AllTrimSpace(w)
    requires m == [] || !IsTrimSpace(m[|m| - 1])
    ensures TrimRight(m + w) == m
    decreases |w|
  {
    if w == [] {
      assert m + w == m;
    } else {
      var s := m + w;
      assert s[|s| - 1] == w[|w| - 1];
      assert s[..|s| - 1] == m + w[..|w| - 1];
      TrimRightRun(m, w[..|w| - 1]);
    }
  }

  lemma TrimSpaceIsSlice(s: Str)
    ensures exists i, j :: 0 <= i <= j <= |s| && TrimSpace(s) == s[i..j]
                        && AllTrimSpace(s[..i]) && AllTrimSpace(s[j..])
  {
    var l := TrimLeft(s);
    var r := TrimRight(l);
    var i := |s| - |l|;
    var j := i + |r|;
    assert r == s[i..j];
    assert s[j..] == l[|r|..];
    assert 0 <= i <= j <= |s| && TrimSpace(s) == s[i..j] && AllTrimSpace(s[..i]) && AllTrimSpace(s[j..]);
  }

  /** `s` without its white space: the bytes that white-space normalisation must keep. */
  function Erase(s: Str): (r: Str)
    ensures |r| <= |s|
  {
    if s == [] then [] else (if IsTrimSpace(s[0]) then [] else [s[0]]) + Erase(s[1..])
  }

  lemma {:induction false} EraseConcat(a: Str, b: Str)
    ensures Erase(a + b) == Erase(a) + Erase(b)
    decreases |a|
  {
    if a == [] {
      assert a + b == b;
    } else {
      EraseConcat(a[1..], b);
      var ab := a + b;
      assert ab[0] == a[0] && ab[1..] == a[1..] + b;
      var head: Str := if IsTrimSpace(a[0]) then [] else [a[0]];
      assert Erase(ab) == head + Erase(ab[1..]);
      assert Erase(a) == head + Erase(a[1..]);
      AppendAssoc(head, Erase(a[1..]), Erase(b));
    }
  }

  lemma {:induction false} EraseAllSpace(s: Str)
    requires AllTrimSpace(s)
    ensures Erase(s) == []
    decreases |s|
  {
    if s != [] { EraseAllSpace(s[1..]); }
  }

  /** Drops leading `\s` bytes. */
  function SkipRegexSpace(s: Str): (r: Str)
    ensures |r| <= |s| && r == s[|s| - |r|..]
    ensures forall k :: 0 <= k < |s| - |r| ==> IsRegexSpace(s[k])
    ensures r == [] || !IsRegexSpace(r[0])
  {
    if s != [] && IsRegexSpace(s[0]) then SkipRegexSpace(s[1..]) else s
  }

  /** `regexp.MustCompile(`\s+`).ReplaceAllString(s, " ")`: every maximal run
      of `\s` bytes becomes one space. */
  function CollapseSpace(s: Str): (r: Str)
    ensures r == [] <==> s == []
    ensures forall k :: 0 <= k < |r| && IsRegexSpace(r[k]) ==> r[k] == ' '
    ensures forall k :: 0 <= k < |r| - 1 ==> !(IsRegexSpace(r[k]) && IsRegexSpace(r[k + 1]))
    ensures r != [] ==> if IsRegexSpace(s[0]) then r[0] == ' ' else r[0] == s[0]
    ensures r != [] ==> if IsRegexSpace(s[|s| - 1]) then r[|r| - 1] == ' ' else r[|r| - 1] == s[|s| - 1]
    decreases |s|
  {
    if s == [] then []
    else if IsRegexSpace(s[0]) then [' '] + CollapseSpace(SkipRegexSpace(s[1..]))
    else [s[0]] + CollapseSpace(s[1..])
  }

  /** Collapsing white space keeps every other byte, in order. */
  lemma {:induction false} CollapseKeepsContent(s: Str)
    ensures Erase(CollapseSpace(s)) == Erase(s)
    decreases |s|
  {
    if s != [] {
      if IsRegexSpace(s[0]) {
        var rest := SkipRegexSpace(s[1..]);
        CollapseKeepsContent(rest);
        SpaceRunErased(s, rest);
        assert CollapseSpace(s) == [' '] + CollapseSpace(rest);
        EraseConcat([' '], CollapseSpace(rest));
      } else {
        CollapseKeepsContent(s[1..]);
        assert CollapseSpace(s) == [s[0]] + CollapseSpace(s[1..]);
        EraseConcat([s[0]], CollapseSpace(s[1..]));
        assert s == [s[0]] + s[1..];
        EraseConcat([s[0]], s[1..]);
      }
    }
  }

  predicate NoRegexSpace(s: Str) {
    forall k :: 0 <= k < |s| ==> !IsRegexSpace(s[k])
  }

  predicate AllRegexSpace(s: Str) {
    forall k :: 0 <= k < |s| ==> IsRegexSpace(s[k])
  }

  /** A string with no `\s` byte is left unchanged. */
  lemma {:induction false} CollapseNoSpace(s: Str)
    requires NoRegexSpace(s)
    ensures CollapseSpace(s) == s
    decreases |s|
  {
    if s != [] {
      assert !IsRegexSpace(s[0]);
      CollapseNoSpace(s[1..]);
      assert s == [s[0]] + s[1..];
    }
  }

  /** A run of `\s` followed by a string that does not start with one is skipped whole. */
  lemma {:induction false} SkipRun(w: Str, b: Str)
    requires AllRegexSpace(w)
    requires b == [] || !IsRegexSpace(b[0])
    ensures SkipRegexSpace(w + b) == b
    decreases |w|
  {
    if w == [] {
      assert w + b == b;
    } else {
      TailOfConcat(w, b);
      SkipRun(w[1..], b);
    }
  }

  /** Collapsing distributes over a cut just after a byte that is not `\s`. */
  lemma {:induction false} CollapseConcat(a: Str, b: Str)
    requires a != [] && !IsRegexSpace(a[|a| - 1])
    ensures CollapseSpace(a + b) == CollapseSpace(a) + CollapseSpace(b)
    decreases |a|
  {
    if IsRegexSpace(a[0]) {
      SkipKeepsLast(a);
      CollapseConcat(SkipRegexSpace(a[1..]), b);
      ConcatAtSpace(a, b);
    } else if |a| == 1 {
      ConcatAtByte(a, b);
    } else {
      CollapseConcat(a[1..], b);
      ConcatAtByte(a, b);
    }
  }

  lemma SkipKeepsLast(a: Str)
    requires a != [] && IsRegexSpace(a[0]) && !IsRegexSpace(a[|a| - 1])
    ensures var rest := SkipRegexSpace(a[1..]);
      rest != [] && |rest| < |a| && !IsRegexSpace(rest[|rest| - 1])
  {
    assert a[1..][|a| - 2] == a[|a| - 1];
  }

  lemma ConcatAtSpace(a: Str, b: Str)
    requires a != [] && IsRegexSpace(a[0]) && SkipRegexSpace(a[1..]) != []
    requires var rest := SkipRegexSpace(a[1..]);
      CollapseSpace(rest + b) == CollapseSpace(rest) + CollapseSpace(b)
    ensures CollapseSpace(a + b) == CollapseSpace(a) + CollapseSpace(b)
  {
    var rest := SkipRegexSpace(a[1..]);
    calc {
      CollapseSpace(a + b);
      { assert (a + b)[0] == a[0]; CollapseAtSpace(a + b); }
      [' '] + CollapseSpace(SkipRegexSpace((a + b)[1..]));
      { TailOfConcat(a, b); SkipPrefix(a[1..], b); }
      [' '] + CollapseSpace(rest + b);
      [' '] + (CollapseSpace(rest) + CollapseSpace(b));
      { AppendAssoc([' '], CollapseSpace(rest), CollapseSpace(b)); }
      ([' '] + CollapseSpace(rest)) + CollapseSpace(b);
      { CollapseAtSpace(a); }
      CollapseSpace(a) + CollapseSpace(b);
    }
  }

  lemma ConcatAtByte(a: Str, b: Str)
    requires a != [] && !IsRegexSpace(a[0])
    requires |a| > 1 ==> CollapseSpace(a[1..] + b) == CollapseSpace(a[1..]) + CollapseSpace(b)
    ensures CollapseSpace(a + b) == CollapseSpace(a) + CollapseSpace(b)
  {
    var c := [a[0]];
    assert CollapseSpace(a[1..] + b) == CollapseSpace(a[1..]) + CollapseSpace(b) by {
      if |a| == 1 {
        assert a[1..] == [];
        assert a[1..] + b == b;
      }
    }
    calc {
      CollapseSpace(a + b);
      { assert (a + b)[0] == a[0]; CollapseAtByte(a + b); }
      c + CollapseSpace((a + b)[1..]);
      { TailOfConcat(a, b); }
      c + CollapseSpace(a[1..] + b);
      c + (CollapseSpace(a[1..]) + CollapseSpace(b));
      { AppendAssoc(c, CollapseSpace(a[1..]), CollapseSpace(b)); }
      (c + CollapseSpace(a[1..])) + CollapseSpace(b);
      { CollapseAtByte(a); }
      CollapseSpace(a) + CollapseSpace(b);
    }
  }

  lemma CollapseAtSpace(s: Str)
    requires s != [] && IsRegexSpace(s[0])
    ensures CollapseSpace(s) == [' '] + CollapseSpace(SkipRegexSpace(s[1..]))
  {
  }

  lemma CollapseAtByte(s: Str)
    requires s != [] && !IsRegexSpace(s[0])
    ensures CollapseSpace(s) == [s[0]] + CollapseSpace(s[1..])
  {
  }

  /** Skipping leading `\s` stops inside `a` when `a` has a byte that is not `\s`. */
  lemma {:induction false} SkipPrefix(a: Str, b: Str)
    requires SkipRegexSpace(a) != []
    ensures SkipRegexSpace(a + b) == SkipRegexSpace(a) + b
    decreases |a|
  {
    assert a != [];
    assert (a + b)[0] == a[0];
    if IsRegexSpace(a[0]) {
      TailOfConcat(a, b);
      SkipPrefix(a[1..], b);
    }
  }

  /** The characterisation of `\s+` replacement: a non-empty run of `\s`
      between two stretches that do not touch it becomes exactly one space. */
  lemma CollapseRun(a: Str, w: Str, b: Str)
    requires w != [] && AllRegexSpace(w)
    requires a == [] || !IsRegexSpace(a[|a| - 1])
    requires b == [] || !IsRegexSpace(b[0])
    ensures CollapseSpace(a + w + b) == CollapseSpace(a) + " " + CollapseSpace(b)
  {
    AppendAssoc(a, w, b);
    LeadingRun(w, b);
    if a == [] {
      assert a + (w + b) == w + b;
      assert CollapseSpace(a) + " " == " ";
    } else {
      CollapseConcat(a, w + b);
      AppendAssoc(CollapseSpace(a), " ", CollapseSpace(b));
    }
  }

  lemma LeadingRun(w: Str, b: Str)
    requires w != [] && AllRegexSpace(w)
    requires b == [] || !IsRegexSpace(b[0])
    ensures CollapseSpace(w + b) == " " + CollapseSpace(b)
  {
    var t := w + b;
    assert t[0] == w[0];
    TailOfConcat(w, b);
    SkipRun(w[1..], b);
    CollapseAtSpace(t);
  }

  /** A leading run of white space erases to nothing. */
  lemma {:induction false} SpaceRunErased(s: Str, rest: Str)
    requires s != [] && IsRegexSpace(s[0]) && rest == SkipRegexSpace(s[1..])
    ensures Erase(s) == Erase(rest)
    decreases |s|
  {
    var t := s[1..];
    assert Erase(s) == Erase(t);
    if t != [] && IsRegexSpace(t[0]) {
      SpaceRunErased(t, rest);
    }
  }

  /** Trimming removes only white space. */
  lemma EraseTrimSpace(s: Str)
    ensures Erase(TrimSpace(s)) == Erase(s)
  {
    var l := TrimLeft(s);
    EraseTrimLeft(s);
    EraseTrimRight(l);
  }

  lemma EraseTrimLeft(s: Str)
    ensures Erase(TrimLeft(s)) == Erase(s)
  {
    var l := TrimLeft(s);
    var n := |s| - |l|;
    var cut := s[..n];
    assert s == cut + l;
    EraseConcat(cut, l);
    EraseAllSpace(cut);
  }

  lemma EraseTrimRight(l: Str)
    ensures Erase(TrimRight(l)) == Erase(l)
  {
    var r := TrimRight(l);
    var cut := l[|r|..];
    assert l == r + cut;
    EraseConcat(r, cut);
    EraseAllSpace(cut);
  }

  /** The index of the first occurrence of `c` in `s`, like `strings.IndexByte`. */
  function IndexByte(s: Str, c: Byte): (r: Option<nat>)
    ensures r.None? <==> c !in s
    ensures r.Some? ==> r.value < |s| && s[r.value] == c && c !in s[..r.value]
  {
    if s == [] then None
    else if s[0] == c then Some(0)
    else match IndexByte(s[1..], c)
      case None => None
      case Some(k) => assert s[..k + 1] == [s[0]] + s[1..][..k]; Some(k + 1)
  }

  /** Replaces every occurrence of `a` by `b`, like `strings.Replace(s, a, b, -1)`
      for one-byte strings. */
  function ReplaceByte(s: Str, a: Byte, b: Byte): (r: Str)
    ensures |r| == |s|
    ensures forall k :: 0 <= k < |s| ==> r[k] == (if s[k] == a then b else s[k])
  {
    if s == [] then [] else [if s[0] == a then b else s[0]] + ReplaceByte(s[1..], a, b)
  }

  /** The end of the maximal run of bytes satisfying `p` that starts at `i`. */
  function SpanEnd(s: Str, i: nat, p: Byte -> bool): (j: nat)
    requires i <= |s|
    ensures i <= j <= |s|
    ensures forall k :: i <= k < j ==> p(s[k])
    ensures j == |s| || !p(s[j])
    decreases |s| - i
  {
    if i < |s| && p(s[i]) then SpanEnd(s, i + 1, p) else i
  }

  lemma {:induction false} SpanEndStops(s: Str, i: nat, j: nat, p: Byte -> bool)
    requires i <= j < |s|
    requires forall k :: i <= k < j ==> p(s[k])
    requires !p(s[j])
    ensures SpanEnd(s, i, p) == j
    decreases j - i
  {
    if i < j { SpanEndStops(s, i + 1, j, p); }
  }

  lemma TailOfConcat<T>(a: seq<T>, b: seq<T>)
    requires a != []
    ensures (a + b)[1..] == a[1..] + b
  {
  }

  lemma AppendAssoc<T>(a: seq<T>, b: seq<T>, c: seq<T>)
    ensures (a + b) + c == a + (b + c)
  {
  }

  lemma SliceSplit(s: Str, i: nat, j: nat, k: nat)
    requires i <= j <= k <= |s|
    ensures s[i..k] == s[i..j] + s[j..k]
  {
  }

  /** `s` is obtained from `t` by deleting elements: the in-order pieces of `t`. */
  ghost predicate IsSubsequence(s: Str, t: Str)
    decreases |t|
  {
    s == [] || (t != [] && ((s[0] == t[0] && IsSubsequence(s[1..], t[1..])) || IsSubsequence(s, t[1..])))
  }

  lemma {:induction false} SubsequenceLength(s: Str, t: Str)
    requires IsSubsequence(s, t)
    ensures |s| <= |t|
    decreases |t|
  {
    if s != [] {
      if s[0] == t[0] && IsSubsequence(s[1..], t[1..]) { SubsequenceLength(s[1..], t[1..]); }
      else { SubsequenceLength(s, t[1..]); }
    }
  }

  lemma {:induction false} SubsequenceReflexive(s: Str)
    ensures IsSubsequence(s, s)
    decreases |s|
  {
    if s != [] { SubsequenceReflexive(s[1..]); }
  }

  lemma {:induction false} SubsequenceOfSuffix(s: Str, p: Str, t: Str)
    requires IsSubsequence(s, t)
    ensures IsSubsequence(s, p + t)
    decreases |p|
  {
    if p == [] {
      assert p + t == t;
    } else {
      SubsequenceOfSuffix(s, p[1..], t);
      var pt := p + t;
      assert pt[1..] == p[1..] + t;
      assert IsSubsequence(s, pt[1..]);
    }
  }

  lemma {:induction false} SubsequenceOfPrefixed(s: Str, p: Str, t: Str)
    requires IsSubsequence(s, t)
    ensures IsSubsequence(p + s, p + t)
    decreases |p|
  {
    if p == [] {
      assert p + s == s && p + t == t;
    } else {
      SubsequenceOfPrefixed(s, p[1..], t);
      var ps, pt := p + s, p + t;
      assert ps[1..] == p[1..] + s && pt[1..] == p[1..] + t;
      assert ps[0] == pt[0] && IsSubsequence(ps[1..], pt[1..]);
    }
  }
}
