/** What the page scanner makes of a simplified dump: each `<page>` holds a
    `<title>`, an `<ns>`, an optional `<redirect title=...>` and a `<text>`,
    in that order, with no `<id>`, no `<revision>` around the text and no
    white space between the elements. */
module PageEntries {
  import opened Text
  import opened Pages

  /** `<name>s</name>`; an empty element has no character data at all. */
  function Element(name: Str, s: Str): (r: seq<Token>)
    ensures 2 <= |r| <= 3
  {
    if s == [] then [Start(name, []), End(name)] else [Start(name, []), CharData(s), End(name)]
  }

  datatype Entry = Entry(title: Str, ns: Str, redirect: Option<Str>, text: Str)

  function RedirectElement(target: Option<Str>): seq<Token> {
    if target.Some? then [Start("redirect", [Attr("title", target.value)]), End("redirect")] else []
  }

  /** A page: the start tag, then the title and the namespace, then the rest. */
  function EncodeEntry(e: Entry): seq<Token> {
    [Start("page", [])] + Head(e) + Tail(e)
  }

  function Head(e: Entry): seq<Token> {
    Element("title", e.title) + Element("ns", e.ns)
  }

  function Tail(e: Entry): seq<Token> {
    RedirectElement(e.redirect) + Element("text", e.text) + [End("page")]
  }

  function Encode(es: seq<Entry>): seq<Token> {
    if es == [] then [] else EncodeEntry(es[0]) + Encode(es[1..])
  }

  /** The strict reader needs character data in every element. */
  predicate Readable(e: Entry, strict: bool) {
    strict ==> e.title != [] && e.ns != [] && e.text != []
  }

  /** What the dump means: a main-namespace redirect, a main-namespace
      page, or nothing. */
  function Meaning(e: Entry): Emit {
    if e.ns != "0" then NoEmit
    else if e.redirect.Some? then EmitRedirect(Redirect(e.title, e.redirect.value))
    else EmitPage(Page(e.title, e.text))
  }

  function MeantPages(es: seq<Entry>): seq<Page> {
    if es == [] then [] else PagesOf(Meaning(es[0])) + MeantPages(es[1..])
  }

  function MeantRedirects(es: seq<Entry>): seq<Redirect> {
    if es == [] then [] else RedirsOf(Meaning(es[0])) + MeantRedirects(es[1..])
  }

  /** `toks` holds `x` at `p`. */
  predicate At(toks: seq<Token>, p: nat, x: seq<Token>) {
    p + |x| <= |toks| && forall k {:trigger x[k]} :: 0 <= k < |x| ==> toks[p + k] == x[k]
  }

  lemma AtIndex(toks: seq<Token>, p: nat, x: seq<Token>, k: nat)
    requires At(toks, p, x) && k < |x|
    ensures toks[p + k] == x[k]
  {
  }

  lemma AtSplit(toks: seq<Token>, p: nat, x: seq<Token>, y: seq<Token>)
    requires At(toks, p, x + y)
    ensures At(toks, p, x) && At(toks, p + |x|, y)
  {
    forall k | 0 <= k < |x| ensures toks[p + k] == x[k] {
      AtIndex(toks, p, x + y, k);
    }
    forall k | 0 <= k < |y| ensures toks[p + |x| + k] == y[k] {
      AtIndex(toks, p, x + y, |x| + k);
    }
  }

  /** `getText` on an element written by `Element`: the lenient reader
      accepts the empty element, the strict one needs character data. */
  lemma ReadElement(toks: seq<Token>, p: nat, name: Str, s: Str, strict: bool)
    requires At(toks, p, Element(name, s))
    ensures ReadAt(toks, p) == Tok(Start(name, []))
    ensures strict && s == [] ==> ReadText(toks, p + 1, strict).None?
    ensures !(strict && s == []) ==>
              ReadText(toks, p + 1, strict).Some? && ReadText(toks, p + 1, strict).value.0 == s
              && ReadText(toks, p + 1, strict).value.1 == p + |Element(name, s)|
  {
    var el := Element(name, s);
    AtIndex(toks, p, el, 0);
    AtIndex(toks, p, el, 1);
    if s != [] {
      AtIndex(toks, p, el, 2);
    }
  }

  /** The scan outside pages passes over every token that neither fails nor starts a page. */
  lemma {:induction false} ScanSkip(toks: seq<Token>, p: nat, q: nat, strict: bool)
    requires p <= q <= |toks|
    requires forall k :: p <= k < q ==> !toks[k].Bad? && !(toks[k].Start? && toks[k].name == "page")
    ensures Scan(toks, p, strict) == Scan(toks, q, strict)
    decreases q - p
  {
    if p < q {
      ScanSkip(toks, p + 1, q, strict);
    }
  }

  /** A token `parsePage` reads without any effect. */
  predicate Passive(t: Token, mainNS: bool) {
    match t
    case Start(name, _) => name != "ns" && name != "title" && (mainNS ==> name != "text" && name != "redirect")
    case End(name) => name != "page"
    case Bad => false
    case _ => true
  }

  lemma {:induction false} PassOver(toks: seq<Token>, p: nat, q: nat, st: PageState, strict: bool)
    requires p <= q <= |toks|
    requires forall k :: p <= k < q ==> Passive(toks[k], st.mainNS)
    ensures ParsePageFrom(toks, p, st, strict) == ParsePageFrom(toks, q, st, strict)
    decreases q - p
  {
    if p < q {
      assert PageStep(toks, p, st, strict) == StepOn(p + 1, st);
      PassOver(toks, p + 1, q, st, strict);
    }
  }

  predicate AllPassive(x: seq<Token>, mainNS: bool) {
    forall k :: 0 <= k < |x| ==> Passive(x[k], mainNS)
  }

  lemma PassOverAt(toks: seq<Token>, p: nat, x: seq<Token>, st: PageState, strict: bool)
    requires At(toks, p, x) && AllPassive(x, st.mainNS)
    ensures ParsePageFrom(toks, p, st, strict) == ParsePageFrom(toks, p + |x|, st, strict)
  {
    forall k | p <= k < p + |x|
      ensures Passive(toks[k], st.mainNS)
    {
      AtIndex(toks, p, x, k - p);
    }
    PassOver(toks, p, p + |x|, st, strict);
  }

  /** `<title>` sets the title, in every namespace. */
  lemma TitleStep(toks: seq<Token>, p: nat, s: Str, st: PageState, strict: bool)
    requires At(toks, p, Element("title", s)) && (strict ==> s != [])
    ensures ParsePageFrom(toks, p, st, strict) == ParsePageFrom(toks, p + |Element("title", s)|, st.(title := s), strict)
  {
    ReadElement(toks, p, "title", s, strict);
    assert PageStep(toks, p, st, strict) == StepOn(p + |Element("title", s)|, st.(title := s));
  }

  /** `<ns>` sets the main-namespace flag to whether its text is "0". */
  lemma NsStep(toks: seq<Token>, p: nat, s: Str, st: PageState, strict: bool)
    requires At(toks, p, Element("ns", s)) && (strict ==> s != [])
    ensures ParsePageFrom(toks, p, st, strict) == ParsePageFrom(toks, p + |Element("ns", s)|, st.(mainNS := s == "0"), strict)
  {
    ReadElement(toks, p, "ns", s, strict);
    assert PageStep(toks, p, st, strict) == StepOn(p + |Element("ns", s)|, st.(mainNS := s == "0"));
  }

  /** `<text>` sets the text once the page is known to be in the main namespace. */
  lemma TextStep(toks: seq<Token>, p: nat, s: Str, st: PageState, strict: bool)
    requires At(toks, p, Element("text", s)) && (strict ==> s != []) && st.mainNS
    ensures ParsePageFrom(toks, p, st, strict) == ParsePageFrom(toks, p + |Element("text", s)|, st.(text := s), strict)
  {
    ReadElement(toks, p, "text", s, strict);
    assert PageStep(toks, p, st, strict) == StepOn(p + |Element("text", s)|, st.(text := s));
  }

  /** The title and the namespace, read at the start of every page. */
  lemma ReadHead(toks: seq<Token>, p: nat, e: Entry, strict: bool)
    requires At(toks, p, Head(e)) && Readable(e, strict)
    ensures ParsePageFrom(toks, p, Init, strict)
            == ParsePageFrom(toks, p + |Head(e)|, PageState(e.ns == "0", e.title, []), strict)
  {
    var et := Element("title", e.title);
    AtSplit(toks, p, et, Element("ns", e.ns));
    TitleStep(toks, p, e.title, Init, strict);
    NsStep(toks, p + |et|, e.ns, Init.(title := e.title), strict);
  }

  /** The end tag of a page sends it when it is in the main namespace. */
  lemma ReadPageEnd(toks: seq<Token>, p: nat, e: Entry, text: Str, strict: bool)
    requires At(toks, p, [End("page")]) && !(e.ns == "0" && e.redirect.Some?)
    requires e.ns == "0" ==> text == e.text
    ensures ParsePageFrom(toks, p, PageState(e.ns == "0", e.title, text), strict) == PageDone(p + 1, Meaning(e))
  {
    AtIndex(toks, p, [End("page")], 0);
    assert PageStep(toks, p, PageState(e.ns == "0", e.title, text), strict) == StepDone(p + 1, Meaning(e));
  }

  /** A main-namespace page without a redirect: its text is kept. */
  lemma ReadTailMain(toks: seq<Token>, p: nat, e: Entry, strict: bool)
    requires At(toks, p, Tail(e))
    requires Readable(e, strict) && e.ns == "0" && e.redirect.None?
    ensures ParsePageFrom(toks, p, PageState(true, e.title, []), strict)
            == PageDone(p + |Element("text", e.text)| + 1, Meaning(e))
  {
    var ex := Element("text", e.text);
    assert Tail(e) == ex + [End("page")];
    AtSplit(toks, p, ex, [End("page")]);
    TextStep(toks, p, e.text, PageState(true, e.title, []), strict);
    ReadPageEnd(toks, p + |ex|, e, e.text, strict);
  }

  /** A page outside the main namespace: its redirect and text pass unread. */
  lemma ReadTailOther(toks: seq<Token>, p: nat, e: Entry, strict: bool)
    requires At(toks, p, Tail(e))
    requires e.ns != "0"
    ensures ParsePageFrom(toks, p, PageState(false, e.title, []), strict)
            == PageDone(p + |RedirectElement(e.redirect)| + |Element("text", e.text)| + 1, Meaning(e))
  {
    var er, ex := RedirectElement(e.redirect), Element("text", e.text);
    var st := PageState(false, e.title, []);
    var q, r := p + |er|, p + |er| + |ex|;
    TailSplit(toks, p, e);
    PassiveTail(e);
    assert ParsePageFrom(toks, p, st, strict) == ParsePageFrom(toks, q, st, strict) by {
      PassOverAt(toks, p, er, st, strict);
    }
    assert ParsePageFrom(toks, q, st, strict) == ParsePageFrom(toks, r, st, strict) by {
      PassOverAt(toks, q, ex, st, strict);
    }
    ReadPageEnd(toks, r, e, [], strict);
  }

  lemma TailSplit(toks: seq<Token>, p: nat, e: Entry)
    requires At(toks, p, Tail(e))
    ensures At(toks, p, RedirectElement(e.redirect))
    ensures At(toks, p + |RedirectElement(e.redirect)|, Element("text", e.text))
    ensures At(toks, p + |RedirectElement(e.redirect)| + |Element("text", e.text)|, [End("page")])
  {
    var er, ex := RedirectElement(e.redirect), Element("text", e.text);
    AtSplit(toks, p, er + ex, [End("page")]);
    AtSplit(toks, p, er, ex);
  }

  /** Outside the main namespace nothing after the namespace is read. */
  lemma PassiveTail(e: Entry)
    ensures AllPassive(RedirectElement(e.redirect), false)
    ensures AllPassive(Element("text", e.text), false)
  {
  }

  /** A main-namespace redirect ends the page at `<redirect>`; the scan
      then passes over the rest of the page. */
  lemma RedirectTail(toks: seq<Token>, p: nat, e: Entry, strict: bool)
    requires At(toks, p, Tail(e))
    requires e.ns == "0" && e.redirect.Some?
    ensures ParsePageFrom(toks, p, PageState(true, e.title, []), strict) == PageDone(p + 1, Meaning(e))
    ensures Scan(toks, p + 1, strict)
            == Scan(toks, p + |RedirectElement(e.redirect)| + |Element("text", e.text)| + 1, strict)
  {
    var tail := RedirectElement(e.redirect) + Element("text", e.text) + [End("page")];
    AtIndex(toks, p, tail, 0);
    forall k | p + 1 <= k < p + |tail|
      ensures !toks[k].Bad? && !(toks[k].Start? && toks[k].name == "page")
    {
      AtIndex(toks, p, tail, k - p);
    }
    ScanSkip(toks, p + 1, p + |tail|, strict);
  }

  /** What a page sends, followed by what the rest of the scan sends. */
  function Prepend(em: Emit, rest: ScanResult): ScanResult {
    ScanResult(PagesOf(em) + rest.pages, RedirsOf(em) + rest.redirs, rest.panicked)
  }

  /** The scan at a `<page>` that `parsePage` completes. */
  lemma ScanPageDone(toks: seq<Token>, pos: nat, strict: bool, q: nat, em: Emit)
    requires pos < |toks| && toks[pos] == Start("page", [])
    requires ParsePageFrom(toks, pos + 1, Init, strict) == PageDone(q, em)
    ensures Scan(toks, pos, strict) == Prepend(em, Scan(toks, q, strict))
  {
  }

  /** Where `parsePage` stops in a page, after its start tag: at the
      `<redirect>` of a main-namespace redirect, otherwise after `</page>`. */
  function BodyEnd(p: nat, e: Entry): nat {
    if e.ns == "0" && e.redirect.Some? then p + |Head(e)| + 1 else p + |Head(e)| + |Tail(e)|
  }

  lemma ParseBody(toks: seq<Token>, p: nat, e: Entry, strict: bool, last: nat)
    requires At(toks, p, Head(e) + Tail(e)) && Readable(e, strict) && last == p + |Head(e)| + |Tail(e)|
    ensures ParsePageFrom(toks, p, Init, strict) == PageDone(BodyEnd(p, e), Meaning(e))
    ensures Scan(toks, BodyEnd(p, e), strict) == Scan(toks, last, strict)
  {
    AtSplit(toks, p, Head(e), Tail(e));
    ReadHead(toks, p, e, strict);
    if e.ns == "0" && e.redirect.Some? {
      BodyRedirect(toks, p, e, strict);
    } else {
      BodyPage(toks, p, e, strict);
    }
  }

  lemma BodyRedirect(toks: seq<Token>, p: nat, e: Entry, strict: bool)
    requires At(toks, p + |Head(e)|, Tail(e)) && e.ns == "0" && e.redirect.Some?
    requires ParsePageFrom(toks, p, Init, strict)
             == ParsePageFrom(toks, p + |Head(e)|, PageState(true, e.title, []), strict)
    ensures ParsePageFrom(toks, p, Init, strict) == PageDone(BodyEnd(p, e), Meaning(e))
    ensures Scan(toks, BodyEnd(p, e), strict) == Scan(toks, p + |Head(e)| + |Tail(e)|, strict)
  {
    var h := p + |Head(e)|;
    RedirectTail(toks, h, e, strict);
    assert BodyEnd(p, e) == h + 1;
  }

  lemma BodyPage(toks: seq<Token>, p: nat, e: Entry, strict: bool)
    requires At(toks, p + |Head(e)|, Tail(e)) && Readable(e, strict) && !(e.ns == "0" && e.redirect.Some?)
    requires ParsePageFrom(toks, p, Init, strict)
             == ParsePageFrom(toks, p + |Head(e)|, PageState(e.ns == "0", e.title, []), strict)
    ensures ParsePageFrom(toks, p, Init, strict) == PageDone(BodyEnd(p, e), Meaning(e))
  {
    if e.ns == "0" {
      ReadTailMain(toks, p + |Head(e)|, e, strict);
    } else {
      ReadTailOther(toks, p + |Head(e)|, e, strict);
    }
  }

  /** One entry: `parsePage` and the scan after it send what the entry means. */
  lemma EntryScan(toks: seq<Token>, pos: nat, e: Entry, strict: bool)
    requires At(toks, pos, EncodeEntry(e)) && Readable(e, strict)
    ensures Scan(toks, pos, strict) == Prepend(Meaning(e), Scan(toks, pos + |EncodeEntry(e)|, strict))
  {
    assert EncodeEntry(e) == [Start("page", [])] + (Head(e) + Tail(e));
    AtSplit(toks, pos, [Start("page", [])], Head(e) + Tail(e));
    AtIndex(toks, pos, [Start("page", [])], 0);
    PageScan(toks, pos, e, strict, pos + |EncodeEntry(e)|);
  }

  lemma PageScan(toks: seq<Token>, pos: nat, e: Entry, strict: bool, last: nat)
    requires pos < |toks| && toks[pos] == Start("page", [])
    requires At(toks, pos + 1, Head(e) + Tail(e)) && Readable(e, strict)
    requires last == pos + 1 + |Head(e)| + |Tail(e)|
    ensures Scan(toks, pos, strict) == Prepend(Meaning(e), Scan(toks, last, strict))
  {
    ParseBody(toks, pos + 1, e, strict, last);
    ScanPageDone(toks, pos, strict, BodyEnd(pos + 1, e), Meaning(e));
  }

  predicate AllReadable(es: seq<Entry>, strict: bool) {
    forall i :: 0 <= i < |es| ==> Readable(es[i], strict)
  }

  /** A dump of entries, up to the end of the input: every main-namespace
      page and redirect is sent, in document order, and nothing panics. */
  lemma {:induction false} ScanEntries(toks: seq<Token>, pos: nat, es: seq<Entry>, strict: bool)
    requires At(toks, pos, Encode(es)) && pos + |Encode(es)| == |toks| && AllReadable(es, strict)
    ensures Scan(toks, pos, strict) == ScanResult(MeantPages(es), MeantRedirects(es), false)
    decreases es
  {
    if es == [] {
      assert ReadAt(toks, pos) == EOF;
    } else {
      var next := pos + |EncodeEntry(es[0])|;
      FirstEntry(toks, pos, es, strict);
      ScanEntries(toks, next, es[1..], strict);
      MeantCons(es);
    }
  }

  lemma MeantCons(es: seq<Entry>)
    requires es != []
    ensures ScanResult(MeantPages(es), MeantRedirects(es), false)
            == Prepend(Meaning(es[0]), ScanResult(MeantPages(es[1..]), MeantRedirects(es[1..]), false))
  {
  }

  /** The first entry of a dump, and the dump of the others after it. */
  lemma FirstEntry(toks: seq<Token>, pos: nat, es: seq<Entry>, strict: bool)
    requires es != [] && At(toks, pos, Encode(es)) && pos + |Encode(es)| == |toks| && AllReadable(es, strict)
    ensures At(toks, pos + |EncodeEntry(es[0])|, Encode(es[1..]))
    ensures pos + |EncodeEntry(es[0])| + |Encode(es[1..])| == |toks|
    ensures AllReadable(es[1..], strict)
    ensures Scan(toks, pos, strict) == Prepend(Meaning(es[0]), Scan(toks, pos + |EncodeEntry(es[0])|, strict))
  {
    EncodeSplit(toks, pos, es);
    assert Readable(es[0], strict);
    EntryScan(toks, pos, es[0], strict);
    ReadableRest(es, strict);
  }

  lemma {:induction false} EncodeSplit(toks: seq<Token>, pos: nat, es: seq<Entry>)
    requires es != [] && At(toks, pos, Encode(es))
    ensures At(toks, pos, EncodeEntry(es[0])) && At(toks, pos + |EncodeEntry(es[0])|, Encode(es[1..]))
    ensures |Encode(es)| == |EncodeEntry(es[0])| + |Encode(es[1..])|
  {
    assert Encode(es) == EncodeEntry(es[0]) + Encode(es[1..]);
    AtSplit(toks, pos, EncodeEntry(es[0]), Encode(es[1..]));
  }

  lemma ReadableRest(es: seq<Entry>, strict: bool)
    requires es != [] && AllReadable(es, strict)
    ensures AllReadable(es[1..], strict)
  {
    forall i | 0 <= i < |es[1..]| ensures Readable(es[1..][i], strict) {
      assert es[1..][i] == es[i + 1];
    }
  }

  /** `GetPages` on a whole dump sends exactly what the dump means. */
  lemma DumpMeaning(es: seq<Entry>, strict: bool)
    requires AllReadable(es, strict)
    ensures Scan(Encode(es), 0, strict) == ScanResult(MeantPages(es), MeantRedirects(es), false)
  {
    ScanEntries(Encode(es), 0, es, strict);
  }

  /** An empty `<title/>`: the lenient reader takes the empty title, the
      strict one (which expects character data) panics. */
  lemma EmptyTitle(e: Entry)
    requires e.title == []
    ensures Scan(EncodeEntry(e), 0, true).panicked
    ensures Scan(EncodeEntry(e), 0, false) == Prepend(Meaning(e), ScanResult([], [], false))
  {
    var toks := EncodeEntry(e);
    EntryScan(toks, 0, e, false);
    assert Scan(toks, |toks|, false) == ScanResult([], [], false);
    EmptyTitleStrict(toks, e);
  }

  lemma EmptyTitleStrict(toks: seq<Token>, e: Entry)
    requires e.title == [] && toks == EncodeEntry(e)
    ensures Scan(toks, 0, true).panicked
  {
    AtSplit(toks, 0, [Start("page", [])], Head(e) + Tail(e));
    AtSplit(toks, 1, Head(e), Tail(e));
    AtSplit(toks, 1, Element("title", e.title), Element("ns", e.ns));
    ReadElement(toks, 1, "title", e.title, true);
    assert PageStep(toks, 1, Init, true) == StepPanic;
    assert ParsePageFrom(toks, 1, Init, true) == PagePanic;
    assert toks[0] == Start("page", []);
  }

  /** A decoder error outside any page panics once the scan reaches it. */
  lemma ErrorPanics(toks: seq<Token>, pos: nat, k: nat, strict: bool)
    requires pos <= k < |toks| && toks[k].Bad?
    requires forall j :: pos <= j < k ==> !toks[j].Bad? && !(toks[j].Start? && toks[j].name == "page")
    ensures Scan(toks, pos, strict).panicked
    ensures Scan(toks, pos, strict).pages == [] && Scan(toks, pos, strict).redirs == []
  {
    ScanSkip(toks, pos, k, strict);
  }
}
