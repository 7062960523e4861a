/** Pages and redirects from a Wikipedia XML dump. The XML decoder is a
    sequence of tokens read one at a time; the two output channels are the
    sequences of pages and redirects sent on them. Inside a `<page>`, an
    `<ns>` element decides whether the page is in the main namespace; the
    title is always kept, the text only in the main namespace; a
    `<redirect title=...>` in the main namespace sends a redirect and ends
    the page, and `</page>` sends the page when it is in the main namespace. */
module Pages {
  import opened Text

  datatype Attr = Attr(name: Str, value: Str)

  /** A token of `encoding/xml`; `Other` stands for comments, processing
      instructions and directives, and `Bad` for a syntax error, which the
      decoder goes on reporting. */
  datatype Token =
    | Start(name: Str, attrs: seq<Attr>)
    | End(name: Str)
    | CharData(text: Str)
    | Other
    | Bad

  /** What `Decoder.Token` returns: a token, `io.EOF`, or another error. */
  datatype Read = Tok(tok: Token) | EOF | Err

  function ReadAt(toks: seq<Token>, pos: nat): Read {
    if pos >= |toks| then EOF else if toks[pos].Bad? then Err else Tok(toks[pos])
  }

  /** The position after a read: errors do not consume anything. */
  function After(toks: seq<Token>, pos: nat): nat {
    if ReadAt(toks, pos).Tok? then pos + 1 else pos
  }

  class Decoder {
    const toks: seq<Token>
    var pos: nat

    constructor (toks: seq<Token>)
      ensures this.toks == toks && pos == 0
    {
      this.toks := toks;
      pos := 0;
    }

    /** `Token`: the next token or error. */
    method Next() returns (r: Read)
      requires pos <= |toks|
      modifies this
      ensures r == ReadAt(toks, old(pos)) && pos == After(toks, old(pos))
      ensures pos <= |toks|
    {
      r := ReadAt(toks, pos);
      if r.Tok? {
        pos := pos + 1;
      }
    }
  }

  datatype Page = Page(title: Str, text: Str)
  datatype Redirect = Redirect(title: Str, target: Str)

  /** The two channels: what has been sent on them, and whether they are closed. */
  class Sink {
    var pages: seq<Page>
    var redirs: seq<Redirect>
    var closed: bool

    constructor ()
      ensures pages == [] && redirs == [] && !closed
    {
      pages := [];
      redirs := [];
      closed := false;
    }
  }

  /** `getText`, after the start tag: the text and the position after the
      element, or `None` for a panic. With `strict` (the older copies) the
      element must be character data followed by an end tag; otherwise an
      end tag right away, or any other token, gives the empty text. */
  function ReadText(toks: seq<Token>, pos: nat, strict: bool): (r: Option<(Str, nat)>)
    requires pos <= |toks|
    ensures r.Some? ==> pos <= r.value.1 <= |toks|
    ensures r.Some? && r.value.0 != [] ==> pos < |toks| && toks[pos] == CharData(r.value.0)
  {
    match ReadAt(toks, pos)
    case Tok(CharData(s)) =>
      if ReadAt(toks, pos + 1).Tok? && ReadAt(toks, pos + 1).tok.End? then Some((s, pos + 2)) else None
    case Tok(t) => if strict then None else Some(([], pos + 1))
    case _ => if strict then None else Some(([], pos))
  }

  /** The value of the first attribute named `title`. */
  function TitleAttr(attrs: seq<Attr>): (r: Option<Str>)
    ensures r.Some? <==> exists k :: 0 <= k < |attrs| && attrs[k].name == "title"
    ensures r.Some? ==> exists k :: 0 <= k < |attrs| && attrs[k] == Attr("title", r.value)
  {
    if attrs == [] then None
    else if attrs[0].name == "title" then Some(attrs[0].value)
    else
      var r := TitleAttr(attrs[1..]);
      assert forall k :: 1 <= k < |attrs| ==> attrs[k] == attrs[1..][k - 1];
      r
  }

  /** The local variables of `parsePage`. */
  datatype PageState = PageState(mainNS: bool, title: Str, text: Str)

  const Init := PageState(false, [], [])

  datatype Emit = NoEmit | EmitPage(page: Page) | EmitRedirect(redirect: Redirect)

  datatype Step = StepPanic | StepDone(pos: nat, emit: Emit) | StepOn(pos: nat, st: PageState)

  /** One turn of the loop of `parsePage`, reading from `pos`. */
  function PageStep(toks: seq<Token>, pos: nat, st: PageState, strict: bool): (r: Step)
    requires pos <= |toks|
    ensures r.StepOn? ==> pos < r.pos <= |toks|
    ensures r.StepDone? ==> pos < r.pos <= |toks|
  {
    match ReadAt(toks, pos)
    case Tok(Start(name, attrs)) =>
      if name == "ns" then
        match ReadText(toks, pos + 1, strict)
        case None => StepPanic
        case Some((s, p)) => StepOn(p, st.(mainNS := s == "0"))
      else if name == "redirect" then
        if st.mainNS && TitleAttr(attrs).Some? then
          StepDone(pos + 1, EmitRedirect(Redirect(st.title, TitleAttr(attrs).value)))
        else StepOn(pos + 1, st)
      else if name == "text" then
        if st.mainNS then
          match ReadText(toks, pos + 1, strict)
          case None => StepPanic
          case Some((s, p)) => StepOn(p, st.(text := s))
        else StepOn(pos + 1, st)
      else if name == "title" then
        match ReadText(toks, pos + 1, strict)
        case None => StepPanic
        case Some((s, p)) => StepOn(p, st.(title := s))
      else StepOn(pos + 1, st)
    case Tok(End(name)) =>
      if name == "page" then StepDone(pos + 1, if st.mainNS then EmitPage(Page(st.title, st.text)) else NoEmit)
      else StepOn(pos + 1, st)
    case Tok(_) => StepOn(pos + 1, st)
    case _ => StepPanic
  }

  datatype PageResult = PagePanic | PageDone(pos: nat, emit: Emit)

  /** `parsePage` from `pos` in state `st`: the loop until the page ends. */
  function ParsePageFrom(toks: seq<Token>, pos: nat, st: PageState, strict: bool): (r: PageResult)
    requires pos <= |toks|
    ensures r.PageDone? ==> pos < r.pos <= |toks|
    decreases |toks| - pos
  {
    match PageStep(toks, pos, st, strict)
    case StepPanic => PagePanic
    case StepDone(p, e) => PageDone(p, e)
    case StepOn(p, st') => ParsePageFrom(toks, p, st', strict)
  }

  function PagesOf(e: Emit): seq<Page> {
    if e.EmitPage? then [e.page] else []
  }

  function RedirsOf(e: Emit): seq<Redirect> {
    if e.EmitRedirect? then [e.redirect] else []
  }

  datatype ScanResult = ScanResult(pages: seq<Page>, redirs: seq<Redirect>, panicked: bool)

  /** The loop of `GetPages` from `pos`: every top-level `<page>` in order. */
  function Scan(toks: seq<Token>, pos: nat, strict: bool): ScanResult
    requires pos <= |toks|
    decreases |toks| - pos
  {
    match ReadAt(toks, pos)
    case EOF => ScanResult([], [], false)
    case Err => ScanResult([], [], true)
    case Tok(t) =>
      if t.Start? && t.name == "page" then
        match ParsePageFrom(toks, pos + 1, Init, strict)
        case PagePanic => ScanResult([], [], true)
        case PageDone(p, e) =>
          var rest := Scan(toks, p, strict);
          ScanResult(PagesOf(e) + rest.pages, RedirsOf(e) + rest.redirs, rest.panicked)
      else Scan(toks, pos + 1, strict)
  }

  /** `getText`; `None` is a panic. */
  method GetText(d: Decoder, strict: bool) returns (r: Option<Str>)
    requires d.pos <= |d.toks|
    modifies d
    ensures d.pos <= |d.toks|
    ensures match ReadText(d.toks, old(d.pos), strict)
            case None => r.None?
            case Some((s, p)) => r == Some(s) && d.pos == p
  {
    var t := d.Next();
    if t.Tok? && t.tok.CharData? {
      var next := d.Next();
      if next.Tok? && next.tok.End? {
        return Some(t.tok.text);
      }
      return None;
    }
    if strict {
      return None;
    }
    return Some([]);
  }

  /** The first `title` attribute, by the loop over the attributes. */
  method FindTitle(attrs: seq<Attr>) returns (r: Option<Str>)
    ensures r == TitleAttr(attrs)
  {
    for i := 0 to |attrs|
      invariant TitleAttr(attrs) == TitleAttr(attrs[i..])
    {
      if attrs[i].name == "title" {
        return Some(attrs[i].value);
      }
      assert attrs[i..][1..] == attrs[i + 1..];
    }
    return None;
  }

  /** `parsePage`: reads one page after its start tag; `false` is a panic,
      which leaves the channels as they were. */
  method ParsePage(d: Decoder, out: Sink, strict: bool) returns (ok: bool)
    requires d.pos <= |d.toks| && !out.closed
    modifies d, out
    ensures d.pos <= |d.toks|
    ensures var r := ParsePageFrom(d.toks, old(d.pos), Init, strict);
            ok == r.PageDone?
            && (ok ==> d.pos == r.pos)
            && out.pages == old(out.pages) + (if ok then PagesOf(r.emit) else [])
            && out.redirs == old(out.redirs) + (if ok then RedirsOf(r.emit) else [])
            && out.closed == old(out.closed)
  {
    ghost var goal := ParsePageFrom(d.toks, d.pos, Init, strict);
    var mainNS := false;
    var title: Str := [];
    var text: Str := [];
    while true
      invariant d.pos <= |d.toks|
      invariant ParsePageFrom(d.toks, d.pos, PageState(mainNS, title, text), strict) == goal
      invariant out.pages == old(out.pages) && out.redirs == old(out.redirs) && out.closed == old(out.closed)
      decreases |d.toks| - d.pos
    {
      ghost var pos := d.pos;
      var t := d.Next();
      if !t.Tok? {
        return false;
      }
      match t.tok
      case Start(name, attrs) =>
        if name == "ns" {
          var s := GetText(d, strict);
          if s.None? {
            return false;
          }
          mainNS := s.value == "0";
        } else if name == "redirect" {
          if mainNS {
            var target := FindTitle(attrs);
            if target.Some? {
              out.redirs := out.redirs + [Redirect(title, target.value)];
              return true;
            }
          }
        } else if name == "text" {
          if mainNS {
            var s := GetText(d, strict);
            if s.None? {
              return false;
            }
            text := s.value;
          }
        } else if name == "title" {
          var s := GetText(d, strict);
          if s.None? {
            return false;
          }
          title := s.value;
        }
      case End(name) =>
        if name == "page" {
          if mainNS {
            out.pages := out.pages + [Page(title, text)];
          }
          return true;
        }
      case _ =>
    }
  }

  /** The loop of `GetPages`; `false` is a panic. */
  method ScanPages(d: Decoder, out: Sink, strict: bool) returns (ok: bool)
    requires d.pos <= |d.toks| && !out.closed
    modifies d, out
    ensures var r := Scan(d.toks, old(d.pos), strict);
            ok == !r.panicked
            && out.pages == old(out.pages) + r.pages
            && out.redirs == old(out.redirs) + r.redirs
            && !out.closed
  {
    ghost var goal := Scan(d.toks, d.pos, strict);
    ghost var pages0 := out.pages;
    ghost var redirs0 := out.redirs;
    ghost var sentPages: seq<Page> := [];
    ghost var sentRedirs: seq<Redirect> := [];
    while true
      invariant d.pos <= |d.toks| && !out.closed
      invariant out.pages == pages0 + sentPages && out.redirs == redirs0 + sentRedirs
      invariant ScanRemains(goal, sentPages, sentRedirs, d.toks, d.pos, strict)
      decreases |d.toks| - d.pos
    {
      ghost var pos := d.pos;
      var t := d.Next();
      if t.EOF? {
        ScanStops(d.toks, pos, strict, sentPages, sentRedirs, goal);
        return true;
      } else if t.Err? {
        ScanStops(d.toks, pos, strict, sentPages, sentRedirs, goal);
        return false;
      }
      if t.tok.Start? && t.tok.name == "page" {
        ghost var r := ParsePageFrom(d.toks, d.pos, Init, strict);
        var pageOk := ParsePage(d, out, strict);
        if !pageOk {
          ScanStops(d.toks, pos, strict, sentPages, sentRedirs, goal);
          return false;
        }
        ScanAtPage(d.toks, pos, strict, sentPages, sentRedirs, goal);
        AppendAssoc(pages0, sentPages, PagesOf(r.emit));
        AppendAssoc(redirs0, sentRedirs, RedirsOf(r.emit));
        sentPages := sentPages + PagesOf(r.emit);
        sentRedirs := sentRedirs + RedirsOf(r.emit);
      } else {
        ScanPastToken(d.toks, pos, strict, sentPages, sentRedirs, goal);
      }
    }
  }

  /** Where the scan stops, on the end of the input, a decoder error or a
      page that panics, it sends nothing more. */
  lemma ScanStops(toks: seq<Token>, pos: nat, strict: bool, sentPages: seq<Page>,
                  sentRedirs: seq<Redirect>, goal: ScanResult)
    requires pos <= |toks|
    requires !ReadAt(toks, pos).Tok?
             || (ReadAt(toks, pos).tok.Start? && ReadAt(toks, pos).tok.name == "page"
                 && ParsePageFrom(toks, pos + 1, Init, strict).PagePanic?)
    requires ScanRemains(goal, sentPages, sentRedirs, toks, pos, strict)
    ensures goal == ScanResult(sentPages, sentRedirs, !ReadAt(toks, pos).EOF?)
  {
    assert sentPages + [] == sentPages && sentRedirs + [] == sentRedirs;
  }

  /** A token outside a page is passed over. */
  lemma ScanPastToken(toks: seq<Token>, pos: nat, strict: bool, sentPages: seq<Page>,
                      sentRedirs: seq<Redirect>, goal: ScanResult)
    requires ReadAt(toks, pos).Tok? && !(ReadAt(toks, pos).tok.Start? && ReadAt(toks, pos).tok.name == "page")
    requires ScanRemains(goal, sentPages, sentRedirs, toks, pos, strict)
    ensures ScanRemains(goal, sentPages, sentRedirs, toks, pos + 1, strict)
  {
    assert Scan(toks, pos, strict) == Scan(toks, pos + 1, strict);
  }

  /** `goal` is what has been sent followed by what the scan from `pos` sends. */
  ghost predicate ScanRemains(goal: ScanResult, sentPages: seq<Page>, sentRedirs: seq<Redirect>,
                              toks: seq<Token>, pos: nat, strict: bool)
    requires pos <= |toks|
  {
    var s := Scan(toks, pos, strict);
    goal == ScanResult(sentPages + s.pages, sentRedirs + s.redirs, s.panicked)
  }

  /** A complete page moves its output from the rest of the scan to what has been sent. */
  lemma ScanAtPage(toks: seq<Token>, pos: nat, strict: bool, sentPages: seq<Page>,
                   sentRedirs: seq<Redirect>, goal: ScanResult)
    requires ReadAt(toks, pos).Tok? && ReadAt(toks, pos).tok.Start? && ReadAt(toks, pos).tok.name == "page"
    requires ParsePageFrom(toks, pos + 1, Init, strict).PageDone?
    requires ScanRemains(goal, sentPages, sentRedirs, toks, pos, strict)
    ensures var r := ParsePageFrom(toks, pos + 1, Init, strict);
            ScanRemains(goal, sentPages + PagesOf(r.emit), sentRedirs + RedirsOf(r.emit), toks, r.pos, strict)
  {
  }

  /** `GetPages` of wikidump/pages.go: the lenient `getText`, and the
      channels are left open for further parts of the dump. */
  method GetPages(d: Decoder, out: Sink) returns (ok: bool)
    requires d.pos <= |d.toks| && !out.closed
    modifies d, out
    ensures var r := Scan(d.toks, old(d.pos), false);
            ok == !r.panicked
            && out.pages == old(out.pages) + r.pages
            && out.redirs == old(out.redirs) + r.redirs
            && !out.closed
  {
    ok := ScanPages(d, out, false);
  }

  /** `GetPages`/`getPages` of wikidump/dumpparser.go and dumpparser.go: the
      strict `getText`, and both channels are closed when it returns, as the
      deferred calls do even on a panic. */
  method GetPagesClosing(d: Decoder, out: Sink) returns (ok: bool)
    requires d.pos <= |d.toks| && !out.closed
    modifies d, out
    ensures var r := Scan(d.toks, old(d.pos), true);
            ok == !r.panicked
            && out.pages == old(out.pages) + r.pages
            && out.redirs == old(out.redirs) + r.redirs
            && out.closed
  {
    ok := ScanPages(d, out, true);
    out.closed := true;
  }
}
