# semanticizest in Dafny

A model of the Go core of semanticizest, an entity linker built from
Wikipedia. The pipeline has three parts.

**Dump parser.** It reads a Wikipedia XML dump and keeps the pages and
redirects of the main namespace. It strips template and tag markup from
the wikitext and extracts the `[[target|anchor]]` links. Each anchor is
tokenized and its n-grams are hashed (FNV-1, 32 bits). The parser stores
link statistics, meaning how often an n-gram hash links to a title, in
SQLite. It then folds redirect titles into their targets and stores the
parameters and the count-min matrix of n-gram frequencies.

**Linker.** It looks up candidate entities for the n-grams of a text. It
picks a consistent set of them with a Viterbi decoder over a hidden Markov
model that has one state per candidate plus a sink state.

**Client and web server.** The client splits its input into paragraphs.

Several copies of the same code live in the repository, at different
stages of its history. They are modelled side by side where they differ.
Examples are the older `dumpparser.go`, `wikisyntax.go`, `tokenize.go`,
`semanticizest/`, `storage/` and `dumpparser/`, next to `wikidump/`,
`nlp/`, `hash/`, `linking/`, `internal/storage/` and `cmd/`.

Modules:

- `Text`: the byte-string helpers the core calls from `strings`, `bytes`
  and `regexp`: `TrimSpace`, whitespace collapsing, `IndexByte`, `Replace`.
- `WikiSyntax`: `Cleanup` (markup stripping) and `ExtractLinks`
  (`wikidump/wikisyntax.go`, `wikisyntax.go`).
- `Pages`: the XML page scanner `GetPages`/`parsePage`/`getText` over a
  token stream, with a `Decoder` and a `Sink` class.
- `PageEntries`: the encoding of a simplified dump as tokens (no `<id>`,
  no `<revision>` wrapper, no white space between elements), and what the
  scanner makes of it.
- `Tokenize`: `tokenRE`/`numericRE` tokenization (`nlp`, the older
  copies).
- `NGrams`: `nlp.NGrams` (token slices).
- `HashNGrams`: `hash.NGrams` and `hash.NGramsPos` (FNV-1 hashes).
- `LinkStore`: `processLink` and `storeLinks` of the dump parsers.
- `Tables`: the SQLite schema as values, plus the semantics of the
  prepared statements and a fault budget for a rejected statement.
- `Storage`: the `Db` class, `StoreRedirects` and `ProcessRedirects`.
- `CountMatrix`: `StoreCM` and `LoadCM`.
- `Settings`: `MakeDB`'s parameters and `loadModel`, with
  `strconv.ParseInt`/`FormatUint`.
- `DpTable`: the flat `dpTable` with `at`, `row` and `nrows`.
- `Viterbi`: `hmm.viterbi` and `transProb` (`linking`).
- `LegacyViterbi`: `dpTable.viterbi` of `semanticizest`.
- `BestPath`: `bestPath`, `BestPath` and `candidates` (`linking`).
- `SplitPara`: the `splitPara` paragraph splitter for `bufio.Scanner`.

Float64 log-probabilities are extended reals (`Score`: a finite real or
±∞). Link counts are reals. `math.Log`, the observation normalisation,
`html.UnescapeString` and NFC normalisation are parameters. Go's
unspecified map iteration order is a parameter `order` wherever a result
depends on it. The database is a value of three tables (`titles`,
`linkstats`, `ngramfreq`) plus the `parameters` map. Each SQL statement
is a function on it. A fault budget `Option<nat>` lets the database
carry out `k` statements and reject the next, so the error paths of every
loop are modelled.

## Model

| member | source | states |
|---|---|---|
| Text.TrimSpace | cmd/semanticizest/main.go:35 | the result neither starts nor ends with an ASCII white-space byte (`\t`, `\n`, `\v`, `\f`, `\r`, space) |
| Text.TrimSpaceIsSlice | wikidump/wikisyntax.go:76 | the trimmed string is a contiguous slice of the input |
| Text.CollapseSpace | wikidump/wikisyntax.go:77 | the result is empty iff the input is; every `\s` byte left is a space and no two are adjacent; the first and last bytes are kept, or become a space when they were `\s` |
| Text.CollapseNoSpace | wikidump/wikisyntax.go:77 | a string without `\s` is left unchanged |
| Text.CollapseConcat | wikidump/wikisyntax.go:77 | collapsing splits at any cut just after a byte that is not `\s`: the two sides collapse independently |
| Text.CollapseRun | wikidump/wikisyntax.go:77 | a non-empty run of `\s` between stretches that do not touch it becomes exactly one space: `CollapseSpace(a + w + b) == CollapseSpace(a) + " " + CollapseSpace(b)` |
| Text.TrimAround | wikidump/wikisyntax.go:76 | trimming removes exactly the white space on both sides of a stretch that neither starts nor ends with white space |
| Text.CollapseKeepsContent | wikidump/wikisyntax.go:77 | collapsing whitespace keeps every non-space byte in order |
| Text.IndexByte | wikidump/wikisyntax.go:86 | None iff the byte is absent; otherwise the first position holding it |
| Text.ReplaceByte | wikidump/wikisyntax.go:112 | same length; exactly the bytes equal to `a` become `b` |
| WikiSyntax.MarkerAt | wikidump/wikisyntax.go:14 | a match of `special` starts at `i` and ends inside the string |
| WikiSyntax.MarkerShape | wikidump/wikisyntax.go:14 | each match is `{{`, `}}`, `{\|`, `\|}`, a start tag or an end tag |
| WikiSyntax.FindMarker | wikidump/wikisyntax.go:27 | `FindStringIndex`: the leftmost match, no match before it, None iff no match at all |
| WikiSyntax.MarkerClassification | wikidump/wikisyntax.go:41-57 | openers (`{{`, `{|`, a start tag) raise the depth, closers lower it (never below zero) |
| WikiSyntax.StripMarkup | wikidump/wikisyntax.go:23-61 | the loop's output is the reference `Strip`, and a subsequence of the input |
| WikiSyntax.StripStep | wikidump/wikisyntax.go:35-59 | one loop iteration preserves `out + Strip(rest, depth)` |
| WikiSyntax.StripLastStep | wikidump/wikisyntax.go:28-33 | with no marker left, the rest is kept at depth 0 and dropped otherwise |
| WikiSyntax.Cleanup | wikidump/wikisyntax.go:23-62 | the result is `nfc(unescape(Strip(s)))` |
| WikiSyntax.CleanupPrototype | wikisyntax.go:20-59 | the older `cleanup`: `unescape(Strip(s))`, without NFC |
| WikiSyntax.StripIsSubsequence | wikidump/wikisyntax.go:23-62 | stripping only deletes bytes: the result is a subsequence of the input |
| WikiSyntax.NoMarkerUnchanged | wikidump/wikisyntax.go:28-33 | text without markup is returned unchanged |
| WikiSyntax.UnclosedDropsRest | wikidump/wikisyntax.go:41-60 | after an opener with no closer, everything after it is dropped |
| WikiSyntax.ConstructDropped | wikidump/wikisyntax_test.go:15-22 | a balanced `{{…}}` construct is removed and the text around it kept |
| WikiSyntax.SpuriousCloserIgnored | wikidump/wikisyntax.go:49-56 | a closer at depth 0 is removed and nothing else changes |
| WikiSyntax.SelfClosingTagDropsRest | wikidump/wikisyntax.go:43-48 | a self-closing tag like `<br/>` counts as an opener, so the rest of the text is lost |
| WikiSyntax.LinkAt | wikidump/wikisyntax.go:69 | a `linkRE` match at `p` lies inside the string |
| WikiSyntax.LinkShape | wikidump/wikisyntax.go:69 | the match text is exactly before + `[[` + body + `]]` + after |
| WikiSyntax.LinkParts | wikidump/wikisyntax.go:69 | before and after are word bytes, the body is non-empty without `]`, and the trailing word run is maximal |
| WikiSyntax.NextLink | wikidump/wikisyntax.go:82 | the next match found lies at or after `from` |
| WikiSyntax.NextLinkLeftmost | wikidump/wikisyntax.go:82 | no match starts between `from` and the one found, nor anywhere when none is found |
| WikiSyntax.LinkMatchesInOrder | wikidump/wikisyntax.go:82-125 | `FindAllStringSubmatch`: every element is a match, in text order without overlap, and no match starts before the first, in a gap between two, or after the last |
| WikiSyntax.NormSpace | wikidump/wikisyntax.go:75-78 | `normSpace`: trimmed, every whitespace is a space, no two in a row |
| WikiSyntax.NormSpaceKeepsContent | wikidump/wikisyntax.go:75-78 | `normSpace` keeps the non-space bytes; empty iff there are none |
| WikiSyntax.NormSpaceTwoWords | wikidump/wikisyntax.go:75-78 | two words with white space between and around them become the words joined by exactly one space |
| WikiSyntax.ChuckNorrisAnchor | wikidump/wikisyntax_test.go:147-152 | the anchor `Chuck` + newline + indentation + `Norris` normalises to `Chuck Norris` |
| WikiSyntax.SplitPipe | wikidump/wikisyntax.go:86-91 | without `\|` target and anchor are the whole body; otherwise the split is at the first `\|` |
| WikiSyntax.CutSection | wikidump/wikisyntax.go:103-105 | the target is cut before its first `#` and is otherwise unchanged |
| WikiSyntax.UpperFirst | wikidump/wikisyntax.go:116-119 | only the first byte changes, from ASCII lower case to upper case |
| WikiSyntax.NormalizeTarget | wikidump/wikisyntax.go:112-121 | no `_` is left; the result is trimmed, collapsed, and starts with no lower-case letter |
| WikiSyntax.CutAt | wikidump/wikisyntax.go:103-105 | the section cut ends exactly at the first `#` |
| WikiSyntax.TargetPageTarget | wikidump/wikisyntax_test.go:80-81 | the target `_target _page_ #\nsection` becomes `Target page` once the section is cut and the target normalised |
| WikiSyntax.NormalizeTargetBlank | wikidump/wikisyntax.go:106-108 | the normalised target is empty iff the target is only spaces and underscores |
| WikiSyntax.NoUnderscoreLeft | wikidump/wikisyntax.go:112 | replacing `_` and then normalising spaces leaves no `_` |
| WikiSyntax.LinkOf | wikidump/wikisyntax.go:84-123 | corrected per-match step: a link is dropped iff its target has `:` or is blank after the `#` cut; otherwise it is the normalised target with before+anchor+after |
| WikiSyntax.NormalizeTargetAsWritten | wikidump/wikisyntax.go:112-121 | as written, a blank target becomes `utf8.RuneError` (bytes EF BF BD) instead of empty |
| WikiSyntax.LinkOfAsWritten | wikidump/wikisyntax.go:84-123 | as written: the emptiness test runs before normalisation |
| WikiSyntax.BlankTargetAsWritten | wikidump/wikisyntax.go:106-121 | the match of `[[ ]]` (body one space) is kept with target U+FFFD as written, and dropped by the corrected `LinkOf` |
| WikiSyntax.KeptLinks | wikidump/wikisyntax.go:82-125 | the links the as-written or the corrected step keeps, in match order, at most one per match |
| WikiSyntax.ExtractLinks | wikidump/wikisyntax.go:74-127 | as written: the map counts exactly the occurrences of each link the as-written step keeps, a blank target counted under U+FFFD |
| WikiSyntax.ExtractLinksCorrected | wikidump/wikisyntax.go:74-127 | corrected: the map counts exactly the occurrences of each link `LinkOf` keeps, and every target counted is non-empty and starts with no lower-case letter |
| WikiSyntax.ExtractLinksWith | wikidump/wikisyntax.go:82-125 | the loop over the matches, with the per-match step as a parameter, returns the frequency table of the links that step keeps |
| WikiSyntax.CorrectedTargets | wikidump/wikisyntax.go:106-121 | every link the corrected step keeps has a non-empty target with no lower-case first letter |
| WikiSyntax.BlankLinkCounted | wikidump/wikisyntax.go:106-121 | for `[[ ]]` the as-written loop counts one link with empty anchor and target U+FFFD; the corrected loop counts none |
| WikiSyntax.Bump | wikidump/wikisyntax.go:124 | `freq[l]++`: that key goes up by one and every other key is unchanged |
| WikiSyntax.ExtractStep | wikidump/wikisyntax.go:82-125 | one iteration, with either step, keeps the map a frequency table of the links seen so far |
| WikiSyntax.CountOneMore | wikidump/wikisyntax.go:124 | bumping a frequency table of `links` gives one of `links + [l]` |
| Pages.Decoder.constructor | wikidump/pages.go:91 | a decoder at the start of the token stream |
| Pages.Decoder.Next | wikidump/pages.go:25 | `d.Token()`: yields the token at the position and advances past it; at the end yields EOF |
| Pages.Sink.constructor | wikidump/pages.go:90 | empty page and redirect channels, not closed |
| Pages.ReadText | wikidump/pages.go:70-81 | `getText`: character data is returned only when it is the next token; a non-CharData token gives "" when not strict; with `strict` (the older `getText`, wikidump/dumpparser.go lines 68-74) anything but CharData then an end tag panics |
| Pages.GetText | wikidump/pages.go:70-81 | the method reads the tokens the reference `ReadText` says and returns its text, or panics when it does |
| Pages.TitleAttr | wikidump/pages.go:38-43 | Some iff an attribute is named `title`, and its value is one such attribute's value |
| Pages.FindTitle | wikidump/pages.go:38-43 | the loop over the attributes returns `TitleAttr` |
| Pages.PageStep | wikidump/pages.go:24-62 | one token of `parsePage` moves strictly forward within the stream |
| Pages.ParsePageFrom | wikidump/pages.go:20-65 | a finished page ends strictly past where it started |
| Pages.ParsePage | wikidump/pages.go:20-65 | the method sends what `ParsePageFrom` computes, at most one page or redirect, and stops where it does; with `strict` this is also `parsePage` of dumpparser.go, lines 23-68 |
| Pages.ScanPages | wikidump/pages.go:93-107 | the loop emits exactly what `Scan` computes, in order, and reports the panic it does |
| Pages.ScanStops | wikidump/pages.go:94-99 | at EOF the scan stops cleanly, and on a read error it panics |
| Pages.ScanPastToken | wikidump/pages.go:101-106 | a token other than `<page>` is skipped |
| Pages.ScanAtPage | wikidump/pages.go:103-105 | at `<page>` the scan adds what `parsePage` emits and continues after it |
| Pages.GetPages | wikidump/pages.go:90-108 | emits `Scan(tokens, lenient)` and leaves the channels open |
| Pages.GetPagesClosing | wikidump/dumpparser.go:80-101 | emits `Scan(tokens, strict)` and closes both channels on return (`defer close`); the same scanner as `getPages` of dumpparser.go, lines 81-102 |
| PageEntries.ReadElement | wikidump/pages.go:70-81 | `<x>s</x>` reads back as `s`; an empty element panics only in strict mode |
| PageEntries.ScanSkip | wikidump/pages.go:101-106 | tokens that are neither `<page>` nor errors do not change the scan |
| PageEntries.PassOver | wikidump/pages.go:30-62 | inside a page, tokens the switch ignores do not change the result |
| PageEntries.PassOverAt | wikidump/pages.go:30-62 | a run of ignored tokens does not change the page's result |
| PageEntries.NsStep | wikidump/pages.go:33-35 | `<ns>` sets `mainNS` iff its text is "0" |
| PageEntries.TitleStep | wikidump/pages.go:49-52 | `<title>` sets the title in every namespace |
| PageEntries.TextStep | wikidump/pages.go:45-48 | `<text>` in the main namespace sets the text |
| PageEntries.ReadHead | wikidump/pages.go:30-52 | the title and ns elements of a page set the title and the namespace flag |
| PageEntries.ReadPageEnd | wikidump/pages.go:55-61 | `</page>` ends the page and emits the page iff the namespace is 0 |
| PageEntries.ReadTailMain | wikidump/pages.go:45-61 | a main-namespace page without redirect emits its title and text |
| PageEntries.ReadTailOther | wikidump/pages.go:36-61 | a page outside namespace 0 emits nothing, redirect or not |
| PageEntries.RedirectTail | wikidump/pages.go:36-44 | in namespace 0 a `<redirect title=…>` emits the redirect and returns at once |
| PageEntries.ScanPageDone | wikidump/pages.go:103-105 | a parsed page's output is prepended to the rest of the scan |
| PageEntries.ParseBody | wikidump/pages.go:20-65 | parsing an encoded page yields its meaning and ends at the page's end |
| PageEntries.BodyRedirect | wikidump/pages.go:36-44 | a redirect page means one redirect, and the scan resumes inside the page |
| PageEntries.BodyPage | wikidump/pages.go:55-61 | a plain page means its title and text when in namespace 0 |
| PageEntries.EntryScan | wikidump/pages.go:101-106 | scanning an encoded entry emits its meaning and continues after it |
| PageEntries.PageScan | wikidump/pages.go:101-106 | as EntryScan, with the scan from a later position |
| PageEntries.ScanEntries | wikidump/pages.go:93-107 | a stream of encoded entries scans to the pages and redirects they mean, with no panic |
| PageEntries.DumpMeaning | wikidump/pages.go:83-108 | for a well-formed dump, `GetPages` yields exactly the namespace-0 pages and redirects, in dump order |
| PageEntries.EmptyTitle | wikidump/dumpparser.go:68-74 | an empty `<title></title>` panics in the older strict `getText` and reads as "" in the newer one |
| PageEntries.EmptyTitleStrict | dumpparser.go:73-79 | any dump starting with an empty title panics under the strict reader |
| PageEntries.ErrorPanics | wikidump/pages.go:26-28 | a decoder error met before any `<page>` panics the scan, with nothing emitted |
| Tokenize.TokenEnd | nlp/tokenize.go:10 | the greedy `+` loop stops at the first byte one iteration cannot match |
| Tokenize.TokenSpans | nlp/tokenize.go:16 | every match lies within the string, after the search start |
| Tokenize.TokenSpansShape | nlp/tokenize.go:10 | each match is a token (word bytes, inner punctuation between word bytes), maximal, in order and apart |
| Tokenize.RunIsToken | nlp/tokenize.go:10 | a run of matchable positions between non-matchable ones is a well-formed token |
| Tokenize.SpanContaining | nlp/tokenize.go:16-21 | every word byte lies inside some match: nothing is skipped |
| Tokenize.NoTokensIffNoWords | nlp/tokenize.go:10-23 | no tokens iff the text has no word byte |
| Tokenize.IsNumberMeans | nlp/tokenize.go:9 | `numericRE` matches a token iff it is one digit, or a digit followed by at least four digits, `.` or `,` |
| Tokenize.FourDigitsKept | nlp/tokenize.go:9 | a four-byte token (a year) is never replaced by `<NUM>` |
| Tokenize.FindNumber | tokenize.go:13 | a match found lies inside the token |
| Tokenize.FindNumberMeans | tokenize.go:13 | the unanchored `\d[\d\.]+` finds a match iff some digit is followed by a digit or `.` |
| Tokenize.SingleDigitKept | tokenize.go:13 | a token of at most one byte is never replaced in the older copies |
| Tokenize.Tokens | nlp/tokenize.go:13-23 | one token per match |
| Tokenize.Tokenize | nlp/tokenize.go:13-23 | the loop returns the matches with whole-number tokens replaced by `<NUM>` (`Tokens`) |
| Tokenize.TokenizeLegacy | tokenize.go:17-25 | older copy: no `,` inside tokens, and any token containing a number becomes `<NUM>`; the same patterns as wikidump/tokenize.go, lines 14-22 |
| NGrams.Min | nlp/ngrams.go:14-19 | the smaller of the two |
| NGrams.Row | nlp/ngrams.go:7-9 | the inner loop's n-grams at `i`, one per length from `lo` to `hi` |
| NGrams.RowMembers | nlp/ngrams.go:7-9 | a gram is in the row iff it starts at `i` with length in `[lo, hi]` |
| NGrams.GramsBelowMembers | nlp/ngrams.go:6-10 | the grams from the first `i` positions are exactly those with lengths in range that fit the text |
| NGrams.AllGramsMembers | nlp/ngrams.go:4-12 | `NGrams` yields exactly the slices of length `minN..maxN` that fit, each once |
| NGrams.AllGramsOrdered | nlp/ngrams_test.go:36-54 | ordered by start and then by length |
| NGrams.AllGramsInRange | nlp/ngrams.go:4-12 | every slice lies within the tokens |
| NGrams.SlicesAt | nlp/ngrams.go:8 | entry `k` is `tokens[start:start+n]` |
| NGrams.NGrams | nlp/ngrams.go:4-12 | the loops return the slices of `AllGrams`, in that order |
| NGrams.AppendRow | nlp/ngrams.go:7-9 | the inner loop appends the row at `i` |
| NGrams.InnerStep | nlp/ngrams.go:8 | one iteration appends one slice |
| NGrams.Unigrams | nlp/ngrams_test.go:23-27 | `NGrams(t, 1, 1)` is every token on its own |
| NGrams.Bigrams | nlp/ngrams_test.go:29-34 | `NGrams(t, 2, 2)` is each adjacent pair |
| NGrams.NoGrams | nlp/ngrams.go:6-10 | with no tokens or `maxN < minN` the result is empty |
| HashNGrams.FnvConcat | hash/ngrams.go:15-22 | FNV-1 of a concatenation continues from the hash of the prefix |
| HashNGrams.HashExtend | hash/ngrams.go:21-22 | writing NUL and the next token extends the hash of the NUL-joined gram |
| HashNGrams.HashesAt | hash/ngrams.go:9-29 | entry `k` is the hash of gram `k` |
| HashNGrams.HashesConcat | hash/ngrams.go:9-29 | the hashes of a concatenation are concatenated |
| HashNGrams.Max | hash/ngrams.go:20-23 | the larger of the two: the inner loop starts at `n := 2` and hashes only `n >= minN`, so its first hashed length is `Max(2, minN)` (and `Max(1, minN)` in the corrected version) |
| HashNGrams.RunHashIsHash | hash/ngrams.go:14-22 | the running hash after `k` tokens is the hash of the NUL-joined slice |
| HashNGrams.UnigramHash | hash/ngrams.go:14-17 | the first sum is the hash of the token alone |
| HashNGrams.ExtendStep | hash/ngrams.go:20-26 | one inner iteration gives the hash of the next longer gram |
| HashNGrams.NGramHashesAsWritten | hash/ngrams.go:9-29 | the loops return the hashes of the grams as written (unigram only when `minN == 1`) |
| HashNGrams.NGramHashes | hash/ngrams.go:9-29 | corrected: the hashes of `AllGrams(len, max(1,minN), maxN)`, those `NGrams` slices |
| HashNGrams.NGramHashesWith | hash/ngrams.go:13-27 | the outer loop with the unigram test as a parameter returns the hashes of those grams |
| HashNGrams.RowHashes | hash/ngrams.go:14-26 | one outer iteration appends the hashes of the row at `i` |
| HashNGrams.HashGramsCorrected | hash/ngrams.go:16-24 | with the unigram emitted iff `minN <= 1 <= maxN`, the grams are `AllGrams` |
| HashNGrams.HashGramsAsWrittenAgree | hash/ngrams.go:16-24 | as written agrees with `AllGrams` when `minN >= 2`, or `minN == 1` and `maxN >= 1` |
| HashNGrams.UnigramBeyondMaxN | hash/ngrams.go:16-18 | as written `NGrams(t, 1, 0)` yields a unigram; `nlp.NGrams` yields nothing |
| HashNGrams.UnigramMissedBelowOne | hash/ngrams.go:16-18 | as written `NGrams(t, 0, 1)` yields nothing where the unigram is wanted |
| HashNGrams.HashesMatchSlices | hash/ngrams_test.go:31-51 | each hash is the hash of the NUL-joined slice `nlp.NGrams` yields |
| HashNGrams.NGramsPos | hash/ngrams.go:40-56 | the loops return hash and position of the grams of lengths `1..maxN` |
| HashNGrams.RowPositions | hash/ngrams.go:42-54 | one outer iteration appends the row's hashes with their positions |
| HashNGrams.PosHashesOfPositions | hash/ngrams.go:34-37 | the hash fields of `NGramsPos` are the hashes `NGrams` would give |
| HashNGrams.NGramsPosGrams | hash/ngrams.go:40-56 | the grams are `AllGrams(len, 1, max(1, maxN))` |
| HashNGrams.NGramsPosHashes | hash/ngrams.go:40-56 | `NGramsPos` hashes agree with `NGrams(tokens, 1, maxN)` corrected |
| HashNGrams.NGramsPosEntries | hash/ngrams.go:40-56 | each entry's span lies within the tokens and its hash is that span's |
| LinkStore.ProcessLink | cmd/semanticizest-dumpparser/internal/main.go:230-239 | returns `Process`: the hashes of the `min(maxN, #tokens)`-grams, each worth `1/#hashes` when several |
| LinkStore.FixedLength | cmd/semanticizest-dumpparser/internal/main.go:233 | `NGrams(t, n, n)` gives one gram per start that fits |
| LinkStore.WindowHashes | cmd/semanticizest-dumpparser/internal/main.go:232-233 | with `n = len(tokens)` exactly one hash, of the whole anchor |
| LinkStore.ProcessedHashes | cmd/semanticizest-dumpparser/internal/main.go:230-239 | anchors up to `maxN` tokens get one hash worth `freq`; longer ones spread one unit over their windows |
| LinkStore.HashCountsSum | cmd/semanticizest-dumpparser/internal/main.go:274-278 | the counts a link adds to a hash total `occurrences × count` |
| LinkStore.TimesIsProduct | cmd/semanticizest-dumpparser/internal/main.go:236 | repeated addition is the product |
| LinkStore.SpreadEvenly | cmd/semanticizest-dumpparser/internal/main.go:235-237 | the `1/m` shares of a long anchor add up to one |
| LinkStore.MovedCount | cmd/semanticizest-dumpparser/internal/main.go:273-278 | the insert/insert/update triples add exactly the counts to the target's hash rows |
| LinkStore.LinkCounted | cmd/semanticizest-dumpparser/internal/main.go:273-278 | a link's statements add its contribution to its title and nothing to others |
| LinkStore.AddedThree | internal/dumpparser/main_test.go:10-49 | three links contribute the sum of their own contributions |
| LinkStore.StoredCounts | cmd/semanticizest-dumpparser/internal/main.go:271-281 | after all links, each (hash, title) count grew by exactly what the links add |
| LinkStore.LinkStep | cmd/semanticizest-dumpparser/internal/main.go:271-281 | one more link runs its statements after the earlier ones |
| LinkStore.LinksFailed | cmd/semanticizest-dumpparser/internal/main.go:278-280 | after a rejected statement the loop's outcome is fixed |
| LinkStore.RunLinks | cmd/semanticizest-dumpparser/internal/main.go:265-281 | the loop's effect and error are those of running the links' statements with the fault budget |
| LinkStore.StoreLinksAsWritten | cmd/semanticizest-dumpparser/internal/main.go:242-284 | as written: the statements run up to a rejection and `err` is then overwritten by `tx.Commit()`; the same code as cmd/semanticizest-dumpparser/main.go, lines 264-306 |
| LinkStore.StoreLinks | cmd/semanticizest-dumpparser/internal/main.go:242-284 | corrected: a rejection is returned and nothing is committed; with no error every statement is committed |
| LinkStore.CommitHidesRejection | cmd/semanticizest-dumpparser/internal/main.go:282 | with one statement rejected, as written reports success over a partial store |
| LinkStore.NoErrorMeansStored | cmd/semanticizest-dumpparser/internal/main.go:242-284 | corrected: no error iff nothing was rejected, and then all the links' statements are applied |
| LinkStore.ProcessBatch | dumpparser/main.go:201-209 | each link of a map processed in the visiting order |
| LinkStore.ProcessBatchesPrefix | dumpparser/main.go:200-224 | the maps are processed in channel order |
| LinkStore.BatchesFailed | dumpparser/main.go:209-222 | after a rejection no later map's statement runs |
| LinkStore.StoreBatch | dumpparser/main.go:201-223 | one map's statements run up to the first rejection |
| LinkStore.StoreLinkMaps | dumpparser/main.go:179-226 | the older `storeLinks`: no transaction, statements in effect up to the first rejection, which is returned |
| LinkStore.StoreLinksExample | dumpparser/main_test.go:9-37 | the test's maps give the hash of "semanticizest" a count of 3 for its target, in either visiting order |
| LinkStore.StoredFromEmpty | dumpparser/main_test.go:9-37 | from empty tables each count is the links' contribution |
| LinkStore.ExampleAdded | dumpparser/main_test.go:30-36 | the example's contribution for the first anchor is 3 |
| LinkStore.SingleHash | dumpparser/main.go:203-209 | a one-token anchor has one hash worth its frequency |
| LinkStore.ExampleBatches | dumpparser/main_test.go:9-37 | the processed example is the two first-map links in some order, then the third |
| Tables.IdOfFound | internal/storage/database.go:35-38 | the id lookup is None iff no row has the title, else that row's id |
| Tables.IdOfMember | internal/storage/database.go:35-38 | with unique titles and ids, the lookup is exactly row membership |
| Tables.IdOfInjective | internal/storage/database.go:36-37 | one id names at most one title |
| Tables.InsertTitleOk | internal/storage/database.go:174-175 | `insert or ignore`: keeps uniqueness, adds a fresh id only when the title is missing, other titles unchanged |
| Tables.DeleteTitleOk | internal/storage/database.go:171 | removes exactly the rows with that id; other lookups unchanged |
| Tables.SumAddTo | internal/storage/database.go:183-186 | the update adds `c` to each sum that selects the row, and nothing elsewhere |
| Tables.SumDelete | internal/storage/database.go:168 | deleting a target's rows removes exactly their part of every sum |
| Tables.CountsOfSum | internal/storage/database.go:164-165 | the queried counts of a target add up to its total per hash |
| Tables.InsertLinkOk | internal/storage/database.go:178-180 | `insert or ignore` a zero row: keeps `(hash, target)` unique, sums unchanged, the row exists after |
| Tables.ApplyOk | internal/storage/database.go:35-49 | every statement keeps the unique constraints of the schema |
| Tables.RunCons | internal/storage/database.go:192-245 | a run is the first statement, then the rest |
| Tables.RunSnoc | internal/storage/database.go:192-245 | a run extends by one statement, which runs iff the budget allows |
| Tables.RunPrefixFailed | internal/storage/database.go:227-229 | once a statement is rejected, later ones change nothing |
| Tables.RunConcat | internal/storage/database.go:192-245 | a run of two parts runs the second from where the first left off |
| Tables.RunOk | internal/storage/database.go:192-245 | a run with nothing rejected applies every statement |
| Tables.RunKeepsOk | internal/storage/database.go:35-49 | every run keeps the constraints |
| Tables.RunUnlimited | internal/storage/database.go:192-245 | with no fault budget nothing is rejected |
| Tables.ApplyAllConcat | internal/storage/database.go:192-245 | applying statements in sequence composes |
| Tables.MoveOneEffect | internal/storage/database.go:232-240 | one count's three statements put the target title in, and add the count to its (hash, target) row |
| Tables.MoveOneSum | internal/storage/database.go:232-240 | one moved count adds to exactly the sums that select the target |
| Tables.MoveEffect | internal/storage/database.go:231-241 | moving counts keeps the constraints, inserts the target title iff there is a count, and leaves `ngramfreq` alone |
| Tables.MoveSum | internal/storage/database.go:231-241 | moving all counts adds their total to each sum that selects the target |
| Storage.RedirectAllInOrder | internal/storage/database.go:192-245 | with nothing rejected each redirect is carried out in slice order |
| Storage.RedirectSkips | internal/storage/database.go:197-200 | a redirect whose title is not stored changes nothing |
| Storage.RedirectSplit | internal/storage/database.go:205-241 | a redirect is: read the counts, delete the title's rows, then move the counts |
| Storage.RedirectKeepsOk | internal/storage/database.go:220-241 | a redirect keeps the constraints and every link row resolving, and does not touch `ngramfreq` |
| Storage.RedirectTitles | internal/storage/database.go:220-241 | the redirect title is gone, the target exists when there were counts, other titles keep their ids |
| Storage.RedirectSum | internal/storage/database.go:205-241 | the sums move from the title to the target, unchanged elsewhere |
| Storage.RedirectKeepsTotals | internal/storage/database.go:205-241 | a redirect keeps each hash's total count |
| Storage.RedirectMovesCounts | internal/storage/database.go:231-241 | the target's count per hash grows by the title's count; other titles keep theirs |
| Storage.RedirectExample | internal/storage/database_test.go:44-114 | the test's two redirects: the stored one is folded into its target, the missing one skipped |
| Storage.RedirectExampleFirst | internal/storage/database_test.go:84-113 | after the first redirect the tables are exactly the test's expectation |
| Storage.Db.constructor | internal/storage/database.go:153 | a connection on the given tables, outside a transaction |
| Storage.Db.Exec | internal/storage/database.go:221 | `stmt.Exec`: the statement is applied iff the budget lets it run |
| Storage.Db.TitleId | internal/storage/database.go:198 | the id query returns the title's id, or no row, and changes nothing |
| Storage.Db.Counts | internal/storage/database.go:205-218 | the counts query returns the `(hash, count)` rows of the target |
| Storage.Db.Begin | internal/storage/database.go:159 | a transaction starts on the current tables |
| Storage.Db.Commit | internal/storage/database.go:246 | a commit makes the tables durable, or rolls back to the last commit when rejected |
| Storage.MoveOneCount | internal/storage/database.go:232-240 | the three statements of one count, each only while no error |
| Storage.MoveCounts | internal/storage/database.go:231-241 | the loop over the counts has the effect and error of running their statements |
| Storage.RedirectOne | internal/storage/database.go:197-244 | one iteration of the loop does what `RedirectStep` says, error included |
| Storage.StoreRedirects | internal/storage/database.go:153-248 | redirects in order in one transaction; the first error is returned with the transaction left open, else the result is committed |
| Storage.MapRedirects | storage/database.go:179 | a map's redirects in the visiting order, each key once |
| Storage.ProcessRedirects | storage/database.go:160-228 | the older copy: no transaction, a missing title is `sql.ErrNoRows`, the first error returned at once |
| CountMatrix.InsertEffect | internal/storage/database.go:291 | inserting the cells appends them to `ngramfreq` |
| CountMatrix.InsertRow | internal/storage/database.go:288-294 | one row's loop has the effect and error of its statements |
| CountMatrix.CellsStep | internal/storage/database.go:286-295 | one more row runs after the earlier ones |
| CountMatrix.CellsFailed | internal/storage/database.go:292-294 | after a rejection the outcome is fixed |
| CountMatrix.InsertCells | internal/storage/database.go:286-295 | the loops insert every cell, row by row, up to a rejection |
| CountMatrix.StoreCMInTx | internal/storage/database.go:279-299 | cells inserted in a transaction: committed only when none rejected |
| CountMatrix.StoreCM | storage/database.go:259-274 | the older copy without a transaction: the cells before a rejection stay |
| CountMatrix.MaxOfIs | internal/storage/database.go:252-254 | `max(row)` is `v` when some row is `v` and none is larger |
| CountMatrix.MaxOfAbove | internal/storage/database.go:252-254 | no cell's key is above `max` |
| CountMatrix.ScanCells | internal/storage/database.go:263-274 | ok iff every cell fits the shape; then each entry is the cell's count (0 where none) |
| CountMatrix.LoadCM | internal/storage/database.go:251-276 | the matrix has shape `max(row)+1 × max(col)+1` and holds the stored counts, or reports the error |
| CountMatrix.RowCellsMembers | internal/storage/database.go:289-293 | a row's cells are exactly `(i, j, row[j])` |
| CountMatrix.CellsMembers | internal/storage/database.go:288-294 | the matrix's cells are exactly `(i, j, m[i][j])` |
| CountMatrix.EntryOf | internal/storage/database.go:269-272 | the entry read is the count of the only cell at that position |
| CountMatrix.StoreLoadRoundTrip | internal/storage/database_test.go:116-141 | storing a rectangular matrix and loading it back gives the same matrix |
| Settings.DigitChar | internal/storage/database.go:80 | the digit byte of a value below 10 reads back as that value |
| Settings.ParseUintFrom | internal/storage/database.go:123 | `strconv` digit loop: in range on success, 0 on a syntax error, the maximum on overflow |
| Settings.ParseInt | internal/storage/database.go:123 | `ParseInt(s, 10, 0)`: a 64-bit value, 0 on syntax errors, saturated on overflow |
| Settings.FormatUint | internal/storage/database.go:79-81 | decimal digits with no leading zero |
| Settings.FormatUintValue | internal/storage/database.go:79-81 | the digits spell the value |
| Settings.FormatParse | internal/storage/database.go:79-81 | a `maxngram` up to 2^63-1 written by `MakeDB` parses back |
| Settings.FormatParseLarge | internal/storage/database.go:79-81 | a larger `maxngram` parses back saturated with a range error |
| Settings.MakeParams | internal/storage/database.go:57-84 | `MakeDB` writes exactly `dumpname` and `maxngram` |
| Settings.LoadModelAsWritten | internal/storage/database.go:108-137 | as written: the maxngram error is overwritten by the dumpname read; the error is nil iff `dumpname` is present |
| Settings.LoadModel | internal/storage/database.go:108-137 | corrected: success only with a positive `maxngram` |
| Settings.MaxNGramChoice | internal/storage/database.go:114-128 | missing or empty → the default 7; otherwise the parsed value or an error |
| Settings.InvalidRefused | internal/storage/database.go:124-125 | corrected: a non-positive `maxngram` is refused |
| Settings.SettingsRoundTrip | internal/storage/database_test.go:30-41 | `loadModel` returns the settings `MakeDB` stored |
| Settings.SettingsRoundTripLarge | internal/storage/database.go:122-128 | a `maxngram` above 2^63-1 comes back saturated as written, and as a range error corrected |
| Settings.ZeroMaxNGramAccepted | internal/storage/database.go:124-134 | `maxngram = 0` is accepted as written and refused corrected |
| SplitPara.LastNewline | cmd/semanticizest/main.go:22 | the last `\n` in a range, or none |
| SplitPara.SeparatorAt | cmd/semanticizest/main.go:22 | a `\n\s*\n` match at `p` ends after it |
| SplitPara.SeparatorAtSound | cmd/semanticizest/main.go:22 | the match is a separator and the longest one at `p` |
| SplitPara.SeparatorAtComplete | cmd/semanticizest/main.go:22 | if a separator starts at `p` a match is found |
| SplitPara.FindParaEnd | cmd/semanticizest/main.go:27 | `FindIndex`: a match lies inside the data |
| SplitPara.FindParaEndLeftmost | cmd/semanticizest/main.go:27 | no separator starts before the match found |
| SplitPara.FindParaEndSound | cmd/semanticizest/main.go:27 | the match found is a separator and is greedy |
| SplitPara.FindParaEndMeans | cmd/semanticizest/main.go:27 | a match is the first separator; none iff the data has no separator |
| SplitPara.FirstSeparatorUnique | cmd/semanticizest/main.go:27 | the leftmost-longest separator is unique |
| SplitPara.SplitPlain | semanticizest/main.go:23-33 | as written: never advances past the data; client/main.go lines 60-71 is the same splitter |
| SplitPara.SplitPlainSeparator | semanticizest/main.go:25-27 | with a separator: the token is the data before it, and the separator is consumed |
| SplitPara.SplitPlainNoSeparator | semanticizest/main.go:28-31 | without one: all data at EOF, else ask for more |
| SplitPara.SplitPlainTokenFree | semanticizest/main.go:23-33 | a token never contains a separator |
| SplitPara.SplitPlainEmptyAtEOF | semanticizest/main.go:28-31 | as written, empty data at EOF yields an empty token without advancing |
| SplitPara.SplitPlainFixed | semanticizest/main.go:23-33 | corrected: never advances past the data |
| SplitPara.SplitPlainFixedProgress | semanticizest/main.go:28-31 | corrected: every token advances the scanner |
| SplitPara.TrimToken | cmd/semanticizest/main.go:35 | a token kept is non-empty and trimmed |
| SplitPara.SplitTrimmed | cmd/semanticizest/main.go:26-37 | never advances past the data |
| SplitPara.SplitTrimmedToken | cmd/semanticizest/main.go:26-37 | a token is non-empty, trimmed, separator-free, and advances the scanner |
| SplitPara.FirstOfTwo | cmd/semanticizest/main_test.go:9-25 | the first paragraph is split off at the blank line |
| SplitPara.LastParagraph | cmd/semanticizest/main_test.go:9-25 | the last paragraph is returned at EOF, trimmed |
| SplitPara.TwoParagraphsAround | cmd/semanticizest/main_test.go:9-25 | two paragraphs come back one after the other |
| SplitPara.NothingLeft | cmd/semanticizest/main.go:31-36 | whitespace-only data at EOF yields no token |
| SplitPara.TwoParagraphs | cmd/semanticizest/main_test.go:9-25 | the test's input yields "first paragraph", "second", then nothing |
| DpTable.Plus | linking/semanticizer.go:291 | float addition with -∞ absorbing: finite iff both are |
| DpTable.Table.constructor | linking/semanticizer.go:324-326 | `newTable(n, m)`: `n*m` zeroed entries, `m` columns; the same as semanticizest/semanticizer.go, lines 101-103 |
| DpTable.Table.NRows | linking/semanticizer.go:332-334 | `len/ncols`: the number of whole rows |
| DpTable.Table.Row | linking/semanticizer.go:336-338 | row `i` is the slice of entries `i*m..i*m+m` |
| DpTable.Table.At | linking/semanticizer.go:328-330 | `at(i, j)` is entry `i*m+j` |
| DpTable.Table.Put | linking/semanticizer.go:296-298 | writing through `at` changes that entry only |
| DpTable.Table.PutNext | linking/semanticizer.go:296-298 | writing the next cell of a row extends the filled prefix |
| DpTable.NewTableRows | linking/semanticizer.go:324-334 | a new `n×m` table has `n` rows |
| DpTable.IndexInjective | linking/semanticizer.go:328-330 | distinct cells have distinct entries |
| Viterbi.Scores | linking/semanticizer.go:290-291 | one candidate value per state of the previous row |
| Viterbi.Fold | linking/semanticizer.go:284-295 | the argmax is the start value or a valid index |
| Viterbi.FoldFirstMax | linking/semanticizer.go:284-295 | the strict `>` loop returns the first maximum, and -1 when every value is -∞ |
| Viterbi.RowAt | linking/semanticizer.go:275-300 | each row has one cell per state with a back-pointer in `-1..sink` |
| Viterbi.CellPrev | linking/semanticizer.go:305 | a back-pointer is in `-1..sink` |
| Viterbi.Back | linking/semanticizer.go:302-309 | the backtracked state is in `-1..sink` |
| Viterbi.SinkFinite | linking/semanticizer.go:275-300 | the sink's value is never -∞ |
| Viterbi.FinitePrev | linking/semanticizer.go:290-297 | a finite cell's back-pointer is a real state with a finite value |
| Viterbi.BackFinite | linking/semanticizer.go:302-309 | backtracking from the sink stays on finite cells |
| Viterbi.NeverMinusOne | linking/semanticizer.go:306-308 | for `obsLength > 0` the "-1 in path" panic cannot happen, and the path follows the back-pointers |
| Viterbi.Flat | linking/semanticizer.go:272 | the table holds `n` rows of `sink+1` cells |
| Viterbi.FlatCell | linking/semanticizer.go:328-330 | cell `(r, c)` of the table is cell `c` of row `r` |
| Viterbi.BestCell | linking/semanticizer.go:284-295 | the inner loop computes the first maximum |
| Viterbi.InitRow | linking/semanticizer.go:275-279 | row 0: `eps` for candidates, 0 for the sink |
| Viterbi.FillRow | linking/semanticizer.go:283-299 | one `pos` iteration fills the next row |
| Viterbi.FillCell | linking/semanticizer.go:284-298 | one `k` iteration writes one cell |
| Viterbi.Decode | linking/semanticizer.go:271-311 | `viterbi` returns `ViterbiPath`: None for the panics, else the back-pointer path |
| Viterbi.Forward | linking/semanticizer.go:282-300 | the forward loops fill the table with the reference rows; `argmax` is the sink's last pointer |
| Viterbi.PrevAt | linking/semanticizer.go:305 | reading a back-pointer gives `CellPrev` |
| Viterbi.BackOne | linking/semanticizer.go:305 | one backtrack step gives the previous state |
| Viterbi.BackStep | linking/semanticizer.go:305 | the path is the back-pointers followed from the end |
| Viterbi.Backtrack | linking/semanticizer.go:302-309 | the backtracking loop returns `ViterbiPath` |
| Viterbi.BackLoop | linking/semanticizer.go:304-309 | the loop fills the path or stops at a -1 |
| Viterbi.PathStep | linking/semanticizer.go:305 | one iteration extends the filled suffix |
| Viterbi.PathFound | linking/semanticizer.go:302-309 | a completed path is the reference path |
| LegacyViterbi.Values | semanticizest/semanticizer.go:124 | the values of a row |
| LegacyViterbi.Best | semanticizest/semanticizer.go:122-129 | the argmax is 0 or a valid index |
| LegacyViterbi.RowAfter | semanticizest/semanticizer.go:120-134 | each row after the first points into the first row's width |
| LegacyViterbi.FlatRows | semanticizest/semanticizer.go:120-134 | `n` rows of the table's width |
| LegacyViterbi.LastPositive | semanticizest/semanticizer.go:137-144 | the last index with a positive value, and 0 when none is |
| LegacyViterbi.LastArg | semanticizest/semanticizer.go:137-144 | the last-row argmax is 0 or a valid index |
| LegacyViterbi.PathAt | semanticizest/semanticizer.go:145-148 | a path entry is a valid column |
| LegacyViterbi.AsWrittenRows | semanticizest/semanticizer.go:123 | as written every cell after row 0 is `(+∞, 0)` |
| LegacyViterbi.AsWrittenCollapses | semanticizest/semanticizer.go:120-148 | as written the path is all 0 except the last column at the end, whatever the scores |
| LegacyViterbi.LastRowAsWritten | semanticizest/semanticizer.go:137-144 | for one row `(2.0, 1.0)` as written picks column 1, corrected column 0 |
| LegacyViterbi.BestIsFirstMax | semanticizest/semanticizer.go:122-129 | corrected: the first index of the maximum |
| LegacyViterbi.CorrectedPathIsRowBest | semanticizest/semanticizer.go:119-150 | corrected: each row's cells take the best of the previous row, and the path ends at the last row's maximum |
| LegacyViterbi.Decode | semanticizest/semanticizer.go:119-150 | the method returns `LegacyPath` and fills the table with the reference rows |
| LegacyViterbi.DecodeRows | semanticizest/semanticizer.go:119-150 | with whole rows, the path is the reference path |
| LegacyViterbi.Backward | semanticizest/semanticizer.go:136-148 | the last-row scan and backtrack give the reference path |
| LegacyViterbi.Forward | semanticizest/semanticizer.go:120-134 | the forward loops fill the table with the reference rows |
| LegacyViterbi.FillRow | semanticizest/semanticizer.go:121-133 | one `i` iteration fills the next row |
| LegacyViterbi.FillCell | semanticizest/semanticizer.go:122-132 | one `k` iteration writes one cell |
| LegacyViterbi.NextCell | semanticizest/semanticizer.go:130-132 | the cell is the best of the row before |
| LegacyViterbi.BestOf | semanticizest/semanticizer.go:122-129 | the inner loop computes `Best` |
| LegacyViterbi.LastArgOf | semanticizest/semanticizer.go:137-144 | the last-row loop computes `LastArg` |
| LegacyViterbi.Backtrack | semanticizest/semanticizer.go:145-148 | the backtrack returns the reference path |
| LegacyViterbi.BackLoop | semanticizest/semanticizer.go:146-148 | the loop fills every entry from the back-pointers |
| LegacyViterbi.FollowsIsPath | semanticizest/semanticizer.go:145-148 | a path that follows the back-pointers is the reference path |
| LegacyViterbi.CellPrev | semanticizest/semanticizer.go:147 | reading a back-pointer gives the row's pointer |
| LegacyViterbi.TableCell | semanticizest/semanticizer.go:105-107 | cell `(i, c)` of the filled table is that row's cell |
| LegacyViterbi.PathStep | semanticizest/semanticizer.go:147 | each entry is the next entry's back-pointer |
| BestPath.StartCountIsCardinality | linking/semanticizer.go:177 | `nStart[p]` counts the candidates starting at `p` |
| BestPath.CountCandidates | linking/semanticizer.go:170-184 | `endall` is the largest end (or 0); `nStart` and `obs` count starts and coverage per position |
| BestPath.CountStart | linking/semanticizer.go:177 | one `nStart[start]++` |
| BestPath.StartCountNone | linking/semanticizer.go:177 | no candidate starting at `p` means no count |
| BestPath.CountCoverage | linking/semanticizer.go:178-183 | one candidate covers each position of its span |
| BestPath.KeepSet | linking/semanticizer.go:198-203 | `keep` is exactly the non-sink states on the path |
| BestPath.Collect | linking/semanticizer.go:204-207 | one entity per kept index, each once, and every kept index appears; every entity is a kept candidate |
| BestPath.AnyOf | linking/semanticizer.go:205 | the map iteration picks some key |
| BestPath.BestPathOf | linking/semanticizer.go:167-210 | as written: the model is the one counted from the candidates and `endall` the furthest end; panics (None) iff no candidate ends past 0, which is iff `viterbi(endall)` panics; otherwise the entities are, once each, exactly the candidates whose indices are the non-sink states of `viterbi(endall)` |
| BestPath.BestPathChecked | linking/semanticizer.go:167-210 | corrected: no entities where the original panics; otherwise exactly the candidates on the decoded path, as in `BestPathOf` |
| BestPath.BestPath | linking/semanticizer.go:155-165 | as written: no tokens gives nil and no error; tokens with no candidate give the panic (None); otherwise the candidates on `viterbi(endall)` of the model built from all candidates |
| BestPath.BestPathCorrected | linking/semanticizer.go:155-165 | `BestPath` on the corrected `bestPath`: no tokens or no path gives no entities; otherwise exactly the candidates on the decoded path, each a candidate of the input |
| BestPath.Candidates | linking/semanticizer.go:91-103 | one entity per row, with `Offset: offset` and `Length: end - offset`; the same as semanticizest/semanticizer.go, lines 47-59 |

## Left out

- SQL `Begin` and `Prepare` failures are not modelled. Nor are
  `MustPrepare` panics, schema creation, pragmas, indexes, `vacuum` or
  `Finalize`. A statement's only failure is a rejection drawn from the
  fault budget, so at most one rejection happens per run.
- Float64 is modelled as real numbers with ±∞. Rounding and NaN are not
  modelled. `math.Log` and the observation normalisation of `bestPath`
  are parameters. The argmax is taken over the values as given.
- Viterbi.Fold: `eps` (`math.SmallestNonzeroFloat64`, `Viterbi.Eps`) stays
  exact in the reals, while float64 addition absorbs it into any score of
  ordinary size. Where two candidate scores differ only by multiples of
  `eps`, the model's strict `>` can pick a different backpointer from Go's:
  at row 1 the reals favour the predecessor whose score carries the larger
  multiple of `eps` (j = 1 at o + 2·eps over j = 0 at o + eps), while in
  float64 the two round equal and Go keeps the first, j = 0. The
  structural lemmas (`NeverMinusOne`, `KeptOnPath`) hold for any scores
  and so for both.
- Channels and goroutines become a `Sink` of sequences. The concurrent
  pipeline of the dump parser is not modelled.
- Go's map iteration order is a parameter (`order`). The model proves
  only results that hold for every order.
- `html.UnescapeString` and NFC normalisation are parameters.
  `unicode.ToUpper` is ASCII only; other scripts are not modelled.
- Regular expressions become hand-written scanners with the same
  leftmost-first semantics. The regexp engine itself is not modelled.
- The XML decoder is a token sequence. Its parsing of bytes into tokens
  is not modelled.
- `bufio.Scanner` is not modelled, only the split function it calls.
- `nlp.TokenizePos` and `allFromTokens` are not modelled: `BestPath`
  takes the token count and the candidates.
- The count-min sketch is the matrix it stores. Its hashing is not part
  of this model.
- The HTTP server, the command lines, progress bars and logging are not
  part of this model.
- LinkStore.ProcessLink: requires `maxN >= 0`. A negative `maxN` makes
  `make` panic for a non-empty anchor, and the parser never passes one.
- HashNGrams.NGramHashes: requires `!CapPanics`. `make` panics on a
  negative capacity, which happens when `maxN < 0` and there are tokens.
- HashNGrams.NGramsPos: requires `!CapPanics`, for the same `make`.
- NGrams.NGrams: requires `!Panics`. A negative `minN` with tokens makes
  the slice expression panic.
- LinkStore.StoreLinks: the corrected version returns the first rejection
  and leaves the transaction open. It does not model a rollback.
- Text.TrimSpace: trims only the ASCII white-space bytes. Go's
  `strings.TrimSpace` and `bytes.TrimSpace` also trim the UTF-8 encodings
  of U+0085, U+00A0, U+1680, U+2000–U+200A, U+2028, U+2029, U+202F,
  U+205F and U+3000, so a trailing `&nbsp;` (C2 A0 once unescaped) is
  kept by the model. The erasure lemmas rely on one-byte white space.
- WikiSyntax.NormSpace: keeps the multi-byte Unicode spaces at the ends,
  for the same reason as `Text.TrimSpace`, which it calls.
- SplitPara.TrimToken: keeps the multi-byte Unicode spaces at the ends,
  for the same reason as `Text.TrimSpace`, which it calls.
- Integer widths are modelled only where they matter: FNV-1 is `bv32`,
  and `ParseInt` saturates at 64 bits. Offsets and counts are unbounded.

## Findings

| source | as written | input that shows it | evidently intended | confidence | as-written member | corrected member |
|---|---|---|---|---|---|---|
| wikidump/wikisyntax.go:106-121 | the empty-target test runs before normalisation; a blank target is then normalised to "" and `target[0]` decodes as `utf8.RuneError` | `[[ ]]` | drop links whose target is blank | not executed | WikiSyntax.ExtractLinks | WikiSyntax.ExtractLinksCorrected |
| semanticizest/semanticizer.go:123 | `max := -math.Inf(-1)` starts at +∞, so no score is ever above it | any table with two rows | start at -∞ and take each row's maximum | not executed | LegacyViterbi.AsWrittenCollapses | LegacyViterbi.CorrectedPathIsRowBest |
| semanticizest/semanticizer.go:137-144 | `var max` is re-declared inside the loop, so the last positive column wins | one row `(2.0, 1.0)` | the column with the maximum score | not executed | LegacyViterbi.LastRowAsWritten | LegacyViterbi.BestIsFirstMax |
| linking/semanticizer.go:302-303 | `viterbi(0)` makes an empty path and writes `path[-1]` | a text with tokens but no candidate (`endall == 0`) | return no entities | not executed | BestPath.BestPath | BestPath.BestPathCorrected |
| hash/ngrams.go:16-18 | the unigram is emitted iff `minN == 1`, whatever `maxN` is | `NGrams(t, 1, 0)` and `NGrams(t, 0, 1)` | unigrams iff `minN <= 1 <= maxN`, as `nlp.NGrams` | not executed | HashNGrams.UnigramBeyondMaxN | HashNGrams.HashGramsCorrected |
| semanticizest/main.go:28-31 | at EOF with empty data it returns an empty token and advances 0 (client/main.go:60-71 is the same code) | `splitPara([]byte{}, true)` | no token at EOF on empty data | not executed | SplitPara.SplitPlainEmptyAtEOF | SplitPara.SplitPlainFixedProgress |
| internal/storage/database.go:131-132 | the maxngram error is overwritten by the dumpname read | parameters `maxngram = "0"` | refuse a non-positive `maxngram` | not executed | Settings.ZeroMaxNGramAccepted | Settings.InvalidRefused |
| cmd/semanticizest-dumpparser/internal/main.go:282 | `err = tx.Commit()` replaces a statement's error and commits a partial store | one rejected `Exec` | return the statement's error | not executed | LinkStore.CommitHidesRejection | LinkStore.NoErrorMeansStored |
