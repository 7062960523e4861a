/** The model settings stored in the `parameters` table: `MakeDB` writes
    `dumpname` and `maxngram` (the latter with `strconv.FormatUint`), and
    `loadModel` reads them back, parsing `maxngram` with `strconv.ParseInt`
    and falling back to `DefaultMaxNGram` when it is missing or empty. */
module Settings {
  import opened Text

  const DefaultMaxNGram: nat := 7
  const MaxInt64: int := 0x7fff_ffff_ffff_ffff
  const MaxUint64: int := 0xffff_ffff_ffff_ffff

  datatype Settings = Settings(dumpname: Str, maxNGram: nat)

  /** The parameter rows; a key maps to its text value. */
  type Params = map<Str, Str>

  // ------------------------------------------------------------- strconv

  datatype NumError = Syntax | Range
  datatype Parsed = Parsed(value: int, err: Option<NumError>)

  function DigitValue(c: Byte): nat
    requires IsDigit(c)
  {
    c as int - '0' as int
  }

  function DigitChar(d: nat): (c: Byte)
    requires d < 10
    ensures IsDigit(c) && DigitValue(c) == d
  {
    ('0' as int + d) as char
  }

  /** The value of a run of decimal digits. */
  function Value(s: Str): nat
    requires forall k :: 0 <= k < |s| ==> IsDigit(s[k])
  {
    if s == [] then 0 else Value(s[..|s| - 1]) * 10 + DigitValue(s[|s| - 1])
  }

  /** `strconv.ParseUint(s, 10, 64)` from position `i`, `n` read so far:
      a non-digit is a syntax error (value 0), and the first digit that
      takes the value past 2^64-1 is a range error (value 2^64-1). */
  function ParseUintFrom(s: Str, i: nat, n: int): (p: Parsed)
    requires i <= |s| && 0 <= n <= MaxUint64
    ensures p.err.None? ==> 0 <= p.value <= MaxUint64
    ensures p.err.Some? ==> (p.err.value == Syntax && p.value == 0) || (p.err.value == Range && p.value == MaxUint64)
    decreases |s| - i
  {
    if i == |s| then Parsed(n, None)
    else if !IsDigit(s[i]) then Parsed(0, Some(Syntax))
    else
      var n1 := n * 10 + DigitValue(s[i]);
      if n1 > MaxUint64 then Parsed(MaxUint64, Some(Range))
      else ParseUintFrom(s, i + 1, n1)
  }

  /** `strconv.ParseInt(s, 10, 0)` on a 64-bit platform: an optional sign,
      then digits; out of range it clamps to the nearest int64 bound. */
  function ParseInt(s: Str): (p: Parsed)
    ensures p.err.None? ==> -MaxInt64 - 1 <= p.value <= MaxInt64
    ensures p.err == Some(Syntax) ==> p.value == 0
  {
    if s == [] then Parsed(0, Some(Syntax))
    else
      var neg := s[0] == '-';
      var digits := if s[0] == '+' || s[0] == '-' then s[1..] else s;
      var u := if digits == [] then Parsed(0, Some(Syntax)) else ParseUintFrom(digits, 0, 0);
      if u.err == Some(Syntax) then Parsed(0, Some(Syntax))
      else if !neg && u.value > MaxInt64 then Parsed(MaxInt64, Some(Range))
      else if neg && u.value > MaxInt64 + 1 then Parsed(-MaxInt64 - 1, Some(Range))
      else Parsed(if neg then -u.value else u.value, None)
  }

  /** `strconv.FormatUint(n, 10)`: decimal digits, no sign, no leading zero. */
  function FormatUint(n: nat): (s: Str)
    ensures s != [] && forall k :: 0 <= k < |s| ==> IsDigit(s[k])
    ensures |s| > 1 ==> s[0] != '0'
  {
    if n < 10 then [DigitChar(n)] else FormatUint(n / 10) + [DigitChar(n % 10)]
  }

  lemma {:induction false} FormatUintValue(n: nat)
    ensures Value(FormatUint(n)) == n
  {
    if n >= 10 {
      var s := FormatUint(n);
      assert s[..|s| - 1] == FormatUint(n / 10);
      FormatUintValue(n / 10);
    }
  }

  /** Reading digits on from a prefix whose value is `n`. */
  lemma {:induction false} ParseUintDigits(s: Str, i: nat)
    requires i <= |s| && forall k :: 0 <= k < |s| ==> IsDigit(s[k])
    requires Value(s) <= MaxUint64
    ensures Value(s[..i]) <= MaxUint64
    ensures ParseUintFrom(s, i, Value(s[..i])) == Parsed(Value(s), None)
    decreases |s| - i
  {
    if i == |s| {
      assert s[..i] == s;
    } else {
      assert s[..i + 1][..i] == s[..i];
      ValuePrefix(s, i + 1);
      ParseUintDigits(s, i + 1);
    }
  }

  /** A prefix of a run of digits is worth no more than the whole run. */
  lemma {:induction false} ValuePrefix(s: Str, i: nat)
    requires i <= |s| && forall k :: 0 <= k < |s| ==> IsDigit(s[k])
    ensures Value(s[..i]) <= Value(s)
    decreases |s|
  {
    if i < |s| {
      var front := s[..|s| - 1];
      assert s[..i] == front[..i];
      ValuePrefix(front, i);
    } else {
      assert s[..i] == s;
    }
  }

  /** `ParseInt` reads back what `FormatUint` writes, up to 2^63-1. */
  lemma FormatParse(n: nat)
    requires n <= MaxInt64
    ensures ParseInt(FormatUint(n)) == Parsed(n, None)
  {
    var s := FormatUint(n);
    FormatUintValue(n);
    assert s[..0] == [];
    ParseUintDigits(s, 0);
  }

  /** Above 2^63-1 the written value comes back clamped, with a range error. */
  lemma FormatParseLarge(n: nat)
    requires MaxInt64 < n <= MaxUint64
    ensures ParseInt(FormatUint(n)) == Parsed(MaxInt64, Some(Range))
  {
    var s := FormatUint(n);
    FormatUintValue(n);
    assert s[..0] == [];
    ParseUintDigits(s, 0);
  }

  // ------------------------------------------------------------ settings

  /** The rows `MakeDB` inserts into `parameters`. */
  function MakeParams(s: Settings): (p: Params)
    ensures p.Keys == {"dumpname", "maxngram"}
    ensures p["dumpname"] == s.dumpname
  {
    map["dumpname" := s.dumpname, "maxngram" := FormatUint(s.maxNGram)]
  }

  /** `sql.ErrNoRows`, a non-positive `maxngram`, or a `strconv` error. */
  datatype LoadError = NoRows | Invalid(value: int) | BadNumber(e: NumError)

  datatype Loaded = Loaded(settings: Option<Settings>, err: Option<LoadError>)

  /** What the `maxngram` lookup yields: the value to use and its error. */
  function MaxNGramParam(params: Params): (Option<LoadError>, nat) {
    if "maxngram" !in params then (Some(NoRows), DefaultMaxNGram)
    else if params["maxngram"] == [] then (None, DefaultMaxNGram)
    else
      var p := ParseInt(params["maxngram"]);
      if p.value <= 0 then (Some(Invalid(p.value)), 0)
      else (if p.err.Some? then Some(BadNumber(p.err.value)) else None, p.value)
  }

  /** `loadModel` as written: the `maxngram` error is overwritten by the
      result of the `dumpname` lookup, so an invalid value yields
      `MaxNGram == 0` with no error whenever `dumpname` is present. */
  function LoadModelAsWritten(params: Params): (r: Loaded)
    ensures r.settings.Some? && r.settings.value.maxNGram == MaxNGramParam(params).1
    ensures r.err.None? <==> "dumpname" in params
  {
    var (_, max) := MaxNGramParam(params);
    var dump := if "dumpname" in params then params["dumpname"] else [];
    Loaded(Some(Settings(dump, max)), if "dumpname" in params then None else Some(NoRows))
  }

  /** `loadModel` with the `maxngram` error returned instead of discarded
      (a missing `maxngram` still means the default). */
  function LoadModel(params: Params): (r: Loaded)
    ensures r.err.None? ==> r.settings.Some? && r.settings.value.maxNGram > 0
  {
    match MaxNGramParam(params)
    case (Some(NoRows), _) => LoadModelAsWritten(params)
    case (Some(e), _) => Loaded(None, Some(e))
    case (None, _) => LoadModelAsWritten(params)
  }

  /** The default applies when `maxngram` is missing or empty; a positive
      decimal value is taken as it is. */
  lemma MaxNGramChoice(params: Params)
    ensures ("maxngram" !in params || params["maxngram"] == [])
            ==> LoadModel(params).settings.Some? && LoadModel(params).settings.value.maxNGram == DefaultMaxNGram
    ensures ("maxngram" in params && params["maxngram"] != [] && ParseInt(params["maxngram"]).err.None?
             && ParseInt(params["maxngram"]).value > 0)
            ==> LoadModel(params).settings.Some?
                && LoadModel(params).settings.value.maxNGram == ParseInt(params["maxngram"]).value
  {
  }

  /** A value that does not parse to a positive number is refused. */
  lemma InvalidRefused(params: Params)
    requires "maxngram" in params && params["maxngram"] != [] && ParseInt(params["maxngram"]).value <= 0
    ensures LoadModel(params) == Loaded(None, Some(Invalid(ParseInt(params["maxngram"]).value)))
  {
  }

  /** What `MakeDB` writes, `loadModel` reads back, for a positive `MaxNGram`
      that fits an int64. */
  lemma SettingsRoundTrip(s: Settings)
    requires 0 < s.maxNGram <= MaxInt64
    ensures LoadModel(MakeParams(s)) == Loaded(Some(s), None)
    ensures LoadModelAsWritten(MakeParams(s)) == Loaded(Some(s), None)
  {
    FormatParse(s.maxNGram);
  }

  /** A `MaxNGram` above 2^63-1 comes back as 2^63-1 as written, and as a
      range error once the error is kept. */
  lemma SettingsRoundTripLarge(s: Settings)
    requires MaxInt64 < s.maxNGram <= MaxUint64
    ensures LoadModelAsWritten(MakeParams(s)) == Loaded(Some(s.(maxNGram := MaxInt64)), None)
    ensures LoadModel(MakeParams(s)) == Loaded(None, Some(BadNumber(Range)))
  {
    FormatParseLarge(s.maxNGram);
  }

  /** The discarded error: a stored `maxngram` of 0 is accepted as written,
      with no error, and refused once the error is kept. */
  lemma ZeroMaxNGramAccepted(s: Settings)
    requires s.maxNGram == 0
    ensures LoadModelAsWritten(MakeParams(s)) == Loaded(Some(s), None)
    ensures LoadModel(MakeParams(s)) == Loaded(None, Some(Invalid(0)))
  {
    FormatParse(0);
  }
}
