/** The filter graph of the filter-based transcoder. It is configured by two text
    strings: the buffer source's arguments, which describe the decoded frames, and the
    graph description, which loads the watermark image as a movie source, scales it
    to the frame and overlays it at the top-left corner. Integers are written the way
    a C++ output stream writes them: decimal, with a leading '-' when negative. */
module FilterGraph {
  import opened Prelude

  // ---------------------------------------------------------------------------
  // Decimal text

  predicate IsDigit(c: char)
  {
    '0' <= c <= '9'
  }

  predicate AllDigits(s: string)
  {
    forall i :: 0 <= i < |s| ==> IsDigit(s[i])
  }

  function DigitChar(d: nat): (c: char)
    requires d < 10
    ensures IsDigit(c)
  {
    (('0' as int) + d) as char
  }

  function DigitValue(c: char): (d: nat)
    requires IsDigit(c)
    ensures d < 10
  {
    (c as int) - ('0' as int)
  }

  /** The decimal digits of a natural number, most significant first, no leading zero. */
  function NatDecimal(n: nat): (s: string)
    ensures |s| >= 1 && AllDigits(s)
    ensures |s| > 1 ==> s[0] != '0'
    decreases n
  {
    if n < 10 then [DigitChar(n)]
    else
      var head := NatDecimal(n / 10);
      assert forall i :: 0 <= i < |head| ==> (head + [DigitChar(n % 10)])[i] == head[i];
      head + [DigitChar(n % 10)]
  }

  /** An integer as an output stream writes it. */
  function Decimal(n: int): (s: string)
    ensures |s| >= 1
    ensures n >= 0 ==> AllDigits(s)
    ensures n < 0 ==> s[0] == '-' && AllDigits(s[1..])
  {
    if n < 0 then "-" + NatDecimal(-n) else NatDecimal(n)
  }

  /** Reads a run of decimal digits. */
  function ParseNat(s: string): (n: nat)
    requires AllDigits(s)
  {
    if |s| == 0 then 0 else ParseNat(s[..|s| - 1]) * 10 + DigitValue(s[|s| - 1])
  }

  /** Reads an optionally negative decimal integer. */
  function ParseInt(s: string): (n: int)
    requires |s| >= 1
    requires if s[0] == '-' then AllDigits(s[1..]) else AllDigits(s)
  {
    if s[0] == '-' then 0 - ParseNat(s[1..]) else ParseNat(s)
  }

  /** Reading back the digits of n gives n. */
  lemma {:induction false} ParseNatDecimal(n: nat)
    ensures ParseNat(NatDecimal(n)) == n
    decreases n
  {
    var s := NatDecimal(n);
    if n >= 10 {
      ParseNatDecimal(n / 10);
      assert s[..|s| - 1] == NatDecimal(n / 10);
    }
  }

  /** Reading back an integer written in decimal gives the integer. */
  lemma ParseIntDecimal(n: int)
    ensures ParseInt(Decimal(n)) == n
  {
    if n < 0 {
      ParseNatDecimal(-n);
      assert Decimal(n)[1..] == NatDecimal(-n);
    } else {
      ParseNatDecimal(n);
    }
  }

  /** Decimal text is injective: different integers are written differently. */
  lemma DecimalInjective(a: int, b: int)
    requires Decimal(a) == Decimal(b)
    ensures a == b
  {
    ParseIntDecimal(a);
    ParseIntDecimal(b);
  }

  // ---------------------------------------------------------------------------
  // The watermark path

  /** Turns every backslash of a Windows path into a forward slash. */
  function EscapePath(path: string): (escaped: string)
    ensures |escaped| == |path|
    ensures forall i :: 0 <= i < |path| ==> escaped[i] == if path[i] == '\\' then '/' else path[i]
  {
    if |path| == 0 then []
    else
      var rest := EscapePath(path[1..]);
      [if path[0] == '\\' then '/' else path[0]] + rest
  }

  /** The escaping loop as written: walks the path, replacing backslashes in place. */
  method EscapePathInPlace(path: string) returns (escaped: string)
    ensures escaped == EscapePath(path)
  {
    escaped := path;
    var i := 0;
    while i < |escaped|
      invariant 0 <= i <= |escaped| == |path|
      invariant forall k :: 0 <= k < i ==> escaped[k] == EscapePath(path)[k]
      invariant forall k :: i <= k < |path| ==> escaped[k] == path[k]
    {
      if escaped[i] == '\\' {
        escaped := escaped[i := '/'];
      }
      i := i + 1;
    }
  }

  /** The escaped path has no backslash left, so escaping again changes nothing. */
  lemma EscapePathIdempotent(path: string)
    ensures forall i :: 0 <= i < |path| ==> EscapePath(path)[i] != '\\'
    ensures EscapePath(EscapePath(path)) == EscapePath(path)
  {
  }

  /** Escaping touches nothing but backslashes: in particular it never adds a quote. */
  lemma EscapePathKeepsQuotes(path: string)
    ensures forall i :: 0 <= i < |path| ==> (EscapePath(path)[i] == '\'' <==> path[i] == '\'')
  {
  }

  // ---------------------------------------------------------------------------
  // Buffer source arguments

  /** The sample aspect ratio's denominator, 1 when the decoder leaves it unset (0). */
  function AspectDenominator(den: int): (d: int)
    ensures d != 0
    ensures den != 0 ==> d == den
    ensures den == 0 ==> d == 1
  {
    if den != 0 then den else 1
  }

  /** What the decoder reports about its frames. */
  datatype StreamFormat = StreamFormat(width: int, height: int, pixelFormat: int,
                                       timeBaseNum: int, timeBaseDen: int,
                                       aspectNum: int, aspectDen: int)

  /** The buffer source's arguments up to the pixel aspect's denominator:
      frame size, pixel format, time base and the aspect's numerator. */
  function LeadingArgs(f: StreamFormat): string
  {
    "video_size=" + Decimal(f.width) + "x" + Decimal(f.height) +
    ":pix_fmt=" + Decimal(f.pixelFormat) +
    ":time_base=" + Decimal(f.timeBaseNum) + "/" + Decimal(f.timeBaseDen) +
    ":pixel_aspect=" + Decimal(f.aspectNum)
  }

  /** The buffer source's argument string. */
  function BufferSourceArgs(f: StreamFormat): (args: string)
  {
    LeadingArgs(f) + "/" + Decimal(AspectDenominator(f.aspectDen))
  }

  /** The text after the last '/' of a string (all of it when there is none). */
  function AfterLastSlash(s: string): (tail: string)
    ensures |tail| <= |s| && tail == s[|s| - |tail|..]
    ensures forall i :: 0 <= i < |tail| ==> tail[i] != '/'
  {
    if |s| == 0 then ""
    else if s[|s| - 1] == '/' then ""
    else
      var t := AfterLastSlash(s[..|s| - 1]);
      assert s[..|s| - 1][|s| - 1 - |t|..] == s[|s| - 1 - |t|..|s| - 1];
      t + [s[|s| - 1]]
  }

  /** A string that ends with a slash and then slash-free text splits there. */
  lemma {:induction false} AfterLastSlashOf(prefix: string, tail: string)
    requires forall i :: 0 <= i < |tail| ==> tail[i] != '/'
    ensures AfterLastSlash(prefix + "/" + tail) == tail
    decreases |tail|
  {
    var s := prefix + "/" + tail;
    if |tail| > 0 {
      var init := tail[..|tail| - 1];
      assert s[..|s| - 1] == prefix + "/" + init;
      assert s[|s| - 1] == tail[|tail| - 1] != '/';
      assert AfterLastSlash(s) == AfterLastSlash(prefix + "/" + init) + [tail[|tail| - 1]];
      AfterLastSlashOf(prefix, init);
      assert init + [tail[|tail| - 1]] == tail;
    } else {
      assert s[|s| - 1] == '/';
    }
  }

  /** Decimal text holds no slash. */
  lemma DecimalHasNoSlash(n: int)
    ensures forall i :: 0 <= i < |Decimal(n)| ==> Decimal(n)[i] != '/'
  {
    var s := Decimal(n);
    forall i | 0 <= i < |s| ensures s[i] != '/' {
      if n < 0 && i > 0 {
        assert s[i] == s[1..][i - 1];
      }
    }
  }

  /** The pixel aspect denominator the buffer source reads back, after the last '/'
      of its arguments, is never zero: the decoder's own when it is set, 1 when not. */
  lemma BufferSourceAspect(f: StreamFormat)
    ensures var tail := AfterLastSlash(BufferSourceArgs(f));
      |tail| >= 1 &&
      (if tail[0] == '-' then AllDigits(tail[1..]) else AllDigits(tail)) &&
      ParseInt(tail) == AspectDenominator(f.aspectDen) && ParseInt(tail) != 0
  {
    var den := Decimal(AspectDenominator(f.aspectDen));
    DecimalHasNoSlash(AspectDenominator(f.aspectDen));
    AfterLastSlashOf(LeadingArgs(f), den);
    ParseIntDecimal(AspectDenominator(f.aspectDen));
  }

  // ---------------------------------------------------------------------------
  // Graph description

  /** What follows the movie source: scale the watermark to the frame size, then
      overlay it on the input at (0, 0). */
  function ScaleAndOverlay(width: int, height: int): string
  {
    ",scale=" + Decimal(width) + ":" + Decimal(height) + "[wm];[in][wm]overlay=0:0"
  }

  /** The graph: the escaped watermark path as a single-quoted movie source, then the
      scale and the overlay. */
  function FilterDescription(path: string, width: int, height: int): (desc: string)
  {
    "movie='" + EscapePath(path) + "'" + ScaleAndOverlay(width, height)
  }

  /** The text up to the first single quote (all of it when there is none). */
  function UntilQuote(s: string): (prefix: string)
    ensures |prefix| <= |s| && prefix == s[..|prefix|]
  {
    if |s| == 0 || s[0] == '\'' then "" else [s[0]] + UntilQuote(s[1..])
  }

  /** The argument string the graph parser hands to the movie filter: the text between
      the opening quote after `movie=` and the next quote; None when the description
      does not start with a quoted movie source. */
  function MovieArgument(desc: string): (name: Option<string>)
  {
    if |desc| >= 7 && desc[..7] == "movie='" then Some(UntilQuote(desc[7..])) else None
  }

  /** The quote ends a quote-free prefix. */
  lemma {:induction false} UntilQuoteOf(s: string, rest: string)
    requires forall i :: 0 <= i < |s| ==> s[i] != '\''
    ensures UntilQuote(s + "'" + rest) == s
    decreases |s|
  {
    if |s| > 0 {
      assert (s + "'" + rest)[1..] == s[1..] + "'" + rest;
      UntilQuoteOf(s[1..], rest);
    }
  }

  /** A quoted movie source whose name has no quote reads back as that name. */
  lemma MovieArgumentOf(name: string, rest: string)
    requires forall i :: 0 <= i < |name| ==> name[i] != '\''
    ensures MovieArgument("movie='" + name + "'" + rest) == Some(name)
  {
    var desc := "movie='" + name + "'" + rest;
    assert desc[..7] == "movie='";
    assert desc[7..] == name + "'" + rest;
    UntilQuoteOf(name, rest);
  }

  /** For a path without single quotes, the movie filter's argument string is exactly
      the escaped path. */
  lemma FilterDescriptionMovie(path: string, width: int, height: int)
    requires forall i :: 0 <= i < |path| ==> path[i] != '\''
    ensures MovieArgument(FilterDescription(path, width, height)) == Some(EscapePath(path))
  {
    EscapePathKeepsQuotes(path);
    MovieArgumentOf(EscapePath(path), ScaleAndOverlay(width, height));
  }

  /** The movie filter's first option, the file name, as its option parser reads the
      argument string: the text up to the first ':' that no backslash escapes, with each
      backslash escape replaced by the character it escapes. */
  function OptionValue(arg: string): (value: string)
    ensures |value| <= |arg|
  {
    if |arg| == 0 || arg[0] == ':' then ""
    else if arg[0] == '\\' && |arg| >= 2 then [arg[1]] + OptionValue(arg[2..])
    else [arg[0]] + OptionValue(arg[1..])
  }

  /** The file name the movie filter of a description opens. */
  function MovieFileName(desc: string): (name: Option<string>)
    ensures name.Some? <==> MovieArgument(desc).Some?
  {
    match MovieArgument(desc)
    case None => None
    case Some(arg) => Some(OptionValue(arg))
  }

  /** A text without backslashes is read up to its first ':'. */
  lemma {:induction false} OptionValueStopsAtColon(s: string, k: nat)
    requires k < |s| && s[k] == ':'
    requires forall j :: 0 <= j < k ==> s[j] != ':' && s[j] != '\\'
    ensures OptionValue(s) == s[..k]
    decreases k
  {
    if k > 0 {
      OptionValueStopsAtColon(s[1..], k - 1);
      assert s[..k] == [s[0]] + s[1..][..k - 1];
    }
  }

  /** As written, the movie filter of a path containing ':' (a drive letter such as
      `C:`) opens only the part of the escaped path before the first ':'; the rest is
      read as the filter's next option. */
  lemma ColonCutsMovieFileName(path: string, k: nat, width: int, height: int)
    requires forall i :: 0 <= i < |path| ==> path[i] != '\''
    requires k < |path| && path[k] == ':'
    requires forall j :: 0 <= j < k ==> path[j] != ':'
    ensures MovieFileName(FilterDescription(path, width, height)) == Some(EscapePath(path)[..k])
    ensures MovieFileName(FilterDescription(path, width, height)) != Some(EscapePath(path))
  {
    FilterDescriptionMovie(path, width, height);
    EscapePathIdempotent(path);
    OptionValueStopsAtColon(EscapePath(path), k);
  }

  /** A concrete case: `C:\wm.png` opens the file `C`. */
  lemma DriveLetterPathExample()
    ensures MovieFileName(FilterDescription("C:\\wm.png", 1920, 1080)) == Some("C")
  {
    ColonCutsMovieFileName("C:\\wm.png", 1, 1920, 1080);
    assert EscapePath("C:\\wm.png")[..1] == "C";
  }

  /** The corrected escaping: backslashes become forward slashes as before, and each
      ':' is escaped with a backslash so that the movie filter keeps it in the name. */
  function EscapePathForMovie(path: string): (escaped: string)
    ensures |escaped| >= |path|
  {
    if |path| == 0 then []
    else if path[0] == '\\' then "/" + EscapePathForMovie(path[1..])
    else if path[0] == ':' then "\\:" + EscapePathForMovie(path[1..])
    else [path[0]] + EscapePathForMovie(path[1..])
  }

  /** The corrected escaping adds no quote. */
  lemma {:induction false} EscapePathForMovieKeepsQuotes(path: string)
    requires forall i :: 0 <= i < |path| ==> path[i] != '\''
    ensures forall i :: 0 <= i < |EscapePathForMovie(path)| ==> EscapePathForMovie(path)[i] != '\''
    decreases |path|
  {
    if |path| > 0 {
      EscapePathForMovieKeepsQuotes(path[1..]);
    }
  }

  /** The movie filter's option parser undoes the corrected escaping, leaving the path
      with its backslashes turned into slashes. */
  lemma {:induction false} OptionValueOfEscaped(path: string)
    ensures OptionValue(EscapePathForMovie(path)) == EscapePath(path)
    decreases |path|
  {
    if |path| > 0 {
      OptionValueOfEscaped(path[1..]);
      var rest := EscapePathForMovie(path[1..]);
      if path[0] == '\\' {
        assert ("/" + rest)[1..] == rest;
      } else if path[0] == ':' {
        assert ("\\:" + rest)[2..] == rest;
      } else {
        assert ([path[0]] + rest)[1..] == rest;
      }
    }
  }

  /** The corrected graph: the same as written, with the path escaped for the movie
      filter as well as for the graph parser. */
  function FilterDescriptionCorrected(path: string, width: int, height: int): (desc: string)
  {
    "movie='" + EscapePathForMovie(path) + "'" + ScaleAndOverlay(width, height)
  }

  /** With the corrected escaping, the movie filter opens the whole path, drive letter
      included, for every path without single quotes. */
  lemma FilterDescriptionCorrectedMovie(path: string, width: int, height: int)
    requires forall i :: 0 <= i < |path| ==> path[i] != '\''
    ensures MovieFileName(FilterDescriptionCorrected(path, width, height)) == Some(EscapePath(path))
  {
    EscapePathForMovieKeepsQuotes(path);
    MovieArgumentOf(EscapePathForMovie(path), ScaleAndOverlay(width, height));
    OptionValueOfEscaped(path);
  }

  // ---------------------------------------------------------------------------
  // Building the graph

  /** The steps of building the graph, in order; the allocation step covers the two
      in/out descriptors and the graph itself. */
  datatype FilterStep = AllocateGraph | CreateSource | CreateSink | SetSinkFormats | ParseGraph | ConfigureGraph

  const FilterOrder: seq<FilterStep> :=
    [AllocateGraph, CreateSource, CreateSink, SetSinkFormats, ParseGraph, ConfigureGraph]

  /** The result: success, the steps attempted, the source arguments once the source
      is created, and the description once the graph is parsed. */
  datatype FilterInit = FilterInit(ok: bool, attempted: seq<FilterStep>,
                                   sourceArgs: Option<string>, description: Option<string>)

  /** Builds the graph. The source arguments exist once the source is being created
      (the graph was allocated), the description once it is being parsed (source,
      sink and sink formats succeeded); it is the description as written, or with
      `corrected` the one whose movie filter opens the whole path. The overlay opacity
      the caller passes is accepted and never used. */
  function InitializeFilter(stepOk: FilterStep -> bool, f: StreamFormat, path: string, alpha: real,
                            corrected: bool): (r: FilterInit)
    ensures r.attempted == FailFast(FilterOrder, stepOk)
    ensures r.ok <==> AllSucceeded(FilterOrder, stepOk)
    ensures r.sourceArgs.Some? <==> stepOk(AllocateGraph)
    ensures r.sourceArgs.Some? ==> r.sourceArgs.value == BufferSourceArgs(f)
    ensures r.description.Some? <==>
      stepOk(AllocateGraph) && stepOk(CreateSource) && stepOk(CreateSink) && stepOk(SetSinkFormats)
    ensures r.description.Some? && corrected ==> r.description.value == FilterDescriptionCorrected(path, f.width, f.height)
    ensures r.description.Some? && !corrected ==> r.description.value == FilterDescription(path, f.width, f.height)
  {
    FailFastFirstFailure(FilterOrder, stepOk);
    var ran := FailFast(FilterOrder, stepOk);
    FilterReached(stepOk);
    FilterInit(ran == FilterOrder && stepOk(ConfigureGraph), ran,
               if |ran| >= 2 then Some(BufferSourceArgs(f)) else None,
               if |ran| < 5 then None
               else if corrected then Some(FilterDescriptionCorrected(path, f.width, f.height))
               else Some(FilterDescription(path, f.width, f.height)))
  }

  /** The run reaches the second step exactly when the first succeeds, and the fifth
      exactly when the first four do. */
  lemma FilterReached(stepOk: FilterStep -> bool)
    ensures |FailFast(FilterOrder, stepOk)| >= 2 <==> stepOk(AllocateGraph)
    ensures |FailFast(FilterOrder, stepOk)| >= 5 <==>
      stepOk(AllocateGraph) && stepOk(CreateSource) && stepOk(CreateSink) && stepOk(SetSinkFormats)
  {
    FirstFailureOfFailFast(FilterOrder, stepOk);
    var n := FirstFailure(FilterOrder, stepOk);
    assert FilterOrder[0] == AllocateGraph && FilterOrder[1] == CreateSource && FilterOrder[2] == CreateSink;
    assert FilterOrder[3] == SetSinkFormats;
  }

  /** The opacity argument has no effect on the graph. */
  lemma AlphaIsIgnored(stepOk: FilterStep -> bool, f: StreamFormat, path: string, a: real, b: real, corrected: bool)
    ensures InitializeFilter(stepOk, f, path, a, corrected) == InitializeFilter(stepOk, f, path, b, corrected)
  {
  }
}
