/**
 * The YouTube search stage: building the search query, parsing the view
 * count and duration texts of each search result, and keeping the results
 * that are popular and long enough, in the order the provider gave them.
 */
module YouTubeSearch {
  import opened Wrappers
  import opened Text
  import opened Frame

  /** The fetch operation's own default minimum duration, in minutes; the
      application calls it without this argument. */
  const DefaultMinDuration: real := 5.0

  /** Why parsing a search result raised `ValueError`. */
  datatype ParseError = ViewsNotInteger(viewsText: string) | DurationNotInteger(durationText: string)

  /** One entry of the provider's raw search result. */
  datatype RawVideo = RawVideo(title: string, viewCountText: string, duration: string, channel: string, link: string)

  /** The text `int()` receives from the view-count parser: lower-cased,
      every "views" and every comma removed, whitespace trimmed. */
  function ViewsNumeral(viewsText: string): (r: string)
    ensures forall i :: 0 <= i < |r| ==> r[i] != ','
    ensures r != [] ==> !IsSpace(r[0]) && !IsSpace(r[|r| - 1])
  {
    var noCommas := RemoveAll(RemoveAll(Lower(viewsText), "views"), [',']);
    RemoveCharAll(RemoveAll(Lower(viewsText), "views"), ',');
    StripIsSlice(noCommas);
    Strip(noCommas)
  }

  /** The view count of a search result; there is no fallback, so a text
      that is not an integer numeral once normalised raises. */
  function ParseViews(viewsText: string): (r: Result<int, ParseError>)
    ensures r.Err? ==> r.error == ViewsNotInteger(viewsText)
  {
    match IntOf(ViewsNumeral(viewsText))
    case None => Err(ViewsNotInteger(viewsText))
    case Some(v) => Ok(v)
  }

  /** A count written as digits followed by " views" (any letter case) parses
      to the number the digits denote. */
  lemma ParseViewsDigits(ds: string, word: string)
    requires ds != [] && AllDigits(ds)
    requires Lower(word) == "views"
    ensures ParseViews(ds + " " + word) == Ok(DecimalValue(ds))
  {
    ViewsNumeralDigits(ds, word);
    IntOfDigits(ds);
    ParseViewsOfNumeral(ds + " " + word, ds, Some(DecimalValue(ds)));
  }

  lemma ParseViewsOfNumeral(viewsText: string, numeral: string, v: Option<int>)
    requires ViewsNumeral(viewsText) == numeral && IntOf(numeral) == v
    ensures ParseViews(viewsText) == if v.Some? then Ok(v.value) else Err(ViewsNotInteger(viewsText))
  {
  }

  lemma ViewsNumeralDigits(ds: string, word: string)
    requires ds != [] && AllDigits(ds)
    requires Lower(word) == "views"
    ensures ViewsNumeral(ds + " " + word) == ds
  {
    LowerDigitsViews(ds, word);
    NoViewsNoCommas(ds + " ", "views");
    StripDigitsSpace(ds);
  }

  lemma LowerDigitsViews(ds: string, word: string)
    requires AllDigits(ds)
    requires Lower(word) == "views"
    ensures Lower(ds + " " + word) == (ds + " ") + "views"
  {
    var s := ds + " " + word;
    forall i | 0 <= i < |s|
      ensures Lower(s)[i] == ((ds + " ") + "views")[i]
    {
      if i >= |ds| + 1 {
        assert Lower(word)[i - |ds| - 1] == LowerChar(word[i - |ds| - 1]);
      }
    }
  }

  lemma StripDigitsSpace(ds: string)
    requires ds != [] && AllDigits(ds)
    ensures Strip(ds + " ") == ds
  {
    assert IsDigit(ds[0]) && IsDigit(ds[|ds| - 1]);
    StripDigitsSpaceEnds(ds);
  }

  lemma StripDigitsSpaceEnds(ds: string)
    requires ds != [] && !IsSpace(ds[0]) && !IsSpace(ds[|ds| - 1])
    ensures Strip(ds + " ") == ds
  {
    TrimStartNone(ds + " ");
    TrimEndSpace(ds, ' ');
    TrimEndNone(ds);
  }

  /** Removing "views" and then "," from `x + "views"`, where `x` has neither
      a 'v' nor a ',', leaves `x`. */
  lemma NoViewsNoCommas(x: string, tail: string)
    requires forall i :: 0 <= i < |x| ==> x[i] != 'v' && x[i] != ','
    requires tail == "views" || tail == ""
    ensures RemoveAll(RemoveAll(x + tail, "views"), ",") == x
  {
    RemoveAllKeepsPrefix(x, tail, "views");
    assert RemoveAll(tail, "views") == "";
    assert x + "" == x;
    RemoveAllKeepsPrefix(x, "", ",");
  }

  /** The application's own example: "5,909 views" is 5909 views. */
  lemma ParseViewsExample()
    ensures ParseViews("5,909 views") == Ok(5909)
  {
    ViewsNumeralExample();
    IntOfExample();
    ParseViewsOfNumeral("5,909 views", "5909", Some(5909));
  }

  lemma ViewsNumeralExample()
    ensures ViewsNumeral("5,909 views") == "5909"
  {
    assert Lower("5,909 views") == "5,909 " + "views";
    CommaExample();
    assert Strip("5909 ") == "5909" by {
      StripDigitsSpace("5909");
      assert "5909" + " " == "5909 ";
    }
  }

  lemma CommaExample()
    ensures RemoveAll(RemoveAll("5,909 " + "views", "views"), ",") == "5909 "
  {
    RemoveAllKeepsPrefix("5,909 ", "views", "views");
    assert RemoveAll("views", "views") == "";
    assert "5,909 " + "" == "5" + ("," + "909 ");
    RemoveAllKeepsPrefix("5", ",909 ", ",");
    RemoveAllKeepsPrefix("909 ", "", ",");
    assert "909 " + "" == "909 ";
    assert "5" + "909 " == "5909 ";
  }

  lemma IntOfExample()
    ensures IntOf("5909") == Some(5909)
  {
    DecimalExample();
    IntOfDigits("5909");
  }

  lemma DecimalExample()
    ensures DecimalValue("5909") == 5909
  {
    assert "5909"[..3] == "590" && "590"[..2] == "59" && "59"[..1] == "5";
  }

  /** A count the provider writes in words has no number and raises. */
  lemma ParseViewsNoViews()
    ensures ParseViews("No views") == Err(ViewsNotInteger("No views"))
  {
    ViewsNumeralNoViews();
    IntOfWord("no");
    ParseViewsOfNumeral("No views", "no", None);
  }

  lemma ViewsNumeralNoViews()
    ensures ViewsNumeral("No views") == "no"
  {
    assert Lower("No views") == "no " + "views";
    NoViewsNoCommas("no ", "views");
    assert Strip("no ") == "no" by {
      assert "no" + [' '] == "no ";
      TrimStartNone("no ");
      TrimEndSpace("no", ' ');
      TrimEndNone("no");
    }
  }

  /** The duration of a search result in minutes: "MM:SS" and "H:MM:SS"
      are converted (seconds count as fractions of a minute and are not
      range-checked), any other number of ':'-separated parts gives 0, and a
      part that is not an integer numeral raises. */
  function ParseDuration(duration: string): (r: Result<real, ParseError>)
    ensures r.Err? ==> r.error == DurationNotInteger(duration)
  {
    DurationOfParts(duration, Split(duration, ':'), IntOf)
  }

  /** The conversion of the ':'-separated parts, given `int()` as `toInt`. */
  function DurationOfParts(duration: string, parts: seq<string>, toInt: string -> Option<int>): (r: Result<real, ParseError>)
    ensures r.Err? ==> r.error == DurationNotInteger(duration)
    ensures r.Err? <==> (|parts| == 2 || |parts| == 3) && exists i :: 0 <= i < |parts| && toInt(parts[i]).None?
    ensures |parts| != 2 && |parts| != 3 ==> r == Ok(0.0)
  {
    if |parts| == 2 then
      var minutes, seconds := toInt(parts[0]), toInt(parts[1]);
      if minutes.Some? && seconds.Some? then Ok(minutes.value as real + seconds.value as real / 60.0)
      else Err(DurationNotInteger(duration))
    else if |parts| == 3 then
      var minutes, hours, seconds := toInt(parts[1]), toInt(parts[0]), toInt(parts[2]);
      if minutes.Some? && hours.Some? && seconds.Some? then
        Ok((minutes.value + hours.value * 60) as real + seconds.value as real / 60.0)
      else Err(DurationNotInteger(duration))
    else
      Ok(0.0)
  }

  /** "MM:SS" is MM + SS/60 minutes whenever both parts are integer
      numerals (seconds are not range-checked). */
  lemma ParseDurationMinSec(ms: string, ss: string, m: int, sec: int)
    requires forall i :: 0 <= i < |ms| ==> ms[i] != ':'
    requires forall i :: 0 <= i < |ss| ==> ss[i] != ':'
    requires IntOf(ms) == Some(m) && IntOf(ss) == Some(sec)
    ensures ParseDuration(ms + ":" + ss) == Ok(m as real + sec as real / 60.0)
  {
    SplitTwo(ms, ss);
    DurationOfTwo(ms + ":" + ss, ms, ss, m, sec);
  }

  /** "H:MM:SS" is H·60 + MM + SS/60 minutes, whatever the size of MM and SS. */
  lemma ParseDurationHourMinSec(hs: string, ms: string, ss: string, h: int, m: int, sec: int)
    requires forall i :: 0 <= i < |hs| ==> hs[i] != ':'
    requires forall i :: 0 <= i < |ms| ==> ms[i] != ':'
    requires forall i :: 0 <= i < |ss| ==> ss[i] != ':'
    requires IntOf(hs) == Some(h) && IntOf(ms) == Some(m) && IntOf(ss) == Some(sec)
    ensures ParseDuration(hs + ":" + ms + ":" + ss) == Ok((h * 60 + m) as real + sec as real / 60.0)
  {
    SplitThree(hs, ms, ss);
    DurationOfThree(hs + ":" + ms + ":" + ss, hs, ms, ss, h, m, sec);
  }

  /** "MM:SS" where either part is not an integer numeral raises. */
  lemma ParseDurationBadMinSec(ms: string, ss: string)
    requires forall i :: 0 <= i < |ms| ==> ms[i] != ':'
    requires forall i :: 0 <= i < |ss| ==> ss[i] != ':'
    requires IntOf(ms).None? || IntOf(ss).None?
    ensures ParseDuration(ms + ":" + ss) == Err(DurationNotInteger(ms + ":" + ss))
  {
    SplitTwo(ms, ss);
    DurationOfSplit(ms + ":" + ss, [ms, ss]);
    DurationOfTwoPartsBad(ms + ":" + ss, ms, ss, IntOf);
  }

  lemma SplitTwo(x: string, y: string)
    requires forall i :: 0 <= i < |x| ==> x[i] != ':'
    requires forall i :: 0 <= i < |y| ==> y[i] != ':'
    ensures Split(x + ":" + y, ':') == [x, y]
  {
    SplitAfter(x, ':', y);
    SplitNone(y, ':');
  }

  lemma SplitThree(x: string, y: string, z: string)
    requires forall i :: 0 <= i < |x| ==> x[i] != ':'
    requires forall i :: 0 <= i < |y| ==> y[i] != ':'
    requires forall i :: 0 <= i < |z| ==> z[i] != ':'
    ensures Split(x + ":" + y + ":" + z, ':') == [x, y, z]
  {
    assert x + ":" + y + ":" + z == x + [':'] + (y + ":" + z);
    SplitAfter(x, ':', y + ":" + z);
    SplitTwo(y, z);
  }

  lemma DurationOfTwo(d: string, ms: string, ss: string, m: int, sec: int)
    requires Split(d, ':') == [ms, ss]
    requires IntOf(ms) == Some(m) && IntOf(ss) == Some(sec)
    ensures ParseDuration(d) == Ok(m as real + sec as real / 60.0)
  {
    DurationOfSplit(d, [ms, ss]);
    DurationOfTwoParts(d, ms, ss, m, sec, IntOf);
  }

  lemma DurationOfThree(d: string, hs: string, ms: string, ss: string, h: int, m: int, sec: int)
    requires Split(d, ':') == [hs, ms, ss]
    requires IntOf(hs) == Some(h) && IntOf(ms) == Some(m) && IntOf(ss) == Some(sec)
    ensures ParseDuration(d) == Ok((h * 60 + m) as real + sec as real / 60.0)
  {
    DurationOfSplit(d, [hs, ms, ss]);
    DurationOfThreeParts(d, hs, ms, ss, h, m, sec, IntOf);
  }

  lemma DurationOfSplit(d: string, parts: seq<string>)
    requires Split(d, ':') == parts
    ensures ParseDuration(d) == DurationOfParts(d, parts, IntOf)
  {
  }

  lemma DurationOfTwoParts(d: string, ms: string, ss: string, m: int, sec: int, toInt: string -> Option<int>)
    requires toInt(ms) == Some(m) && toInt(ss) == Some(sec)
    ensures DurationOfParts(d, [ms, ss], toInt) == Ok(m as real + sec as real / 60.0)
  {
    var parts := [ms, ss];
    assert |parts| == 2 && parts[0] == ms && parts[1] == ss;
  }

  lemma DurationOfTwoPartsBad(d: string, ms: string, ss: string, toInt: string -> Option<int>)
    requires toInt(ms).None? || toInt(ss).None?
    ensures DurationOfParts(d, [ms, ss], toInt) == Err(DurationNotInteger(d))
  {
    var parts := [ms, ss];
    assert |parts| == 2 && parts[0] == ms && parts[1] == ss;
  }

  lemma DurationOfThreeParts(d: string, hs: string, ms: string, ss: string, h: int, m: int, sec: int,
                             toInt: string -> Option<int>)
    requires toInt(hs) == Some(h) && toInt(ms) == Some(m) && toInt(ss) == Some(sec)
    ensures DurationOfParts(d, [hs, ms, ss], toInt) == Ok((h * 60 + m) as real + sec as real / 60.0)
  {
    var parts := [hs, ms, ss];
    assert |parts| == 3 && parts[0] == hs && parts[1] == ms && parts[2] == ss;
  }

  /** The examples the parser documents: "5:30" is 5.5 and "10:00" is 10. */
  lemma ParseDurationExamples()
    ensures ParseDuration("5:30") == Ok(5.5)
    ensures ParseDuration("10:00") == Ok(10.0)
  {
    DurationFiveThirty();
    DurationTen();
  }

  lemma DurationFiveThirty() ensures ParseDuration("5:30") == Ok(5.5) {
    SplitTwo("5", "30");
    assert "5" + ":" + "30" == "5:30";
    DurationOfSplit("5:30", ["5", "30"]);
    NumeralFive();
    NumeralThirty();
    DurationOfTwoParts("5:30", "5", "30", 5, 30, IntOf);
  }

  lemma DurationTen() ensures ParseDuration("10:00") == Ok(10.0) {
    SplitTwo("10", "00");
    assert "10" + ":" + "00" == "10:00";
    DurationOfSplit("10:00", ["10", "00"]);
    NumeralTen();
    NumeralZeroZero();
    DurationOfTwoParts("10:00", "10", "00", 10, 0, IntOf);
  }

  lemma NumeralFive() ensures IntOf("5") == Some(5) {
    IntOfDigits("5");
  }

  lemma NumeralThirty() ensures IntOf("30") == Some(30) {
    assert DecimalValue("30") == 30 by { assert "30"[..1] == "3"; }
    IntOfDigits("30");
  }

  lemma NumeralTen() ensures IntOf("10") == Some(10) {
    assert DecimalValue("10") == 10 by { assert "10"[..1] == "1"; }
    IntOfDigits("10");
  }

  lemma NumeralZeroZero() ensures IntOf("00") == Some(0) {
    assert DecimalValue("00") == 0 by { assert "00"[..1] == "0"; }
    IntOfDigits("00");
  }

  /** With no ':' or with three or more, the duration counts as 0 minutes. */
  lemma ParseDurationUnexpectedShape(duration: string)
    requires multiset(duration)[':'] != 1 && multiset(duration)[':'] != 2
    ensures ParseDuration(duration) == Ok(0.0)
  {
    SplitCount(duration, ':');
  }

  /** The search text: destination, " travel guide ", the preferences joined
      by spaces, and " Netherlands". */
  function SearchQuery(destination: string, preferences: seq<string>): (q: string)
    ensures StartsWith(q, destination + " travel guide ")
  {
    destination + " travel guide " + Join(" ", preferences) + " Netherlands"
  }

  /** Every preference is mentioned in the search text. */
  lemma SearchQueryMentions(destination: string, preferences: seq<string>, k: nat)
    requires k < |preferences|
    ensures Contains(SearchQuery(destination, preferences), preferences[k])
  {
    var pre := destination + " travel guide ";
    var j, off := Join(" ", preferences), JoinOffset(preferences, k);
    var q := SearchQuery(destination, preferences);
    assert q == pre + j + " Netherlands";
    assert q[|pre| + off..][..|preferences[k]|] == j[off..off + |preferences[k]|];
    assert StartsWith(q[|pre| + off..], preferences[k]);
  }

  /** Where the `k`-th part starts in `" ".join(parts)`. */
  function JoinOffset(parts: seq<string>, k: nat): (off: nat)
    requires k < |parts|
    ensures off + |parts[k]| <= |Join(" ", parts)|
    ensures Join(" ", parts)[off..off + |parts[k]|] == parts[k]
    decreases k
  {
    if k == 0 then 0
    else
      var off := |parts[0]| + 1 + JoinOffset(parts[1..], k - 1);
      assert Join(" ", parts) == parts[0] + " " + Join(" ", parts[1..]);
      off
  }

  /** The record kept for a result that passes the filter (no transcript or
      summary yet). */
  function KeptVideo(raw: RawVideo, p: Parsed): Video {
    Video(raw.title, raw.duration, p.minutes, p.views, raw.channel, raw.link, None, None)
  }

  /** The parsed view count and duration of one result. */
  datatype Parsed = Parsed(views: int, minutes: real)

  /** Parsing one result: its views first, then its duration. */
  function ParseResult(raw: RawVideo): (r: Result<Parsed, ParseError>)
    ensures ParseViews(raw.viewCountText).Err? ==> r == Err(ParseViews(raw.viewCountText).error)
    ensures ParseViews(raw.viewCountText).Ok? && ParseDuration(raw.duration).Err? ==>
      r == Err(ParseDuration(raw.duration).error)
    ensures r.Ok? <==> ParseViews(raw.viewCountText).Ok? && ParseDuration(raw.duration).Ok?
    ensures r.Ok? ==> r.value == Parsed(ParseViews(raw.viewCountText).value, ParseDuration(raw.duration).value)
  {
    match ParseViews(raw.viewCountText)
    case Err(e) => Err(e)
    case Ok(views) =>
      match ParseDuration(raw.duration)
      case Err(e) => Err(e)
      case Ok(minutes) => Ok(Parsed(views, minutes))
  }

  /** A result passes when its views and its duration both reach the thresholds. */
  predicate Passes(p: Parsed, minViews: int, minDuration: real) {
    p.views >= minViews && p.minutes >= minDuration
  }

  /** What the loop computes from the results seen so far, for a given way
      `parse` of parsing one result: the first result that fails to parse
      makes the whole search raise; otherwise the records of the passing
      results, in result order. */
  function Filtered(results: seq<RawVideo>, parse: RawVideo -> Result<Parsed, ParseError>,
                    minViews: int, minDuration: real): (r: Result<seq<Video>, ParseError>)
    ensures r.Ok? ==> |r.value| <= |results|
    ensures r.Ok? ==> forall j :: 0 <= j < |r.value| ==>
      r.value[j].views >= minViews && r.value[j].durationMinutes >= minDuration
    decreases |results|
  {
    if results == [] then Ok([])
    else
      var last := results[|results| - 1];
      match Filtered(results[..|results| - 1], parse, minViews, minDuration)
      case Err(e) => Err(e)
      case Ok(kept) =>
        match parse(last)
        case Err(e) => Err(e)
        case Ok(p) => if Passes(p, minViews, minDuration) then Ok(kept + [KeptVideo(last, p)]) else Ok(kept)
  }

  /** The positions of the passing results, in increasing order. */
  function PassingPositions(results: seq<RawVideo>, parse: RawVideo -> Result<Parsed, ParseError>,
                            minViews: int, minDuration: real): (pos: seq<nat>)
    requires forall i :: 0 <= i < |results| ==> parse(results[i]).Ok?
    ensures |pos| <= |results|
    ensures forall j :: 0 <= j < |pos| ==>
      pos[j] < |results| && Passes(parse(results[pos[j]]).value, minViews, minDuration)
    decreases |results|
  {
    if results == [] then []
    else
      var n := |results| - 1;
      PassingPositions(results[..n], parse, minViews, minDuration)
        + (if Passes(parse(results[n]).value, minViews, minDuration) then [n] else [])
  }

  /** The search fails exactly when some result does not parse; otherwise it
      keeps exactly the passing results, at increasing positions, each with
      its parsed views, its original duration text and its duration in
      minutes, so it is never longer than the input. */
  lemma FilteredIsOrderedSelection(results: seq<RawVideo>, parse: RawVideo -> Result<Parsed, ParseError>,
                                   minViews: int, minDuration: real)
    ensures Filtered(results, parse, minViews, minDuration).Ok? <==> forall i :: 0 <= i < |results| ==> parse(results[i]).Ok?
    ensures Filtered(results, parse, minViews, minDuration).Ok? ==>
      var kept := Filtered(results, parse, minViews, minDuration).value;
      var pos := PassingPositions(results, parse, minViews, minDuration);
      && |kept| == |pos| <= |results|
      && (forall a, b :: 0 <= a < b < |pos| ==> pos[a] < pos[b])
      && (forall i :: 0 <= i < |results| ==> (i in pos <==> Passes(parse(results[i]).value, minViews, minDuration)))
      && (forall j :: 0 <= j < |pos| ==> pos[j] < |results| && kept[j] == KeptVideo(results[pos[j]], parse(results[pos[j]]).value))
  {
    FilteredOkIff(results, parse, minViews, minDuration);
    if Filtered(results, parse, minViews, minDuration).Ok? {
      PassingPositionsSpec(results, parse, minViews, minDuration);
      FilteredKeepsPositions(results, parse, minViews, minDuration);
    }
  }

  /** The search succeeds exactly when every result parses. */
  lemma {:induction false} FilteredOkIff(results: seq<RawVideo>, parse: RawVideo -> Result<Parsed, ParseError>,
                                         minViews: int, minDuration: real)
    ensures Filtered(results, parse, minViews, minDuration).Ok? <==> forall i :: 0 <= i < |results| ==> parse(results[i]).Ok?
    decreases |results|
  {
    if results != [] {
      var n := |results| - 1;
      FilteredOkIff(results[..n], parse, minViews, minDuration);
      assert forall i :: 0 <= i < n ==> results[..n][i] == results[i];
    }
  }

  /** The passing positions increase, lie inside the input, and are exactly
      the positions whose result passes. */
  lemma {:induction false} PassingPositionsSpec(results: seq<RawVideo>, parse: RawVideo -> Result<Parsed, ParseError>,
                                                minViews: int, minDuration: real)
    requires forall i :: 0 <= i < |results| ==> parse(results[i]).Ok?
    ensures var pos := PassingPositions(results, parse, minViews, minDuration);
      && |pos| <= |results|
      && (forall a, b :: 0 <= a < b < |pos| ==> pos[a] < pos[b])
      && (forall j :: 0 <= j < |pos| ==> pos[j] < |results|)
      && (forall i :: 0 <= i < |results| ==> (i in pos <==> Passes(parse(results[i]).value, minViews, minDuration)))
    decreases |results|
  {
    if results != [] {
      var n := |results| - 1;
      var init := results[..n];
      assert forall i :: 0 <= i < n ==> init[i] == results[i];
      PassingPositionsSpec(init, parse, minViews, minDuration);
    }
  }

  /** On success the `j`-th record comes from the `j`-th passing position. */
  lemma {:induction false} FilteredKeepsPositions(results: seq<RawVideo>, parse: RawVideo -> Result<Parsed, ParseError>,
                                                  minViews: int, minDuration: real)
    requires forall i :: 0 <= i < |results| ==> parse(results[i]).Ok?
    ensures Filtered(results, parse, minViews, minDuration).Ok?
    ensures var kept := Filtered(results, parse, minViews, minDuration).value;
      var pos := PassingPositions(results, parse, minViews, minDuration);
      && |kept| == |pos|
      && (forall j :: 0 <= j < |pos| ==> pos[j] < |results| && kept[j] == KeptVideo(results[pos[j]], parse(results[pos[j]]).value))
    decreases |results|
  {
    if results != [] {
      var n := |results| - 1;
      var init := results[..n];
      assert forall i :: 0 <= i < n ==> init[i] == results[i];
      FilteredKeepsPositions(init, parse, minViews, minDuration);
      PassingPositionsSpec(init, parse, minViews, minDuration);
    }
  }

  /** Every kept record meets both thresholds. */
  lemma FilteredMeetsThresholds(results: seq<RawVideo>, parse: RawVideo -> Result<Parsed, ParseError>,
                                minViews: int, minDuration: real, j: nat)
    requires Filtered(results, parse, minViews, minDuration).Ok?
    requires j < |Filtered(results, parse, minViews, minDuration).value|
    ensures Filtered(results, parse, minViews, minDuration).value[j].views >= minViews
    ensures Filtered(results, parse, minViews, minDuration).value[j].durationMinutes >= minDuration
  {
    FilteredIsOrderedSelection(results, parse, minViews, minDuration);
    var pos := PassingPositions(results, parse, minViews, minDuration);
    assert pos[j] in pos;
  }

  /** Once some result fails to parse, the later results do not matter: the
      search raises that first error. */
  lemma {:induction false} FilteredErrorSticks(results: seq<RawVideo>, parse: RawVideo -> Result<Parsed, ParseError>,
                                               minViews: int, minDuration: real, j: nat)
    requires j <= |results|
    requires Filtered(results[..j], parse, minViews, minDuration).Err?
    ensures Filtered(results, parse, minViews, minDuration) == Filtered(results[..j], parse, minViews, minDuration)
    decreases |results|
  {
    if j < |results| {
      var init := results[..|results| - 1];
      assert init[..j] == results[..j];
      FilteredErrorSticks(init, parse, minViews, minDuration, j);
    } else {
      assert results[..j] == results;
    }
  }

  /** The loop of `fetch_youtube_videos`, for a given way `parse` of parsing
      one result: each result is parsed (an error ends the search), and a
      result that misses either threshold is skipped. */
  method FilterResults(results: seq<RawVideo>, parse: RawVideo -> Result<Parsed, ParseError>,
                       minViews: int, minDuration: real)
    returns (videos: Result<seq<Video>, ParseError>)
    ensures videos == Filtered(results, parse, minViews, minDuration)
  {
    var kept: seq<Video> := [];
    var i := 0;
    while i < |results|
      invariant 0 <= i <= |results|
      invariant Filtered(results[..i], parse, minViews, minDuration) == Ok(kept)
    {
      var video := results[i];
      assert results[..i + 1][..i] == results[..i] && results[..i + 1][i] == video;
      var parsed := parse(video);
      if parsed.Err? {
        FilteredErrorSticks(results, parse, minViews, minDuration, i + 1);
        assert results[..|results|] == results;
        return Err(parsed.error);
      }
      i := i + 1;
      if parsed.value.views < minViews || parsed.value.minutes < minDuration {
        continue;
      }
      kept := kept + [KeptVideo(video, parsed.value)];
    }
    assert results[..i] == results;
    videos := Ok(kept);
  }

  /** `fetch_youtube_videos`: the query and the limit `maxResults` are
      sent to the provider (the parameter `search`, whose answer is taken
      as it comes); each result's views and then its duration are
      parsed, and the results reaching both thresholds are kept. */
  method FetchYouTubeVideos(destination: string, preferences: seq<string>, minViews: int, maxResults: int,
                            minDuration: real, search: (string, int) -> seq<RawVideo>)
    returns (videos: Result<seq<Video>, ParseError>)
    ensures videos == Filtered(search(SearchQuery(destination, preferences), maxResults), ParseResult, minViews, minDuration)
  {
    var query := destination + " travel guide " + Join(" ", preferences) + " Netherlands";
    var results := search(query, maxResults);
    videos := FilterResults(results, ParseResult, minViews, minDuration);
  }

  /** The application's call of `fetch_youtube_videos`, which leaves the
      minimum duration at its default. */
  method FetchYouTubeVideosDefault(destination: string, preferences: seq<string>, minViews: int, maxResults: int,
                                   search: (string, int) -> seq<RawVideo>)
    returns (videos: Result<seq<Video>, ParseError>)
    ensures videos == Filtered(search(SearchQuery(destination, preferences), maxResults), ParseResult, minViews, 5.0)
  {
    videos := FetchYouTubeVideos(destination, preferences, minViews, maxResults, DefaultMinDuration, search);
  }
}
