/**
 * The transcript stage: finding the video id in a video link (the regular
 * expression `(?:v=|/)([0-9A-Za-z_-]{11}).*` searched leftmost-first), and
 * filling the Transcript column of the videos table from the outcome of the
 * transcript service for each row.
 */
module Transcript {
  import opened Wrappers
  import opened Text
  import opened Frame

  /** The length of a YouTube video id. */
  const IdLength: nat := 11

  /** The texts written in place of a transcript. */
  const InvalidUrl: string := "Invalid YouTube URL."
  const DisabledText: string := "Transcripts are disabled for this video."
  const NotFoundText: string := "No transcript found for this video."
  const FetchErrorText: string := "Error occurred while fetching transcript."

  /** The character class `[0-9A-Za-z_-]`. */
  predicate IsIdChar(c: char) {
    ('0' <= c <= '9') || ('A' <= c <= 'Z') || ('a' <= c <= 'z') || c == '_' || c == '-'
  }

  /** Eleven id characters start at position `j` of `url`. */
  predicate IdRunAt(url: string, j: nat) {
    j + IdLength <= |url| && forall k :: j <= k < j + IdLength ==> IsIdChar(url[k])
  }

  /** Where the captured group begins when the pattern matches at position
      `i`: after "v=" or after "/", provided eleven id characters follow;
      `None` when the pattern does not match at `i`. The trailing `.*`
      matches anything, so it imposes nothing. */
  function GroupStart(url: string, i: nat): (g: Option<nat>)
    ensures g.Some? ==> i < g.value <= i + 2 && IdRunAt(url, g.value)
  {
    if i + 2 <= |url| && url[i] == 'v' && url[i + 1] == '=' && IdRunAt(url, i + 2) then Some(i + 2)
    else if i < |url| && url[i] == '/' && IdRunAt(url, i + 1) then Some(i + 1)
    else None
  }

  /** The first position at or after `from` where the pattern matches, as
      `re.search` scans the string. */
  function FirstMatch(url: string, from: nat): (r: Option<nat>)
    ensures r.Some? ==> from <= r.value <= |url| && GroupStart(url, r.value).Some?
    ensures r.Some? ==> forall j :: from <= j < r.value ==> GroupStart(url, j).None?
    ensures r.None? ==> forall j :: from <= j <= |url| ==> GroupStart(url, j).None?
    decreases |url| + 1 - from
  {
    if from > |url| then None
    else if GroupStart(url, from).Some? then Some(from)
    else FirstMatch(url, from + 1)
  }

  /** `extract_video_id`: the captured group of the leftmost match, or
      `None` when the pattern matches nowhere. */
  function ExtractVideoId(url: string): (id: Option<string>)
    ensures id.Some? ==> |id.value| == IdLength && forall k :: 0 <= k < |id.value| ==> IsIdChar(id.value[k])
  {
    match FirstMatch(url, 0)
    case None => None
    case Some(i) =>
      var g := GroupStart(url, i).value;
      Some(url[g..g + IdLength])
  }

  /** There is no id exactly when the pattern matches at no position. */
  lemma ExtractVideoIdNoneIff(url: string)
    ensures ExtractVideoId(url).None? <==> forall i :: 0 <= i <= |url| ==> GroupStart(url, i).None?
  {
    var m := FirstMatch(url, 0);
    if m.Some? {
      assert GroupStart(url, m.value).Some?;
    }
  }

  /** The id comes from the leftmost position where the pattern matches: the
      eleven characters after its "v=" or "/". */
  lemma ExtractVideoIdLeftmost(url: string, i: nat)
    requires i <= |url| && GroupStart(url, i).Some?
    requires forall j :: 0 <= j < i ==> GroupStart(url, j).None?
    ensures ExtractVideoId(url) == Some(url[GroupStart(url, i).value..GroupStart(url, i).value + IdLength])
  {
    assert FirstMatch(url, 0) == Some(i);
  }

  /** A match stays a match whatever follows the string, and captures the
      same characters. */
  lemma GroupStartExtend(url: string, rest: string, i: nat)
    requires GroupStart(url, i).Some?
    ensures GroupStart(url + rest, i) == GroupStart(url, i)
  {
    var g := GroupStart(url, i).value;
    assert forall k :: g <= k < g + IdLength ==> (url + rest)[k] == url[k];
  }

  /** The links the application builds. */
  const WatchPrefix: string := "https://www.youtube.com/watch?v="

  /** For a watch link the id is the eleven characters after "v=", whatever
      follows them: a longer run of id characters yields only its first
      eleven. The '/' characters of the prefix are not followed by eleven
      id characters. */
  lemma WatchLinkId(id: string, rest: string)
    requires |id| == IdLength && forall k :: 0 <= k < |id| ==> IsIdChar(id[k])
    ensures ExtractVideoId(WatchPrefix + id + rest) == Some(id)
  {
    var url := WatchPrefix + id + rest;
    assert |WatchPrefix| == 32;
    forall k | 0 <= k < 32
      ensures url[k] == WatchPrefix[k]
    {
    }
    forall k | 0 <= k < IdLength
      ensures url[32 + k] == id[k]
    {
    }
    assert GroupStart(url, 30) == Some(32);
    forall j | 0 <= j < 30
      ensures GroupStart(url, j).None?
    {
      WatchPrefixNoMatch(url, j);
    }
    ExtractVideoIdLeftmost(url, 30);
    assert url[32..32 + IdLength] == id;
  }

  /** Before position 30 of a watch link the pattern cannot match: the only
      'v' is at 30, and each '/' is followed by a '/', a '.' or a '?' within
      eleven characters. */
  lemma WatchPrefixNoMatch(url: string, j: nat)
    requires |url| >= 43 && j < 30
    requires forall k :: 0 <= k < 32 ==> url[k] == WatchPrefix[k]
    ensures GroupStart(url, j).None?
  {
    if j == 6 {
      assert !IsIdChar(url[7]);
    } else if j == 7 {
      assert !IsIdChar(url[11]);
    } else if j == 23 {
      assert !IsIdChar(url[29]);
    } else {
      assert url[j] == WatchPrefix[j];
    }
  }

  /** The test video the application offers: its link yields 'abcd1234EFG'. */
  lemma TestVideoId()
    ensures ExtractVideoId("https://www.youtube.com/watch?v=abcd1234EFG") == Some("abcd1234EFG")
  {
    WatchLinkId("abcd1234EFG", "");
    assert WatchPrefix + "abcd1234EFG" + "" == "https://www.youtube.com/watch?v=abcd1234EFG";
  }

  /** What the transcript service answers for a video id (with English
      requested): the transcript's segment texts, or one of its errors. */
  datatype FetchOutcome =
    | Segments(texts: seq<string>)
    | TranscriptsDisabled
    | NoTranscriptFound
    | OtherError(message: string)

  /** The Transcript cell of a row with link `link`, when the service
      answers `fetch(id)` for id `id`. */
  function TranscriptFor(link: string, fetch: string -> FetchOutcome): (t: string)
    ensures ExtractVideoId(link).None? ==> t == InvalidUrl
    ensures ExtractVideoId(link).Some? && fetch(ExtractVideoId(link).value).Segments? ==>
      t == Join(" ", fetch(ExtractVideoId(link).value).texts)
    ensures ExtractVideoId(link).Some? && fetch(ExtractVideoId(link).value).TranscriptsDisabled? ==>
      t == DisabledText
    ensures ExtractVideoId(link).Some? && fetch(ExtractVideoId(link).value).NoTranscriptFound? ==>
      t == NotFoundText
    ensures ExtractVideoId(link).Some? && fetch(ExtractVideoId(link).value).OtherError? ==>
      t == FetchErrorText
  {
    match ExtractVideoId(link)
    case None => InvalidUrl
    case Some(id) =>
      match fetch(id)
      case Segments(texts) => Join(" ", texts)
      case TranscriptsDisabled => DisabledText
      case NoTranscriptFound => NotFoundText
      case OtherError(_) => FetchErrorText
  }

  /** The table after the transcript stage: every row gets its Transcript
      cell, all other cells and the row order unchanged. */
  function WithTranscripts(rows: seq<Video>, fetch: string -> FetchOutcome): (r: seq<Video>)
    ensures |r| == |rows|
  {
    seq(|rows|, i requires 0 <= i < |rows| => rows[i].(transcript := Some(TranscriptFor(rows[i].link, fetch))))
  }

  /** Every row has a transcript afterwards, and only the Transcript column
      changed. */
  lemma WithTranscriptsFillsColumn(rows: seq<Video>, fetch: string -> FetchOutcome, i: nat)
    requires i < |rows|
    ensures WithTranscripts(rows, fetch)[i].transcript.Some?
    ensures WithTranscripts(rows, fetch)[i].(transcript := rows[i].transcript) == rows[i]
  {
  }

  /** The service is one answer per id, so two rows with the same link get
      the same cell. */
  lemma WithTranscriptsRowwise(rows: seq<Video>, fetch: string -> FetchOutcome, i: nat, j: nat)
    requires i < |rows| && j < |rows| && rows[i].link == rows[j].link
    ensures WithTranscripts(rows, fetch)[i].transcript == WithTranscripts(rows, fetch)[j].transcript
  {
  }

  /** A failed service call is recorded per row and does not stop the
      stage: a row's whole record depends on the service only through the
      answer for its own id, whatever the service answers for the other
      rows. */
  lemma WithTranscriptsIndependent(rows: seq<Video>, f: string -> FetchOutcome, g: string -> FetchOutcome, i: nat)
    requires i < |rows|
    requires ExtractVideoId(rows[i].link).Some? ==>
      f(ExtractVideoId(rows[i].link).value) == g(ExtractVideoId(rows[i].link).value)
    ensures WithTranscripts(rows, f)[i] == WithTranscripts(rows, g)[i]
  {
  }

  /** `extract_transcripts`: the Transcript column is first reset, then
      each row in turn gets the transcript of its link or the text recording
      why there is none. */
  method ExtractTranscripts(df: VideoFrame, fetch: string -> FetchOutcome)
    modifies df
    ensures df.rows == WithTranscripts(old(df.rows), fetch)
  {
    ghost var original := df.rows;
    var rows := df.rows;
    df.rows := seq(|rows|, i requires 0 <= i < |rows| => rows[i].(transcript := None));
    var index := 0;
    while index < |df.rows|
      invariant |df.rows| == |original|
      invariant 0 <= index <= |df.rows|
      invariant forall i :: 0 <= i < index ==> df.rows[i] == WithTranscripts(original, fetch)[i]
      invariant forall i :: index <= i < |df.rows| ==> df.rows[i] == original[i].(transcript := None)
    {
      var row := df.rows[index];
      var videoId := ExtractVideoId(row.link);
      var transcript: string;
      if videoId.Some? {
        var outcome := fetch(videoId.value);
        match outcome {
          case Segments(texts) =>
            transcript := Join(" ", texts);
          case TranscriptsDisabled =>
            transcript := DisabledText;
          case NoTranscriptFound =>
            transcript := NotFoundText;
          case OtherError(_) =>
            transcript := FetchErrorText;
        }
      } else {
        transcript := InvalidUrl;
      }
      df.rows := df.rows[index := row.(transcript := Some(transcript))];
      index := index + 1;
    }
  }
}
