/**
 * The summary stage: normalising a transcript's text, cutting its tokens
 * into chunks of at most `MaxTokens`, summarising each chunk and joining
 * the summaries, and filling the Summary column of the videos table. The
 * tokenizer and the summarisation model are parameters.
 */
module Summarizer {
  import opened Wrappers
  import opened Text
  import opened Frame
  import opened Transcript

  /** Tokens per chunk handed to the summarisation model. */
  const MaxTokens: int := 1000

  const NothingToSummarize: string := "No summarizable text found in the provided transcript."
  const SummaryErrorPrefix: string := "Error summarizing transcript: "

  predicate IsNonAscii(c: char) {
    !IsAscii(c)
  }

  predicate IsNewline(c: char) {
    c == '\n'
  }

  /** What separates the words `clean_text` keeps: whitespace and every
      non-ASCII character. */
  predicate IsSeparator(c: char) {
    IsNonAscii(c) || IsSpace(c)
  }

  /** `re.sub(X + '+', ' ', s)` for a character class `p`: each maximal run
      of characters in the class becomes one space. `inRun` says that the
      character before `s` already belonged to a replaced run, so a run
      continuing into `s` adds nothing. */
  function CollapseRuns(s: string, p: char -> bool, inRun: bool): (r: string)
    ensures |r| <= |s|
    ensures forall i :: 0 <= i < |r| && p(r[i]) ==> r[i] == ' '
    decreases |s|
  {
    if s == [] then []
    else if p(s[0]) then (if inRun then CollapseRuns(s[1..], p, true) else " " + CollapseRuns(s[1..], p, true))
    else [s[0]] + CollapseRuns(s[1..], p, false)
  }

  /** `clean_text`: non-ASCII runs, then newline runs, then whitespace runs
      become single spaces, and the ends are stripped. */
  function CleanText(text: string): (r: string)
    ensures |r| <= |text|
    ensures r != [] ==> !IsSpace(r[0]) && !IsSpace(r[|r| - 1])
  {
    var noUnicode := CollapseRuns(text, IsNonAscii, false);
    var noNewlines := CollapseRuns(noUnicode, IsNewline, false);
    Strip(CollapseRuns(noNewlines, IsSpace, false))
  }

  /** Collapsing `p`-runs and then `q`-runs, where the space that replaces a
      run is itself in `q`, is collapsing the runs of `p`-or-`q` at once. */
  lemma {:induction false} CollapseCompose(s: string, p: char -> bool, q: char -> bool, r: char -> bool,
                                           inP: bool, inQ: bool)
    requires forall c :: r(c) == (p(c) || q(c))
    requires q(' ')
    requires inP ==> inQ
    ensures CollapseRuns(CollapseRuns(s, p, inP), q, inQ) == CollapseRuns(s, r, inQ)
    decreases |s|
  {
    if s != [] {
      if p(s[0]) {
        if inP {
          CollapseCompose(s[1..], p, q, r, true, true);
        } else {
          var x := CollapseRuns(s[1..], p, true);
          assert (" " + x)[0] == ' ' && (" " + x)[1..] == x;
          CollapseCompose(s[1..], p, q, r, true, true);
        }
      } else {
        var y := CollapseRuns(s[1..], p, false);
        assert ([s[0]] + y)[0] == s[0] && ([s[0]] + y)[1..] == y;
        if q(s[0]) {
          CollapseCompose(s[1..], p, q, r, false, true);
        } else {
          CollapseCompose(s[1..], p, q, r, false, false);
        }
      }
    }
  }

  /** The three substitutions of `clean_text` amount to one: every run of
      whitespace and non-ASCII characters becomes a single space. */
  lemma CleanTextIsOneCollapse(text: string)
    ensures CleanText(text) == Strip(CollapseRuns(text, IsSeparator, false))
  {
    var noUnicode := CollapseRuns(text, IsNonAscii, false);
    CollapseCompose(noUnicode, IsNewline, IsSpace, IsSpace, false, false);
    CollapseCompose(text, IsNonAscii, IsSpace, IsSeparator, false, false);
  }

  /** Every character of class `p` in `c` is a space, and no two of them
      are adjacent. */
  predicate RunsCollapsed(c: string, p: char -> bool) {
    && (forall i :: 0 <= i < |c| && p(c[i]) ==> c[i] == ' ')
    && (forall i :: 0 <= i < |c| - 1 ==> !(p(c[i]) && p(c[i + 1])))
  }

  /** Putting a character outside the class in front of a collapsed text
      keeps it collapsed. */
  lemma RunsCollapsedCons(x: char, rest: string, p: char -> bool)
    requires !p(x) && RunsCollapsed(rest, p)
    ensures RunsCollapsed([x] + rest, p)
  {
    var c := [x] + rest;
    forall i | 0 <= i < |c| && p(c[i])
      ensures c[i] == ' '
    {
      assert i > 0 && c[i] == rest[i - 1];
    }
    forall i | 0 <= i < |c| - 1
      ensures !(p(c[i]) && p(c[i + 1]))
    {
      if i > 0 {
        assert c[i] == rest[i - 1] && c[i + 1] == rest[i];
      }
    }
  }

  /** Putting the replacing space in front of a collapsed text that does not
      begin with a class character keeps it collapsed. */
  lemma RunsCollapsedSpace(rest: string, p: char -> bool)
    requires p(' ') && RunsCollapsed(rest, p) && (rest != [] ==> !p(rest[0]))
    ensures RunsCollapsed(" " + rest, p)
  {
    var c := " " + rest;
    forall i | 0 <= i < |c| && p(c[i])
      ensures c[i] == ' '
    {
      if i > 0 {
        assert c[i] == rest[i - 1];
      }
    }
    forall i | 0 <= i < |c| - 1
      ensures !(p(c[i]) && p(c[i + 1]))
    {
      if i > 0 {
        assert c[i] == rest[i - 1] && c[i + 1] == rest[i];
      } else {
        assert c[1] == rest[0];
      }
    }
  }

  /** In a collapsed text every class character is the replacing space, two
      class characters are never adjacent, and after a run nothing from the
      class comes first. */
  lemma {:induction false} CollapseRunsShape(s: string, p: char -> bool, inRun: bool)
    requires p(' ')
    ensures RunsCollapsed(CollapseRuns(s, p, inRun), p)
    ensures inRun && CollapseRuns(s, p, inRun) != [] ==> !p(CollapseRuns(s, p, inRun)[0])
    decreases |s|
  {
    if s != [] {
      var rest := CollapseRuns(s[1..], p, p(s[0]));
      CollapseRunsShape(s[1..], p, p(s[0]));
      if p(s[0]) {
        if !inRun {
          RunsCollapsedSpace(rest, p);
        }
      } else {
        RunsCollapsedCons(s[0], rest, p);
      }
    }
  }

  /** A text that is already collapsed is left as it is. */
  lemma {:induction false} CollapseRunsIdentity(s: string, p: char -> bool, inRun: bool)
    requires RunsCollapsed(s, p)
    requires inRun && s != [] ==> !p(s[0])
    ensures CollapseRuns(s, p, inRun) == s
    decreases |s|
  {
    if s != [] {
      var t := s[1..];
      assert forall i :: 0 <= i < |t| ==> t[i] == s[i + 1];
      CollapseRunsIdentity(t, p, p(s[0]));
      assert [s[0]] + t == s;
    }
  }

  /** Every whitespace or non-ASCII character of `s` is a space, and no two
      of them are adjacent. */
  predicate SingleSeparators(s: string) {
    RunsCollapsed(s, IsSeparator)
  }

  /** The shape `clean_text` promises: ASCII only, no newline, whitespace only
      as single spaces, none at either end. */
  predicate IsCleanText(r: string) {
    && (forall i :: 0 <= i < |r| ==> IsAscii(r[i]) && r[i] != '\n')
    && (forall i :: 0 <= i < |r| && IsSpace(r[i]) ==> r[i] == ' ')
    && (forall i :: 0 <= i < |r| - 1 ==> !(IsSpace(r[i]) && IsSpace(r[i + 1])))
    && (r != [] ==> !IsSpace(r[0]) && !IsSpace(r[|r| - 1]))
  }

  lemma SingleSeparatorsSlice(s: string, a: nat, b: nat)
    requires a <= b <= |s| && SingleSeparators(s)
    ensures SingleSeparators(s[a..b])
  {
    var t := s[a..b];
    assert forall i :: 0 <= i < |t| ==> t[i] == s[a + i];
  }

  lemma CleanOfSingleSeparators(r: string)
    requires SingleSeparators(r)
    requires r != [] ==> !IsSpace(r[0]) && !IsSpace(r[|r| - 1])
    ensures IsCleanText(r)
  {
    forall i | 0 <= i < |r|
      ensures IsAscii(r[i]) && r[i] != '\n'
    {
      if IsSeparator(r[i]) {
        assert r[i] == ' ';
      }
    }
  }

  lemma CollapsedHasSingleSeparators(s: string)
    ensures SingleSeparators(CollapseRuns(s, IsSeparator, false))
  {
    CollapseRunsShape(s, IsSeparator, false);
  }

  /** `clean_text` leaves no non-ASCII character and no newline, its only
      whitespace is single spaces between words, and it does not begin or
      end with whitespace. */
  lemma CleanTextCanonical(text: string)
    ensures IsCleanText(CleanText(text))
  {
    CleanTextIsOneCollapse(text);
    StrippedCollapseIsClean(text);
  }

  lemma StrippedCollapseIsClean(text: string)
    ensures IsCleanText(Strip(CollapseRuns(text, IsSeparator, false)))
  {
    CollapsedHasSingleSeparators(text);
    StripOfSingleSeparators(CollapseRuns(text, IsSeparator, false));
  }

  /** Stripping a text whose separators are single spaces leaves a clean
      text. */
  lemma StripOfSingleSeparators(c: string)
    requires SingleSeparators(c)
    ensures IsCleanText(Strip(c))
  {
    StripSlice(c);
    var a := |c| - |TrimStart(c)|;
    SingleSeparatorsSlice(c, a, a + |Strip(c)|);
    CleanOfSingleSeparators(Strip(c));
  }

  /** A clean text's separators are single spaces. */
  lemma CleanTextSeparators(r: string)
    requires IsCleanText(r)
    ensures SingleSeparators(r)
  {
  }

  /** A text already in the shape `clean_text` promises is left as it is. */
  lemma CleanTextOfClean(u: string)
    requires IsCleanText(u)
    ensures CleanText(u) == u
  {
    CleanTextIsOneCollapse(u);
    CollapseOfClean(u);
    StripUnchanged(u);
  }

  lemma CollapseOfClean(u: string)
    requires IsCleanText(u)
    ensures CollapseRuns(u, IsSeparator, false) == u
  {
    CleanTextSeparators(u);
    CollapseRunsIdentity(u, IsSeparator, false);
  }

  /** Cleaning a cleaned text changes nothing. */
  lemma CleanTextIdempotent(text: string)
    ensures CleanText(CleanText(text)) == CleanText(text)
  {
    CleanTextCanonical(text);
    CleanTextOfClean(CleanText(text));
  }

  /** The words of `s`: its maximal runs of characters that are neither
      whitespace nor non-ASCII, in order. Each character either separates,
      starts a new word, or (when the next character also belongs to a word)
      is prepended to the first word of the rest. */
  function Words(s: string): (ws: seq<string>)
    ensures s != [] && !IsSeparator(s[0]) ==> |ws| > 0
    decreases |s|
  {
    if s == [] then []
    else
      var rest := Words(s[1..]);
      if IsSeparator(s[0]) then rest
      else if |s| > 1 && !IsSeparator(s[1]) then [[s[0]] + rest[0]] + rest[1..]
      else [[s[0]]] + rest
  }

  /** Every word is nonempty and holds no separator. */
  lemma {:induction false} WordsAreWords(s: string)
    ensures forall k :: 0 <= k < |Words(s)| ==> Words(s)[k] != []
    ensures forall k, i :: 0 <= k < |Words(s)| && 0 <= i < |Words(s)[k]| ==> !IsSeparator(Words(s)[k][i])
    decreases |s|
  {
    if s != [] {
      WordsAreWords(s[1..]);
      var rest := Words(s[1..]);
      if !IsSeparator(s[0]) && |s| > 1 && !IsSeparator(s[1]) {
        var ws := Words(s);
        assert ws[0] == [s[0]] + rest[0];
        assert forall k :: 1 <= k < |ws| ==> ws[k] == rest[k];
      }
    }
  }

  /** A leading separator is not part of any word. */
  lemma WordsSeparator(c: char, s: string)
    requires IsSeparator(c)
    ensures Words([c] + s) == Words(s)
  {
    assert ([c] + s)[1..] == s;
  }

  /** Collapsing separator runs into single spaces keeps the words. */
  lemma {:induction false} WordsCollapse(s: string, inRun: bool)
    ensures Words(CollapseRuns(s, IsSeparator, inRun)) == Words(s)
    decreases |s|
  {
    if s != [] {
      var c := CollapseRuns(s[1..], IsSeparator, IsSeparator(s[0]));
      WordsCollapse(s[1..], IsSeparator(s[0]));
      if IsSeparator(s[0]) {
        if !inRun {
          WordsSeparator(' ', c);
        }
      } else {
        CollapseFirst(s[1..]);
        assert ([s[0]] + c)[1..] == c;
      }
    }
  }

  /** A collapse that starts outside a run begins with a word character
      exactly when the text does. */
  lemma CollapseFirst(s: string)
    ensures var c := CollapseRuns(s, IsSeparator, false);
      (c != [] && !IsSeparator(c[0])) <==> (s != [] && !IsSeparator(s[0]))
  {
  }

  /** Leading whitespace carries no word. */
  lemma {:induction false} WordsTrimStart(s: string)
    ensures Words(TrimStart(s)) == Words(s)
    decreases |s|
  {
    if s != [] && IsSpace(s[0]) {
      WordsTrimStart(s[1..]);
    }
  }

  /** A trailing separator is not part of any word. */
  lemma {:induction false} WordsSeparatorAtEnd(s: string, c: char)
    requires IsSeparator(c)
    ensures Words(s + [c]) == Words(s)
    decreases |s|
  {
    if s == [] {
      assert [c][1..] == [];
    } else {
      var t := s + [c];
      assert t[1..] == s[1..] + [c];
      WordsSeparatorAtEnd(s[1..], c);
      if |s| == 1 {
        assert t[1] == c;
      } else {
        assert t[1] == s[1];
      }
    }
  }

  /** Trailing whitespace carries no word. */
  lemma {:induction false} WordsTrimEnd(s: string)
    ensures Words(TrimEnd(s)) == Words(s)
    decreases |s|
  {
    if s != [] && IsSpace(s[|s| - 1]) {
      var t := s[..|s| - 1];
      WordsTrimEnd(t);
      WordsSeparatorAtEnd(t, s[|s| - 1]);
      assert t + [s[|s| - 1]] == s;
    }
  }

  lemma WordsStrip(s: string)
    ensures Words(Strip(s)) == Words(s)
  {
    WordsTrimStart(s);
    WordsTrimEnd(TrimStart(s));
  }

  /** Prepending a character to the first word prepends it to the joined
      text. */
  lemma JoinPrependFirst(x: char, ws: seq<string>, sep: string)
    requires ws != []
    ensures Join(sep, [[x] + ws[0]] + ws[1..]) == [x] + Join(sep, ws)
  {
    var vs := [[x] + ws[0]] + ws[1..];
    if |ws| > 1 {
      assert vs[1..] == ws[1..];
    }
  }

  /** A new first word is joined to the rest with the separator. */
  lemma JoinPrependWord(w: string, ws: seq<string>, sep: string)
    requires ws != []
    ensures Join(sep, [w] + ws) == w + sep + Join(sep, ws)
  {
    assert ([w] + ws)[1..] == ws;
  }

  /** A clean text is its own words joined by single spaces. */
  lemma {:induction false} CleanIsJoinedWords(r: string)
    requires IsCleanText(r)
    ensures r == Join(" ", Words(r))
    decreases |r|
  {
    if r != [] {
      var x := r[0];
      var t := r[1..];
      assert !IsSeparator(x);
      if t == [] {
        assert Words(r) == [[x]];
      } else if !IsSeparator(t[0]) {
        CleanSuffix(r, 1);
        CleanIsJoinedWords(t);
        JoinPrependFirst(x, Words(t), " ");
        assert [x] + t == r;
      } else {
        var u := r[2..];
        assert t[0] == ' ' && |r| > 2;
        CleanSuffix(r, 2);
        CleanIsJoinedWords(u);
        assert t == [' '] + u;
        WordsSeparator(' ', u);
        JoinPrependWord([x], Words(u), " ");
        assert [x] + " " + u == r;
      }
    }
  }

  /** What follows a word character of a clean text is clean again. */
  lemma CleanSuffix(r: string, k: nat)
    requires IsCleanText(r) && 0 < k < |r| && !IsSpace(r[k])
    ensures IsCleanText(r[k..])
  {
    var t := r[k..];
    assert forall i :: 0 <= i < |t| ==> t[i] == r[k + i];
  }

  /** `clean_text(t)` is the words of `t` (its maximal runs of ASCII
      non-whitespace characters), in order, joined by single spaces. */
  lemma CleanTextIsJoinedWords(text: string)
    ensures CleanText(text) == Join(" ", Words(text))
  {
    var c := CollapseRuns(text, IsSeparator, false);
    CleanTextIsOneCollapse(text);
    CleanTextCanonical(text);
    CleanIsJoinedWords(CleanText(text));
    WordsStrip(c);
    WordsCollapse(text, false);
  }

  /** The message of the `ValueError` that `range` raises for a step of
      zero. */
  const RangeStepZero: string := "range() arg 3 must not be zero"

  /** The token chunks of `split_text_into_chunks` for a positive size `n`:
      the next `n` tokens at a time, the last chunk shorter when the count
      is not a multiple of `n`. */
  function Chunks(tokens: seq<int>, n: nat): (c: seq<seq<int>>)
    requires n > 0
    ensures c == [] <==> tokens == []
    decreases |tokens|
  {
    if tokens == [] then []
    else if |tokens| <= n then [tokens]
    else [tokens[..n]] + Chunks(tokens[n..], n)
  }

  /** The chunks laid end to end. */
  function Flatten(chunks: seq<seq<int>>): seq<int>
    decreases |chunks|
  {
    if chunks == [] then [] else chunks[0] + Flatten(chunks[1..])
  }

  /** The chunks concatenate back to the token sequence. */
  lemma {:induction false} ChunksFlatten(tokens: seq<int>, n: nat)
    requires n > 0
    ensures Flatten(Chunks(tokens, n)) == tokens
    decreases |tokens|
  {
    if |tokens| > n {
      var cs := Chunks(tokens, n);
      assert cs[1..] == Chunks(tokens[n..], n);
      ChunksFlatten(tokens[n..], n);
      assert tokens[..n] + tokens[n..] == tokens;
    } else if tokens != [] {
      assert Chunks(tokens, n)[1..] == [];
    }
  }

  /** Every chunk holds between one and `n` tokens, and all but the last
      hold exactly `n`. */
  lemma {:induction false} ChunksSizes(tokens: seq<int>, n: nat)
    requires n > 0
    ensures forall k :: 0 <= k < |Chunks(tokens, n)| ==> 1 <= |Chunks(tokens, n)[k]| <= n
    ensures forall k :: 0 <= k < |Chunks(tokens, n)| - 1 ==> |Chunks(tokens, n)[k]| == n
    decreases |tokens|
  {
    if |tokens| > n {
      var cs := Chunks(tokens, n);
      var rest := Chunks(tokens[n..], n);
      ChunksSizes(tokens[n..], n);
      assert forall k :: 1 <= k < |cs| ==> cs[k] == rest[k - 1];
    }
  }

  /** The chunks start at the positions `range(0, len(tokens), n)`
      produces: chunk `k` exists exactly when `k * n` is below the token
      count. */
  lemma {:induction false} ChunksStarts(tokens: seq<int>, n: nat, k: nat)
    requires n > 0
    ensures k < |Chunks(tokens, n)| <==> k * n < |tokens|
    decreases k
  {
    if k < |Chunks(tokens, n)| {
      ChunksAt(tokens, n, k);
    } else if k > 0 && |tokens| > n {
      ChunksStarts(tokens[n..], n, k - 1);
      assert (k - 1) * n + n == k * n;
    } else if k > 0 {
      MulAtLeast(k, n);
    }
  }

  lemma MulAtLeast(k: nat, n: nat)
    requires k >= 1
    ensures k * n >= n
  {
    assert k * n == (k - 1) * n + n;
  }

  /** Hence there are as many chunks as the token count divided by `n`,
      rounded up: none for no tokens. */
  lemma ChunksCount(tokens: seq<int>, n: nat)
    requires n > 0
    ensures |Chunks(tokens, n)| == (|tokens| + n - 1) / n
  {
    var c := |Chunks(tokens, n)|;
    ChunksStarts(tokens, n, c);
    if c > 0 {
      ChunksStarts(tokens, n, c - 1);
      assert (c - 1) * n == c * n - n;
    }
    DivUnique(|tokens| + n - 1, n, c, |tokens| + n - 1 - c * n);
  }

  /** Division by a positive number is determined by quotient and
      remainder. */
  lemma DivUnique(x: int, n: int, a: int, r: int)
    requires n > 0 && 0 <= r < n && x == a * n + r
    ensures x / n == a
  {
    var q := x / n;
    if q < a {
      assert (q + 1) * n == q * n + n;
      MulMonotone(q + 1, a, n);
    } else if q > a {
      assert (a + 1) * n == a * n + n;
      MulMonotone(a + 1, q, n);
    }
  }

  lemma MulMonotone(a: int, b: int, n: int)
    requires a <= b && n >= 0
    ensures a * n <= b * n
  {
    assert b * n - a * n == (b - a) * n;
  }

  /** Chunk `k` is the slice `tokens[k*n : k*n + n]` of the comprehension,
      with Python's clamping of the end to the length. */
  lemma {:induction false} ChunksAt(tokens: seq<int>, n: nat, k: nat)
    requires n > 0 && k < |Chunks(tokens, n)|
    ensures k * n < |tokens|
    ensures Chunks(tokens, n)[k] == tokens[k * n .. if k * n + n <= |tokens| then k * n + n else |tokens|]
    decreases |tokens|
  {
    if k > 0 {
      var rest := tokens[n..];
      assert Chunks(tokens, n)[k] == Chunks(rest, n)[k - 1];
      ChunksAt(rest, n, k - 1);
      assert (k - 1) * n + n == k * n;
      var e := if k * n + n <= |tokens| then k * n + n else |tokens|;
      assert rest[(k - 1) * n .. e - n] == tokens[k * n .. e];
    }
  }

  /** The chunk list of `split_text_into_chunks` for any `max_tokens`: a
      step of zero makes `range` raise, a negative step gives no start at
      all. */
  function SplitIntoChunks(tokens: seq<int>, maxTokens: int): (r: Result<seq<seq<int>>, string>)
    ensures maxTokens == 0 <==> r == Err(RangeStepZero)
    ensures maxTokens < 0 ==> r == Ok([])
    ensures maxTokens > 0 ==> r == Ok(Chunks(tokens, maxTokens))
  {
    if maxTokens == 0 then Err(RangeStepZero)
    else if maxTokens < 0 then Ok([])
    else Ok(Chunks(tokens, maxTokens))
  }

  /** The chunks decoded in order; the first chunk the tokenizer fails to
      decode ends the comprehension with its error. */
  function DecodedChunks(chunks: seq<seq<int>>, decode: seq<int> -> Result<string, string>): (r: Result<seq<string>, string>)
    ensures r.Ok? <==> forall i :: 0 <= i < |chunks| ==> decode(chunks[i]).Ok?
    ensures r.Ok? ==> |r.value| == |chunks| && forall i :: 0 <= i < |chunks| ==> r.value[i] == decode(chunks[i]).value
    decreases |chunks|
  {
    if chunks == [] then Ok([])
    else match decode(chunks[0])
      case Err(e) => Err(e)
      case Ok(first) =>
        match DecodedChunks(chunks[1..], decode)
        case Err(e) => Err(e)
        case Ok(rest) => Ok([first] + rest)
  }

  /** The error is that of the first chunk the tokenizer fails to decode. */
  lemma {:induction false} DecodedChunksFirstError(chunks: seq<seq<int>>, decode: seq<int> -> Result<string, string>, k: nat)
    requires k < |chunks| && decode(chunks[k]).Err?
    requires forall i :: 0 <= i < k ==> decode(chunks[i]).Ok?
    ensures DecodedChunks(chunks, decode) == Err(decode(chunks[k]).error)
    decreases k
  {
    if k > 0 {
      var rest := chunks[1..];
      assert rest[k - 1] == chunks[k];
      assert forall i :: 0 <= i < k - 1 ==> rest[i] == chunks[i + 1];
      DecodedChunksFirstError(rest, decode, k - 1);
    }
  }

  /** `split_text_into_chunks`: the tokenizer is loaded and encodes the
      text (`encode`, which fails when either step raises), the tokens are
      cut into chunks, and each chunk is decoded back to text (`decode`,
      which may raise as well). The first step that raises decides the
      error. */
  function SplitTextIntoChunks(text: string, maxTokens: int, encode: string -> Result<seq<int>, string>,
                               decode: seq<int> -> Result<string, string>): (r: Result<seq<string>, string>)
    ensures encode(text).Err? ==> r == Err(encode(text).error)
    ensures encode(text).Ok? && maxTokens == 0 ==> r == Err(RangeStepZero)
    ensures encode(text).Ok? && maxTokens != 0 ==>
      var chunks := SplitIntoChunks(encode(text).value, maxTokens).value;
      && (r.Ok? <==> forall i :: 0 <= i < |chunks| ==> decode(chunks[i]).Ok?)
      && (r.Ok? ==> |r.value| == |chunks| && forall i :: 0 <= i < |chunks| ==> r.value[i] == decode(chunks[i]).value)
  {
    match encode(text)
    case Err(e) => Err(e)
    case Ok(tokens) =>
      match SplitIntoChunks(tokens, maxTokens)
      case Err(e) => Err(e)
      case Ok(chunks) => DecodedChunks(chunks, decode)
  }

  /** The summaries of the chunks, taken in order; the first chunk the
      model fails on ends the comprehension with its error. */
  function SummaryParts(chunks: seq<string>, summarize: string -> Result<string, string>): (r: Result<seq<string>, string>)
    ensures r.Ok? ==> |r.value| == |chunks|
    decreases |chunks|
  {
    if chunks == [] then Ok([])
    else match summarize(chunks[0])
      case Err(e) => Err(e)
      case Ok(first) =>
        match SummaryParts(chunks[1..], summarize)
        case Err(e) => Err(e)
        case Ok(rest) => Ok([first] + rest)
  }

  /** The values `f` gives for each element, in order, for an `f` that
      succeeds on all of them: the model's summary of each chunk, or the
      tokenizer's text for each token chunk. */
  function OkValues<A>(xs: seq<A>, f: A -> Result<string, string>): (vs: seq<string>)
    requires forall i :: 0 <= i < |xs| ==> f(xs[i]).Ok?
    ensures |vs| == |xs|
    ensures forall i :: 0 <= i < |xs| ==> vs[i] == f(xs[i]).value
  {
    seq(|xs|, i requires 0 <= i < |xs| => f(xs[i]).value)
  }

  /** When the model succeeds on every chunk, the parts are its summaries,
      one per chunk and in chunk order. */
  lemma {:induction false} SummaryPartsAllOk(chunks: seq<string>, summarize: string -> Result<string, string>)
    requires forall i :: 0 <= i < |chunks| ==> summarize(chunks[i]).Ok?
    ensures SummaryParts(chunks, summarize) == Ok(OkValues(chunks, summarize))
    decreases |chunks|
  {
    if chunks != [] {
      var rest := chunks[1..];
      assert forall i :: 0 <= i < |rest| ==> rest[i] == chunks[i + 1];
      SummaryPartsAllOk(rest, summarize);
      var ss := OkValues(chunks, summarize);
      assert ss == [ss[0]] + OkValues(rest, summarize);
    }
  }

  /** The error is that of the first chunk the model fails on. */
  lemma {:induction false} SummaryPartsFirstError(chunks: seq<string>, summarize: string -> Result<string, string>, k: nat)
    requires k < |chunks| && summarize(chunks[k]).Err?
    requires forall i :: 0 <= i < k ==> summarize(chunks[i]).Ok?
    ensures SummaryParts(chunks, summarize) == Err(summarize(chunks[k]).error)
    decreases k
  {
    if k > 0 {
      var rest := chunks[1..];
      assert rest[k - 1] == chunks[k];
      assert forall i :: 0 <= i < k - 1 ==> rest[i] == chunks[i + 1];
      SummaryPartsFirstError(rest, summarize, k - 1);
    }
  }

  /** The token chunks of the cleaned transcript, `MaxTokens` tokens at a
      time. */
  function TokenChunks(transcript: string, encode: string -> Result<seq<int>, string>): seq<seq<int>>
    requires encode(CleanText(transcript)).Ok?
  {
    Chunks(encode(CleanText(transcript)).value, MaxTokens)
  }

  /** The tokenizer copes with the cleaned transcript: it loads and encodes
      it, and decodes every chunk. */
  predicate TokenizerSucceeds(transcript: string, encode: string -> Result<seq<int>, string>,
                              decode: seq<int> -> Result<string, string>) {
    && encode(CleanText(transcript)).Ok?
    && forall i :: 0 <= i < |TokenChunks(transcript, encode)| ==> decode(TokenChunks(transcript, encode)[i]).Ok?
  }

  /** The chunks `summarize_text` hands to the model when the tokenizer
      copes: each token chunk decoded. */
  function TranscriptChunks(transcript: string, encode: string -> Result<seq<int>, string>,
                            decode: seq<int> -> Result<string, string>): seq<string>
    requires TokenizerSucceeds(transcript, encode, decode)
  {
    OkValues(TokenChunks(transcript, encode), decode)
  }

  /** `summarize_text`: clean, chunk, summarise each chunk and join the
      summaries with single spaces, falling back to a fixed text when the
      join is empty; an exception becomes an error text. */
  function SummarizeText(transcript: string, encode: string -> Result<seq<int>, string>, decode: seq<int> -> Result<string, string>,
                         summarize: string -> Result<string, string>): (r: string)
    ensures r != []
  {
    match SplitTextIntoChunks(CleanText(transcript), MaxTokens, encode, decode)
    case Err(e) => SummaryErrorPrefix + e
    case Ok(chunks) =>
      match SummaryParts(chunks, summarize)
      case Err(e) => SummaryErrorPrefix + e
      case Ok(summaries) =>
        var result := Join(" ", summaries);
        if |result| > 0 then result else NothingToSummarize
  }

  /** With `MaxTokens` positive, chunking the cleaned transcript fails
      exactly when the tokenizer does, and otherwise gives the decoded
      token chunks. */
  lemma TranscriptChunksOk(transcript: string, encode: string -> Result<seq<int>, string>,
                           decode: seq<int> -> Result<string, string>)
    ensures SplitTextIntoChunks(CleanText(transcript), MaxTokens, encode, decode).Ok?
      <==> TokenizerSucceeds(transcript, encode, decode)
    ensures TokenizerSucceeds(transcript, encode, decode) ==>
      SplitTextIntoChunks(CleanText(transcript), MaxTokens, encode, decode) == Ok(TranscriptChunks(transcript, encode, decode))
  {
    var text := CleanText(transcript);
    if encode(text).Ok? {
      var tcs := TokenChunks(transcript, encode);
      assert SplitIntoChunks(encode(text).value, MaxTokens).value == tcs;
      var r := SplitTextIntoChunks(text, MaxTokens, encode, decode);
      if TokenizerSucceeds(transcript, encode, decode) {
        var cs := TranscriptChunks(transcript, encode, decode);
        assert forall i :: 0 <= i < |tcs| ==> decode(tcs[i]).Ok?;
        assert r.Ok?;
        assert |r.value| == |cs|;
        assert forall i :: 0 <= i < |cs| ==> r.value[i] == cs[i];
        assert r.value == cs;
      }
    }
  }

  /** When the tokenizer copes and the model summarises every chunk, the
      result is the summaries joined by single spaces, or the fallback text
      when that join is empty. */
  lemma SummarizeTextJoins(transcript: string, encode: string -> Result<seq<int>, string>,
                           decode: seq<int> -> Result<string, string>, summarize: string -> Result<string, string>)
    requires TokenizerSucceeds(transcript, encode, decode)
    requires var cs := TranscriptChunks(transcript, encode, decode);
      forall i :: 0 <= i < |cs| ==> summarize(cs[i]).Ok?
    ensures var cs := TranscriptChunks(transcript, encode, decode);
      var joined := Join(" ", OkValues(cs, summarize));
      SummarizeText(transcript, encode, decode, summarize) == if joined != [] then joined else NothingToSummarize
  {
    var cs := TranscriptChunks(transcript, encode, decode);
    TranscriptChunksOk(transcript, encode, decode);
    assert SplitTextIntoChunks(CleanText(transcript), MaxTokens, encode, decode) == Ok(cs);
    SummaryPartsAllOk(cs, summarize);
    var joined := Join(" ", OkValues(cs, summarize));
    assert SummarizeText(transcript, encode, decode, summarize) == if |joined| > 0 then joined else NothingToSummarize;
  }

  /** When the tokenizer copes but the model fails on a chunk, the result
      reports the error of the first chunk it fails on. */
  lemma SummarizeTextError(transcript: string, encode: string -> Result<seq<int>, string>,
                           decode: seq<int> -> Result<string, string>, summarize: string -> Result<string, string>, k: nat)
    requires TokenizerSucceeds(transcript, encode, decode)
    requires var cs := TranscriptChunks(transcript, encode, decode);
      k < |cs| && summarize(cs[k]).Err? && forall i :: 0 <= i < k ==> summarize(cs[i]).Ok?
    ensures SummarizeText(transcript, encode, decode, summarize)
      == SummaryErrorPrefix + summarize(TranscriptChunks(transcript, encode, decode)[k]).error
  {
    var cs := TranscriptChunks(transcript, encode, decode);
    TranscriptChunksOk(transcript, encode, decode);
    assert SplitTextIntoChunks(CleanText(transcript), MaxTokens, encode, decode) == Ok(cs);
    SummaryPartsFirstError(cs, summarize, k);
  }

  /** When loading the tokenizer or encoding the cleaned transcript raises,
      the result reports that error and the model is never asked. */
  lemma SummarizeTextEncodeError(transcript: string, encode: string -> Result<seq<int>, string>,
                                 decode: seq<int> -> Result<string, string>, summarize: string -> Result<string, string>)
    requires encode(CleanText(transcript)).Err?
    ensures SummarizeText(transcript, encode, decode, summarize)
      == SummaryErrorPrefix + encode(CleanText(transcript)).error
  {
  }

  /** When decoding a chunk raises, the result reports the error of the
      first chunk that fails to decode, and the model is never asked. */
  lemma SummarizeTextDecodeError(transcript: string, encode: string -> Result<seq<int>, string>,
                                 decode: seq<int> -> Result<string, string>, summarize: string -> Result<string, string>, k: nat)
    requires encode(CleanText(transcript)).Ok?
    requires var tcs := TokenChunks(transcript, encode);
      k < |tcs| && decode(tcs[k]).Err? && forall i :: 0 <= i < k ==> decode(tcs[i]).Ok?
    ensures SummarizeText(transcript, encode, decode, summarize)
      == SummaryErrorPrefix + decode(TokenChunks(transcript, encode)[k]).error
  {
    DecodedChunksFirstError(TokenChunks(transcript, encode), decode, k);
  }

  /** The fallback text appears exactly when there are no summaries or the
      only one is empty; two empty summaries already join to a space. */
  lemma SummaryJoinEmpty(summaries: seq<string>)
    ensures Join(" ", summaries) == [] <==> |summaries| == 0 || (|summaries| == 1 && summaries[0] == [])
    ensures Join(" ", ["", ""]) == " "
  {
    JoinEmptyIff(" ", summaries);
    JoinTwo("", "", " ");
  }

  /** The markers that make `generate_summaries` skip a transcript, looked
      for in its lower-cased text. */
  const DisabledMarker: string := "transcripts are disabled"
  const NotFoundMarker: string := "no transcript found"

  /** The Summary written for a skipped row. */
  const SkippedSummary: string := "No transcript found for this video."

  /** The guard of `generate_summaries`: a transcript is summarised when it
      is present, nonempty and mentions neither marker, whatever the case
      of its letters. */
  predicate IsSummarizable(transcript: Option<string>) {
    && transcript.Some?
    && transcript.value != []
    && !Contains(Lower(transcript.value), DisabledMarker)
    && !Contains(Lower(transcript.value), NotFoundMarker)
  }

  /** The Summary cell of a row with this Transcript cell. */
  function SummaryFor(transcript: Option<string>, encode: string -> Result<seq<int>, string>, decode: seq<int> -> Result<string, string>,
                      summarize: string -> Result<string, string>): (r: string)
    ensures r != []
    ensures !IsSummarizable(transcript) ==> r == SkippedSummary
  {
    if IsSummarizable(transcript) then SummarizeText(transcript.value, encode, decode, summarize)
    else SkippedSummary
  }

  /** The table after the summary stage: every row gets its Summary cell,
      all other cells and the row order unchanged. */
  function WithSummaries(rows: seq<Video>, encode: string -> Result<seq<int>, string>, decode: seq<int> -> Result<string, string>,
                         summarize: string -> Result<string, string>): (r: seq<Video>)
    ensures |r| == |rows|
  {
    seq(|rows|, i requires 0 <= i < |rows| => SummarizedRow(rows[i], encode, decode, summarize))
  }

  /** One row with its Summary cell filled. */
  function SummarizedRow(row: Video, encode: string -> Result<seq<int>, string>, decode: seq<int> -> Result<string, string>,
                         summarize: string -> Result<string, string>): (r: Video)
    ensures r.summary.Some? && r.summary.value != []
    ensures r.(summary := row.summary) == row
  {
    row.(summary := Some(SummaryFor(row.transcript, encode, decode, summarize)))
  }

  /** Every row ends with a nonempty Summary, and only the Summary column
      changed. */
  lemma WithSummariesFillsColumn(rows: seq<Video>, encode: string -> Result<seq<int>, string>, decode: seq<int> -> Result<string, string>,
                                 summarize: string -> Result<string, string>, i: nat)
    requires i < |rows|
    ensures var row := WithSummaries(rows, encode, decode, summarize)[i];
      row.summary.Some? && row.summary.value != [] && row.(summary := rows[i].summary) == rows[i]
  {
  }

  /** A row whose transcript is missing, empty or mentions a marker is not
      summarised and gets the skipped text; any other row gets the summary
      of its transcript. */
  lemma WithSummariesGuard(rows: seq<Video>, encode: string -> Result<seq<int>, string>, decode: seq<int> -> Result<string, string>,
                           summarize: string -> Result<string, string>, i: nat)
    requires i < |rows|
    ensures var s := WithSummaries(rows, encode, decode, summarize)[i].summary.value;
      if IsSummarizable(rows[i].transcript)
      then s == SummarizeText(rows[i].transcript.value, encode, decode, summarize)
      else s == SkippedSummary
  {
  }

  /** The body of the loop of `generate_summaries` for one row: the guard
      decides between the summary and the skipped text. */
  method SummarizeRow(row: Video, encode: string -> Result<seq<int>, string>, decode: seq<int> -> Result<string, string>,
                      summarize: string -> Result<string, string>) returns (r: Video)
    ensures r == SummarizedRow(row, encode, decode, summarize)
  {
    var summary: string;
    if IsSummarizable(row.transcript) {
      summary := SummarizeText(row.transcript.value, encode, decode, summarize);
    } else {
      summary := SkippedSummary;
    }
    r := row.(summary := Some(summary));
  }

  /** `generate_summaries`: the Summary column is first reset, then each
      row in turn gets the summary of its transcript or the skipped text. */
  method GenerateSummaries(df: VideoFrame, encode: string -> Result<seq<int>, string>, decode: seq<int> -> Result<string, string>,
                           summarize: string -> Result<string, string>)
    modifies df
    ensures df.rows == WithSummaries(old(df.rows), encode, decode, summarize)
  {
    ghost var original := df.rows;
    ResetSummaries(df);
    ghost var cleared := df.rows;
    var index := 0;
    while index < |df.rows|
      invariant |df.rows| == |cleared|
      invariant 0 <= index <= |df.rows|
      invariant forall i :: 0 <= i < index ==> df.rows[i] == SummarizedRow(cleared[i], encode, decode, summarize)
      invariant forall i :: index <= i < |df.rows| ==> df.rows[i] == cleared[i]
    {
      SummarizeAt(df, index, encode, decode, summarize);
      index := index + 1;
    }
    forall i | 0 <= i < |df.rows|
      ensures df.rows[i] == WithSummaries(original, encode, decode, summarize)[i]
    {
      SummarizedRowIgnoresSummary(original[i], encode, decode, summarize);
    }
  }

  /** The summary of row `index` filled in, every other row kept. */
  method SummarizeAt(df: VideoFrame, index: nat, encode: string -> Result<seq<int>, string>, decode: seq<int> -> Result<string, string>,
                     summarize: string -> Result<string, string>)
    requires index < |df.rows|
    modifies df
    ensures df.rows == old(df.rows)[index := SummarizedRow(old(df.rows)[index], encode, decode, summarize)]
  {
    var summarized := SummarizeRow(df.rows[index], encode, decode, summarize);
    df.rows := df.rows[index := summarized];
  }

  /** A row's old Summary cell plays no part in its new one. */
  lemma SummarizedRowIgnoresSummary(row: Video, encode: string -> Result<seq<int>, string>, decode: seq<int> -> Result<string, string>,
                                    summarize: string -> Result<string, string>)
    ensures SummarizedRow(row.(summary := None), encode, decode, summarize) == SummarizedRow(row, encode, decode, summarize)
  {
  }

  /** `videos_df['Summary'] = None`: the column is emptied, all else kept. */
  method ResetSummaries(df: VideoFrame)
    modifies df
    ensures |df.rows| == |old(df.rows)|
    ensures forall i :: 0 <= i < |df.rows| ==> df.rows[i] == old(df.rows)[i].(summary := None)
  {
    var rows := df.rows;
    df.rows := seq(|rows|, i requires 0 <= i < |rows| => rows[i].(summary := None));
  }

  predicate NoCapitals(t: string) {
    forall k :: 0 <= k < |t| ==> !('A' <= t[k] <= 'Z')
  }

  /** A text without capital letters is its own lower-case form. */
  lemma LowerOfLower(t: string)
    requires NoCapitals(t)
    ensures Lower(t) == t
  {
  }

  /** Lower-casing a capitalised phrase changes only its first letter. */
  lemma LowerCapitalised(c: char, a: string, b: string)
    requires NoCapitals(a) && NoCapitals(b)
    ensures Lower([c] + a + b) == [LowerChar(c)] + a + b
  {
    LowerConcat([c] + a, b);
    LowerConcat([c], a);
    LowerOfLower(a);
    LowerOfLower(b);
  }

  lemma LowerConcat(a: string, b: string)
    ensures Lower(a + b) == Lower(a) + Lower(b)
  {
  }

  lemma LowerPrefix(t: string, n: nat)
    requires n <= |t|
    ensures Lower(t)[..n] == Lower(t[..n])
  {
  }

  /** A text contains each of its prefixes. */
  lemma ContainsPrefix(s: string, pat: string)
    requires |pat| <= |s| && s[..|pat|] == pat
    ensures Contains(s, pat)
  {
    assert s[0..] == s;
  }

  /** `pat` does not occur in the lower-cased `t` when its first two
      characters never appear together, lower-cased, at a position of `t`
      where it would fit. */
  lemma NotContainsLower(t: string, pat: string)
    requires |pat| >= 2
    requires forall i :: 0 <= i && i + |pat| <= |t| ==> LowerChar(t[i]) != pat[0] || LowerChar(t[i + 1]) != pat[1]
    ensures !Contains(Lower(t), pat)
  {
    var s := Lower(t);
    forall i | 0 <= i <= |s|
      ensures !StartsWith(s[i..], pat)
    {
      if i + |pat| <= |s| {
        assert s[i..][0] == s[i] && s[i..][1] == s[i + 1];
      }
    }
  }

  /** The text written for a video whose transcripts are disabled is
      skipped. */
  lemma DisabledTextSkipped()
    ensures !IsSummarizable(Some(DisabledText))
  {
    DisabledTextHead();
    assert NoCapitals("ranscripts") && NoCapitals(" are disabled");
    assert [LowerChar('T')] + "ranscripts" + " are disabled" == DisabledMarker;
    SkippedWhenCapitalisedMarker(DisabledText, 'T', "ranscripts", " are disabled", DisabledMarker);
  }

  lemma DisabledTextHead()
    ensures DisabledText[..24] == ['T'] + "ranscripts" + " are disabled"
  {
    assert DisabledText[..24] == "Transcripts are disabled";
  }

  /** The text written for a video without a transcript is skipped. */
  lemma NotFoundTextSkipped()
    ensures !IsSummarizable(Some(NotFoundText))
  {
    NotFoundTextHead();
    assert NoCapitals("o transcript") && NoCapitals(" found");
    assert [LowerChar('N')] + "o transcript" + " found" == NotFoundMarker;
    SkippedWhenCapitalisedMarker(NotFoundText, 'N', "o transcript", " found", NotFoundMarker);
  }

  lemma NotFoundTextHead()
    ensures NotFoundText[..19] == ['N'] + "o transcript" + " found"
  {
    assert NotFoundText[..19] == "No transcript found";
  }

  /** A text that begins with a marker, capitalised, is skipped. */
  lemma SkippedWhenCapitalisedMarker(t: string, c: char, a: string, b: string, marker: string)
    requires NoCapitals(a) && NoCapitals(b) && marker == [LowerChar(c)] + a + b
    requires |marker| <= |t| && t[..|marker|] == [c] + a + b
    requires marker == DisabledMarker || marker == NotFoundMarker
    ensures !IsSummarizable(Some(t))
  {
    LowerPrefix(t, |marker|);
    LowerCapitalised(c, a, b);
    ContainsPrefix(Lower(t), marker);
  }

  /** The text written for a link without a video id mentions neither
      marker, so it is handed to the model like a transcript. */
  lemma InvalidUrlSummarised()
    ensures IsSummarizable(Some(InvalidUrl))
  {
    NotContainsLower(InvalidUrl, DisabledMarker);
    NotContainsLower(InvalidUrl, NotFoundMarker);
  }

  /** So is the text written when the transcript service fails otherwise:
      neither marker's first letter appears early enough in it. */
  lemma FetchErrorTextSummarised()
    ensures IsSummarizable(Some(FetchErrorText))
  {
    FetchErrorNoDisabledMarker();
    FetchErrorNoNotFoundMarker();
  }

  lemma FetchErrorNoDisabledMarker()
    ensures !Contains(Lower(FetchErrorText), DisabledMarker)
  {
    NotContainsLowerFirst(FetchErrorText, DisabledMarker);
  }

  lemma FetchErrorNoNotFoundMarker()
    ensures !Contains(Lower(FetchErrorText), NotFoundMarker)
  {
    NotContainsLowerFirst(FetchErrorText, NotFoundMarker);
  }

  /** `pat` does not occur in the lower-cased `t` when its first character
      never appears, lower-cased, at a position of `t` where it would
      fit. */
  lemma NotContainsLowerFirst(t: string, pat: string)
    requires |pat| >= 1
    requires forall i :: 0 <= i && i + |pat| <= |t| ==> LowerChar(t[i]) != pat[0]
    ensures !Contains(Lower(t), pat)
  {
    var s := Lower(t);
    forall i | 0 <= i <= |s|
      ensures !StartsWith(s[i..], pat)
    {
      if i + |pat| <= |s| {
        assert s[i..][0] == s[i];
      }
    }
  }

  /** After both stages, a video whose transcripts are disabled or missing
      has the skipped text as its summary. */
  lemma UnavailableTranscriptSkipped(rows: seq<Video>, fetch: string -> FetchOutcome,
                                     encode: string -> Result<seq<int>, string>, decode: seq<int> -> Result<string, string>,
                                     summarize: string -> Result<string, string>, i: nat)
    requires i < |rows| && ExtractVideoId(rows[i].link).Some?
    requires fetch(ExtractVideoId(rows[i].link).value).TranscriptsDisabled?
      || fetch(ExtractVideoId(rows[i].link).value).NoTranscriptFound?
    ensures WithSummaries(WithTranscripts(rows, fetch), encode, decode, summarize)[i].summary == Some(SkippedSummary)
  {
    DisabledTextSkipped();
    NotFoundTextSkipped();
  }

  /** After both stages, a video whose link carries no id has as its
      summary the model's summary of the text "Invalid YouTube URL.". */
  lemma InvalidLinkSummarised(rows: seq<Video>, fetch: string -> FetchOutcome,
                              encode: string -> Result<seq<int>, string>, decode: seq<int> -> Result<string, string>,
                              summarize: string -> Result<string, string>, i: nat)
    requires i < |rows| && ExtractVideoId(rows[i].link).None?
    ensures WithSummaries(WithTranscripts(rows, fetch), encode, decode, summarize)[i].summary
      == Some(SummarizeText(InvalidUrl, encode, decode, summarize))
  {
    InvalidUrlSummarised();
  }
}
