/**
 * Dense passage retrieval over the videos table: each transcript becomes
 * an embedding vector (the all-zero vector for the texts that record a
 * missing transcript), the vectors are scaled to unit length and stored in
 * a flat inner-product index, and a query returns the `top_k` rows whose
 * vectors score highest against the query's vector.
 *
 * The two encoders are parameters (`string -> seq<real>`), and so is the
 * reciprocal square root used by the L2 normalisation; vector entries are
 * exact reals rather than `float32`.
 */
module DPR {
  import opened Wrappers
  import opened Text
  import opened Frame
  import opened Transcript

  // ---------------------------------------------------------------------
  // Vectors
  // ---------------------------------------------------------------------

  /** The all-zero vector of length `n` (`np.zeros(n)`). */
  function Zeros(n: nat): (z: seq<real>)
    ensures |z| == n && forall i :: 0 <= i < n ==> z[i] == 0.0
  {
    seq(n, i => 0.0)
  }

  predicate IsZero(v: seq<real>) {
    forall i :: 0 <= i < |v| ==> v[i] == 0.0
  }

  /** The squared L2 norm. */
  function NormSq(v: seq<real>): real
    decreases |v|
  {
    if v == [] then 0.0 else v[0] * v[0] + NormSq(v[1..])
  }

  /** The inner product of two vectors of the same length. */
  function InnerProduct(u: seq<real>, v: seq<real>): real
    requires |u| == |v|
    decreases |u|
  {
    if u == [] then 0.0 else u[0] * v[0] + InnerProduct(u[1..], v[1..])
  }

  /** Every entry multiplied by `c`. */
  function Scale(c: real, v: seq<real>): (r: seq<real>)
    ensures |r| == |v|
  {
    seq(|v|, i requires 0 <= i < |v| => c * v[i])
  }

  /** `faiss.normalize_L2` on one row: a row of positive norm is divided by
      its norm, i.e. multiplied by `rsqrt` of its squared norm; a row of
      norm zero is left as it is. */
  function Normalized(v: seq<real>, rsqrt: real -> real): (r: seq<real>)
    ensures |r| == |v|
  {
    var s := NormSq(v);
    if s > 0.0 then Scale(rsqrt(s), v) else v
  }

  /** `normalize_L2` on every row of a matrix. */
  function NormalizedRows(rows: seq<seq<real>>, rsqrt: real -> real): (r: seq<seq<real>>)
    ensures |r| == |rows|
  {
    seq(|rows|, i requires 0 <= i < |rows| => Normalized(rows[i], rsqrt))
  }

  lemma {:induction false} NormSqNonNegative(v: seq<real>)
    ensures NormSq(v) >= 0.0
    decreases |v|
  {
    if v != [] {
      NormSqNonNegative(v[1..]);
      SquareNonNegative(v[0]);
    }
  }

  lemma SquareNonNegative(x: real)
    ensures x * x >= 0.0
  {
    if x < 0.0 {
      assert x * x == (-x) * (-x);
    }
  }

  /** Scaling a vector by `c` scales its squared norm by `c * c`. */
  lemma {:induction false} NormSqScale(c: real, v: seq<real>)
    ensures NormSq(Scale(c, v)) == c * c * NormSq(v)
    decreases |v|
  {
    if v != [] {
      var w := Scale(c, v);
      var t := Scale(c, v[1..]);
      assert forall i :: 0 <= i < |t| ==> w[1..][i] == t[i];
      assert w[1..] == t;
      NormSqScale(c, v[1..]);
      assert w[0] == c * v[0];
      assert NormSq(w) == w[0] * w[0] + NormSq(t);
      SquareOfProduct(c, v[0]);
      Distribute(c * c, v[0] * v[0], NormSq(v[1..]));
    }
  }

  lemma Distribute(f: real, x: real, y: real)
    ensures f * x + f * y == f * (x + y)
  {
  }

  lemma SquareOfProduct(c: real, x: real)
    ensures (c * x) * (c * x) == c * c * (x * x)
  {
  }

  /** The zero vector has norm zero. */
  lemma {:induction false} NormSqZero(v: seq<real>)
    requires IsZero(v)
    ensures NormSq(v) == 0.0
    decreases |v|
  {
    if v != [] {
      NormSqZero(v[1..]);
    }
  }

  /** The zero vector scores zero against every vector. */
  lemma {:induction false} InnerProductZero(q: seq<real>, v: seq<real>)
    requires |q| == |v| && IsZero(v)
    ensures InnerProduct(q, v) == 0.0
    decreases |v|
  {
    if v != [] {
      InnerProductZero(q[1..], v[1..]);
    }
  }

  /** A row of positive norm comes out with norm one, provided `rsqrt` is
      the reciprocal square root at its squared norm. */
  lemma NormalizedIsUnit(v: seq<real>, rsqrt: real -> real)
    requires NormSq(v) > 0.0
    requires rsqrt(NormSq(v)) * rsqrt(NormSq(v)) * NormSq(v) == 1.0
    ensures NormSq(Normalized(v, rsqrt)) == 1.0
  {
    NormSqScale(rsqrt(NormSq(v)), v);
  }

  /** A zero row stays the zero row: normalising never divides by zero. */
  lemma NormalizedZero(v: seq<real>, rsqrt: real -> real)
    requires IsZero(v)
    ensures Normalized(v, rsqrt) == v
  {
    NormSqZero(v);
  }

  /** Normalisation only ever scales a row by a factor. */
  lemma NormalizedIsScaled(v: seq<real>, rsqrt: real -> real)
    ensures Normalized(v, rsqrt) == v || Normalized(v, rsqrt) == Scale(rsqrt(NormSq(v)), v)
  {
  }

  // ---------------------------------------------------------------------
  // Encoding the transcripts
  // ---------------------------------------------------------------------

  /** The prefixes that mark a transcript as unusable. */
  const InvalidPrefixes: seq<string> := ["No transcript", "Error", "Invalid"]

  /** The guard of `encode_passage`. */
  predicate IsInvalidPassage(passage: string) {
    exists k :: 0 <= k < |InvalidPrefixes| && StartsWith(passage, InvalidPrefixes[k])
  }

  /** The embedding of one passage: the zero vector of the encoder's hidden
      size for an unusable one, the context encoder's output otherwise. */
  function PassageEmbedding(passage: string, hiddenSize: nat, encoder: string -> seq<real>): (e: seq<real>)
    ensures IsInvalidPassage(passage) ==> |e| == hiddenSize && IsZero(e)
    ensures !IsInvalidPassage(passage) ==> e == encoder(passage)
  {
    if IsInvalidPassage(passage) then Zeros(hiddenSize) else encoder(passage)
  }

  /** How `encode_passage` can fail: a row without a transcript (calling
      `startswith` on `None`), no rows at all, or rows of different widths
      (`np.vstack` refuses both). */
  datatype EncodeError = MissingTranscript(row: nat) | EmptyCorpus | RaggedEmbeddings

  /** The list of embeddings the loop builds, failing at the first row
      without a transcript. */
  function EmbeddingList(rows: seq<Video>, hiddenSize: nat, encoder: string -> seq<real>): (r: Result<seq<seq<real>>, EncodeError>)
    ensures r.Ok? ==> |r.value| == |rows|
    ensures r.Err? ==> r.error.MissingTranscript? && r.error.row < |rows| && rows[r.error.row].transcript.None?
    decreases |rows|
  {
    if rows == [] then Ok([])
    else
      var n := |rows| - 1;
      match EmbeddingList(rows[..n], hiddenSize, encoder)
      case Err(e) => Err(e)
      case Ok(es) =>
        match rows[n].transcript
        case None => Err(MissingTranscript(n))
        case Some(p) => Ok(es + [PassageEmbedding(p, hiddenSize, encoder)])
  }

  /** After the first row without a transcript the later rows do not
      matter. */
  lemma {:induction false} EmbeddingListErrorSticks(rows: seq<Video>, hiddenSize: nat, encoder: string -> seq<real>, j: nat)
    requires j <= |rows|
    requires EmbeddingList(rows[..j], hiddenSize, encoder).Err?
    ensures EmbeddingList(rows, hiddenSize, encoder) == EmbeddingList(rows[..j], hiddenSize, encoder)
    decreases |rows|
  {
    if j < |rows| {
      var init := rows[..|rows| - 1];
      assert init[..j] == rows[..j];
      EmbeddingListErrorSticks(init, hiddenSize, encoder, j);
    } else {
      assert rows[..j] == rows;
    }
  }

  /** All rows have the width of the first. */
  predicate SameWidth(es: seq<seq<real>>) {
    forall i :: 0 <= i < |es| ==> |es[i]| == |es[0]|
  }

  /** `np.vstack` of the list. */
  function Stack(es: seq<seq<real>>): Result<seq<seq<real>>, EncodeError> {
    if es == [] then Err(EmptyCorpus)
    else if !SameWidth(es) then Err(RaggedEmbeddings)
    else Ok(es)
  }

  /** What `encode_passage` returns for a table. */
  function EncodedCorpus(rows: seq<Video>, hiddenSize: nat, encoder: string -> seq<real>): (r: Result<seq<seq<real>>, EncodeError>)
    ensures r.Ok? ==> |r.value| == |rows| > 0 && SameWidth(r.value)
    ensures rows == [] ==> r == Err(EmptyCorpus)
  {
    match EmbeddingList(rows, hiddenSize, encoder)
    case Err(e) => Err(e)
    case Ok(es) => Stack(es)
  }

  /** `encode_passage`: one embedding per transcript, in row order, stacked
      into a matrix. */
  method EncodePassage(df: VideoFrame, hiddenSize: nat, encoder: string -> seq<real>)
    returns (r: Result<seq<seq<real>>, EncodeError>)
    ensures r == EncodedCorpus(df.rows, hiddenSize, encoder)
  {
    var passages := df.rows;
    var embeddings: seq<seq<real>> := [];
    var i := 0;
    while i < |passages|
      invariant 0 <= i <= |passages|
      invariant EmbeddingList(passages[..i], hiddenSize, encoder) == Ok(embeddings)
    {
      assert passages[..i + 1][..i] == passages[..i];
      var passage := passages[i].transcript;
      if passage.None? {
        EmbeddingListErrorSticks(passages, hiddenSize, encoder, i + 1);
        return Err(MissingTranscript(i));
      }
      var embedding: seq<real>;
      if IsInvalidPassage(passage.value) {
        embedding := Zeros(hiddenSize);
      } else {
        embedding := encoder(passage.value);
      }
      embeddings := embeddings + [embedding];
      i := i + 1;
    }
    assert passages[..i] == passages;
    return Stack(embeddings);
  }

  /** The list has an embedding for every row exactly when every row has a
      transcript; the embedding of row `i` is that of its transcript. */
  lemma {:induction false} EmbeddingListSpec(rows: seq<Video>, hiddenSize: nat, encoder: string -> seq<real>)
    ensures EmbeddingList(rows, hiddenSize, encoder).Ok? <==> forall i :: 0 <= i < |rows| ==> rows[i].transcript.Some?
    ensures EmbeddingList(rows, hiddenSize, encoder).Ok? ==>
      var es := EmbeddingList(rows, hiddenSize, encoder).value;
      |es| == |rows| && forall i :: 0 <= i < |rows| ==> es[i] == PassageEmbedding(rows[i].transcript.value, hiddenSize, encoder)
    decreases |rows|
  {
    if rows != [] {
      var n := |rows| - 1;
      var init := rows[..n];
      assert forall i :: 0 <= i < n ==> init[i] == rows[i];
      EmbeddingListSpec(init, hiddenSize, encoder);
    }
  }

  /** The error names the first row without a transcript. */
  lemma EmbeddingListFirstMissing(rows: seq<Video>, hiddenSize: nat, encoder: string -> seq<real>, j: nat)
    requires j < |rows| && rows[j].transcript.None?
    requires forall i :: 0 <= i < j ==> rows[i].transcript.Some?
    ensures EmbeddingList(rows, hiddenSize, encoder) == Err(MissingTranscript(j))
  {
    var prefix := rows[..j + 1];
    assert prefix[..j] == rows[..j];
    assert forall i :: 0 <= i < j ==> rows[..j][i] == rows[i];
    EmbeddingListSpec(rows[..j], hiddenSize, encoder);
    EmbeddingListErrorSticks(rows, hiddenSize, encoder, j + 1);
  }

  /** `encode_passage` succeeds exactly when every row has a transcript,
      there is at least one row and all embeddings have one width; then
      there is one embedding per row, in row order. */
  lemma EncodedCorpusSpec(rows: seq<Video>, hiddenSize: nat, encoder: string -> seq<real>)
    ensures EncodedCorpus(rows, hiddenSize, encoder).Ok? <==>
      && (forall i :: 0 <= i < |rows| ==> rows[i].transcript.Some?)
      && rows != []
      && (forall i :: 0 <= i < |rows| ==>
            |PassageEmbedding(rows[i].transcript.value, hiddenSize, encoder)|
            == |PassageEmbedding(rows[0].transcript.value, hiddenSize, encoder)|)
    ensures EncodedCorpus(rows, hiddenSize, encoder).Ok? ==>
      var es := EncodedCorpus(rows, hiddenSize, encoder).value;
      |es| == |rows| && forall i :: 0 <= i < |rows| ==> es[i] == PassageEmbedding(rows[i].transcript.value, hiddenSize, encoder)
  {
    EmbeddingListSpec(rows, hiddenSize, encoder);
  }

  /** An unusable transcript gets the zero vector of the hidden size. */
  lemma InvalidPassageGetsZeros(rows: seq<Video>, hiddenSize: nat, encoder: string -> seq<real>, i: nat)
    requires EncodedCorpus(rows, hiddenSize, encoder).Ok?
    requires i < |rows| && rows[i].transcript.Some? && IsInvalidPassage(rows[i].transcript.value)
    ensures |EncodedCorpus(rows, hiddenSize, encoder).value| == |rows|
    ensures EncodedCorpus(rows, hiddenSize, encoder).value[i] == Zeros(hiddenSize)
  {
    EncodedCorpusSpec(rows, hiddenSize, encoder);
  }

  /** The encoder is not consulted for an unusable transcript: encoders
      that agree on the usable ones give the same result. */
  lemma {:induction false} EncoderOnlyForValid(rows: seq<Video>, hiddenSize: nat, e1: string -> seq<real>, e2: string -> seq<real>)
    requires forall i :: 0 <= i < |rows| && rows[i].transcript.Some? && !IsInvalidPassage(rows[i].transcript.value) ==>
      e1(rows[i].transcript.value) == e2(rows[i].transcript.value)
    ensures EncodedCorpus(rows, hiddenSize, e1) == EncodedCorpus(rows, hiddenSize, e2)
  {
    EmbeddingListSameEncoders(rows, hiddenSize, e1, e2);
  }

  lemma {:induction false} EmbeddingListSameEncoders(rows: seq<Video>, hiddenSize: nat, e1: string -> seq<real>, e2: string -> seq<real>)
    requires forall i :: 0 <= i < |rows| && rows[i].transcript.Some? && !IsInvalidPassage(rows[i].transcript.value) ==>
      e1(rows[i].transcript.value) == e2(rows[i].transcript.value)
    ensures EmbeddingList(rows, hiddenSize, e1) == EmbeddingList(rows, hiddenSize, e2)
    decreases |rows|
  {
    if rows != [] {
      var n := |rows| - 1;
      var init := rows[..n];
      assert forall i :: 0 <= i < n ==> init[i] == rows[i];
      EmbeddingListSameEncoders(init, hiddenSize, e1, e2);
    }
  }

  /** `s` starts with `p` when their first characters agree one by one. */
  lemma StartsWithChars(s: string, p: string)
    requires |p| <= |s| && forall k :: 0 <= k < |p| ==> s[k] == p[k]
    ensures StartsWith(s, p)
  {
    assert s[..|p|] == p;
  }

  /** Of the texts the transcript stage writes in place of a transcript,
      the ones for a missing transcript, a failed fetch and a link without
      an id are unusable; the one for disabled transcripts is not, so that
      text is encoded like a transcript. */
  lemma SentinelClassification()
    ensures IsInvalidPassage(NotFoundText)
    ensures IsInvalidPassage(FetchErrorText)
    ensures IsInvalidPassage(InvalidUrl)
    ensures !IsInvalidPassage(DisabledText)
  {
    StartsWithChars(NotFoundText, InvalidPrefixes[0]);
    StartsWithChars(FetchErrorText, InvalidPrefixes[1]);
    StartsWithChars(InvalidUrl, InvalidPrefixes[2]);
    forall k | 0 <= k < |InvalidPrefixes|
      ensures !StartsWith(DisabledText, InvalidPrefixes[k])
    {
      assert DisabledText[0] != InvalidPrefixes[k][0];
    }
  }

  // ---------------------------------------------------------------------
  // Ranking
  // ---------------------------------------------------------------------

  /** Position `i` ranks before position `j`: a higher score, or the same
      score and an earlier position. */
  predicate Before(scores: seq<real>, i: nat, j: nat)
    requires i < |scores| && j < |scores|
  {
    scores[i] > scores[j] || (scores[i] == scores[j] && i < j)
  }

  lemma BeforeTransitive(scores: seq<real>, i: nat, j: nat, l: nat)
    requires i < |scores| && j < |scores| && l < |scores|
    requires Before(scores, i, j) && Before(scores, j, l)
    ensures Before(scores, i, l)
  {
  }

  /** Positions inside the scores, strictly in ranking order (so without
      repetition). */
  predicate Ranked(scores: seq<real>, top: seq<nat>) {
    && (forall a :: 0 <= a < |top| ==> top[a] < |scores|)
    && (forall a, b :: 0 <= a < b < |top| ==> Before(scores, top[a], top[b]))
  }

  /** Position `j` inserted into a ranked list at its place: before the
      first position it ranks before. */
  function Insert(scores: seq<real>, top: seq<nat>, j: nat): (r: seq<nat>)
    requires j < |scores| && forall a :: 0 <= a < |top| ==> top[a] < |scores|
    ensures |r| == |top| + 1
    ensures forall a :: 0 <= a < |r| ==> r[a] < |scores|
    decreases |top|
  {
    if top == [] || Before(scores, j, top[0]) then [j] + top
    else [top[0]] + Insert(scores, top[1..], j)
  }

  /** The first `k` entries, or all of them when there are fewer. */
  function Truncate(s: seq<nat>, k: nat): (r: seq<nat>)
    ensures |r| == if |s| <= k then |s| else k
    ensures forall a :: 0 <= a < |r| ==> r[a] == s[a]
  {
    if |s| <= k then s else s[..k]
  }

  /** The best `k` of the first `j` positions, in ranking order: the flat
      index scans the positions in order and keeps the `k` best so far. */
  function TopPositions(scores: seq<real>, k: nat, j: nat): (top: seq<nat>)
    requires j <= |scores|
    ensures forall a :: 0 <= a < |top| ==> top[a] < |scores|
    decreases j
  {
    if j == 0 then []
    else Truncate(Insert(scores, TopPositions(scores, k, j - 1), j - 1), k)
  }

  /** The positions a search for `k` results returns before padding. */
  function TopK(scores: seq<real>, k: nat): (top: seq<nat>)
    ensures forall a :: 0 <= a < |top| ==> top[a] < |scores|
  {
    TopPositions(scores, k, |scores|)
  }

  /** An inserted list holds the new position and the old ones. */
  lemma {:induction false} InsertElements(scores: seq<real>, top: seq<nat>, j: nat)
    requires j < |scores| && forall a :: 0 <= a < |top| ==> top[a] < |scores|
    ensures forall x :: x in Insert(scores, top, j) <==> x == j || x in top
    decreases |top|
  {
    if top != [] && !Before(scores, j, top[0]) {
      InsertElements(scores, top[1..], j);
      assert top == [top[0]] + top[1..];
    }
  }

  /** Inserting a position later than all listed ones keeps the list
      ranked. */
  lemma {:induction false} InsertRanked(scores: seq<real>, top: seq<nat>, j: nat)
    requires j < |scores| && Ranked(scores, top)
    requires forall a :: 0 <= a < |top| ==> top[a] < j
    ensures Ranked(scores, Insert(scores, top, j))
    decreases |top|
  {
    if top == [] {
    } else if Before(scores, j, top[0]) {
      var r := [j] + top;
      forall a, b | 0 <= a < b < |r|
        ensures Before(scores, r[a], r[b])
      {
        if a == 0 && b > 1 {
          BeforeTransitive(scores, j, top[0], top[b - 1]);
        }
      }
    } else {
      var rest := top[1..];
      assert forall a :: 0 <= a < |rest| ==> rest[a] == top[a + 1];
      InsertRanked(scores, rest, j);
      InsertElements(scores, rest, j);
      var ins := Insert(scores, rest, j);
      var r := [top[0]] + ins;
      forall a, b | 0 <= a < b < |r|
        ensures Before(scores, r[a], r[b])
      {
        if a == 0 {
          assert r[b] in ins;
          if r[b] != j {
            var c :| 0 <= c < |rest| && rest[c] == r[b];
            assert Before(scores, top[0], top[c + 1]);
          }
        } else {
          assert r[a] == ins[a - 1] && r[b] == ins[b - 1];
        }
      }
    }
  }

  /** Where an insertion puts the new position. */
  function InsertPos(scores: seq<real>, top: seq<nat>, j: nat): nat
    requires j < |scores| && forall a :: 0 <= a < |top| ==> top[a] < |scores|
    decreases |top|
  {
    if top == [] || Before(scores, j, top[0]) then 0
    else 1 + InsertPos(scores, top[1..], j)
  }

  /** The new position lands at `InsertPos`; the old ones keep their order
      around it. */
  lemma {:induction false} InsertShape(scores: seq<real>, top: seq<nat>, j: nat)
    requires j < |scores| && forall a :: 0 <= a < |top| ==> top[a] < |scores|
    ensures InsertPos(scores, top, j) <= |top|
    ensures Insert(scores, top, j) == top[..InsertPos(scores, top, j)] + [j] + top[InsertPos(scores, top, j)..]
    decreases |top|
  {
    if top != [] && !Before(scores, j, top[0]) {
      var rest := top[1..];
      InsertShape(scores, rest, j);
      var p := InsertPos(scores, rest, j);
      assert top[..p + 1] == [top[0]] + rest[..p];
      assert top[p + 1..] == rest[p..];
    }
  }

  /** What holds of the best `k` of the first `j` positions: there are
      `min(k, j)` of them, ranked; every other position among the first
      `j` is left out only when the list is full, and ranks after all
      listed ones. */
  predicate TopInvariant(scores: seq<real>, k: nat, j: nat, top: seq<nat>)
    requires j <= |scores|
  {
    && |top| == (if k <= j then k else j)
    && (forall a :: 0 <= a < |top| ==> top[a] < j)
    && Ranked(scores, top)
    && (forall i :: 0 <= i < j ==> i in top || (|top| == k && forall a :: 0 <= a < |top| ==> Before(scores, top[a], i)))
  }

  lemma {:induction false} TopPositionsInvariant(scores: seq<real>, k: nat, j: nat)
    requires j <= |scores|
    ensures TopInvariant(scores, k, j, TopPositions(scores, k, j))
    decreases j
  {
    if j > 0 {
      TopPositionsInvariant(scores, k, j - 1);
      TopStep(scores, k, j);
    }
  }

  /** One scan step keeps the invariant. */
  lemma TopStep(scores: seq<real>, k: nat, n: nat)
    requires 0 < n <= |scores| && TopInvariant(scores, k, n - 1, TopPositions(scores, k, n - 1))
    ensures TopInvariant(scores, k, n, TopPositions(scores, k, n))
  {
    var j := n - 1;
    var top := TopPositions(scores, k, j);
    var ins := Insert(scores, top, j);
    var next := Truncate(ins, k);
    assert TopPositions(scores, k, j + 1) == next;
    InsertRanked(scores, top, j);
    InsertElements(scores, top, j);
    forall a | 0 <= a < |next|
      ensures next[a] < j + 1
    {
      assert ins[a] in ins;
    }
    forall i | 0 <= i < j + 1 && i !in next
      ensures |next| == k && forall a :: 0 <= a < |next| ==> Before(scores, next[a], i)
    {
      if i in ins {
        CutOffRanksLast(scores, k, top, j, i);
      } else {
        LeftOutRanksLast(scores, k, top, j, i);
      }
    }
  }

  /** A position the truncation cuts off is the last of `k + 1` ranked
      ones. */
  lemma CutOffRanksLast(scores: seq<real>, k: nat, top: seq<nat>, j: nat, i: nat)
    requires j < |scores| && TopInvariant(scores, k, j, top)
    requires i in Insert(scores, top, j) && i !in Truncate(Insert(scores, top, j), k)
    ensures |Truncate(Insert(scores, top, j), k)| == k
    ensures forall a :: 0 <= a < k ==> Before(scores, Truncate(Insert(scores, top, j), k)[a], i)
  {
    var ins := Insert(scores, top, j);
    var next := Truncate(ins, k);
    InsertRanked(scores, top, j);
    var c :| 0 <= c < |ins| && ins[c] == i;
    assert c >= |next|;
  }

  /** A position already left out stays out, behind every listed one: the
      new position only enters ahead of some listed position. */
  lemma LeftOutRanksLast(scores: seq<real>, k: nat, top: seq<nat>, j: nat, i: nat)
    requires j < |scores| && TopInvariant(scores, k, j, top)
    requires i < j + 1 && i !in Insert(scores, top, j)
    ensures |Truncate(Insert(scores, top, j), k)| == k
    ensures forall a :: 0 <= a < k ==> Before(scores, Truncate(Insert(scores, top, j), k)[a], i)
  {
    var ins := Insert(scores, top, j);
    var next := Truncate(ins, k);
    InsertRanked(scores, top, j);
    InsertElements(scores, top, j);
    InsertShape(scores, top, j);
    var p := InsertPos(scores, top, j);
    assert i != j && i !in top && i < j;
    assert |top| == k;
    forall a | 0 <= a < k
      ensures Before(scores, next[a], i)
    {
      assert next[a] in ins;
      if next[a] == j {
        assert a == p && p < |top|;
        assert ins[p + 1] == top[p];
        BeforeTransitive(scores, j, top[p], i);
      } else {
        var c :| 0 <= c < |top| && top[c] == next[a];
      }
    }
  }

  /** The search result before padding: `min(k, n)` distinct positions in
      ranking order (scores never increase, ties by position), each
      ranking before every position left out. */
  lemma TopKSpec(scores: seq<real>, k: nat)
    ensures |TopK(scores, k)| == if k <= |scores| then k else |scores|
    ensures Ranked(scores, TopK(scores, k))
    ensures forall a, b :: 0 <= a < b < |TopK(scores, k)| ==>
      scores[TopK(scores, k)[a]] >= scores[TopK(scores, k)[b]] && TopK(scores, k)[a] != TopK(scores, k)[b]
    ensures forall i, a :: 0 <= i < |scores| && i !in TopK(scores, k) && 0 <= a < |TopK(scores, k)| ==>
      Before(scores, TopK(scores, k)[a], i)
  {
    TopPositionsInvariant(scores, k, |scores|);
  }

  /** When every score is the same (a corpus whose rows are all zero
      vectors scores 0 everywhere), the first `min(k, n)` positions are
      returned in position order. */
  lemma AllTiedRankByPosition(scores: seq<real>, k: nat)
    requires forall i :: 0 <= i < |scores| ==> scores[i] == scores[0]
    ensures forall a :: 0 <= a < |TopK(scores, k)| ==> TopK(scores, k)[a] == a
  {
    TopKSpec(scores, k);
    var top := TopK(scores, k);
    AllTiedPrefix(scores, top, |top|);
  }

  lemma {:induction false} AllTiedPrefix(scores: seq<real>, top: seq<nat>, m: nat)
    requires forall i :: 0 <= i < |scores| ==> scores[i] == scores[0]
    requires Ranked(scores, top) && m <= |top|
    requires forall i, a :: 0 <= i < |scores| && i !in top && 0 <= a < |top| ==> Before(scores, top[a], i)
    ensures forall a :: 0 <= a < m ==> top[a] == a
    decreases m
  {
    if m > 0 {
      var a := m - 1;
      AllTiedPrefix(scores, top, a);
      // ties rank by position, so the list increases strictly
      assert top[a] >= a by {
        if a > 0 {
          assert Before(scores, top[a - 1], top[a]);
        }
      }
      // position a is listed (left out, it would rank after top[a] >= a),
      // and not at a slot before a (those hold 0..a-1) nor after a (those
      // hold positions beyond top[a])
      assert top[a] <= a by {
        assert a in top;
        var c :| 0 <= c < |top| && top[c] == a;
        assert c == a;
      }
    }
  }

  // ---------------------------------------------------------------------
  // The index
  // ---------------------------------------------------------------------

  /** Every row has `width` entries. */
  predicate RowsOfWidth(rows: seq<seq<real>>, width: nat) {
    forall i :: 0 <= i < |rows| ==> |rows[i]| == width
  }

  /** A `float32` matrix the library updates in place. */
  class Matrix {
    const width: nat
    var rows: seq<seq<real>>

    predicate Valid()
      reads this
    {
      RowsOfWidth(rows, width)
    }

    constructor (width: nat, rows: seq<seq<real>>)
      requires RowsOfWidth(rows, width)
      ensures this.width == width && this.rows == rows && Valid()
    {
      this.width := width;
      this.rows := rows;
    }

    /** `faiss.normalize_L2`: each row of positive norm scaled to unit
        length, in place, row by row. */
    method NormalizeL2(rsqrt: real -> real)
      requires Valid()
      modifies this
      ensures rows == NormalizedRows(old(rows), rsqrt) && Valid()
    {
      var i := 0;
      while i < |rows|
        invariant 0 <= i <= |rows| && |rows| == |old(rows)|
        invariant forall r :: 0 <= r < i ==> rows[r] == Normalized(old(rows)[r], rsqrt)
        invariant forall r :: i <= r < |rows| ==> rows[r] == old(rows)[r]
      {
        rows := rows[i := Normalized(rows[i], rsqrt)];
        i := i + 1;
      }
    }
  }

  /** The library's value for the distance of an empty result slot (the
      lowest `float32`). */
  const PadScore: real := -340282346638528859811704183484516925440.0

  /** The two arrays a search returns for one query. */
  datatype Hits = Hits(distances: seq<real>, labels: seq<int>)

  datatype SearchError =
    | DimensionMismatch     // the query's width is not the index's
    | NonPositiveK          // fewer than one result requested
    | PositionOutOfRange    // `iloc` was given a position the table lacks

  /** The score of a query against every stored vector. */
  function ScoresOf(vectors: seq<seq<real>>, q: seq<real>): (scores: seq<real>)
    requires RowsOfWidth(vectors, |q|)
    ensures |scores| == |vectors|
  {
    seq(|vectors|, i requires 0 <= i < |vectors| => InnerProduct(q, vectors[i]))
  }

  /** `k` slots filled with the best positions in ranking order, the rest
      labelled -1 with distance `PadScore`. */
  function Padded(scores: seq<real>, k: nat): (h: Hits)
    ensures |h.distances| == k && |h.labels| == k
    ensures forall a :: 0 <= a < k ==> -1 <= h.labels[a] < |scores|
  {
    var top := TopK(scores, k);
    Hits(seq(k, a requires 0 <= a < k => if a < |top| then scores[top[a]] else PadScore),
         seq(k, a requires 0 <= a < k => if a < |top| then top[a] as int else -1))
  }

  /** What an exact inner-product search of the stored vectors answers. */
  function SearchResult(vectors: seq<seq<real>>, d: nat, q: seq<real>, k: int): (r: Result<Hits, SearchError>)
    requires RowsOfWidth(vectors, d)
    ensures r.Ok? ==> |r.value.distances| == k && |r.value.labels| == k
  {
    if |q| != d then Err(DimensionMismatch)
    else if k <= 0 then Err(NonPositiveK)
    else Ok(Padded(ScoresOf(vectors, q), k))
  }

  /** `faiss.IndexFlatIP`: the vectors added so far, searched exhaustively
      by inner product. */
  class FlatIndex {
    const d: nat
    var vectors: seq<seq<real>>

    predicate Valid()
      reads this
    {
      RowsOfWidth(vectors, d)
    }

    constructor (d: nat)
      ensures this.d == d && vectors == [] && Valid()
    {
      this.d := d;
      vectors := [];
    }

    /** `add`: the rows are appended after those already stored. */
    method Add(xs: seq<seq<real>>)
      requires Valid() && RowsOfWidth(xs, d)
      modifies this
      ensures vectors == old(vectors) + xs && Valid()
    {
      vectors := vectors + xs;
    }

    /** `search` for one query: every stored vector is scored and the best
        `k` so far are kept while scanning in position order. */
    method Search(q: seq<real>, k: int) returns (r: Result<Hits, SearchError>)
      requires Valid()
      ensures r == SearchResult(vectors, d, q, k)
    {
      if |q| != d {
        return Err(DimensionMismatch);
      }
      if k <= 0 {
        return Err(NonPositiveK);
      }
      var scores := ScoresOf(vectors, q);
      var top: seq<nat> := [];
      var j := 0;
      while j < |scores|
        invariant 0 <= j <= |scores|
        invariant top == TopPositions(scores, k, j)
      {
        top := Truncate(Insert(scores, top, j), k);
        j := j + 1;
      }
      var distances := seq(k, a requires 0 <= a < k => if a < |top| then scores[top[a]] else PadScore);
      var labels := seq(k, a requires 0 <= a < k => if a < |top| then top[a] as int else -1);
      return Ok(Hits(distances, labels));
    }
  }

  /** `faiss_vector_store`: an index of the embeddings' width, the
      embeddings normalised in place, then added in row order. */
  method FaissVectorStore(embeddings: Matrix, rsqrt: real -> real) returns (index: FlatIndex)
    requires embeddings.Valid()
    modifies embeddings
    ensures fresh(index) && index.Valid() && index.d == embeddings.width
    ensures embeddings.rows == NormalizedRows(old(embeddings.rows), rsqrt)
    ensures index.vectors == embeddings.rows
  {
    index := new FlatIndex(embeddings.width);
    embeddings.NormalizeL2(rsqrt);
    index.Add(embeddings.rows);
  }

  /** The padded answer for `k` slots: the first `min(k, n)` hold
      distinct positions with their scores, never increasing, each scoring
      at least as high as every position left out; the rest are padding. */
  lemma PaddedSpec(scores: seq<real>, k: nat)
    ensures var h := Padded(scores, k);
      var m := if k <= |scores| then k else |scores|;
      && |h.distances| == k && |h.labels| == k
      && (forall a :: 0 <= a < m ==> 0 <= h.labels[a] < |scores| && h.distances[a] == scores[h.labels[a]])
      && (forall a :: m <= a < k ==> h.labels[a] == -1 && h.distances[a] == PadScore)
  {
    TopKSpec(scores, k);
  }

  lemma PaddedRanked(scores: seq<real>, k: nat)
    ensures var h := Padded(scores, k);
      var m := if k <= |scores| then k else |scores|;
      forall a, b :: 0 <= a < b < m ==> h.labels[a] != h.labels[b] && h.distances[a] >= h.distances[b]
  {
    TopKSpec(scores, k);
  }

  lemma PaddedBest(scores: seq<real>, k: nat)
    ensures var h := Padded(scores, k);
      var m := if k <= |scores| then k else |scores|;
      forall i, a :: 0 <= i < |scores| && 0 <= a < m && (forall c :: 0 <= c < m ==> h.labels[c] != i) ==>
        h.distances[a] >= scores[i]
  {
    TopKSpec(scores, k);
    var top := TopK(scores, k);
    var h := Padded(scores, k);
    forall i, a | 0 <= i < |scores| && 0 <= a < |top| && (forall c :: 0 <= c < |top| ==> h.labels[c] != i)
      ensures h.distances[a] >= scores[i]
    {
      assert forall c :: 0 <= c < |top| ==> h.labels[c] == top[c] as int;
      assert i !in top;
    }
  }

  /** A search fails on a query of the wrong width, then on `k < 1`, and
      otherwise answers the padded best `k` by inner product. */
  lemma SearchResultSpec(vectors: seq<seq<real>>, d: nat, q: seq<real>, k: int)
    requires RowsOfWidth(vectors, d)
    ensures SearchResult(vectors, d, q, k) == Err(DimensionMismatch) <==> |q| != d
    ensures SearchResult(vectors, d, q, k) == Err(NonPositiveK) <==> |q| == d && k <= 0
    ensures SearchResult(vectors, d, q, k).Ok? ==>
      var h := SearchResult(vectors, d, q, k).value;
      var m := if k <= |vectors| then k else |vectors|;
      && |h.distances| == k && |h.labels| == k
      && (forall a :: 0 <= a < m ==> 0 <= h.labels[a] < |vectors| && h.distances[a] == InnerProduct(q, vectors[h.labels[a]]))
      && (forall a, b :: 0 <= a < b < m ==> h.labels[a] != h.labels[b] && h.distances[a] >= h.distances[b])
      && (forall i, a :: 0 <= i < |vectors| && 0 <= a < m && (forall c :: 0 <= c < m ==> h.labels[c] != i) ==>
            h.distances[a] >= InnerProduct(q, vectors[i]))
      && (forall a :: m <= a < k ==> h.labels[a] == -1 && h.distances[a] == PadScore)
  {
    if |q| == d && k > 0 {
      var scores := ScoresOf(vectors, q);
      assert forall i :: 0 <= i < |vectors| ==> scores[i] == InnerProduct(q, vectors[i]);
      PaddedSpec(scores, k);
      PaddedRanked(scores, k);
      PaddedBest(scores, k);
    }
  }

  // ---------------------------------------------------------------------
  // Retrieval
  // ---------------------------------------------------------------------

  /** A row of the result table: the video's row with the two columns
      'Similarity Score' and 'Query' added. */
  datatype ScoredVideo = ScoredVideo(video: Video, score: real, query: string)

  /** The row `iloc` selects for a position: a negative one counts from the
      end. */
  function ILocPosition(pos: int, n: nat): int {
    if pos >= 0 then pos else n + pos
  }

  /** `iloc` accepts the positions from `-n` to `n - 1`. */
  predicate ILocValid(pos: int, n: nat) {
    0 <= n + pos && pos < n
  }

  /** `video_df.iloc[labels].copy()` with the scores and the query added:
      every label has to be a position of the table (counting negative ones
      from the end), or nothing is returned. */
  function SelectRows(rows: seq<Video>, h: Hits, query: string): (r: Result<seq<ScoredVideo>, SearchError>)
    requires |h.distances| == |h.labels|
    ensures r.Ok? <==> forall a :: 0 <= a < |h.labels| ==> ILocValid(h.labels[a], |rows|)
    ensures r.Ok? ==> |r.value| == |h.labels|
  {
    if exists a :: 0 <= a < |h.labels| && !ILocValid(h.labels[a], |rows|) then Err(PositionOutOfRange)
    else Ok(seq(|h.labels|, a requires 0 <= a < |h.labels| =>
      ScoredVideo(rows[ILocPosition(h.labels[a], |rows|)], h.distances[a], query)))
  }

  /** What `search_relevant_passages` answers: the query's embedding,
      normalised, searched for `k` slots, joined back to the table. */
  function Retrieval(rows: seq<Video>, query: string, vectors: seq<seq<real>>, d: nat, k: int,
                     queryEncoder: string -> seq<real>, rsqrt: real -> real): (r: Result<seq<ScoredVideo>, SearchError>)
    requires RowsOfWidth(vectors, d)
    ensures r.Ok? ==> k > 0 && |r.value| == k
  {
    match SearchResult(vectors, d, Normalized(queryEncoder(query), rsqrt), k)
    case Err(e) => Err(e)
    case Ok(h) => SelectRows(rows, h, query)
  }

  /** `search_relevant_passages`: the query embedding (a one-row matrix)
      is normalised in place, the index searched, and the hit positions
      looked up in the table; neither the table nor the index changes. */
  method SearchRelevantPassages(df: VideoFrame, query: string, index: FlatIndex, topK: int,
                                queryEncoder: string -> seq<real>, rsqrt: real -> real)
    returns (r: Result<seq<ScoredVideo>, SearchError>)
    requires index.Valid()
    ensures r == Retrieval(df.rows, query, index.vectors, index.d, topK, queryEncoder, rsqrt)
  {
    var embedding := queryEncoder(query);
    var queryEmbedding := new Matrix(|embedding|, [embedding]);
    queryEmbedding.NormalizeL2(rsqrt);
    var result := index.Search(queryEmbedding.rows[0], topK);
    if result.Err? {
      return Err(result.error);
    }
    var hits := result.value;
    return SelectRows(df.rows, hits, query);
  }

  /** The join succeeds exactly when every label is a position of the
      table; then the result has one row per label, the labelled row with
      its distance and the query. */
  lemma SelectRowsSpec(rows: seq<Video>, h: Hits, query: string)
    requires |h.distances| == |h.labels|
    ensures SelectRows(rows, h, query).Ok? <==> forall a :: 0 <= a < |h.labels| ==> ILocValid(h.labels[a], |rows|)
    ensures SelectRows(rows, h, query).Ok? ==>
      var r := SelectRows(rows, h, query).value;
      && |r| == |h.labels|
      && forall a :: 0 <= a < |r| ==>
           0 <= ILocPosition(h.labels[a], |rows|) < |rows|
           && r[a] == ScoredVideo(rows[ILocPosition(h.labels[a], |rows|)], h.distances[a], query)
  {
  }

  /** For an index built from the table itself (one vector per row): the
      errors come from the query's width, from `k < 1`, and from an empty
      table (whose padding label -1 names no row); otherwise the result has
      `k` rows, the first `min(k, n)` the best rows by score, the rest
      copies of the table's last row scored `PadScore`. */
  lemma RetrievalSpec(rows: seq<Video>, query: string, vectors: seq<seq<real>>, d: nat, k: int,
                      queryEncoder: string -> seq<real>, rsqrt: real -> real)
    requires RowsOfWidth(vectors, d) && |vectors| == |rows|
    ensures var q := Normalized(queryEncoder(query), rsqrt);
      var r := Retrieval(rows, query, vectors, d, k, queryEncoder, rsqrt);
      && (r == Err(DimensionMismatch) <==> |q| != d)
      && (r == Err(NonPositiveK) <==> |q| == d && k <= 0)
      && (r == Err(PositionOutOfRange) <==> |q| == d && k > 0 && rows == [])
  {
    var q := Normalized(queryEncoder(query), rsqrt);
    SearchResultSpec(vectors, d, q, k);
    if |q| == d && k > 0 {
      var h := SearchResult(vectors, d, q, k).value;
      SelectRowsSpec(rows, h, query);
      if rows == [] {
        assert !ILocValid(h.labels[0], |rows|);
      }
    }
  }

  /** The rows of a successful retrieval: `k` of them; the first
      `min(k, n)` are the rows at the ranked positions `TopK` with their
      scores; every further row is the table's last row again, scored
      `PadScore`. */
  lemma RetrievalRows(rows: seq<Video>, query: string, vectors: seq<seq<real>>, d: nat, k: int,
                      queryEncoder: string -> seq<real>, rsqrt: real -> real)
    requires RowsOfWidth(vectors, d) && |vectors| == |rows|
    requires Retrieval(rows, query, vectors, d, k, queryEncoder, rsqrt).Ok?
    ensures var q := Normalized(queryEncoder(query), rsqrt);
      var r := Retrieval(rows, query, vectors, d, k, queryEncoder, rsqrt).value;
      && |q| == d && k > 0 && |r| == k && rows != []
      && var top := TopK(ScoresOf(vectors, q), k);
      && |top| == (if k <= |rows| then k else |rows|)
      && (forall a :: 0 <= a < |top| ==> r[a] == ScoredVideo(rows[top[a]], InnerProduct(q, vectors[top[a]]), query))
      && (forall a :: |top| <= a < k ==> r[a] == ScoredVideo(rows[|rows| - 1], PadScore, query))
  {
    var q := Normalized(queryEncoder(query), rsqrt);
    RetrievalSpec(rows, query, vectors, d, k, queryEncoder, rsqrt);
    var scores := ScoresOf(vectors, q);
    TopKSpec(scores, k);
    var h := SearchResult(vectors, d, q, k).value;
    SelectRowsSpec(rows, h, query);
  }

  /** The ranking of a successful retrieval: the first `min(k, n)` rows
      come from distinct positions, their scores never increase, and each
      scores at least as high as every position left out. */
  lemma RetrievalRanked(rows: seq<Video>, query: string, vectors: seq<seq<real>>, d: nat, k: int,
                        queryEncoder: string -> seq<real>, rsqrt: real -> real)
    requires RowsOfWidth(vectors, d) && |vectors| == |rows| && |Normalized(queryEncoder(query), rsqrt)| == d && k > 0
    ensures var q := Normalized(queryEncoder(query), rsqrt);
      var scores := ScoresOf(vectors, q);
      var top := TopK(scores, k);
      && (forall a, b :: 0 <= a < b < |top| ==> top[a] != top[b] && scores[top[a]] >= scores[top[b]])
      && (forall p, a :: 0 <= p < |rows| && p !in top && 0 <= a < |top| ==> scores[top[a]] >= InnerProduct(q, vectors[p]))
  {
    var q := Normalized(queryEncoder(query), rsqrt);
    TopKSpec(ScoresOf(vectors, q), k);
  }

  // ---------------------------------------------------------------------
  // Unusable transcripts in the index
  // ---------------------------------------------------------------------

  /** An unusable transcript's row stays the zero vector through the
      normalisation, so it scores exactly 0 against any query. */
  lemma InvalidPassageScoresZero(rows: seq<Video>, hiddenSize: nat, encoder: string -> seq<real>,
                                 rsqrt: real -> real, q: seq<real>, i: nat)
    requires EncodedCorpus(rows, hiddenSize, encoder).Ok? && |q| == hiddenSize
    requires i < |rows| && rows[i].transcript.Some? && IsInvalidPassage(rows[i].transcript.value)
    ensures |EncodedCorpus(rows, hiddenSize, encoder).value| == |rows|
    ensures NormalizedRows(EncodedCorpus(rows, hiddenSize, encoder).value, rsqrt)[i] == Zeros(hiddenSize)
    ensures InnerProduct(q, NormalizedRows(EncodedCorpus(rows, hiddenSize, encoder).value, rsqrt)[i]) == 0.0
  {
    InvalidPassageGetsZeros(rows, hiddenSize, encoder, i);
    NormalizedZero(Zeros(hiddenSize), rsqrt);
    InnerProductZero(q, Zeros(hiddenSize));
  }

  /** A table whose transcripts are all unusable: every row scores 0, and
      a search returns the first `min(k, n)` rows in table order. */
  lemma AllInvalidRankByPosition(rows: seq<Video>, hiddenSize: nat, encoder: string -> seq<real>,
                                 rsqrt: real -> real, q: seq<real>, k: nat)
    requires EncodedCorpus(rows, hiddenSize, encoder).Ok? && |q| == hiddenSize
    requires forall i :: 0 <= i < |rows| ==> rows[i].transcript.Some? && IsInvalidPassage(rows[i].transcript.value)
    ensures var vectors := NormalizedRows(EncodedCorpus(rows, hiddenSize, encoder).value, rsqrt);
      && RowsOfWidth(vectors, |q|)
      && (forall i :: 0 <= i < |vectors| ==> ScoresOf(vectors, q)[i] == 0.0)
      && (forall a :: 0 <= a < |TopK(ScoresOf(vectors, q), k)| ==> TopK(ScoresOf(vectors, q), k)[a] == a)
  {
    EncodedCorpusSpec(rows, hiddenSize, encoder);
    var es := EncodedCorpus(rows, hiddenSize, encoder).value;
    var vectors := NormalizedRows(es, rsqrt);
    forall i | 0 <= i < |rows|
      ensures vectors[i] == Zeros(hiddenSize) && InnerProduct(q, vectors[i]) == 0.0
    {
      InvalidPassageScoresZero(rows, hiddenSize, encoder, rsqrt, q, i);
    }
    var scores := ScoresOf(vectors, q);
    assert forall i :: 0 <= i < |scores| ==> scores[i] == 0.0;
    AllTiedRankByPosition(scores, k);
  }

  // ---------------------------------------------------------------------
  // More slots than rows
  // ---------------------------------------------------------------------

  /** As written, a one-row table searched for three rows answers that row
      three times: once with its score, then twice more as the padding
      label -1, which `iloc` reads as "the last row". */
  lemma PaddingRepeatsLastRow(v: Video, query: string, queryEncoder: string -> seq<real>, rsqrt: real -> real)
    requires queryEncoder(query) == [1.0] && rsqrt(1.0) == 1.0
    ensures Retrieval([v], query, [[1.0]], 1, 3, queryEncoder, rsqrt)
      == Ok([ScoredVideo(v, 1.0, query), ScoredVideo(v, PadScore, query), ScoredVideo(v, PadScore, query)])
  {
    var q := Normalized(queryEncoder(query), rsqrt);
    assert NormSq([1.0]) == 1.0 by {
      assert [1.0][1..] == [];
    }
    assert q == [1.0];
    assert InnerProduct(q, [1.0]) == 1.0 by {
      assert q[1..] == [];
    }
    assert RowsOfWidth([[1.0]], 1);
    RetrievalSpec([v], query, [[1.0]], 1, 3, queryEncoder, rsqrt);
    RetrievalRows([v], query, [[1.0]], 1, 3, queryEncoder, rsqrt);
    var r := Retrieval([v], query, [[1.0]], 1, 3, queryEncoder, rsqrt).value;
    var top := TopK(ScoresOf([[1.0]], q), 3);
    assert |top| == 1 && top[0] == 0;
    assert r[0] == ScoredVideo(v, 1.0, query);
    assert r == [r[0], r[1], r[2]];
  }

  /** With no more slots than rows the truncation to `k` never bites, so
      the best `n` and the best `k > n` of `n` positions are the same. */
  lemma {:induction false} TopPositionsClamp(scores: seq<real>, k: nat, j: nat)
    requires j <= |scores| < k
    ensures TopPositions(scores, k, j) == TopPositions(scores, |scores|, j)
    decreases j
  {
    if j > 0 {
      TopPositionsClamp(scores, k, j - 1);
      TopPositionsInvariant(scores, k, j - 1);
    }
  }

  /** Retrieval with the slots clamped to the number of rows, as the
      search evidently means: never more rows than the table has, and no
      padding; an empty table gives no rows. */
  function ClampedRetrieval(rows: seq<Video>, query: string, vectors: seq<seq<real>>, d: nat, k: int,
                            queryEncoder: string -> seq<real>, rsqrt: real -> real): (r: Result<seq<ScoredVideo>, SearchError>)
    requires RowsOfWidth(vectors, d)
    ensures r.Ok? ==> |r.value| <= |vectors|
  {
    var m := if k > |vectors| then |vectors| else k;
    if |Normalized(queryEncoder(query), rsqrt)| == d && k > 0 && m == 0 then Ok([])
    else Retrieval(rows, query, vectors, d, m, queryEncoder, rsqrt)
  }

  /** The clamped retrieval fails only on a query of the wrong width or on
      `k < 1`; otherwise it answers `min(k, n)` rows, the rows at the
      distinct ranked positions of the best `k` with their scores,
      i.e. the as-written answer with the padding cut off. */
  lemma ClampedRetrievalSpec(rows: seq<Video>, query: string, vectors: seq<seq<real>>, d: nat, k: int,
                             queryEncoder: string -> seq<real>, rsqrt: real -> real)
    requires RowsOfWidth(vectors, d) && |vectors| == |rows|
    ensures var q := Normalized(queryEncoder(query), rsqrt);
      var r := ClampedRetrieval(rows, query, vectors, d, k, queryEncoder, rsqrt);
      && (r == Err(DimensionMismatch) <==> |q| != d)
      && (r == Err(NonPositiveK) <==> |q| == d && k <= 0)
      && (r.Ok? <==> |q| == d && k > 0)
  {
    var q := Normalized(queryEncoder(query), rsqrt);
    var m := if k > |vectors| then |vectors| else k;
    RetrievalSpec(rows, query, vectors, d, m, queryEncoder, rsqrt);
  }

  lemma ClampedRetrievalRows(rows: seq<Video>, query: string, vectors: seq<seq<real>>, d: nat, k: int,
                             queryEncoder: string -> seq<real>, rsqrt: real -> real)
    requires RowsOfWidth(vectors, d) && |vectors| == |rows|
    requires |Normalized(queryEncoder(query), rsqrt)| == d && k > 0
    ensures var q := Normalized(queryEncoder(query), rsqrt);
      var r := ClampedRetrieval(rows, query, vectors, d, k, queryEncoder, rsqrt);
      var top := TopK(ScoresOf(vectors, q), k);
      && r.Ok?
      && |r.value| == |top| == (if k <= |rows| then k else |rows|)
      && (forall a, b :: 0 <= a < b < |top| ==> top[a] != top[b])
      && (forall a :: 0 <= a < |top| ==> r.value[a] == ScoredVideo(rows[top[a]], InnerProduct(q, vectors[top[a]]), query))
  {
    var q := Normalized(queryEncoder(query), rsqrt);
    var scores := ScoresOf(vectors, q);
    var m := if k > |vectors| then |vectors| else k;
    TopKSpec(scores, k);
    ClampedRetrievalSpec(rows, query, vectors, d, k, queryEncoder, rsqrt);
    if m > 0 {
      if k > |vectors| {
        TopPositionsClamp(scores, k, |scores|);
      }
      assert TopK(scores, m) == TopK(scores, k);
      RetrievalRows(rows, query, vectors, d, m, queryEncoder, rsqrt);
    }
  }
}
