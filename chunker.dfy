/** `split_news_script_into_chunks`: the body text of a news item is split into
    words, and the words into consecutive groups so that there are at most as
    many groups as whole subtitle windows fit into the audio. */
module Chunker {
  import opened Words

  /** The two ways the Python function raises instead of returning. */
  datatype ChunkError =
    | ZeroChunks      // `num_chunks == 0`: ZeroDivisionError in `len(words) // num_chunks`
    | ZeroChunkSize   // `chunk_size == 0`: ValueError from `range(0, len(words), 0)`

  datatype Result<T> = Ok(value: T) | Failure(error: ChunkError)

  /** `int(audio_duration // CHUNK_DURATION)`: how many whole windows of length
      `chunkDuration` fit into `duration`. */
  function NumChunks(duration: real, chunkDuration: real): (n: nat)
    requires duration >= 0.0 && chunkDuration > 0.0
    ensures n as real * chunkDuration <= duration < (n + 1) as real * chunkDuration
  {
    FloorBounds(duration, chunkDuration);
    (duration / chunkDuration).Floor
  }

  lemma FloorBounds(d: real, c: real)
    requires d >= 0.0 && c > 0.0
    ensures var n := (d / c).Floor;
      n >= 0 && n as real * c <= d < (n + 1) as real * c
  {
    var q := d / c;
    var n := q.Floor;
    var lo, hi := n as real, (n + 1) as real;
    assert d == q * c;
    assert lo <= q < hi;
    assert (q - lo) * c >= 0.0;
    assert (hi - q) * c > 0.0;
  }

  /** `len(words) // num_chunks + (len(words) % num_chunks > 0)`: the ceiling
      of `wordCount / numChunks`. */
  function ChunkSize(wordCount: nat, numChunks: nat): (size: nat)
    requires numChunks > 0
    ensures wordCount <= size * numChunks
    ensures size > 0 ==> (size - 1) * numChunks < wordCount
    ensures size == 0 <==> wordCount == 0
  {
    wordCount / numChunks + (if wordCount % numChunks > 0 then 1 else 0)
  }

  /** `[words[i:i + size] for i in range(0, len(words), size)]`: consecutive
      groups of `size` words, the last one possibly shorter. */
  function Groups<T>(words: seq<T>, size: nat): (gs: seq<seq<T>>)
    requires size > 0
    ensures |gs| == 0 <==> |words| == 0
    ensures forall i :: 0 <= i < |gs| ==> 0 < |gs[i]| <= size
    ensures forall i :: 0 <= i < |gs| - 1 ==> |gs[i]| == size
    decreases |words|
  {
    if |words| == 0 then []
    else if |words| <= size then [words]
    else [words[..size]] + Groups(words[size..], size)
  }

  /** `split_news_script_into_chunks(text, duration)` with `CHUNK_DURATION`
      given as `chunkDuration`. */
  function SplitIntoChunks(text: string, duration: real, chunkDuration: real): (r: Result<seq<string>>)
    requires duration >= 0.0 && chunkDuration > 0.0
    ensures r == Failure(ZeroChunks) <==> duration < chunkDuration
    ensures r == Failure(ZeroChunkSize) <==> chunkDuration <= duration && Split(text) == []
    ensures r.Ok? ==> 1 <= |r.value| <= NumChunks(duration, chunkDuration)
  {
    var n := NumChunks(duration, chunkDuration);
    NoChunksIff(duration, chunkDuration);
    if n == 0 then Failure(ZeroChunks)
    else
      var words := Split(text);
      var size := ChunkSize(|words|, n);
      if size == 0 then Failure(ZeroChunkSize)
      else
        GroupCount(words, size);
        AtMostNumChunks(|Groups(words, size)|, size, |words|, n);
        Ok(JoinEach(Groups(words, size)))
  }

  /** `[' '.join(g) for g in gs]`. */
  function JoinEach(gs: seq<seq<string>>): (cs: seq<string>)
    ensures |cs| == |gs| && forall i :: 0 <= i < |gs| ==> cs[i] == JoinWords(gs[i])
  {
    seq(|gs|, i requires 0 <= i < |gs| => JoinWords(gs[i]))
  }

  /** The chunker's result, when it succeeds, in terms of the word list. */
  lemma {:induction false} ChunksOk(text: string, duration: real, chunkDuration: real)
    requires 0.0 < chunkDuration <= duration && HasWord(text)
    ensures var words := Split(text);
      var size := ChunkSize(|words|, NumChunks(duration, chunkDuration));
      size > 0 && SplitIntoChunks(text, duration, chunkDuration) == Ok(JoinEach(Groups(words, size)))
  {
    SplitEmptyIff(text);
    NoChunksIff(duration, chunkDuration);
  }

  /** No window fits exactly when the audio is shorter than one window; the
      count is never raised to 1. */
  lemma NoChunksIff(duration: real, chunkDuration: real)
    requires duration >= 0.0 && chunkDuration > 0.0
    ensures NumChunks(duration, chunkDuration) == 0 <==> duration < chunkDuration
  {
    var n := NumChunks(duration, chunkDuration);
    if n > 0 {
      assert (n as real - 1.0) * chunkDuration >= 0.0;
    }
  }

  lemma {:induction false} GroupCount<T>(words: seq<T>, size: nat)
    requires size > 0
    ensures var gs := Groups(words, size); var k := |gs|;
      |words| > 0 ==>
        |gs[k - 1]| == |words| - (k - 1) * size && (k - 1) * size < |words| <= k * size
    decreases |words|
  {
    if |words| > size {
      GroupCount(words[size..], size);
      var gs := Groups(words, size);
      var k' := |Groups(words[size..], size)|;
      assert |gs| == k' + 1;
      assert gs[k'] == Groups(words[size..], size)[k' - 1];
      assert k' * size == (k' - 1) * size + size;
    }
  }

  lemma AtMostNumChunks(k: nat, size: nat, wordCount: nat, n: nat)
    requires size > 0 && (k - 1) * size < wordCount <= size * n
    ensures k <= n
  {
  }

  lemma {:induction false} FlattenGroups<T>(words: seq<T>, size: nat)
    requires size > 0
    ensures Flatten(Groups(words, size)) == words
    decreases |words|
  {
    if |words| > size {
      FlattenGroups(words[size..], size);
      assert words[..size] + words[size..] == words;
    }
  }

  lemma {:induction false} GroupsAreWords(words: seq<string>, size: nat)
    requires size > 0 && AllWords(words)
    ensures forall i :: 0 <= i < |Groups(words, size)| ==> AllWords(Groups(words, size)[i])
    decreases |words|
  {
    if |words| > size {
      GroupsAreWords(words[size..], size);
      var gs := Groups(words, size);
      forall i | 0 <= i < |gs| ensures AllWords(gs[i]) {
        if i > 0 {
          assert gs[i] == Groups(words[size..], size)[i - 1];
        }
      }
    }
  }

  function Min(a: int, b: int): int
  {
    if a <= b then a else b
  }

  /** Python's slice `s[lo:hi]` for non-negative bounds: both bounds are
      clamped to the length, and a reversed range is empty. */
  function PySlice<T>(s: seq<T>, lo: nat, hi: nat): (t: seq<T>)
    ensures |t| <= |s|
  {
    var a, b := Min(lo, |s|), Min(hi, |s|);
    if a <= b then s[a..b] else []
  }

  /** Group `i` is the Python slice `words[i*size : i*size + size]`, which
      stops early at the end of the list. */
  lemma {:induction false} GroupAt<T>(words: seq<T>, size: nat, i: nat, p: nat)
    requires size > 0 && i < |Groups(words, size)| && p == i * size
    ensures p < |words| && Groups(words, size)[i] == PySlice(words, p, p + size)
    decreases |words|
  {
    if i == 0 {
      assert p == 0;
    } else {
      GroupsTail(words, size, i);
      ProductStep(i, size);
      GroupAt(words[size..], size, i - 1, p - size);
      PySliceShift(words, size, p);
    }
  }

  /** Past the first group, the groups are those of the words after it. */
  lemma GroupsTail<T>(words: seq<T>, size: nat, i: nat)
    requires size > 0 && 0 < i < |Groups(words, size)|
    ensures |words| > size
    ensures i - 1 < |Groups(words[size..], size)|
    ensures Groups(words, size)[i] == Groups(words[size..], size)[i - 1]
  {
    var tail := Groups(words[size..], size);
    assert Groups(words, size) == [words[..size]] + tail;
  }

  /** Slicing after dropping the first `k` elements is slicing `k` further on. */
  lemma PySliceShift<T>(s: seq<T>, k: nat, p: nat)
    requires k <= p < |s|
    ensures PySlice(s[k..], p - k, p - k + k) == PySlice(s, p, p + k)
  {
    var t := s[k..];
    var b := Min(p, |t|);
    assert PySlice(t, p - k, p - k + k) == t[p - k..b];
    assert PySlice(s, p, p + k) == s[p..b + k];
  }

  lemma ProductStep(i: int, size: int)
    ensures i * size == (i - 1) * size + size
  {
  }

  /** `(k - 1) * size < w <= k * size` pins `k` as the ceiling `(w + size - 1) / size`. */
  lemma CeilingIs(k: nat, size: nat, w: nat)
    requires size > 0 && (k - 1) * size < w <= k * size
    ensures k == (w + size - 1) / size
  {
    ProductStep(k, size);
    var r := w + size - 1 - k * size;
    QuotientUnique(w + size - 1, size, k, r);
  }

  /** Euclidean division has one quotient: `a == k * size + r` with
      `0 <= r < size` makes `k` the quotient. */
  lemma QuotientUnique(a: int, size: int, k: int, r: int)
    requires size > 0 && 0 <= r < size && a == k * size + r
    ensures a / size == k
  {
    var d := a / size - k;
    assert size * (a / size) + a % size == a;
    assert size * d == r - a % size by {
      assert size * d == size * (a / size) - size * k;
    }
  }

  /** `cs` is the list comprehension of the Python function: there are
      `ceil(len(words) / size)` chunks, and chunk `i` is
      `' '.join(words[i*size : i*size + size])`, whose start lies inside the
      word list. */
  predicate ChunkedAsSlices(cs: seq<string>, words: seq<string>, size: nat)
    requires size > 0
  {
    |cs| == (|words| + size - 1) / size &&
    forall i :: 0 <= i < |cs| ==>
      i * size < |words| && cs[i] == JoinWords(PySlice(words, i * size, i * size + size))
  }

  /** Whenever the chunker can succeed it does, and its chunks are the
      space-joined slices `words[i*chunk_size : i*chunk_size + chunk_size]`. */
  lemma {:induction false} ChunksAreSlices(text: string, duration: real, chunkDuration: real)
    requires 0.0 < chunkDuration <= duration && HasWord(text)
    ensures var r := SplitIntoChunks(text, duration, chunkDuration);
      var words := Split(text);
      r.Ok? &&
      var size := ChunkSize(|words|, NumChunks(duration, chunkDuration));
      size > 0 && ChunkedAsSlices(r.value, words, size)
  {
    ChunksOk(text, duration, chunkDuration);
    var words := Split(text);
    JoinedGroupsAreSlices(words, ChunkSize(|words|, NumChunks(duration, chunkDuration)));
  }

  lemma {:induction false} JoinedGroupsAreSlices(words: seq<string>, size: nat)
    requires size > 0
    ensures ChunkedAsSlices(JoinEach(Groups(words, size)), words, size)
  {
    GroupsAreSlices(words, size);
  }

  lemma {:induction false} GroupsAreSlices<T>(words: seq<T>, size: nat)
    requires size > 0
    ensures var gs := Groups(words, size);
      |gs| == (|words| + size - 1) / size &&
      forall i :: 0 <= i < |gs| ==> i * size < |words| && gs[i] == PySlice(words, i * size, i * size + size)
  {
    GroupsCount(words, size);
    var gs := Groups(words, size);
    forall i | 0 <= i < |gs|
      ensures i * size < |words| && gs[i] == PySlice(words, i * size, i * size + size)
    {
      GroupAt(words, size, i, i * size);
    }
  }

  /** There are `ceil(len(words) / size)` groups. */
  lemma {:induction false} GroupsCount<T>(words: seq<T>, size: nat)
    requires size > 0
    ensures |Groups(words, size)| == (|words| + size - 1) / size
  {
    GroupCount(words, size);
    if |words| > 0 {
      CeilingIs(|Groups(words, size)|, size, |words|);
    } else {
      QuotientUnique(size - 1, size, 0, size - 1);
    }
  }

  /** `[s.split() for s in cs]`. */
  function SplitEach(cs: seq<string>): (ws: seq<seq<string>>)
    ensures |ws| == |cs| && forall i :: 0 <= i < |cs| ==> ws[i] == Split(cs[i])
  {
    seq(|cs|, i requires 0 <= i < |cs| => Split(cs[i]))
  }

  /** Splitting every chunk again and concatenating the pieces in order gives
      exactly the words of the text: no word is dropped, duplicated or moved. */
  lemma {:induction false} ChunksReconstructWords(text: string, duration: real, chunkDuration: real)
    requires 0.0 < chunkDuration <= duration && HasWord(text)
    ensures var r := SplitIntoChunks(text, duration, chunkDuration);
      r.Ok? && Flatten(SplitEach(r.value)) == Split(text)
  {
    ChunksOk(text, duration, chunkDuration);
    var words := Split(text);
    var size := ChunkSize(|words|, NumChunks(duration, chunkDuration));
    SplitEachJoined(words, size);
    FlattenGroups(words, size);
  }

  /** Every chunk of `cs` but the last splits into exactly `size` words, the
      last into the remaining 1 to `size`, and there are `ceil(len(words) /
      size)` chunks. */
  predicate ShapedChunks(cs: seq<string>, words: seq<string>, size: nat)
  {
    |cs| > 0 &&
    (forall i :: 0 <= i < |cs| - 1 ==> |Split(cs[i])| == size) &&
    0 < |Split(cs[|cs| - 1])| <= size &&
    |Split(cs[|cs| - 1])| == |words| - (|cs| - 1) * size &&
    (|cs| - 1) * size < |words| <= |cs| * size
  }

  /** Whenever the chunker can succeed it does; every chunk but the last holds
      exactly `chunk_size` words, the last holds the remaining 1 to
      `chunk_size`, and there are `ceil(len(words) / chunk_size)` chunks,
      between 1 and `num_chunks`. */
  lemma {:induction false} ChunkShape(text: string, duration: real, chunkDuration: real)
    requires 0.0 < chunkDuration <= duration && HasWord(text)
    ensures var r := SplitIntoChunks(text, duration, chunkDuration);
      var n := NumChunks(duration, chunkDuration);
      var words := Split(text);
      var size := ChunkSize(|words|, n);
      r.Ok? && size > 0 &&
      ShapedChunks(r.value, words, size) &&
      |r.value| <= n
  {
    ChunksOk(text, duration, chunkDuration);
    SplitEmptyIff(text);
    var words := Split(text);
    JoinedGroupsShape(words, ChunkSize(|words|, NumChunks(duration, chunkDuration)));
  }

  lemma {:induction false} JoinedGroupsShape(words: seq<string>, size: nat)
    requires size > 0 && AllWords(words) && |words| > 0
    ensures ShapedChunks(JoinEach(Groups(words, size)), words, size)
  {
    SplitEachJoined(words, size);
    GroupCount(words, size);
  }

  /** Each space-joined group splits back into the group. */
  lemma {:induction false} SplitEachJoined(words: seq<string>, size: nat)
    requires size > 0 && AllWords(words)
    ensures var gs := Groups(words, size);
      SplitEach(JoinEach(gs)) == gs
  {
    var gs := Groups(words, size);
    var cs := JoinEach(gs);
    GroupsAreWords(words, size);
    forall i | 0 <= i < |cs| ensures Split(cs[i]) == gs[i] {
      SplitJoinWords(gs[i]);
    }
  }

  /** The worked example of a 21-second item with a 21-word body and 7-second
      windows: three chunks of seven words each. */
  lemma {:induction false} TwentyOneWords(text: string)
    requires |Split(text)| == 21
    ensures var r := SplitIntoChunks(text, 21.0, 7.0);
      r.Ok? && |r.value| == 3 && forall i :: 0 <= i < 3 ==> |Split(r.value[i])| == 7
  {
    assert NumChunks(21.0, 7.0) == 3;
    assert ChunkSize(21, 3) == 7;
    SplitEmptyIff(text);
    ChunkShape(text, 21.0, 7.0);
  }
}
