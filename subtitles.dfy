/** `create_subtitle_clips`: the overlays laid over one news item's clip — a
    title caption for the whole audio, then one subtitle caption per chunk,
    each shown in its own time window. A `TextClip` is reduced to the text it
    shows and the window it is shown in; rendering is not modelled. */
module Subtitles {
  import opened Words
  import opened Chunker

  datatype OverlayKind = TitleCaption | SubtitleCaption

  /** A text overlay: what it shows, from when (`set_start`), and for how long
      (`set_duration`), in seconds. */
  datatype Overlay = Overlay(kind: OverlayKind, text: string, start: real, duration: real)

  function End(o: Overlay): real
  {
    o.start + o.duration
  }

  /** The overlay is on screen at time `t` (the window is half-open). */
  predicate Shows(o: Overlay, t: real)
  {
    o.start <= t < End(o)
  }

  /** The list the Python code builds: the title caption first, starting at 0
      and lasting the whole audio; then subtitle `i` starting at
      `i * chunkDuration` and lasting `chunkDuration`, except the last one,
      which lasts the rest of the audio. */
  predicate IsSchedule(ov: seq<Overlay>, titleText: string, subtitleTexts: seq<string>,
                       duration: real, chunkDuration: real)
  {
    |ov| == 1 + |subtitleTexts| &&
    ov[0] == Overlay(TitleCaption, titleText, 0.0, duration) &&
    forall k :: 1 <= k < |ov| ==>
      ov[k] == SubtitleOverlay(subtitleTexts[k - 1], k - 1, |subtitleTexts|, duration, chunkDuration)
  }

  /** Subtitle `i` of `count`: shown from `i * chunkDuration` for one window,
      or, when it is the last one, for the rest of the audio. */
  function SubtitleOverlay(text: string, i: nat, count: nat, duration: real, chunkDuration: real): Overlay
  {
    Overlay(SubtitleCaption, text, i as real * chunkDuration,
            if i < count - 1 then chunkDuration else duration - i as real * chunkDuration)
  }

  /** `create_subtitle_clips(text, title, duration)`. `wrapTitle` and
      `wrapSubtitle` stand for `"\n".join(wrap(..., MAX_CHARS_PER_LINE))` with
      the title and subtitle widths. The chunker's errors propagate unchanged
      and no overlay is produced then. */
  method CreateSubtitleClips(text: string, title: string, duration: real, chunkDuration: real,
                             wrapTitle: string -> string, wrapSubtitle: string -> string)
    returns (r: Result<seq<Overlay>>)
    requires duration >= 0.0 && chunkDuration > 0.0
    ensures var chunks := SplitIntoChunks(text, duration, chunkDuration);
      chunks.Failure? ==> r == Failure(chunks.error)
    ensures var chunks := SplitIntoChunks(text, duration, chunkDuration);
      chunks.Ok? ==>
        r.Ok? &&
        IsSchedule(r.value, wrapTitle(title), WrapEach(chunks.value, wrapSubtitle), duration, chunkDuration)
  {
    var chunks := SplitIntoChunks(text, duration, chunkDuration);
    if chunks.Failure? {
      return Failure(chunks.error);
    }
    var clips := LayOutClips(wrapTitle(title), chunks.value, duration, chunkDuration, wrapSubtitle);
    return Ok(clips);
  }

  /** The body of `create_subtitle_clips` after the chunker returns: the title
      clip, then one subtitle clip per chunk, appended in the loop over
      `enumerate(chunks)`. */
  method LayOutClips(titleText: string, cs: seq<string>, duration: real, chunkDuration: real,
                     wrapSubtitle: string -> string)
    returns (clips: seq<Overlay>)
    ensures IsSchedule(clips, titleText, WrapEach(cs, wrapSubtitle), duration, chunkDuration)
  {
    ghost var texts := WrapEach(cs, wrapSubtitle);
    clips := [Overlay(TitleCaption, titleText, 0.0, duration)];
    for i := 0 to |cs|
      invariant |clips| == 1 + i
      invariant clips[0] == Overlay(TitleCaption, titleText, 0.0, duration)
      invariant forall k :: 1 <= k < |clips| ==>
        clips[k] == SubtitleOverlay(texts[k - 1], k - 1, |cs|, duration, chunkDuration)
    {
      var wrappedText := wrapSubtitle(cs[i]);
      var clipDuration := if i < |cs| - 1 then chunkDuration else duration - i as real * chunkDuration;
      var subtitleClip := Overlay(SubtitleCaption, wrappedText, i as real * chunkDuration, clipDuration);
      assert subtitleClip == SubtitleOverlay(texts[i], i, |cs|, duration, chunkDuration);
      clips := clips + [subtitleClip];
    }
  }

  /** Sum of the durations of a list of overlays. */
  function TotalDuration(os: seq<Overlay>): real
  {
    if os == [] then 0.0 else TotalDuration(os[..|os| - 1]) + os[|os| - 1].duration
  }

  /** The subtitle windows follow one another without gap or overlap: the
      first starts at 0, each ends where the next starts, the last ends at the
      end of the audio. The title caption spans the same interval. */
  lemma SubtitlesContiguous(ov: seq<Overlay>, titleText: string, subtitleTexts: seq<string>,
                            duration: real, chunkDuration: real)
    requires IsSchedule(ov, titleText, subtitleTexts, duration, chunkDuration)
    requires |subtitleTexts| > 0
    ensures ov[0].start == 0.0 && End(ov[0]) == duration
    ensures ov[1].start == 0.0
    ensures forall i :: 1 <= i < |ov| - 1 ==> End(ov[i]) == ov[i + 1].start
    ensures End(ov[|ov| - 1]) == duration
  {
  }

  /** The subtitle durations add up to the audio duration exactly. */
  lemma SubtitleDurationsSum(ov: seq<Overlay>, titleText: string, subtitleTexts: seq<string>,
                             duration: real, chunkDuration: real)
    requires IsSchedule(ov, titleText, subtitleTexts, duration, chunkDuration)
    requires |subtitleTexts| > 0
    ensures TotalDuration(ov[1..]) == duration
  {
    var m := |subtitleTexts|;
    FullWindowsSum(ov, titleText, subtitleTexts, duration, chunkDuration, m - 1);
    assert ov[1..][..m - 1] == ov[1..m];
    assert ov[1..] == ov[1..][..m];
  }

  /** The first `k` subtitle windows, when none of them is the last, last
      `k * chunkDuration` in all. */
  lemma {:induction false} FullWindowsSum(ov: seq<Overlay>, titleText: string, subtitleTexts: seq<string>,
                                          duration: real, chunkDuration: real, k: nat)
    requires IsSchedule(ov, titleText, subtitleTexts, duration, chunkDuration)
    requires k < |subtitleTexts|
    ensures TotalDuration(ov[1..k + 1]) == k as real * chunkDuration
  {
    if k > 0 {
      FullWindowsSum(ov, titleText, subtitleTexts, duration, chunkDuration, k - 1);
      assert ov[1..k + 1][..k - 1] == ov[1..k];
    }
  }

  /** When there are no more chunks than whole windows fit into the audio (as
      the chunker guarantees), the last subtitle is shown at least one full
      window, so for a positive time. */
  lemma LastWindowAtLeastChunk(ov: seq<Overlay>, titleText: string, subtitleTexts: seq<string>,
                               duration: real, chunkDuration: real)
    requires duration >= 0.0 && chunkDuration > 0.0
    requires IsSchedule(ov, titleText, subtitleTexts, duration, chunkDuration)
    requires 0 < |subtitleTexts| <= NumChunks(duration, chunkDuration)
    ensures ov[|ov| - 1].duration >= chunkDuration > 0.0
  {
  }

  /** At every moment of the audio exactly one subtitle is on screen. */
  lemma SubtitleWindowsPartition(ov: seq<Overlay>, titleText: string, subtitleTexts: seq<string>,
                                 duration: real, chunkDuration: real, t: real)
    requires chunkDuration > 0.0
    requires IsSchedule(ov, titleText, subtitleTexts, duration, chunkDuration)
    requires |subtitleTexts| > 0
    requires 0.0 <= t < duration
    ensures exists i :: 1 <= i < |ov| && Shows(ov[i], t)
    ensures forall i, j :: 1 <= i < |ov| && 1 <= j < |ov| && Shows(ov[i], t) && Shows(ov[j], t) ==> i == j
  {
    var m := |subtitleTexts|;
    FloorBounds(t, chunkDuration);
    var k := (t / chunkDuration).Floor;
    if k < m - 1 {
      assert Shows(ov[k + 1], t);
    } else {
      assert (k - (m - 1)) as real * chunkDuration >= 0.0;
      assert Shows(ov[m], t);
    }
    forall i, j | 1 <= i < j < |ov| ensures End(ov[i]) <= ov[j].start {
      SubtitleWindowsOrdered(ov, titleText, subtitleTexts, duration, chunkDuration, i, j);
    }
  }

  /** An earlier subtitle has ended by the time a later one starts. */
  lemma SubtitleWindowsOrdered(ov: seq<Overlay>, titleText: string, subtitleTexts: seq<string>,
                               duration: real, chunkDuration: real, i: int, j: int)
    requires chunkDuration > 0.0
    requires IsSchedule(ov, titleText, subtitleTexts, duration, chunkDuration)
    requires 1 <= i < j < |ov|
    ensures End(ov[i]) <= ov[j].start
  {
    var gap := (j - 1 - i) as real * chunkDuration;
    assert gap >= 0.0;
    assert (j - 1) as real * chunkDuration == (i - 1) as real * chunkDuration + chunkDuration + gap;
  }

  /** The subtitle texts for the chunks, in chunk order. */
  function WrapEach(cs: seq<string>, wrapSubtitle: string -> string): (ts: seq<string>)
    ensures |ts| == |cs| && forall i :: 0 <= i < |cs| ==> ts[i] == wrapSubtitle(cs[i])
  {
    seq(|cs|, i requires 0 <= i < |cs| => wrapSubtitle(cs[i]))
  }

  /** What one call promises for the audio of a news item: when the chunker
      succeeds, every list built as the Python code builds it has one subtitle
      per chunk after the title, between 1 and `num_chunks` of them; the
      subtitle durations add up to the audio duration and the last one is shown
      for at least one window. */
  lemma SubtitlesOfItem(text: string, title: string, duration: real, chunkDuration: real,
                        wrapTitle: string -> string, wrapSubtitle: string -> string)
    requires 0.0 < chunkDuration <= duration && HasWord(text)
    ensures SplitIntoChunks(text, duration, chunkDuration).Ok?
    ensures var cs := SplitIntoChunks(text, duration, chunkDuration).value;
      var texts := WrapEach(cs, wrapSubtitle);
      forall ov: seq<Overlay> :: IsSchedule(ov, wrapTitle(title), texts, duration, chunkDuration) ==>
        2 <= |ov| <= 1 + NumChunks(duration, chunkDuration) &&
        TotalDuration(ov[1..]) == duration &&
        ov[|ov| - 1].duration >= chunkDuration
  {
    SplitEmptyIff(text);
    var cs := SplitIntoChunks(text, duration, chunkDuration).value;
    var texts := WrapEach(cs, wrapSubtitle);
    forall ov: seq<Overlay> | IsSchedule(ov, wrapTitle(title), texts, duration, chunkDuration)
      ensures 2 <= |ov| <= 1 + NumChunks(duration, chunkDuration)
      ensures TotalDuration(ov[1..]) == duration
      ensures ov[|ov| - 1].duration >= chunkDuration
    {
      SubtitleDurationsSum(ov, wrapTitle(title), texts, duration, chunkDuration);
      LastWindowAtLeastChunk(ov, wrapTitle(title), texts, duration, chunkDuration);
    }
  }

  /** The 21-second item with a 21-word body and 7-second windows, timed:
      after the 21-second title come three subtitles at 0, 7 and 14 seconds,
      each shown for 7 seconds, 21 seconds in all. */
  lemma {:induction false} TwentyOneSeconds(text: string, title: string,
                         wrapTitle: string -> string, wrapSubtitle: string -> string)
    requires |Split(text)| == 21
    ensures SplitIntoChunks(text, 21.0, 7.0).Ok?
    ensures var texts := WrapEach(SplitIntoChunks(text, 21.0, 7.0).value, wrapSubtitle);
      forall ov: seq<Overlay> :: IsSchedule(ov, wrapTitle(title), texts, 21.0, 7.0) ==>
        |ov| == 4 && ov[0].start == 0.0 && ov[0].duration == 21.0 &&
        ov[1].start == 0.0 && ov[2].start == 7.0 && ov[3].start == 14.0 &&
        ov[1].duration == 7.0 && ov[2].duration == 7.0 && ov[3].duration == 7.0 &&
        TotalDuration(ov[1..]) == 21.0
  {
    TwentyOneWords(text);
    var texts := WrapEach(SplitIntoChunks(text, 21.0, 7.0).value, wrapSubtitle);
    forall ov: seq<Overlay> | IsSchedule(ov, wrapTitle(title), texts, 21.0, 7.0)
      ensures |ov| == 4 && TotalDuration(ov[1..]) == 21.0
    {
      SubtitleDurationsSum(ov, wrapTitle(title), texts, 21.0, 7.0);
    }
  }
}
