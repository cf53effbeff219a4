# Subtitle chunking and timing of the news video generator

The video generator builds one clip per news item: a still image, the voice-over
audio, a title caption, subtitles and a title card. The only logic of its own is
how the subtitles are cut and timed:

- `split_news_script_into_chunks` works out how many whole subtitle windows of
  `CHUNK_DURATION` seconds fit into the audio.
- It splits the item's body text into words.
- It groups the words into consecutive chunks of `ceil(words / windows)` words.
- `create_subtitle_clips` puts a title caption over the whole audio first.
- It then gives chunk `i` the window starting at `i * CHUNK_DURATION`. Every
  window lasts `CHUNK_DURATION`, except the last, which runs to the end of the
  audio.

This project models those two functions in Dafny and proves their properties.

- `words.dfy` (module `Words`) models Python's `str.split()`, with Python's own
  set of whitespace characters, and `' '.join`. It proves that joining
  well-formed words with spaces and splitting the result gives the words back.
- `chunker.dfy` (module `Chunker`) models `split_news_script_into_chunks` as a
  pure function. Its two crashes are `Failure` results:
  - `ZeroChunks` is the `ZeroDivisionError` raised when the audio is shorter
    than one window.
  - `ZeroChunkSize` is the `ValueError` that `range` raises for a step of 0
    when the text has no words.
- `subtitles.dfy` (module `Subtitles`) models `create_subtitle_clips` as a
  method. It calls the chunker, and on success hands the chunks to
  `LayOutClips`, whose loop appends one overlay per chunk. An overlay is a
  `(kind, text, start, duration)` record that stands in for a `TextClip`.

Durations are exact `real` numbers of seconds. The audio duration is
`len(audio) / 1000.0` at `video_generator.py:141`, so it is never negative, and
the model requires `duration >= 0`. `CHUNK_DURATION` comes from a configuration
module that is not part of this model, so it is the parameter `chunkDuration`,
required to be positive. The line wrapping `"\n".join(wrap(s, width))` is a
library call. It appears as the two function parameters `wrapTitle` and
`wrapSubtitle`, and nothing is assumed about them.

Two edge cases behave differently from what one might expect of a subtitle
chunker. The model follows the code in both:

- One might expect the window count to be clamped to at least 1. The code does
  not clamp it: audio shorter than one window divides by zero at
  `video_generator.py:40`.
- One might expect an empty text to give one empty chunk. Instead the code
  computes a chunk size of 0, and `range` rejects that step at
  `video_generator.py:41`.

## Model

| member | source | states |
|---|---|---|
| `Words.Split` | video_generator.py:39 | every piece `text.split()` returns is a non-empty word containing no whitespace |
| `Words.SplitEmptyIff` | video_generator.py:39 | a text has no words if and only if every character of it is whitespace |
| `Words.JoinWords` | video_generator.py:41 | `' '.join` of no words is the empty string; otherwise its length is the total length of the words plus one separator between each pair of neighbours |
| `Words.SplitKeepsNonSpace` | video_generator.py:39 | the words of `text.split()`, run together, are exactly the text's non-whitespace characters in order: splitting drops only whitespace |
| `Words.SplitJoinWords` | video_generator.py:39-41 | splitting the space-joined words of a chunk gives back exactly those words |
| `Chunker.NumChunks` | video_generator.py:36 | `num_chunks` is the largest `n` with `n * CHUNK_DURATION <= duration` |
| `Chunker.NoChunksIff` | video_generator.py:36 | `num_chunks` is 0 exactly when the audio is shorter than one window; it is never raised to 1 |
| `Chunker.ChunkSize` | video_generator.py:40 | `chunk_size` is the ceiling of `len(words) / num_chunks`, and it is 0 exactly when there are no words |
| `Chunker.Groups` | video_generator.py:41 | the slices `words[i:i+size]` are non-empty, hold at most `size` words each, and all but the last hold exactly `size`; there are none exactly when there are no words |
| `Chunker.FlattenGroups` | video_generator.py:41 | concatenating the slices in order gives back the word list |
| `Chunker.SplitIntoChunks` | video_generator.py:24-41 | the result is a ZeroDivisionError exactly when `duration < CHUNK_DURATION`; it is a zero-step error exactly when the audio is long enough and the text has no words; otherwise there are between 1 and `num_chunks` chunks |
| `Chunker.GroupAt` | video_generator.py:41 | slice `i` starts inside the word list and is Python's clamped slice `words[i*size : i*size + size]` |
| `Chunker.GroupsCount` | video_generator.py:41 | there are `(len(words) + size - 1) // size` slices, one per value of `range(0, len(words), size)` |
| `Chunker.ChunksAreSlices` | video_generator.py:39-41 | whenever the chunker can succeed it does; there are `ceil(len(words) / chunk_size)` chunks, and chunk `i` is `' '.join(words[i*chunk_size : i*chunk_size + chunk_size])` |
| `Chunker.ChunksReconstructWords` | video_generator.py:39-41 | when the audio holds at least one window and the text has a non-whitespace character, the chunker succeeds, and splitting every chunk and concatenating the pieces in order gives exactly `text.split()`: no word is dropped, duplicated or reordered |
| `Chunker.ChunkShape` | video_generator.py:40-41 | whenever the chunker can succeed it does, every chunk but the last has `chunk_size` words, the last has the remaining 1 to `chunk_size` words, and the number of chunks is `ceil(len(words) / chunk_size)`, between 1 and `num_chunks` |
| `Chunker.TwentyOneWords` | video_generator.py:36-41 | with 21 seconds of audio, 7-second windows and 21 words, there are exactly 3 chunks of 7 words each |
| `Subtitles.CreateSubtitleClips` | video_generator.py:56-94 | a chunker error is returned unchanged; otherwise the list is the title caption (start 0, lasting the whole audio) followed by one subtitle per chunk in chunk order, where subtitle `i` starts at `i * CHUNK_DURATION` and lasts `CHUNK_DURATION`, except the last, which lasts `duration - i * CHUNK_DURATION` |
| `Subtitles.LayOutClips` | video_generator.py:59-94 | the list built after the chunker returns is the title caption (start 0, lasting the whole audio) and then, for each chunk `i` in order, its wrapped text starting at `i * CHUNK_DURATION`, lasting `CHUNK_DURATION`, or `duration - i * CHUNK_DURATION` for the last chunk |
| `Subtitles.SubtitlesContiguous` | video_generator.py:71-89 | the title spans `[0, duration)`; the first subtitle starts at 0, each subtitle ends where the next starts, and the last ends at `duration` |
| `Subtitles.SubtitleDurationsSum` | video_generator.py:78-89 | the subtitle durations add up to the audio duration exactly |
| `Subtitles.FullWindowsSum` | video_generator.py:78 | the first `k` subtitles (the last one not among them) last `k * CHUNK_DURATION` together |
| `Subtitles.LastWindowAtLeastChunk` | video_generator.py:36-78 | when there are at most `num_chunks` subtitles, the last one lasts at least `CHUNK_DURATION`, so its duration is positive |
| `Subtitles.SubtitleWindowsPartition` | video_generator.py:78-89 | at every moment `0 <= t < duration` exactly one subtitle is on screen |
| `Subtitles.SubtitleWindowsOrdered` | video_generator.py:78-89 | an earlier subtitle has ended by the time any later one starts |
| `Subtitles.TwentyOneSeconds` | video_generator.py:56-94 | with 21 seconds of audio, 7-second windows and 21 words, the title lasts 21 seconds and the three subtitles start at 0, 7 and 14 seconds, last 7 seconds each and 21 seconds in all |
| `Subtitles.SubtitlesOfItem` | video_generator.py:56-94 | for text the chunker accepts, every overlay list laid out as the code lays it out has one entry more than there are chunks, so between 2 and `1 + num_chunks` entries; its subtitle durations sum to the audio duration, and its last subtitle lasts at least one window |

## Left out

- Floating point: durations are exact reals. The rounding of Python's float `//` and of `duration - i * CHUNK_DURATION` is not modelled.
- Negative durations: the only caller passes `len(audio) / 1000.0`, which is never negative, so `duration >= 0` is required.
- Python's floor-division behaviour for a negative duration is therefore not modelled.
- Text wrapping (`textwrap.wrap` with the configured line widths) is a library call. It is the opaque parameters `wrapTitle` and `wrapSubtitle`.
- Rendering of `TextClip`: fonts, colours, strokes, backgrounds, methods and screen positions from the configuration module are not modelled. An overlay keeps only its kind, text, start and duration.
- `create_thumbnail`, `create_video_clip`, `combine_clips` and `postprocess_clip` are compositions of moviepy and pydub calls (image and audio loading, brightness and speed effects, compositing, concatenation). Clip durations after those calls are library semantics.
- `save_video` is directory creation, frame export and video encoding: file I/O.
- `main.py` is script wiring over a fixed sample record, calling helpers from a `utils` module that is not part of this model. As written, its call to `save_video` also omits the required thumbnail path.
- Two commented-out blocks at the end of `video_generator.py` are not code: an earlier `process_video_clips` (lines 206-220), and an alternative title styling (lines 226-250).
