# SubRip assembler of the subtitle generator, in Dafny

The subtitle generator transcribes the audio track of a video and writes the
recognized segments as a SubRip (`.srt`) file. This project models the part
of `script.py` that turns segments into that file:

- `format_timestamp` renders a time offset as `HH:MM:SS,mmm`. An absent or
  negative offset counts as zero. The hours field is at least two digits wide.
- `is_meaningful` rejects empty text, text shorter than three characters once
  stripped, and the filler texts `aaaa.`, `hmm.`, `mmm.` and `...`, in any
  letter case.
- `write_srt` walks the segments in order and skips every text that is not
  meaningful. It writes the first three consecutive copies of a text and drops
  the fourth and later ones, printing a warning at the fourth. Every cue written
  is numbered by its segment's position in the whole input.

The files:

- `wrappers.dfy` holds `Option`.
- `decimal.dfy` holds decimal rendering (`str(n)` and `{n:0Wd}`) and the value
  of a digit string.
- `text.dfy` holds `str.strip()` and `str.lower()`.
- `timestamp.dfy` holds `format_timestamp` and a parser that reads its output
  back.
- `srt.dfy` holds `is_meaningful`, the loop body and the loop as functions
  (`Step` and `Run`), and `WriteSrt`. `WriteSrt` is the loop itself. It appends
  to an `SrtFile` object and collects what it prints, and it is proved to
  produce exactly what `Run` describes.
- `srt_properties.dfy` holds what the assembler guarantees. Some lemmas
  describe single loop steps (`Step`) or stretches of the loop (`Run`).
  The two central ones, `WrittenExactlyWhenKept` and
  `WarnedExactlyAtFourthCopy`, are stated against an independent
  description of repeat suppression (`Streak`, `Kept`, `FourthCopies`)
  rather than against the loop's state.

Four behaviours of the code are easy to misread; the model follows the code:

- Cue numbers are `enumerate` positions, so dropped segments leave gaps.
- Suppression starts when `repeat_count` reaches 3, so three identical
  consecutive texts are written.
- The filler list has no `..` entry. A text stripping to `..` is rejected by
  its length.
- `prev_text` is tested for truthiness. `None` and the empty string are both
  false.

## Model

| member | source | states |
|---|---|---|
| `Timestamp.FormatTimestamp` | script.py:43-55 | defines `format_timestamp` on whole milliseconds as `RenderClock(Split(TotalMillis(t)))`; its layout is stated by `FormatTimestampLayout`, its round trip by `ParseFormatted` |
| `Timestamp.RenderClock` | script.py:55 | defines the f-string `{hrs:02d}:{mins:02d}:{secs:02d},{ms:03d}`; its fields are stated by `RenderFields` |
| `Timestamp.RenderFields` | script.py:55 | the four padded fields of a rendered clock: hours at least two digits (exactly two below 100 hours), the others two, two and three digits, each reading back as its field |
| `Decimal.Digits` | script.py:83 | defines `str(n)` for the cue number; stated by `DigitsShape` and `DigitsFit` |
| `Decimal.ZeroPad` | script.py:55 | defines `{n:0Wd}`; stated by `ZeroPadShape` |
| `Text.Strip` | script.py:59-61 | defines `str.strip()`; stated by `StripShape`, `StripIdempotent` and `StripKeepsTrimmed` |
| `Text.Lower` | script.py:61 | defines `str.lower()` on ASCII letters; stated by `LowerShape` and `LowerIdempotent` |
| `Text.LowerShape` | script.py:61 | lowering keeps the length, lowers each character on its own and leaves no ASCII capital letter `A`-`Z` |
| `Text.LowerIdempotent` | script.py:61 | lowering twice is lowering once |
| `Srt.IsMeaningful` | script.py:58-63 | defines `is_meaningful`; stated by `MeaningfulExactly`, `MeaningfulIsLong` and `FilterIgnoresSurroundingSpace` |
| `Srt.CueText` | script.py:70 | defines `(seg.text or "").strip()`; stated by `CuesCarryMeaningfulText` |
| `Srt.Step` | script.py:70-83 | defines one iteration of the loop on `prev_text`, `repeat_count`, the cues written and the texts warned about; stated by `StepEffect`, `StreakStep`, `SkippedSegmentChangesNothing` and `NewTextStartsOver` |
| `Srt.Run` | script.py:67-83 | defines the loop over all segments, numbered from 1; stated by `WrittenExactlyWhenKept`, `WarnedExactlyAtFourthCopy`, `CuesNumberedByPosition` and `RepeatCountIsStreak` |
| `Srt.Block` | script.py:83 | defines the cue block `f"{i}\n{start} --> {end}\n{text}\n\n"`; `WriteSrt` is proved to write exactly these blocks |
| `Srt.Render` | script.py:83 | defines the file contents as the blocks of the cues in order; stated by `RenderSplit` |
| `Srt.WarningMessage` | script.py:77 | defines the warning line printed at the fourth consecutive copy; `WriteSrt` is proved to print exactly one per text in `Run(...).warned` |
| `Timestamp.TotalMillis` | script.py:44-48 | an absent offset and a negative one count as 0 ms; any other offset is kept as is |
| `Timestamp.Split` | script.py:49-54 | the hours, minutes, seconds and milliseconds from `//` and `%`: minutes and seconds below 60, milliseconds below 1000, and `h*3600000 + m*60000 + s*1000 + ms` equal to the total |
| `Timestamp.FormatTimestampLayout` | script.py:55 | the result has `:`, `:` and `,` 10, 7 and 4 places from its end and digits everywhere else; it is at least 12 characters, and exactly 12 iff the offset is below 100 hours |
| `Timestamp.ParseFormatted` | script.py:43-55 | reading the four fields back gives exactly the clamped millisecond count, so the rendering loses nothing |
| `Timestamp.ReadsBack` | script.py:49-55 | the fields of a split and rendered count read back to that count |
| `Timestamp.ClampedToZero` | script.py:44-46 | an absent offset and every negative offset render as `00:00:00,000` |
| `Timestamp.OneHourTwoMinutesFiveSeconds` | script.py:48-55 | 3 725 432 ms renders as `01:02:05,432` |
| `Decimal.DigitsShape` | script.py:55 | `str(n)` is a non-empty digit string with no leading zero (unless `n == 0`) that reads back as `n` |
| `Decimal.DigitsFit` | script.py:55 | `str(n)` fits in `w >= 1` characters exactly when `n < 10^w` |
| `Decimal.ZeroPadShape` | script.py:55 | `{n:0Wd}` is digits only, `max(W, len(str(n)))` long, exactly `W` long iff `n < 10^W`, and reads back as `n` |
| `Text.StripShape` | script.py:59-61 | `strip()` returns the infix left after removing white space at both ends; it neither starts nor ends with white space, and all it removed is white space |
| `Text.LeadingSpaceExtends` | script.py:59-61 | white space in front of what `strip()` keeps of `s[1..]` stays white space in front of it in `s` when `s[0]` is white space |
| `Text.StripIdempotent` | script.py:59-61 | stripping twice is stripping once |
| `Text.StripKeepsTrimmed` | script.py:70 | text that neither starts nor ends with white space is not changed by `strip()` |
| `SrtProperties.MeaningfulExactly` | script.py:58-63 | a text is meaningful iff it is at least 3 characters once stripped and its stripped lower-case form is not `aaaa.`, `hmm.`, `mmm.` or `...` |
| `SrtProperties.FilterIgnoresSurroundingSpace` | script.py:59-61 | the filter gives the same answer on a text and on its stripped form |
| `SrtProperties.MeaningfulIsLong` | script.py:59 | meaningful text has at least three characters |
| `SrtProperties.TwoDotsRejectedByLength` | script.py:59-61 | `..` is not in the filler list, yet a text stripping to `..` is rejected |
| `SrtProperties.ThreeCharactersSuffice` | script.py:59 | `Hi` is rejected and `Hi.` is kept |
| `SrtProperties.FillerInAnyCase` | script.py:61 | ` Hmm.\n` and `MMM.` are rejected as filler |
| `SrtProperties.FillerMatchedExactly` | script.py:61 | `Hmmmm.` is not filler and is kept |
| `Srt.SrtFile.Open` | script.py:64 | `open(out_path, "w", encoding="utf-8")`: the file starts empty |
| `Srt.SrtFile.Write` | script.py:83 | `f.write(...)`: the file keeps its old contents and has the string appended |
| `Srt.Truthy` | script.py:74 | defines the truth test on `prev_text`: false for `None` and for the empty string; `Step` uses it, and `PrevIsMeaningful` shows a set `prev_text` is never empty |
| `Srt.Messages` | script.py:77 | defines the printed warning lines, one `WarningMessage` per warned text in order; `MessagesAppend` states that one more warned text prints one more line, and `WriteSrt`'s ensures ties the printed lines to it |
| `Srt.WriteSrt` | script.py:57-83 | opens a fresh file; when the loop ends the file holds exactly the blocks of the cues `Run` selects, in order, and the printed lines are exactly one warning per text in `Run(...).warned` |
| `SrtProperties.StepEffect` | script.py:70-83 | one iteration either changes nothing or makes the segment's stripped text the previous text; it writes at most that segment's own cue and warns at most about that text |
| `SrtProperties.PrevIsMeaningful` | script.py:71-82 | `prev_text`, once set, is meaningful stripped text, so never the empty string |
| `SrtProperties.NothingBeforeFirstMeaningful` | script.py:65-72 | while `prev_text` is still `None`, `repeat_count` is 0 and nothing has been written or printed |
| `SrtProperties.CuesNumberedByPosition` | script.py:67-83 | every cue is the one its segment produces under the segment's 1-based position in the whole input; the numbers strictly increase and there are no more cues than segments |
| `SrtProperties.CuesCarryMeaningfulText` | script.py:70-83 | every cue's text is its segment's stripped text (absent text read as empty), passes the filter, and has at least three characters |
| `SrtProperties.CueOnlyFromMeaningful` | script.py:71-83 | a cue numbered `i` exists only if segment `i` passed the filter |
| `SrtProperties.SkippedSegmentChangesNothing` | script.py:71-72 | a segment whose text fails the filter leaves `prev_text`, `repeat_count`, the output and the printed lines unchanged |
| `SrtProperties.NewTextStartsOver` | script.py:74-83 | a meaningful text other than `prev_text` is written under its position, becomes `prev_text`, and resets `repeat_count` to 0 |
| `SrtProperties.RepeatCountIsStreak` | script.py:74-82 | `prev_text` has occurred `repeat_count + 1` times in a row among the meaningful segments, and every other text has no such streak |
| `SrtProperties.LastSegmentDecision` | script.py:74-83 | the last segment is written iff it is kept (meaningful, fewer than three copies of its text right before it), and warned about iff exactly three copies precede it |
| `SrtProperties.WrittenExactlyWhenKept` | script.py:67-83 | segment `k` gets a cue, numbered `k + 1`, iff it is meaningful and fewer than three meaningful copies of its text immediately precede it |
| `SrtProperties.EarlierCuesKept` | script.py:83 | processing a segment neither adds nor removes a cue for an earlier one |
| `SrtProperties.LastCueWrittenWhenKept` | script.py:74-83 | the last segment has a cue iff it is kept |
| `SrtProperties.WarnedExactlyAtFourthCopy` | script.py:76-77 | the warnings are exactly the texts of the fourth consecutive meaningful copies, in input order |
| `SrtProperties.RepeatedText` | script.py:74-83 | in a run of one meaningful text after a different one, the first three copies are written under their positions, later copies are dropped, one warning is printed iff the run has four or more copies, and `repeat_count` ends one below the run's length |
| `SrtProperties.StreakStep` | script.py:74-82 | the `m + 1`-th copy in a row is written while `m < 3`, warned about iff `m == 3`, and leaves `repeat_count == m` |
| `SrtProperties.FiveIdenticalSegments` | script.py:74-83 | five `OK.` segments give three cues numbered 1, 2, 3 and one warning |
| `SrtProperties.NumberingKeepsGaps` | script.py:67-83 | after a too-short first segment, the single cue is numbered 2 |
| `SrtProperties.CuesFromShape` | script.py:67-83 | consecutive written segments produce consecutive cues numbered by position |
| `SrtProperties.LogsOnlyGrow` | script.py:76-83 | processing more segments only appends cues and warnings; earlier ones stay in place |
| `SrtProperties.OutputOnlyGrows` | script.py:64-83 | the document for a longer input is the document for its prefix followed by the blocks of the added cues |
| `SrtProperties.RenderSplit` | script.py:83 | the document of a list of cues is the documents of any prefix and of the rest, concatenated |

## Left out

- `main`, `extract_audio`, `ffprobe_duration` and `shutil_which` are not part of this model. They are command-line handling, model loading, temporary files and calls to ffmpeg and ffprobe. This includes the "no speech" exit, which tests the raw segment count.
- Offsets are whole milliseconds. The conversion of float seconds through `timedelta` and `int(total_seconds() * 1000)` involves floating point and rounding inside `timedelta`, and is not modelled.
- The model's `Lower` lowers ASCII letters only, while Python's `str.lower()` covers all of Unicode. For the filler test this is exact: the fillers are made of `a`, `h`, `m` and `.`, and no non-ASCII character lowercases to one of these, so a non-ASCII character can never be part of a filler match either way. The model's `Strip` removes exactly the characters `str.isspace()` accepts.
- The file handle, its UTF-8 encoding and text-mode newline translation: the file is `SrtFile.contents`, a string holding `\n` line ends, where `open(out_path, "w")` on Windows writes `\r\n` for each `\n`. Opening with mode `"w"` gives a fresh, empty file.
- `print` to standard output: `WriteSrt` returns the printed lines as `printed`.
- Segments whose fields have other types than the ones modelled (a non-string text, a non-numeric offset) are not modelled. Most of them make Python raise, but not all: a falsy non-string text such as `0` becomes `""` through `seg.text or ""` and is skipped, and a `bytes` text passes `strip()`, `lower()` and the filler test and is written in its `b'...'` form.
