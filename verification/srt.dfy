/**
 * `write_srt`: the subtitle assembler. It walks the recognized segments in
 * order, drops the ones whose text is not meaningful, drops the fourth and
 * later consecutive repetitions of one text, and appends a numbered SubRip
 * cue block for every other segment to the output file.
 *
 * The loop is modelled twice: `Step` and `Run` are the loop body and the
 * loop as functions over the segments processed so far, and `WriteSrt` is
 * the loop itself, writing to a file object and collecting the lines it
 * prints, proved to produce exactly what `Run` describes.
 */
module Srt {
  import opened Wrappers
  import opened Text
  import opened Decimal
  import opened Timestamp

  /** The filler texts, in lower case, as `write_srt` lists them (`"..."` appears twice, `".."` not at all). */
  const Fillers: seq<string> := ["aaaa.", "hmm.", "mmm.", "...", "..."]

  /** `is_meaningful`: false for empty text, for text under three characters once stripped, and for filler. */
  predicate IsMeaningful(text: string) {
    if text == [] || |Strip(text)| < 3 then false
    else if Lower(Strip(text)) in Fillers then false
    else true
  }

  /**
   * A recognized segment. The offsets are whole milliseconds (the conversion
   * from float seconds is not part of this model); any field may be absent.
   */
  datatype Segment = Segment(start: Option<int>, end: Option<int>, text: Option<string>)

  /** `(seg.text or "").strip()`. */
  function CueText(seg: Segment): string {
    Strip(seg.text.GetOr(""))
  }

  /** One subtitle entry: its number, the offsets it spans and its text. */
  datatype Cue = Cue(index: nat, start: Option<int>, end: Option<int>, text: string)

  /** The cue that the `i`-th segment (counting from 1) produces when it is written. */
  function CueFor(i: nat, seg: Segment): Cue {
    Cue(i, seg.start, seg.end, CueText(seg))
  }

  /** `f"{i}\n{start} --> {end}\n{text}\n\n"` with both offsets formatted. */
  function Block(c: Cue): string {
    Digits(c.index) + "\n" + FormatTimestamp(c.start) + " --> " + FormatTimestamp(c.end) + "\n" + c.text + "\n\n"
  }

  /** The pieces `f` makes of the elements of `xs`, one after the other. */
  function Concat<T>(xs: seq<T>, f: T -> string): string {
    if xs == [] then "" else Concat(xs[..|xs| - 1], f) + f(xs[|xs| - 1])
  }

  /** The blocks of `cues`, one after the other. */
  function Render(cues: seq<Cue>): string {
    Concat(cues, Block)
  }

  /** `prev_text` used as a condition: false for `None` and for the empty string. */
  predicate Truthy(prev: Option<string>) {
    prev.Some? && prev.value != ""
  }

  /**
   * The loop's state after a prefix of the segments: `prev_text`,
   * `repeat_count`, the cues written so far and the texts a warning was
   * printed for.
   */
  datatype Fold = Fold(prev: Option<string>, repeat: nat, cues: seq<Cue>, warned: seq<string>)

  /** The state before the first segment. */
  const Start: Fold := Fold(None, 0, [], [])

  /** The loop body for the segment numbered `i`. */
  function Step(acc: Fold, i: nat, seg: Segment): Fold {
    var text := CueText(seg);
    if !IsMeaningful(text) then acc
    else if Truthy(acc.prev) && text == acc.prev.value then
      var count := acc.repeat + 1;
      var warned := if count == 3 then acc.warned + [text] else acc.warned;
      if count >= 3 then acc.(repeat := count, warned := warned)
      else Fold(Some(text), count, acc.cues + [CueFor(i, seg)], warned)
    else
      Fold(Some(text), 0, acc.cues + [CueFor(i, seg)], acc.warned)
  }

  /** The loop over all of `segs`, numbered from 1 as `enumerate(segments, start=1)` does. */
  function Run(segs: seq<Segment>): Fold {
    if segs == [] then Start
    else Step(Run(segs[..|segs| - 1]), |segs|, segs[|segs| - 1])
  }

  /** What the output file holds once every segment has been processed. */
  function Document(segs: seq<Segment>): string {
    Render(Run(segs).cues)
  }

  /** Writing one more block appends it to the document. */
  lemma RenderAppend(cues: seq<Cue>, c: Cue)
    ensures Render(cues + [c]) == Render(cues) + Block(c)
  {
    assert (cues + [c])[..|cues|] == cues;
  }

  /** The console line printed when a text reaches its fourth consecutive occurrence. */
  function WarningMessage(text: string): string {
    "UYARI: '" + text + "' metni 3 kez ard\U{131}\U{15f}\U{131}k tekrar ediyor. SRT'ye yaz\U{131}lmayacak."
  }

  /** The warning lines for `texts`, in order. */
  function Messages(texts: seq<string>): seq<string> {
    if texts == [] then [] else Messages(texts[..|texts| - 1]) + [WarningMessage(texts[|texts| - 1])]
  }

  /** One more warned text prints one more line. */
  lemma MessagesAppend(texts: seq<string>, t: string)
    ensures Messages(texts + [t]) == Messages(texts) + [WarningMessage(t)]
  {
    assert (texts + [t])[..|texts|] == texts;
  }

  /** The output file, opened for writing (and so emptied). */
  class SrtFile {
    var contents: string

    constructor Open()
      ensures contents == []
    {
      contents := [];
    }

    method Write(s: string)
      modifies this
      ensures contents == old(contents) + s
    {
      contents := contents + s;
    }
  }

  /**
   * `write_srt(segments, out_path)`: opens a fresh file and writes to it the
   * blocks of the cues `Run` selects; `printed` is what the loop prints to
   * standard output, one warning per text reaching its fourth consecutive
   * occurrence.
   */
  method WriteSrt(segments: seq<Segment>) returns (f: SrtFile, printed: seq<string>)
    ensures fresh(f)
    ensures f.contents == Document(segments)
    ensures printed == Messages(Run(segments).warned)
  {
    f := new SrtFile.Open();
    printed := [];
    var prevText: Option<string> := None;
    var repeatCount: nat := 0;
    ghost var acc := Start;
    for n := 0 to |segments|
      invariant acc == Run(segments[..n])
      invariant acc.prev == prevText && acc.repeat == repeatCount
      invariant f.contents == Render(acc.cues)
      invariant printed == Messages(acc.warned)
    {
      var i, seg := n + 1, segments[n];
      assert Run(segments[..n + 1]) == Step(acc, i, seg) by {
        assert segments[..n + 1][..n] == segments[..n];
      }
      ghost var before := acc;
      acc := Step(acc, i, seg);
      var start := FormatTimestamp(seg.start);
      var end := FormatTimestamp(seg.end);
      var text := Strip(seg.text.GetOr(""));
      if !IsMeaningful(text) {
        continue;
      }
      if Truthy(prevText) && text == prevText.value {
        repeatCount := repeatCount + 1;
        if repeatCount == 3 {
          printed := printed + [WarningMessage(text)];
          MessagesAppend(before.warned, text);
        }
        if repeatCount >= 3 {
          continue;
        }
      } else {
        repeatCount := 0;
      }
      prevText := Some(text);
      f.Write(Digits(i) + "\n" + start + " --> " + end + "\n" + text + "\n\n");
      RenderAppend(before.cues, CueFor(i, seg));
    }
    assert segments[..|segments|] == segments;
  }
}
