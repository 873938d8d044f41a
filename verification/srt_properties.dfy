/**
 * What the assembler guarantees, proved about the loop model `Srt.Run`:
 * which segments become cues and with which numbers, how repetitions are
 * suppressed, and that output is only ever appended.
 */
module SrtProperties {
  import opened Wrappers
  import opened Text
  import opened Srt

  // ---------------------------------------------------------------------
  // The meaningfulness filter

  /** The filter in one line: at least three characters once stripped, and not one of the four filler texts. */
  lemma MeaningfulExactly(text: string)
    ensures IsMeaningful(text) <==>
      |Strip(text)| >= 3 && Lower(Strip(text)) !in {"aaaa.", "hmm.", "mmm.", "..."}
  {
  }

  /** `write_srt` strips the text before filtering it; the filter strips again, which changes nothing. */
  lemma FilterIgnoresSurroundingSpace(text: string)
    ensures IsMeaningful(Strip(text)) == IsMeaningful(text)
  {
    StripIdempotent(text);
  }

  /** Meaningful text has at least three characters. */
  lemma MeaningfulIsLong(text: string)
    ensures IsMeaningful(text) ==> |text| >= 3
  {
    StripShape(text);
  }

  /** The filler list has no two-dot entry, yet a text that strips to `..` is rejected by its length. */
  lemma TwoDotsRejectedByLength(text: string)
    requires Strip(text) == ".."
    ensures ".." !in Fillers
    ensures !IsMeaningful(text)
  {
  }

  /** Two characters are too short, three suffice. */
  lemma ThreeCharactersSuffice()
    ensures !IsMeaningful("Hi") && IsMeaningful("Hi.")
  {
    assert Strip("Hi") == "Hi";
    assert Strip("Hi.") == "Hi." && Lower("Hi.") == "hi.";
  }

  /** Filler is recognised whatever its letter case and surrounding white space. */
  lemma FillerInAnyCase()
    ensures !IsMeaningful(" Hmm.\n") && !IsMeaningful("MMM.")
  {
    assert TrimStart(" Hmm.\n") == "Hmm.\n" && TrimEnd("Hmm.\n") == "Hmm.";
    assert Lower("Hmm.") == "hmm.";
    assert Strip("MMM.") == "MMM." && Lower("MMM.") == "mmm.";
  }

  /** Only exact filler is dropped: a longer hesitation is kept. */
  lemma FillerMatchedExactly()
    ensures IsMeaningful("Hmmmm.")
  {
    assert Strip("Hmmmm.") == "Hmmmm." && Lower("Hmmmm.") == "hmmmm.";
  }

  // ---------------------------------------------------------------------
  // Shape of the loop state and of the cues written

  /** The loop body either leaves the state alone or takes in the segment's text; it writes at most the segment's own cue. */
  lemma StepEffect(acc: Fold, i: nat, seg: Segment)
    ensures var r := Step(acc, i, seg);
      && (r == acc || (IsMeaningful(CueText(seg)) && r.prev == Some(CueText(seg))))
      && (r.cues == acc.cues || r.cues == acc.cues + [CueFor(i, seg)])
      && (r.warned == acc.warned || r.warned == acc.warned + [CueText(seg)])
      && (acc.prev.None? && r.prev.None? ==> r == acc)
  {
  }

  /** `prev_text` is always meaningful, stripped text, so never the empty string. */
  lemma {:induction false} PrevIsMeaningful(segs: seq<Segment>)
    ensures Run(segs).prev.Some? ==> IsMeaningful(Run(segs).prev.value) && Strip(Run(segs).prev.value) == Run(segs).prev.value
    decreases |segs|
  {
    if segs != [] {
      var rest, last := segs[..|segs| - 1], segs[|segs| - 1];
      PrevIsMeaningful(rest);
      StepEffect(Run(rest), |segs|, last);
      StripIdempotent(last.text.GetOr(""));
    }
  }

  /** Until the first meaningful segment nothing is counted, written or printed. */
  lemma {:induction false} NothingBeforeFirstMeaningful(segs: seq<Segment>)
    ensures Run(segs).prev.None? ==> Run(segs).repeat == 0 && Run(segs).cues == [] && Run(segs).warned == []
    decreases |segs|
  {
    if segs != [] {
      var rest, last := segs[..|segs| - 1], segs[|segs| - 1];
      NothingBeforeFirstMeaningful(rest);
      StepEffect(Run(rest), |segs|, last);
    }
  }

  /**
   * Every cue is the one its segment produces under its 1-based position in
   * the whole input, and the positions strictly increase, so dropped
   * segments leave gaps in the numbering.
   */
  lemma {:induction false} CuesNumberedByPosition(segs: seq<Segment>)
    ensures var cues := Run(segs).cues;
      && |cues| <= |segs|
      && (forall k :: 0 <= k < |cues| ==>
            1 <= cues[k].index <= |segs| && cues[k] == CueFor(cues[k].index, segs[cues[k].index - 1]))
      && (forall a, b :: 0 <= a < b < |cues| ==> cues[a].index < cues[b].index)
    decreases |segs|
  {
    if segs != [] {
      var rest, last := segs[..|segs| - 1], segs[|segs| - 1];
      CuesNumberedByPosition(rest);
      StepEffect(Run(rest), |segs|, last);
      assert forall j :: 0 <= j < |rest| ==> rest[j] == segs[j];
    }
  }

  /** Every cue carries the stripped text of its segment, which passes the filter and has at least three characters. */
  lemma CuesCarryMeaningfulText(segs: seq<Segment>)
    ensures forall k :: 0 <= k < |Run(segs).cues| ==>
      var c := Run(segs).cues[k];
      1 <= c.index <= |segs| && c.text == CueText(segs[c.index - 1]) && IsMeaningful(c.text) && |c.text| >= 3
  {
    forall k | 0 <= k < |Run(segs).cues| {
      CueCarriesMeaningfulText(segs, k);
    }
  }

  /** `CuesCarryMeaningfulText` for the `k`-th cue. */
  lemma CueCarriesMeaningfulText(segs: seq<Segment>, k: nat)
    requires k < |Run(segs).cues|
    ensures var c := Run(segs).cues[k];
      1 <= c.index <= |segs| && c.text == CueText(segs[c.index - 1]) && IsMeaningful(c.text) && |c.text| >= 3
  {
    var c := Run(segs).cues[k];
    assert 1 <= c.index <= |segs| && c == CueFor(c.index, segs[c.index - 1]) by {
      CuesNumberedByPosition(segs);
    }
    assert Written(Run(segs).cues, c.index);
    CueOnlyFromMeaningful(segs, c.index);
    MeaningfulIsLong(c.text);
  }

  /** A cue numbered `i` exists only when segment `i`'s text passed the filter. */
  lemma {:induction false} CueOnlyFromMeaningful(segs: seq<Segment>, i: nat)
    requires Written(Run(segs).cues, i)
    ensures 1 <= i <= |segs| && IsMeaningful(CueText(segs[i - 1]))
    decreases |segs|
  {
    CuesNumberedByPosition(segs);
    var rest := segs[..|segs| - 1];
    CuesNumberedByPosition(rest);
    if Written(Run(rest).cues, i) {
      CueOnlyFromMeaningful(rest, i);
    }
  }

  /** Some cue written so far is numbered `i`. */
  predicate Written(cues: seq<Cue>, i: nat) {
    exists j :: 0 <= j < |cues| && cues[j].index == i
  }

  /** Dropping the last element of `a + b`, for `b` non-empty, drops the last element of `b`. */
  lemma DropLast<T>(a: seq<T>, b: seq<T>)
    requires b != []
    ensures (a + b)[..|a + b| - 1] == a + b[..|b| - 1] && (a + b)[|a + b| - 1] == b[|b| - 1]
  {
  }

  /** A segment whose text fails the filter changes nothing: not the previous text, not the count, not the output. */
  lemma SkippedSegmentChangesNothing(segs: seq<Segment>, seg: Segment)
    requires !IsMeaningful(CueText(seg))
    ensures Run(segs + [seg]) == Run(segs)
  {
    assert (segs + [seg])[..|segs|] == segs;
  }

  /** A meaningful text other than the previous one is always written, and `repeat_count` starts over at 0. */
  lemma NewTextStartsOver(segs: seq<Segment>, seg: Segment)
    requires IsMeaningful(CueText(seg)) && Run(segs).prev != Some(CueText(seg))
    ensures var before, after := Run(segs), Run(segs + [seg]);
      && after.prev == Some(CueText(seg)) && after.repeat == 0
      && after.cues == before.cues + [CueFor(|segs| + 1, seg)]
      && after.warned == before.warned
  {
    RunSnoc(segs, seg);
  }

  /** Processing one more segment is one more step of the loop body, numbered after the others. */
  lemma RunSnoc(segs: seq<Segment>, seg: Segment)
    ensures Run(segs + [seg]) == Step(Run(segs), |segs| + 1, seg)
  {
    assert (segs + [seg])[..|segs|] == segs;
  }

  // ---------------------------------------------------------------------
  // Repeat suppression, against an independent description

  /**
   * How many times text `t` occurs at the end of `segs` among the meaningful
   * segments: segments that fail the filter are passed over, and the count
   * stops at the last meaningful segment with another text.
   */
  function Streak(segs: seq<Segment>, t: string): nat {
    if segs == [] then 0
    else
      var rest, last := segs[..|segs| - 1], CueText(segs[|segs| - 1]);
      if !IsMeaningful(last) then Streak(rest, t)
      else if last == t then Streak(rest, t) + 1
      else 0
  }

  /** Segment `k` (from 0) is written: it is meaningful and fewer than three meaningful copies of its text immediately precede it. */
  predicate Kept(segs: seq<Segment>, k: nat)
    requires k < |segs|
  {
    IsMeaningful(CueText(segs[k])) && Streak(segs[..k], CueText(segs[k])) < 3
  }

  /** Segment `k` (from 0) is the fourth consecutive meaningful copy of its text. */
  predicate Warns(segs: seq<Segment>, k: nat)
    requires k < |segs|
  {
    IsMeaningful(CueText(segs[k])) && Streak(segs[..k], CueText(segs[k])) == 3
  }

  /** The texts of the segments that are fourth copies, in input order. */
  function FourthCopies(segs: seq<Segment>): seq<string> {
    if segs == [] then []
    else FourthCopies(segs[..|segs| - 1]) + (if Warns(segs, |segs| - 1) then [CueText(segs[|segs| - 1])] else [])
  }

  /**
   * `repeat_count` is the length of the current streak less one: the text in
   * `prev_text` has occurred `repeat_count + 1` times in a row, and every
   * other text has no streak at all.
   */
  lemma {:induction false} RepeatCountIsStreak(segs: seq<Segment>)
    ensures var r := Run(segs);
      && (r.prev.None? ==> forall t :: Streak(segs, t) == 0)
      && (r.prev.Some? ==> Streak(segs, r.prev.value) == r.repeat + 1)
      && (r.prev.Some? ==> forall t :: t != r.prev.value ==> Streak(segs, t) == 0)
    decreases |segs|
  {
    if segs != [] {
      var rest, last := segs[..|segs| - 1], segs[|segs| - 1];
      RepeatCountIsStreak(rest);
      PrevIsMeaningful(rest);
    }
  }

  /** The one-step view of `Kept` and `Warns`: whether the last segment is written and whether it warns. */
  lemma LastSegmentDecision(segs: seq<Segment>)
    requires segs != []
    ensures var rest, last := segs[..|segs| - 1], segs[|segs| - 1];
      var before, after := Run(rest), Run(segs);
      && (Kept(segs, |segs| - 1) ==> after.cues == before.cues + [CueFor(|segs|, last)])
      && (!Kept(segs, |segs| - 1) ==> after.cues == before.cues)
      && (Warns(segs, |segs| - 1) ==> after.warned == before.warned + [CueText(last)])
      && (!Warns(segs, |segs| - 1) ==> after.warned == before.warned)
  {
    var rest := segs[..|segs| - 1];
    RepeatCountIsStreak(rest);
    PrevIsMeaningful(rest);
  }

  /**
   * The suppression rule stated without the state machine: segment `k` gets
   * a cue, numbered `k + 1`, exactly when it is meaningful and fewer than
   * three meaningful copies of its text immediately precede it.
   */
  lemma {:induction false} WrittenExactlyWhenKept(segs: seq<Segment>)
    ensures forall k :: 0 <= k < |segs| ==> (Written(Run(segs).cues, k + 1) <==> Kept(segs, k))
    decreases |segs|
  {
    if segs != [] {
      WrittenExactlyWhenKept(segs[..|segs| - 1]);
      forall k | 0 <= k < |segs| {
        WrittenAfterStep(segs, k);
      }
    }
  }

  /** One induction step of `WrittenExactlyWhenKept`, for segment `k`. */
  lemma WrittenAfterStep(segs: seq<Segment>, k: nat)
    requires k < |segs|
    requires var rest := segs[..|segs| - 1];
      k < |rest| ==> (Written(Run(rest).cues, k + 1) <==> Kept(rest, k))
    ensures Written(Run(segs).cues, k + 1) <==> Kept(segs, k)
  {
    var rest := segs[..|segs| - 1];
    LastSegmentDecision(segs);
    CuesNumberedByPosition(rest);
    if k < |rest| {
      EarlierCuesKept(segs, k);
      assert segs[..k] == rest[..k] && segs[k] == rest[k];
    } else {
      LastCueWrittenWhenKept(segs);
    }
  }

  /** Processing one more segment neither adds nor removes a cue for an earlier one. */
  lemma EarlierCuesKept(segs: seq<Segment>, k: nat)
    requires k + 1 < |segs|
    ensures Written(Run(segs).cues, k + 1) <==> Written(Run(segs[..|segs| - 1]).cues, k + 1)
  {
    StepKeepsWritten(Run(segs[..|segs| - 1]), |segs|, segs[|segs| - 1], k + 1);
  }

  /** The loop body adds no cue numbered other than its own segment's. */
  lemma StepKeepsWritten(acc: Fold, i: nat, seg: Segment, m: nat)
    requires m != i
    ensures Written(Step(acc, i, seg).cues, m) <==> Written(acc.cues, m)
  {
    StepEffect(acc, i, seg);
    var before, after := acc.cues, Step(acc, i, seg).cues;
    if Written(after, m) {
      var j :| 0 <= j < |after| && after[j].index == m;
      assert j < |before| && before[j].index == m;
    }
    if Written(before, m) {
      var j :| 0 <= j < |before| && before[j].index == m;
      assert after[j] == before[j];
    }
  }

  /** The last segment has a cue exactly when it is kept. */
  lemma LastCueWrittenWhenKept(segs: seq<Segment>)
    requires segs != []
    ensures Written(Run(segs).cues, |segs|) <==> Kept(segs, |segs| - 1)
  {
    var n := |segs|;
    var rest := segs[..n - 1];
    LastSegmentDecision(segs);
    CuesNumberedByPosition(rest);
    var before, after := Run(rest).cues, Run(segs).cues;
    if Kept(segs, n - 1) {
      assert after[|before|].index == n;
    } else {
      assert forall j :: 0 <= j < |after| ==> after[j].index < n;
    }
  }

  /** A warning is printed exactly for the fourth consecutive meaningful copy of a text, once per streak. */
  lemma {:induction false} WarnedExactlyAtFourthCopy(segs: seq<Segment>)
    ensures Run(segs).warned == FourthCopies(segs)
    decreases |segs|
  {
    if segs != [] {
      WarnedExactlyAtFourthCopy(segs[..|segs| - 1]);
      LastSegmentDecision(segs);
    }
  }

  /** The cues of `segs` when every one of them is written, numbered on from `offset`. */
  function CuesFrom(offset: nat, segs: seq<Segment>): seq<Cue> {
    if segs == [] then []
    else CuesFrom(offset, segs[..|segs| - 1]) + [CueFor(offset + |segs|, segs[|segs| - 1])]
  }

  /** `CuesFrom(offset, segs)` has one cue per segment, the `k`-th numbered `offset + k + 1`. */
  lemma {:induction false} CuesFromShape(offset: nat, segs: seq<Segment>)
    ensures var r := CuesFrom(offset, segs);
      |r| == |segs| && forall k :: 0 <= k < |r| ==> r[k] == CueFor(offset + k + 1, segs[k])
    decreases |segs|
  {
    if segs != [] {
      CuesFromShape(offset, segs[..|segs| - 1]);
    }
  }

  /**
   * A streak of one meaningful text `t` starting after `pre`: the first
   * three copies are written, numbered by their positions, every later copy
   * is dropped, a warning for `t` is printed once, at the fourth copy, and
   * `repeat_count` ends one below the length of the streak.
   */
  lemma {:induction false} RepeatedText(pre: seq<Segment>, run: seq<Segment>, t: string)
    requires IsMeaningful(t)
    requires forall seg <- run :: CueText(seg) == t
    requires Run(pre).prev != Some(t)
    ensures var before, after := Run(pre), Run(pre + run);
      && (run != [] ==> after.prev == Some(t) && after.repeat == |run| - 1)
      && after.cues == before.cues + CuesFrom(|pre|, run[..if |run| < 3 then |run| else 3])
      && after.warned == before.warned + (if |run| >= 4 then [t] else [])
    decreases |run|
  {
    if run == [] {
      assert pre + run == pre;
    } else {
      var run' := run[..|run| - 1];
      assert run[|run| - 1] in run;
      RepeatedText(pre, run', t);
      if run' == [] {
        assert pre + run' == pre;
      }
      RepeatedTextLink(pre, run, t);
    }
  }

  /** `Run(pre + run)` is one step past `Run(pre + run')`, where `run'` drops the last copy. */
  lemma RepeatedTextLink(pre: seq<Segment>, run: seq<Segment>, t: string)
    requires run != [] && IsMeaningful(t) && CueText(run[|run| - 1]) == t
    requires var run' := run[..|run| - 1]; var before, mid := Run(pre), Run(pre + run');
      && (run' == [] ==> mid.prev != Some(t))
      && (run' != [] ==> mid.prev == Some(t) && mid.repeat == |run'| - 1)
      && mid.cues == before.cues + CuesFrom(|pre|, run'[..if |run'| < 3 then |run'| else 3])
      && mid.warned == before.warned + (if |run'| >= 4 then [t] else [])
    ensures var before, after := Run(pre), Run(pre + run);
      && after.prev == Some(t) && after.repeat == |run| - 1
      && after.cues == before.cues + CuesFrom(|pre|, run[..if |run| < 3 then |run| else 3])
      && after.warned == before.warned + (if |run| >= 4 then [t] else [])
  {
    DropLast(pre, run);
    RepeatedTextStep(Run(pre), Run(pre + run[..|run| - 1]), |pre|, run, t);
  }

  /**
   * The induction step of `RepeatedText`, on loop states: `mid` is the state
   * after `before` and all copies of `t` in `run` but the last.
   */
  lemma RepeatedTextStep(before: Fold, mid: Fold, offset: nat, run: seq<Segment>, t: string)
    requires run != [] && IsMeaningful(t) && CueText(run[|run| - 1]) == t
    requires var run' := run[..|run| - 1];
      && (run' == [] ==> mid.prev != Some(t))
      && (run' != [] ==> mid.prev == Some(t) && mid.repeat == |run'| - 1)
      && mid.cues == before.cues + CuesFrom(offset, run'[..if |run'| < 3 then |run'| else 3])
      && mid.warned == before.warned + (if |run'| >= 4 then [t] else [])
    ensures var after := Step(mid, offset + |run|, run[|run| - 1]);
      && after.prev == Some(t) && after.repeat == |run| - 1
      && after.cues == before.cues + CuesFrom(offset, run[..if |run| < 3 then |run| else 3])
      && after.warned == before.warned + (if |run| >= 4 then [t] else [])
  {
    var run', last := run[..|run| - 1], run[|run| - 1];
    var m := |run'|;
    StreakStep(mid, offset + |run|, last, t, m);
    if m < 3 {
      assert run'[..m] == run' && run[..|run|] == run;
    } else {
      assert run[..3] == run'[..3];
    }
  }

  /** One more copy of `t`, the `m + 1`-th in a row: written while `m < 3`, warned about when `m == 3`. */
  lemma StreakStep(acc: Fold, i: nat, seg: Segment, t: string, m: nat)
    requires IsMeaningful(t) && CueText(seg) == t
    requires m == 0 ==> acc.prev != Some(t)
    requires m > 0 ==> acc.prev == Some(t) && acc.repeat == m - 1
    ensures var r := Step(acc, i, seg);
      && r.prev == Some(t) && r.repeat == m
      && r.cues == acc.cues + (if m < 3 then [CueFor(i, seg)] else [])
      && r.warned == acc.warned + (if m == 3 then [t] else [])
  {
    assert t != [];
  }

  /** Five segments reading `OK.`: three cues, numbered 1 to 3, and one warning. */
  lemma FiveIdenticalSegments()
    ensures var ok := Segment(None, None, Some("OK."));
      var r := Run([ok, ok, ok, ok, ok]);
      && |r.cues| == 3 && r.cues[0].index == 1 && r.cues[1].index == 2 && r.cues[2].index == 3
      && r.warned == ["OK."]
  {
    var ok := Segment(None, None, Some("OK."));
    var segs := [ok, ok, ok, ok, ok];
    StripKeepsTrimmed("OK.");
    assert Lower("OK.") == "ok.";
    assert [] + segs == segs;
    RepeatedText([], segs, "OK.");
    CuesFromShape(0, segs[..3]);
  }

  /** A dropped segment leaves a gap: a too-short first segment makes the first cue number 2. */
  lemma NumberingKeepsGaps()
    ensures var segs := [Segment(None, None, Some("ok")), Segment(None, None, Some("Hi."))];
      var cues := Run(segs).cues;
      |cues| == 1 && cues[0].index == 2 && cues[0].text == "Hi."
  {
    var short, hi := Segment(None, None, Some("ok")), Segment(None, None, Some("Hi."));
    assert !IsMeaningful(CueText(short)) by {
      MeaningfulIsLong(CueText(short));
      StripKeepsTrimmed("ok");
    }
    StripKeepsTrimmed("Hi.");
    assert IsMeaningful(CueText(hi)) by {
      ThreeCharactersSuffice();
    }
    assert Run([short]) == Start by {
      assert [short][..0] == [];
    }
    assert Run([short, hi]) == Step(Start, 2, hi) by {
      assert [short, hi][..1] == [short];
    }
  }

  // ---------------------------------------------------------------------
  // Append-only output

  /** The document of a list of cues is the documents of any prefix and of the rest, one after the other. */
  lemma RenderSplit(cues: seq<Cue>, n: nat)
    requires n <= |cues|
    ensures Render(cues) == Render(cues[..n]) + Render(cues[n..])
  {
    ConcatSplit(cues, Block, n);
  }

  lemma {:induction false} ConcatSplit<T>(xs: seq<T>, f: T -> string, n: nat)
    requires n <= |xs|
    ensures Concat(xs, f) == Concat(xs[..n], f) + Concat(xs[n..], f)
    decreases |xs|
  {
    if n == |xs| {
      assert xs[..n] == xs && xs[n..] == [];
    } else {
      var init, x := xs[..|xs| - 1], xs[|xs| - 1];
      ConcatSplit(init, f, n);
      assert init[..n] == xs[..n];
      var tail := xs[n..];
      assert tail[..|tail| - 1] == init[n..] && tail[|tail| - 1] == x;
      var a, b, d := Concat(init[..n], f), Concat(init[n..], f), f(x);
      assert (a + b) + d == a + (b + d);
    }
  }

  /** Processing more segments only appends cues and warnings: what was there stays, in place. */
  lemma {:induction false} LogsOnlyGrow(segs: seq<Segment>, more: seq<Segment>)
    ensures var r, r' := Run(segs), Run(segs + more);
      && |r.cues| <= |r'.cues| && r'.cues == r.cues + r'.cues[|r.cues|..]
      && |r.warned| <= |r'.warned| && r'.warned == r.warned + r'.warned[|r.warned|..]
    decreases |more|
  {
    if more == [] {
      assert segs + more == segs;
    } else {
      var more' := more[..|more| - 1];
      LogsOnlyGrow(segs, more');
      DropLast(segs, more);
      StepKeepsLogs(Run(segs), Run(segs + more'), |segs + more|, more[|more| - 1]);
    }
  }

  /** The loop body keeps every cue and warning of the state, in place. */
  lemma StepKeepsLogs(r: Fold, mid: Fold, i: nat, seg: Segment)
    requires |r.cues| <= |mid.cues| && mid.cues == r.cues + mid.cues[|r.cues|..]
    requires |r.warned| <= |mid.warned| && mid.warned == r.warned + mid.warned[|r.warned|..]
    ensures var after := Step(mid, i, seg);
      && |r.cues| <= |after.cues| && after.cues == r.cues + after.cues[|r.cues|..]
      && |r.warned| <= |after.warned| && after.warned == r.warned + after.warned[|r.warned|..]
  {
    StepEffect(mid, i, seg);
  }

  /**
   * Writes are append-only: the document for a longer input is the document
   * for its prefix followed by the blocks of the cues the rest adds.
   */
  lemma OutputOnlyGrows(segs: seq<Segment>, more: seq<Segment>)
    ensures var cues, cues' := Run(segs).cues, Run(segs + more).cues;
      && |cues| <= |cues'|
      && Document(segs + more) == Document(segs) + Render(cues'[|cues|..])
  {
    var cues, cues' := Run(segs).cues, Run(segs + more).cues;
    LogsOnlyGrow(segs, more);
    RenderSplit(cues', |cues|);
  }
}
