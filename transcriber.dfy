/** `transcribe`: turn the gaps between snare onsets into a list of hits and
    rests, splitting a figure that crosses a barline into a hit that fills
    the measure and a rest that spills into the next one. */
module Transcriber {
  import opened Common
  import opened NumPy
  import opened TimeFigure

  /** A music21 snare hit or rest, reduced to its figure in quarter notes. */
  datatype Event = Hit(figure: real) | Rest(figure: real)

  /** The state of the transcription loop: `acc_time_figure` and `notes`. */
  datatype Walk = Walk(acc: real, notes: seq<Event>)

  function Sum(xs: seq<real>): real {
    if xs == [] then 0.0 else Sum(xs[..|xs| - 1]) + Last(xs)
  }

  /** Total length of a list of events, in quarter notes. */
  function Total(events: seq<Event>): real {
    if events == [] then 0.0 else Total(events[..|events| - 1]) + Last(events).figure
  }

  function CountHits(events: seq<Event>): nat {
    if events == [] then 0 else CountHits(events[..|events| - 1]) + (if Last(events).Hit? then 1 else 0)
  }

  function CountRests(events: seq<Event>): nat {
    if events == [] then 0 else CountRests(events[..|events| - 1]) + (if Last(events).Rest? then 1 else 0)
  }

  lemma {:induction false} TotalAppend(a: seq<Event>, b: seq<Event>)
    ensures Total(a + b) == Total(a) + Total(b)
    ensures CountHits(a + b) == CountHits(a) + CountHits(b)
    ensures CountRests(a + b) == CountRests(a) + CountRests(b)
    decreases |b|
  {
    if b != [] {
      var front := b[..|b| - 1];
      assert (a + b)[..|a + b| - 1] == a + front;
      assert Last(a + b) == Last(b);
      TotalAppend(a, front);
    } else {
      assert a + b == a;
    }
  }

  /** The rounded running figure exceeds the measure: the figure is split. */
  predicate Overflows(acc: real, figure: real, limit: real) {
    Round2(acc + figure) > limit
  }

  /** A figure that ends a measure: it overflows, or it lands (within the
      tolerance of `np.isclose`) on the barline and resets the count. */
  predicate Closes(acc: real, figure: real, limit: real) {
    Overflows(acc, figure, limit) || IsClose(acc + figure, limit)
  }

  /** By how much a figure that resets the count missed the barline. */
  function Slack(acc: real, figure: real, limit: real): real {
    if !Overflows(acc, figure, limit) && IsClose(acc + figure, limit) then acc + figure - limit else 0.0
  }

  /** One turn of the transcription loop for the matched `figure`, with
      `limit` quarter notes to a measure. */
  function Step(w: Walk, figure: real, limit: real): (w': Walk)
  {
    if Overflows(w.acc, figure, limit) then
      var noteFigure := limit - w.acc;
      var restFigure := figure - noteFigure;
      Walk(restFigure, w.notes + [Hit(noteFigure), Rest(restFigure)])
    else
      var acc := w.acc + figure;
      Walk(if IsClose(acc, limit) then 0.0 else acc, w.notes + [Hit(figure)])
  }

  /** The loop over the matched figures, from `acc = 0` and no notes. */
  function Run(figures: seq<real>, limit: real): Walk {
    if figures == [] then Walk(0.0, [])
    else Step(Run(figures[..|figures| - 1], limit), Last(figures), limit)
  }

  /** How many measures the figures closed. */
  function Closings(figures: seq<real>, limit: real): nat {
    if figures == [] then 0
    else
      var front := figures[..|figures| - 1];
      Closings(front, limit) + (if Closes(Run(front, limit).acc, Last(figures), limit) then 1 else 0)
  }

  /** How many figures were split at a barline. */
  function Splits(figures: seq<real>, limit: real): nat {
    if figures == [] then 0
    else
      var front := figures[..|figures| - 1];
      Splits(front, limit) + (if Overflows(Run(front, limit).acc, Last(figures), limit) then 1 else 0)
  }

  /** `count` times `length`, added up one measure at a time. */
  function Repeat(count: nat, length: real): real {
    if count == 0 then 0.0 else Repeat(count - 1, length) + length
  }

  /** The accumulated amount by which resets missed their barlines. */
  function Drift(figures: seq<real>, limit: real): real {
    if figures == [] then 0.0
    else
      var front := figures[..|figures| - 1];
      Drift(front, limit) + Slack(Run(front, limit).acc, Last(figures), limit)
  }

  /** The figure matched to each gap, one gap after the other. */
  function MatchedFigures(gaps: seq<real>, referenceNote: int, referenceDuration: real): (m: seq<real>)
    requires referenceNote != 0
    ensures |m| == |gaps|
  {
    if gaps == [] then []
    else
      var front := MatchedFigures(gaps[..|gaps| - 1], referenceNote, referenceDuration);
      front + [BestFigure(Last(gaps), referenceNote, referenceDuration)]
  }

  /** Each gap gets the figure `find_best_time_figure` returns for it. */
  lemma {:induction false} MatchedFigureAt(gaps: seq<real>, referenceNote: int, referenceDuration: real, i: int)
    requires referenceNote != 0 && 0 <= i < |gaps|
    ensures MatchedFigures(gaps, referenceNote, referenceDuration)[i] == BestFigure(gaps[i], referenceNote, referenceDuration)
  {
    if i < |gaps| - 1 {
      MatchedFigureAt(gaps[..|gaps| - 1], referenceNote, referenceDuration, i);
    }
  }

  /** Quarter notes in a measure of `notesPerMeasure / referenceNote`. */
  function MeasureLimit(notesPerMeasure: int, referenceNote: int): real
    requires referenceNote != 0
  {
    notesPerMeasure as real * (4.0 / referenceNote as real)
  }

  /** The limit counts the measure in quarter notes: `notesPerMeasure`
      reference notes of `4 / referenceNote` quarter notes each. */
  lemma MeasureLimitInQuarters(notesPerMeasure: int, referenceNote: int)
    requires referenceNote != 0
    ensures MeasureLimit(notesPerMeasure, referenceNote) * referenceNote as real == 4.0 * notesPerMeasure as real
    ensures referenceNote == 4 ==> MeasureLimit(notesPerMeasure, referenceNote) == notesPerMeasure as real
  {
    var q := referenceNote as real;
    assert (4.0 / q) * q == 4.0;
  }

  /** The figures `transcribe` matches to the gaps between onsets, with the
      first metronome interval as the reference note's duration. */
  function Figures(snareTimes: seq<real>, metronome: seq<real>, referenceNote: int): (m: seq<real>)
    requires |metronome| >= 2 && referenceNote != 0
  {
    MatchedFigures(Diff(snareTimes), referenceNote, metronome[1] - metronome[0])
  }

  /** What `transcribe` returns or raises, for a time signature already
      split into `notesPerMeasure / referenceNote`. */
  function Transcription(snareTimes: seq<real>, metronome: seq<real>, notesPerMeasure: int, referenceNote: int)
    : (r: Result<seq<Event>>)
    ensures r == Err(IndexError) <==> |metronome| < 2
    ensures r == Err(ZeroDivision) <==> |metronome| >= 2 && referenceNote == 0
    ensures r.Ok? <==> |metronome| >= 2 && referenceNote != 0
    ensures r.Ok? ==> r.value != [] && Last(r.value).Hit?
  {
    if |metronome| < 2 then Err(IndexError)
    else if referenceNote == 0 then Err(ZeroDivision)
    else
      var limit := MeasureLimit(notesPerMeasure, referenceNote);
      var w := Run(Figures(snareTimes, metronome, referenceNote), limit);
      Ok(w.notes + [Hit(limit - w.acc)])
  }

  /** The body of the loop of `transcribe` for one matched figure: split it
      at the barline into a hit and a rest when the rounded running figure
      passes the measure, otherwise add a hit and reset the count when the
      measure is full. */
  method Place(accTimeFigure: real, notes: seq<Event>, figure: real, limit: real)
    returns (newAcc: real, newNotes: seq<Event>)
    ensures Walk(newAcc, newNotes) == Step(Walk(accTimeFigure, notes), figure, limit)
  {
    var total := Round2(accTimeFigure + figure);
    if total > limit {
      var noteFigure := limit - accTimeFigure;
      var restFigure := figure - noteFigure;
      newNotes := notes + [Hit(noteFigure), Rest(restFigure)];
      newAcc := restFigure;
    } else {
      newNotes := notes + [Hit(figure)];
      newAcc := accTimeFigure + figure;
      if IsClose(newAcc, limit) {
        newAcc := 0.0;
      }
    }
  }

  /** The loop of `transcribe`: match each gap, then either split the figure
      at the barline into a hit and a rest, or add a hit and reset the count
      when the measure is full. */
  method Quantise(gaps: seq<real>, referenceNote: int, referenceNoteDuration: real, limit: real)
    returns (accTimeFigure: real, notes: seq<Event>)
    requires referenceNote != 0
    ensures Walk(accTimeFigure, notes) == Run(MatchedFigures(gaps, referenceNote, referenceNoteDuration), limit)
  {
    accTimeFigure := 0.0;
    notes := [];
    ghost var figures := MatchedFigures(gaps, referenceNote, referenceNoteDuration);
    for i := 0 to |gaps|
      invariant Walk(accTimeFigure, notes) == Run(figures[..i], limit)
    {
      var matched := FindBestTimeFigure(gaps[i], referenceNote, referenceNoteDuration);
      var figure := matched.value;
      MatchedFigureAt(gaps, referenceNote, referenceNoteDuration, i);
      accTimeFigure, notes := Place(accTimeFigure, notes, figure, limit);
      assert figures[..i + 1][..i] == figures[..i];
    }
    assert figures[..|gaps|] == figures;
  }

  /** `transcribe`: check the metronome and the reference note, run the loop
      over the gaps between onsets, and give the last onset what is left of
      the measure. */
  method Transcribe(snareTimes: seq<real>, metronome: seq<real>, notesPerMeasure: int, referenceNote: int)
    returns (r: Result<seq<Event>>)
    ensures r == Transcription(snareTimes, metronome, notesPerMeasure, referenceNote)
  {
    if |metronome| < 2 {
      return Err(IndexError);
    }
    var referenceNoteDuration := metronome[1] - metronome[0];
    if referenceNote == 0 {
      return Err(ZeroDivision);
    }
    var limit := notesPerMeasure as real * (4.0 / referenceNote as real);
    var gaps := Diff(snareTimes);
    var accTimeFigure, notes := Quantise(gaps, referenceNote, referenceNoteDuration, limit);
    TranscriptionOfRun(snareTimes, metronome, notesPerMeasure, referenceNote, Figures(snareTimes, metronome, referenceNote), limit);
    notes := notes + [Hit(limit - accTimeFigure)];
    return Ok(notes);
  }

  /** One turn of the loop emits events lasting exactly the matched figure.
      When the rounded running figure passes the measure, the hit fills the
      measure exactly and the rest carries over as the new count; otherwise
      one hit is added and the count either grows by the figure or, landing
      on the barline, starts again from zero. */
  lemma StepSplitsAtBarline(w: Walk, figure: real, limit: real)
    ensures var w' := Step(w, figure, limit); var added := w'.notes[|w.notes|..];
      && w'.notes == w.notes + added
      && Total(added) == figure
      && (Overflows(w.acc, figure, limit) ==>
            && |added| == 2 && added[0].Hit? && added[1].Rest?
            && w.acc + added[0].figure == limit
            && w'.acc == added[1].figure
            && w.acc + figure > limit - 0.005)
      && (!Overflows(w.acc, figure, limit) ==>
            && added == [Hit(figure)]
            && w.acc + figure <= limit + 0.005
            && (if IsClose(w.acc + figure, limit) then w'.acc == 0.0 else w'.acc == w.acc + figure))
  {
    var w' := Step(w, figure, limit);
    var added := w'.notes[|w.notes|..];
    assert w'.notes == w.notes + added;
    if Overflows(w.acc, figure, limit) {
      assert added == [Hit(limit - w.acc), Rest(figure - (limit - w.acc))];
      assert added[..1] == [added[0]];
      assert Total(added) == Total([added[0]]) + added[1].figure;
      assert Total([added[0]]) == Total([]) + added[0].figure;
    } else {
      assert added == [Hit(figure)];
      assert Total(added) == Total([]) + figure;
    }
  }

  /** One turn puts the figure into the notes, as one hit, and adds a rest
      only when it splits the figure. */
  lemma StepKeepsTime(w: Walk, figure: real, limit: real)
    ensures var w' := Step(w, figure, limit);
      && Total(w'.notes) == Total(w.notes) + figure
      && CountHits(w'.notes) == CountHits(w.notes) + 1
      && CountRests(w'.notes) == CountRests(w.notes) + (if Overflows(w.acc, figure, limit) then 1 else 0)
  {
    var w' := Step(w, figure, limit);
    StepSplitsAtBarline(w, figure, limit);
    var added := w'.notes[|w.notes|..];
    TotalAppend(w.notes, added);
    if Overflows(w.acc, figure, limit) {
      assert added[..1] == [added[0]];
      assert CountHits([added[0]]) == 1;
      assert CountHits(added) == CountHits([added[0]]);
      assert CountRests(added) == CountRests([added[0]]) + 1;
    } else {
      assert CountHits(added) == 1;
      assert CountRests(added) == 0;
    }
  }

  /** One turn's count: it grows by the figure, less a measure when the turn
      closes one, off the barline by the slack of a reset, which is within
      the tolerance of `np.isclose`. */
  lemma StepCount(w: Walk, figure: real, limit: real)
    ensures var w' := Step(w, figure, limit);
      && w.acc + figure == w'.acc + (if Closes(w.acc, figure, limit) then limit else 0.0) + Slack(w.acc, figure, limit)
      && Abs(Slack(w.acc, figure, limit)) <= (if Closes(w.acc, figure, limit) then Tolerance(limit) else 0.0)
  {
  }

  /** Over the whole loop, nothing is lost: the notes last as long as the
      matched figures, each figure gives exactly one hit, and a rest comes
      only with a split. */
  lemma {:induction false} RunKeepsTime(figures: seq<real>, limit: real)
    ensures Total(Run(figures, limit).notes) == Sum(figures)
    ensures CountHits(Run(figures, limit).notes) == |figures|
    ensures CountRests(Run(figures, limit).notes) == Splits(figures, limit)
  {
    if figures != [] {
      var front := figures[..|figures| - 1];
      RunKeepsTime(front, limit);
      StepKeepsTime(Run(front, limit), Last(figures), limit);
    }
  }

  /** The matched figures fill the closed measures, each off the barline by
      the slack of its reset, plus the running count. */
  lemma {:induction false} RunBalance(figures: seq<real>, limit: real)
    ensures Sum(figures) == Repeat(Closings(figures, limit), limit) + Drift(figures, limit) + Run(figures, limit).acc
  {
    if figures != [] {
      var front := figures[..|figures| - 1];
      var f := Last(figures);
      RunBalance(front, limit);
      var before := Run(front, limit);
      StepCount(before, f, limit);
      var c := Closings(front, limit);
      if Closes(before.acc, f, limit) {
        assert Closings(figures, limit) == c + 1;
      } else {
        assert Closings(figures, limit) == c;
      }
    }
  }

  /** Each closed measure is off the barline by at most the tolerance of
      `np.isclose`. */
  lemma {:induction false} DriftBounded(figures: seq<real>, limit: real)
    ensures Abs(Drift(figures, limit)) <= Repeat(Closings(figures, limit), Tolerance(limit))
  {
    if figures != [] {
      var front := figures[..|figures| - 1];
      var f := Last(figures);
      DriftBounded(front, limit);
      var before := Run(front, limit);
      StepCount(before, f, limit);
      var c := Closings(front, limit);
      if Closes(before.acc, f, limit) {
        assert Closings(figures, limit) == c + 1;
      } else {
        assert Closings(figures, limit) == c;
      }
    }
  }

  /** Appending one event counts it as a hit or as a rest. */
  lemma CountsAppend(events: seq<Event>, e: Event)
    ensures CountHits(events + [e]) == CountHits(events) + (if e.Hit? then 1 else 0)
    ensures CountRests(events + [e]) == CountRests(events) + (if e.Rest? then 1 else 0)
  {
    assert (events + [e])[..|events|] == events;
  }

  lemma {:induction false} LengthCountsEvents(events: seq<Event>)
    ensures |events| == CountHits(events) + CountRests(events)
  {
    if events != [] {
      LengthCountsEvents(events[..|events| - 1]);
    }
  }

  /** The result of `transcribe`, given its matched figures and its limit. */
  lemma TranscriptionOfRun(snareTimes: seq<real>, metronome: seq<real>, notesPerMeasure: int, referenceNote: int,
                           figures: seq<real>, limit: real)
    requires |metronome| >= 2 && referenceNote != 0
    requires figures == Figures(snareTimes, metronome, referenceNote)
    requires limit == MeasureLimit(notesPerMeasure, referenceNote)
    ensures Transcription(snareTimes, metronome, notesPerMeasure, referenceNote)
      == Ok(Run(figures, limit).notes + [Hit(limit - Run(figures, limit).acc)])
  {
  }

  /** A result of `transcribe` is the loop's notes followed by one hit that
      brings the count of the last measure up to the limit. */
  lemma TranscriptionShape(snareTimes: seq<real>, metronome: seq<real>, notesPerMeasure: int, referenceNote: int,
                           out: seq<Event>)
    requires Transcription(snareTimes, metronome, notesPerMeasure, referenceNote) == Ok(out)
    ensures |metronome| >= 2 && referenceNote != 0
    ensures out == Run(Figures(snareTimes, metronome, referenceNote), MeasureLimit(notesPerMeasure, referenceNote)).notes
      + [Last(out)]
    ensures Last(out).Hit?
    ensures Run(Figures(snareTimes, metronome, referenceNote), MeasureLimit(notesPerMeasure, referenceNote)).acc
      + Last(out).figure == MeasureLimit(notesPerMeasure, referenceNote)
  {
    TranscriptionOfRun(snareTimes, metronome, notesPerMeasure, referenceNote,
                       Figures(snareTimes, metronome, referenceNote), MeasureLimit(notesPerMeasure, referenceNote));
  }

  /** A result of `transcribe` has one hit per onset (one for no onset at
      all), one rest per split figure, and nothing else. */
  lemma TranscriptionCounts(snareTimes: seq<real>, metronome: seq<real>, notesPerMeasure: int, referenceNote: int,
                            out: seq<Event>)
    requires Transcription(snareTimes, metronome, notesPerMeasure, referenceNote) == Ok(out)
    ensures |metronome| >= 2 && referenceNote != 0
    ensures CountHits(out) == (if snareTimes == [] then 1 else |snareTimes|)
    ensures CountRests(out) == Splits(Figures(snareTimes, metronome, referenceNote), MeasureLimit(notesPerMeasure, referenceNote))
    ensures |out| == CountHits(out) + CountRests(out)
  {
    var limit := MeasureLimit(notesPerMeasure, referenceNote);
    var figures := Figures(snareTimes, metronome, referenceNote);
    TranscriptionOfRun(snareTimes, metronome, notesPerMeasure, referenceNote, figures, limit);
    var w := Run(figures, limit);
    RunKeepsTime(figures, limit);
    CountsAppend(w.notes, Hit(limit - w.acc));
    LengthCountsEvents(out);
  }

  /** Notes that fill `count` measures up to `drift`, with `w.acc` counted
      into the open one, are completed by a hit for what is left of it. */
  lemma FinalHitCloses(w: Walk, limit: real, count: nat, drift: real)
    requires Total(w.notes) == Repeat(count, limit) + drift + w.acc
    ensures Total(w.notes + [Hit(limit - w.acc)]) == Repeat(count + 1, limit) + drift
  {
    TotalAppend(w.notes, [Hit(limit - w.acc)]);
    assert Total([Hit(limit - w.acc)]) == limit - w.acc;
  }

  /** A result of `transcribe` lasts a whole number of measures (the closed
      ones and the last one), up to the drift that `np.isclose` lets
      through at each reset; `DriftBounded` bounds that drift. */
  lemma TranscriptionFillsMeasures(snareTimes: seq<real>, metronome: seq<real>, notesPerMeasure: int, referenceNote: int,
                                   out: seq<Event>)
    requires Transcription(snareTimes, metronome, notesPerMeasure, referenceNote) == Ok(out)
    ensures |metronome| >= 2 && referenceNote != 0
    ensures Total(out) == Repeat(Closings(Figures(snareTimes, metronome, referenceNote), MeasureLimit(notesPerMeasure, referenceNote)) + 1,
                                 MeasureLimit(notesPerMeasure, referenceNote))
      + Drift(Figures(snareTimes, metronome, referenceNote), MeasureLimit(notesPerMeasure, referenceNote))
  {
    var limit := MeasureLimit(notesPerMeasure, referenceNote);
    var figures := Figures(snareTimes, metronome, referenceNote);
    TranscriptionOfRun(snareTimes, metronome, notesPerMeasure, referenceNote, figures, limit);
    var w := Run(figures, limit);
    RunKeepsTime(figures, limit);
    RunBalance(figures, limit);
    FinalHitCloses(w, limit, Closings(figures, limit), Drift(figures, limit));
  }

  /** With fewer than two onsets there is no gap to match: the output is a
      single hit lasting a whole measure. */
  lemma ShortOnsetList(snareTimes: seq<real>, metronome: seq<real>, notesPerMeasure: int, referenceNote: int)
    requires |snareTimes| < 2 && |metronome| >= 2 && referenceNote != 0
    ensures Transcription(snareTimes, metronome, notesPerMeasure, referenceNote)
      == Ok([Hit(MeasureLimit(notesPerMeasure, referenceNote))])
  {
    assert Diff(snareTimes) == [];
    var figures := MatchedFigures(Diff(snareTimes), referenceNote, metronome[1] - metronome[0]);
    assert figures == [];
    var limit := MeasureLimit(notesPerMeasure, referenceNote);
    assert Run(figures, limit) == Walk(0.0, []);
    assert Run(figures, limit).notes + [Hit(limit - 0.0)] == [Hit(limit)];
  }

  /** Five onsets a second apart against a 60 BPM quarter-note metronome in
      4/4: four quarter notes, and the last onset gets a whole measure. */
  lemma QuarterNotesFillOneMeasure()
    ensures Transcription([0.0, 1.0, 2.0, 3.0, 4.0], [0.0, 1.0, 2.0, 3.0], 4, 4)
      == Ok([Hit(1.0), Hit(1.0), Hit(1.0), Hit(1.0), Hit(4.0)])
  {
    var times := [0.0, 1.0, 2.0, 3.0, 4.0];
    var metronome := [0.0, 1.0, 2.0, 3.0];
    var figures := MatchedFigures(Diff(times), 4, metronome[1] - metronome[0]);
    assert figures == [1.0, 1.0, 1.0, 1.0] by {
      assert metronome[1] - metronome[0] == 1.0;
      assert Diff(times) == [1.0, 1.0, 1.0, 1.0];
      MatcherOnCommonGaps();
      forall i | 0 <= i < 4 ensures figures[i] == 1.0 {
        MatchedFigureAt(Diff(times), 4, 1.0, i);
      }
    }
    TranscriptionOfRun(times, metronome, 4, 4, figures, 4.0);
    FourQuartersFillTheMeasure();
    assert [Hit(1.0), Hit(1.0), Hit(1.0), Hit(1.0)] + [Hit(4.0 - 0.0)]
      == [Hit(1.0), Hit(1.0), Hit(1.0), Hit(1.0), Hit(4.0)];
  }

  /** Four quarter notes in 4/4 count up to the barline and reset there. */
  lemma FourQuartersFillTheMeasure()
    ensures Run([1.0, 1.0, 1.0, 1.0], 4.0) == Walk(0.0, [Hit(1.0), Hit(1.0), Hit(1.0), Hit(1.0)])
  {
    assert Run([1.0], 4.0) == Walk(1.0, [Hit(1.0)]) by {
      assert Round2(1.0) == 1.0;
    }
    assert Run([1.0, 1.0], 4.0) == Walk(2.0, [Hit(1.0), Hit(1.0)]) by {
      assert [1.0, 1.0][..1] == [1.0];
      assert Round2(2.0) == 2.0;
    }
    assert Run([1.0, 1.0, 1.0], 4.0) == Walk(3.0, [Hit(1.0), Hit(1.0), Hit(1.0)]) by {
      assert [1.0, 1.0, 1.0][..2] == [1.0, 1.0];
      assert Round2(3.0) == 3.0;
    }
    assert [1.0, 1.0, 1.0, 1.0][..3] == [1.0, 1.0, 1.0];
    assert Round2(4.0) == 4.0;
  }

  /** A gap longer than the rest of the measure plus a whole measure, in
      2/4: the rest spills past the next barline, so the count is left
      above the measure and the last onset gets a negative figure. */
  lemma OverlongGapGivesNegativeFill()
    ensures Transcription([0.0, 6.0], [0.0, 1.0], 2, 4) == Ok([Hit(2.0), Rest(4.0), Hit(-2.0)])
  {
    var times := [0.0, 6.0];
    var metronome := [0.0, 1.0];
    var figures := MatchedFigures(Diff(times), 4, metronome[1] - metronome[0]);
    assert figures == [6.0] by {
      assert metronome[1] - metronome[0] == 1.0;
      assert Diff(times) == [6.0];
      CandidatesInOrderForQuarter();
      BestFigureOfExactGap(6.0, 4, 1.0, 2);
      MatchedFigureAt(Diff(times), 4, 1.0, 0);
    }
    TranscriptionOfRun(times, metronome, 2, 4, figures, 2.0);
    assert Run(figures, 2.0) == Walk(4.0, [Hit(2.0), Rest(4.0)]) by {
      assert Round2(6.0) == 6.0;
    }
    assert [Hit(2.0), Rest(4.0)] + [Hit(2.0 - 4.0)] == [Hit(2.0), Rest(4.0), Hit(-2.0)];
  }
}
