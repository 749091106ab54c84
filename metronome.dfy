/** The metronome grid: evenly spaced beat times for a tempo and a reference
    note (the denominator of the time signature). */
module Metronome {
  import opened Common
  import opened NumPy

  /** Seconds between two beats of the reference note at `tempo` BPM. */
  function BeatStep(tempo: real, referenceNote: int): real
    requires tempo != 0.0 && referenceNote != 0
  {
    (60.0 / tempo) / (referenceNote as real / 4.0)
  }

  /** At `tempo` quarter notes per minute, a beat of the reference note
      (`4 / referenceNote` quarter notes) takes its share of the minute:
      `tempo * referenceNote / 4` beats last exactly 60 seconds. */
  lemma BeatsFillAMinute(tempo: real, referenceNote: int)
    requires tempo > 0.0 && referenceNote > 0
    ensures BeatStep(tempo, referenceNote) > 0.0
    ensures BeatStep(tempo, referenceNote) * (tempo * referenceNote as real / 4.0) == 60.0
  {
    var q := referenceNote as real / 4.0;
    var s := 60.0 / tempo;
    assert s * tempo == 60.0;
    assert (s / q) * q == s;
  }

  /** `create_metronome`: the power-of-two check on the reference note, then
      the grid `0, step, 2 step, ...` strictly below `duration`. */
  function CreateMetronome(tempo: real, duration: real, referenceNote: int): (r: Result<seq<real>>)
    ensures r == Err(InvalidReferenceNote) <==> referenceNote < 0 || (referenceNote > 0 && !IsPowerOfTwo(referenceNote))
    ensures r == Err(ZeroDivision) <==> referenceNote == 0 || (IsPowerOfTwo(referenceNote) && tempo == 0.0)
    ensures r.Ok? <==> IsPowerOfTwo(referenceNote) && tempo != 0.0
    ensures r.Ok? ==> forall k :: 0 <= k < |r.value| ==> r.value[k] == k as real * BeatStep(tempo, referenceNote)
  {
    Log2IsWholeIff(referenceNote);
    if !Log2IsWhole(referenceNote) then
      Err(InvalidReferenceNote)
    else if tempo == 0.0 || referenceNote == 0 then
      Err(ZeroDivision)
    else
      Ok(Arange(duration, BeatStep(tempo, referenceNote)))
  }

  /** At a positive tempo the grid is strictly increasing, starts at 0 when
      `duration` is positive, stays below `duration`, and the next beat
      after its last point would not be below `duration`: it holds every
      beat `k * step` in `[0, duration)`. */
  lemma MetronomeCoversDuration(tempo: real, duration: real, referenceNote: int)
    requires tempo > 0.0 && referenceNote > 0 && IsPowerOfTwo(referenceNote)
    ensures CreateMetronome(tempo, duration, referenceNote).Ok?
    ensures var grid := CreateMetronome(tempo, duration, referenceNote).value;
      && BeatStep(tempo, referenceNote) > 0.0
      && (forall k :: 0 <= k < |grid| ==> 0.0 <= grid[k] < duration)
      && (forall j, k :: 0 <= j < k < |grid| ==> grid[j] < grid[k])
      && |grid| as real * BeatStep(tempo, referenceNote) >= duration
      && (duration > 0.0 <==> grid != [])
  {
    var step := BeatStep(tempo, referenceNote);
    assert 60.0 / tempo > 0.0;
    assert step > 0.0;
    ArangeIsIncreasingGrid(duration, step);
  }

  /** 60 BPM in quarter notes over four seconds gives one beat per second. */
  lemma QuarterNoteGridAtSixty()
    ensures CreateMetronome(60.0, 4.0, 4) == Ok([0.0, 1.0, 2.0, 3.0])
  {
    assert Pow2(2) == 4;
    assert BeatStep(60.0, 4) == 1.0;
    assert Ceil(4.0) == 4;
    var grid := Arange(4.0, 1.0);
    assert |grid| == 4;
    assert grid == [0.0, 1.0, 2.0, 3.0];
  }

  /** A reference note of 3 is refused. */
  lemma ThreeIsRefused()
    ensures CreateMetronome(60.0, 4.0, 3) == Err(InvalidReferenceNote)
  {
    assert !HalvesToOne(3);
  }
}
