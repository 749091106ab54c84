/** The time-figure matcher (`find_best_time_figure`): the figure, in quarter
    notes, whose duration is closest to a gap between two onsets. */
module TimeFigure {
  import opened Common

  /** The subdivisions of the reference note that are tried, longest first. */
  const Subdivisions: seq<real> := [4.0, 2.0, 1.0, 0.5, 0.25]

  /** A candidate lasts `scale` reference notes and is written as `figure`
      quarter notes. */
  datatype Candidate = Candidate(scale: real, figure: real)

  /** The subdivision itself, its figure corrected for the reference note. */
  function Plain(subdiv: real, referenceNote: int): Candidate
    requires referenceNote != 0
  {
    Candidate(subdiv, subdiv / (referenceNote as real / 4.0))
  }

  /** Three in the time of `subdiv`; its figure is not corrected. */
  function Triplet(subdiv: real): Candidate {
    Candidate(subdiv / 3.0, subdiv / 3.0)
  }

  /** The subdivision plus half of it, corrected for the reference note. */
  function Dotted(subdiv: real, referenceNote: int): Candidate
    requires referenceNote != 0
  {
    var dotted := subdiv + 0.5 * subdiv;
    Candidate(dotted, dotted / (referenceNote as real / 4.0))
  }

  /** What one subdivision contributes, in the order it is tried: plain,
      then triplet (only against a quarter-note reference), then dotted. */
  function Group(subdiv: real, referenceNote: int): seq<Candidate>
    requires referenceNote != 0
  {
    [Plain(subdiv, referenceNote)]
    + (if referenceNote == 4 then [Triplet(subdiv)] else [])
    + [Dotted(subdiv, referenceNote)]
  }

  /** The candidates of the first `k` subdivisions, in the order tried. */
  function CandidatesUpTo(referenceNote: int, k: nat): seq<Candidate>
    requires referenceNote != 0 && k <= |Subdivisions|
  {
    if k == 0 then [] else CandidatesUpTo(referenceNote, k - 1) + Group(Subdivisions[k - 1], referenceNote)
  }

  function Candidates(referenceNote: int): seq<Candidate>
    requires referenceNote != 0
  {
    CandidatesUpTo(referenceNote, |Subdivisions|)
  }

  /** How far a candidate's duration is from the gap `dt`. */
  function Distance(dt: real, c: Candidate, referenceDuration: real): real {
    Abs(dt - c.scale * referenceDuration)
  }

  /** The figure chosen so far and how far it was from the gap. */
  datatype Match = Match(figure: real, distance: real)

  /** One comparison of the matcher: `None` stands for the initial
      `best_match = inf`, which every candidate beats; otherwise a candidate
      at `distance` from the gap replaces the best only when strictly closer. */
  function Keep(best: Option<Match>, figure: real, distance: real): Option<Match> {
    if best.None? || distance < best.value.distance then Some(Match(figure, distance)) else best
  }

  /** Comparing candidate `c` against the best so far. */
  function Consider(best: Option<Match>, c: Candidate, dt: real, referenceDuration: real): Option<Match> {
    Keep(best, c.figure, Distance(dt, c, referenceDuration))
  }

  /** All comparisons over `cs`, in order. */
  function Pick(cs: seq<Candidate>, dt: real, referenceDuration: real): (p: Option<Match>)
    ensures p.Some? <==> cs != []
  {
    if cs == [] then None
    else Consider(Pick(cs[..|cs| - 1], dt, referenceDuration), Last(cs), dt, referenceDuration)
  }

  /** The figure `find_best_time_figure` returns. */
  function BestFigure(dt: real, referenceNote: int, referenceDuration: real): real
    requires referenceNote != 0
  {
    CandidatesAreNonEmpty(referenceNote);
    Pick(Candidates(referenceNote), dt, referenceDuration).value.figure
  }

  lemma CandidatesAreNonEmpty(referenceNote: int)
    requires referenceNote != 0
    ensures Candidates(referenceNote) != []
  {
  }

  /** `j` is the first candidate whose duration is closest to `dt`. */
  ghost predicate IsFirstClosest(cs: seq<Candidate>, dt: real, referenceDuration: real, j: int) {
    && 0 <= j < |cs|
    && (forall i :: 0 <= i < |cs| ==> Distance(dt, cs[j], referenceDuration) <= Distance(dt, cs[i], referenceDuration))
    && (forall i :: 0 <= i < j ==> Distance(dt, cs[i], referenceDuration) > Distance(dt, cs[j], referenceDuration))
  }

  lemma PickAppend(cs: seq<Candidate>, c: Candidate, dt: real, referenceDuration: real)
    ensures Pick(cs + [c], dt, referenceDuration) == Consider(Pick(cs, dt, referenceDuration), c, dt, referenceDuration)
  {
    assert (cs + [c])[..|cs|] == cs;
  }

  /** The comparisons made for one subdivision, in order: plain, then
      triplet (only against a quarter-note reference), then dotted. */
  function ConsiderGroup(best: Option<Match>, subdiv: real, referenceNote: int, dt: real, referenceDuration: real): Option<Match>
    requires referenceNote != 0
  {
    var d := referenceDuration;
    var afterPlain := Consider(best, Plain(subdiv, referenceNote), dt, d);
    var afterTriplet := if referenceNote == 4 then Consider(afterPlain, Triplet(subdiv), dt, d) else afterPlain;
    Consider(afterTriplet, Dotted(subdiv, referenceNote), dt, d)
  }

  /** The state of the matcher after the first `k` subdivisions. */
  function Scan(referenceNote: int, k: nat, dt: real, referenceDuration: real): Option<Match>
    requires referenceNote != 0 && k <= |Subdivisions|
  {
    if k == 0 then None
    else ConsiderGroup(Scan(referenceNote, k - 1, dt, referenceDuration), Subdivisions[k - 1], referenceNote, dt, referenceDuration)
  }

  lemma PickGroup(cs: seq<Candidate>, subdiv: real, referenceNote: int, dt: real, referenceDuration: real)
    requires referenceNote != 0
    ensures Pick(cs + Group(subdiv, referenceNote), dt, referenceDuration)
      == ConsiderGroup(Pick(cs, dt, referenceDuration), subdiv, referenceNote, dt, referenceDuration)
  {
    var p := [Plain(subdiv, referenceNote)];
    var t := if referenceNote == 4 then [Triplet(subdiv)] else [];
    var dd := Dotted(subdiv, referenceNote);
    assert cs + Group(subdiv, referenceNote) == (cs + p + t) + [dd];
    PickAppend(cs + p + t, dd, dt, referenceDuration);
    if referenceNote == 4 {
      assert cs + p + t == (cs + p) + [Triplet(subdiv)];
      PickAppend(cs + p, Triplet(subdiv), dt, referenceDuration);
    } else {
      assert cs + p + t == cs + p;
    }
    PickAppend(cs, Plain(subdiv, referenceNote), dt, referenceDuration);
  }

  /** Scanning subdivision by subdivision is comparing candidate by
      candidate. */
  lemma {:induction false} ScanIsPick(referenceNote: int, k: nat, dt: real, referenceDuration: real)
    requires referenceNote != 0 && k <= |Subdivisions|
    ensures Scan(referenceNote, k, dt, referenceDuration) == Pick(CandidatesUpTo(referenceNote, k), dt, referenceDuration)
  {
    if k > 0 {
      ScanIsPick(referenceNote, k - 1, dt, referenceDuration);
      PickGroup(CandidatesUpTo(referenceNote, k - 1), Subdivisions[k - 1], referenceNote, dt, referenceDuration);
    }
  }

  /** The strict comparisons pick the first of the closest candidates. */
  lemma {:induction false} PickIsFirstClosest(cs: seq<Candidate>, dt: real, referenceDuration: real)
    requires cs != []
    ensures exists j ::
      && IsFirstClosest(cs, dt, referenceDuration, j)
      && Pick(cs, dt, referenceDuration) == Some(Match(cs[j].figure, Distance(dt, cs[j], referenceDuration)))
  {
    var front := cs[..|cs| - 1];
    var c := Last(cs);
    var d := referenceDuration;
    if front == [] {
      assert IsFirstClosest(cs, dt, d, 0);
    } else {
      PickIsFirstClosest(front, dt, d);
      var j :| IsFirstClosest(front, dt, d, j)
        && Pick(front, dt, d) == Some(Match(front[j].figure, Distance(dt, front[j], d)));
      FirstClosestGrows(cs, dt, d, j);
    }
  }

  /** Comparing one more candidate against the first closest of the earlier
      ones: the newcomer wins only when strictly closer. */
  lemma FirstClosestGrows(cs: seq<Candidate>, dt: real, referenceDuration: real, j: int)
    requires cs != [] && IsFirstClosest(cs[..|cs| - 1], dt, referenceDuration, j)
    ensures var d := referenceDuration;
      if Distance(dt, Last(cs), d) < Distance(dt, cs[j], d) then IsFirstClosest(cs, dt, d, |cs| - 1)
      else IsFirstClosest(cs, dt, d, j)
  {
    var front := cs[..|cs| - 1];
    assert cs[j] == front[j];
    assert forall i :: 0 <= i < |cs| - 1 ==> cs[i] == front[i];
  }

  /** `find_best_time_figure` returns the figure of the first candidate whose
      duration is closest to `dt`: never a figure that is not a candidate,
      and no candidate is closer. */
  lemma BestFigureIsFirstClosest(dt: real, referenceNote: int, referenceDuration: real)
    requires referenceNote != 0
    ensures exists j ::
      && IsFirstClosest(Candidates(referenceNote), dt, referenceDuration, j)
      && BestFigure(dt, referenceNote, referenceDuration) == Candidates(referenceNote)[j].figure
  {
    PickIsFirstClosest(Candidates(referenceNote), dt, referenceDuration);
  }

  lemma FiveGroups(referenceNote: int)
    requires referenceNote != 0
    ensures Candidates(referenceNote) ==
      Group(4.0, referenceNote) + Group(2.0, referenceNote) + Group(1.0, referenceNote)
      + Group(0.5, referenceNote) + Group(0.25, referenceNote)
  {
    var r := referenceNote;
    assert CandidatesUpTo(r, 1) == Group(4.0, r);
    assert CandidatesUpTo(r, 2) == Group(4.0, r) + Group(2.0, r);
    assert CandidatesUpTo(r, 3) == Group(4.0, r) + Group(2.0, r) + Group(1.0, r);
    assert CandidatesUpTo(r, 4) == Group(4.0, r) + Group(2.0, r) + Group(1.0, r) + Group(0.5, r);
  }

  /** Correcting a figure for the reference note `q`: `s / (q / 4)`. */
  lemma Corrected(s: real, q: real)
    requires q != 0.0
    ensures s / (q / 4.0) == 4.0 * s / q
  {
  }

  /** The candidates in the order they are tried, with their durations (in
      reference notes) and figures (in quarter notes), against a
      quarter-note reference. */
  lemma CandidatesInOrderForQuarter()
    ensures Candidates(4) ==
      [ Candidate(4.0, 4.0), Candidate(4.0 / 3.0, 4.0 / 3.0), Candidate(6.0, 6.0),
        Candidate(2.0, 2.0), Candidate(2.0 / 3.0, 2.0 / 3.0), Candidate(3.0, 3.0),
        Candidate(1.0, 1.0), Candidate(1.0 / 3.0, 1.0 / 3.0), Candidate(1.5, 1.5),
        Candidate(0.5, 0.5), Candidate(0.5 / 3.0, 0.5 / 3.0), Candidate(0.75, 0.75),
        Candidate(0.25, 0.25), Candidate(0.25 / 3.0, 0.25 / 3.0), Candidate(0.375, 0.375) ]
  {
    FiveGroups(4);
  }

  /** The same for any other non-zero reference note `q`: no triplets, and
      every figure scaled by `4 / q`. */
  lemma CandidatesInOrder(referenceNote: int)
    requires referenceNote != 0 && referenceNote != 4
    ensures var q := referenceNote as real;
      Candidates(referenceNote) ==
        [ Candidate(4.0, 16.0 / q), Candidate(6.0, 24.0 / q),
          Candidate(2.0, 8.0 / q), Candidate(3.0, 12.0 / q),
          Candidate(1.0, 4.0 / q), Candidate(1.5, 6.0 / q),
          Candidate(0.5, 2.0 / q), Candidate(0.75, 3.0 / q),
          Candidate(0.25, 1.0 / q), Candidate(0.375, 1.5 / q) ]
  {
    var q := referenceNote as real;
    FiveGroups(referenceNote);
    Corrected(4.0, q); Corrected(6.0, q); Corrected(2.0, q); Corrected(3.0, q); Corrected(1.0, q);
    Corrected(1.5, q); Corrected(0.5, q); Corrected(0.75, q); Corrected(0.25, q); Corrected(0.375, q);
  }

  /** No two candidates last equally long. */
  lemma ScalesAreDistinct(referenceNote: int)
    requires referenceNote != 0
    ensures forall i, j :: 0 <= i < j < |Candidates(referenceNote)| ==>
      Candidates(referenceNote)[i].scale != Candidates(referenceNote)[j].scale
  {
    if referenceNote == 4 {
      CandidatesInOrderForQuarter();
    } else {
      CandidatesInOrder(referenceNote);
    }
  }

  /** A gap at distance zero from `b * d`, and no farther from `a * d`, makes
      `a` and `b` equal when `d` is non-zero. */
  lemma SameDuration(dt: real, a: real, b: real, d: real)
    requires d != 0.0 && dt == b * d && Abs(dt - a * d) <= Abs(dt - b * d)
    ensures a == b
  {
    assert (a - b) * d == 0.0;
  }

  /** Among candidates of distinct durations, the closest to a gap that is
      exactly the duration of candidate `j` is candidate `j`. */
  lemma ExactGapIsClosest(cs: seq<Candidate>, dt: real, referenceDuration: real, j: int, k: int)
    requires referenceDuration != 0.0 && 0 <= j < |cs|
    requires forall i, i' :: 0 <= i < i' < |cs| ==> cs[i].scale != cs[i'].scale
    requires dt == cs[j].scale * referenceDuration
    requires IsFirstClosest(cs, dt, referenceDuration, k)
    ensures k == j
  {
    DistanceIs(dt, cs[k], referenceDuration, cs[k].scale * referenceDuration);
    DistanceIs(dt, cs[j], referenceDuration, dt);
    assert Distance(dt, cs[k], referenceDuration) <= Distance(dt, cs[j], referenceDuration);
    SameDuration(dt, cs[k].scale, cs[j].scale, referenceDuration);
  }

  /** Among candidates of distinct durations, a gap that is exactly the
      duration of candidate `j` picks candidate `j`, at distance zero. */
  lemma PickOfExactGap(cs: seq<Candidate>, dt: real, referenceDuration: real, j: int)
    requires referenceDuration != 0.0 && 0 <= j < |cs|
    requires forall i, i' :: 0 <= i < i' < |cs| ==> cs[i].scale != cs[i'].scale
    requires dt == cs[j].scale * referenceDuration
    ensures Pick(cs, dt, referenceDuration) == Some(Match(cs[j].figure, 0.0))
  {
    PickIsFirstClosest(cs, dt, referenceDuration);
    var k :| IsFirstClosest(cs, dt, referenceDuration, k)
      && Pick(cs, dt, referenceDuration) == Some(Match(cs[k].figure, Distance(dt, cs[k], referenceDuration)));
    ExactGapIsClosest(cs, dt, referenceDuration, j, k);
    DistanceIs(dt, cs[j], referenceDuration, dt);
  }

  /** A gap that is exactly some candidate's duration gets that candidate's
      figure (when the reference note has a non-zero duration). */
  lemma BestFigureOfExactGap(dt: real, referenceNote: int, referenceDuration: real, j: int)
    requires referenceNote != 0 && referenceDuration != 0.0
    requires 0 <= j < |Candidates(referenceNote)|
    requires dt == Candidates(referenceNote)[j].scale * referenceDuration
    ensures BestFigure(dt, referenceNote, referenceDuration) == Candidates(referenceNote)[j].figure
  {
    ScalesAreDistinct(referenceNote);
    PickOfExactGap(Candidates(referenceNote), dt, referenceDuration, j);
  }

  lemma DistanceIs(dt: real, c: Candidate, referenceDuration: real, dur: real)
    requires dur == c.scale * referenceDuration
    ensures Distance(dt, c, referenceDuration) == Abs(dt - dur)
  {
  }

  /** The pair of variables `(figure, best_match)` of the matcher as one
      value; `best_match = inf` is `None`. */
  function Current(figure: Option<real>, bestMatch: Option<real>): Option<Match> {
    if figure.Some? && bestMatch.Some? then Some(Match(figure.value, bestMatch.value)) else None
  }

  /** One `if np.abs(dt - dur) < best_match` block of the matcher: the
      candidate written `candidateFigure`, at `distance` from the gap, takes
      over when it is strictly closer than the best so far. */
  method Challenge(figure: Option<real>, bestMatch: Option<real>, candidateFigure: real, distance: real)
    returns (newFigure: Option<real>, newBestMatch: Option<real>)
    requires figure.Some? == bestMatch.Some?
    ensures newFigure.Some? && newBestMatch.Some?
    ensures Current(newFigure, newBestMatch) == Keep(Current(figure, bestMatch), candidateFigure, distance)
  {
    newFigure, newBestMatch := figure, bestMatch;
    if bestMatch.None? || distance < bestMatch.value {
      newBestMatch := Some(distance);
      newFigure := Some(candidateFigure);
    }
  }

  /** The comparisons of the matcher for one subdivision: plain, then the
      triplet against a quarter-note reference, then dotted. */
  method MatchGroup(figure: Option<real>, bestMatch: Option<real>, subdiv: real, referenceNote: int,
                    dt: real, referenceNoteDuration: real)
    returns (newFigure: Option<real>, newBestMatch: Option<real>)
    requires referenceNote != 0 && figure.Some? == bestMatch.Some?
    ensures newFigure.Some? && newBestMatch.Some?
    ensures Current(newFigure, newBestMatch)
      == ConsiderGroup(Current(figure, bestMatch), subdiv, referenceNote, dt, referenceNoteDuration)
  {
    var d := referenceNoteDuration;
    ghost var best := Current(figure, bestMatch);

    var dur := subdiv * d;
    DistanceIs(dt, Plain(subdiv, referenceNote), d, dur);
    newFigure, newBestMatch := Challenge(figure, bestMatch, subdiv / (referenceNote as real / 4.0), Abs(dt - dur));
    best := Consider(best, Plain(subdiv, referenceNote), dt, d);

    if referenceNote == 4 {
      var triplet := subdiv / 3.0;
      dur := triplet * d;
      DistanceIs(dt, Triplet(subdiv), d, dur);
      newFigure, newBestMatch := Challenge(newFigure, newBestMatch, triplet, Abs(dt - dur));
      best := Consider(best, Triplet(subdiv), dt, d);
    }

    var dotted := subdiv + 0.5 * subdiv;
    dur := dotted * d;
    DistanceIs(dt, Dotted(subdiv, referenceNote), d, dur);
    newFigure, newBestMatch := Challenge(newFigure, newBestMatch, dotted / (referenceNote as real / 4.0), Abs(dt - dur));
    best := Consider(best, Dotted(subdiv, referenceNote), dt, d);
    assert best == Current(newFigure, newBestMatch);
  }

  /** The matcher over the subdivisions, comparing with strict `<` against the
      best distance so far (initially infinite). */
  method FindBestTimeFigure(dt: real, referenceNote: int, referenceNoteDuration: real) returns (r: Result<real>)
    ensures r.Ok? <==> referenceNote != 0
    ensures r.Ok? ==> r.value == BestFigure(dt, referenceNote, referenceNoteDuration)
  {
    if referenceNote == 0 {
      // the first plain candidate always beats inf, and its figure divides by reference_note / 4
      return Err(ZeroDivision);
    }
    var figure: Option<real> := None;
    var bestMatch: Option<real> := None;  // None stands for inf
    for k := 0 to |Subdivisions|
      invariant figure.Some? == bestMatch.Some?
      invariant Scan(referenceNote, k, dt, referenceNoteDuration) == Current(figure, bestMatch)
    {
      figure, bestMatch := MatchGroup(figure, bestMatch, Subdivisions[k], referenceNote, dt, referenceNoteDuration);
    }
    ScanIsPick(referenceNote, |Subdivisions|, dt, referenceNoteDuration);
    return Ok(figure.value);
  }

  /** The gaps of a steady quarter-note, eighth-note, dotted-quarter and
      quarter-note-triplet rhythm at one beat per second. */
  lemma MatcherOnCommonGaps()
    ensures BestFigure(1.0, 4, 1.0) == 1.0
    ensures BestFigure(0.5, 4, 1.0) == 0.5
    ensures BestFigure(1.5, 4, 1.0) == 1.5
    ensures BestFigure(0.333, 4, 1.0) == 1.0 / 3.0
  {
    CandidatesInOrderForQuarter();
    BestFigureOfExactGap(1.0, 4, 1.0, 6);
    BestFigureOfExactGap(0.5, 4, 1.0, 9);
    BestFigureOfExactGap(1.5, 4, 1.0, 8);
    var cs := Candidates(4);
    BestFigureIsFirstClosest(0.333, 4, 1.0);
    var k :| IsFirstClosest(cs, 0.333, 1.0, k) && BestFigure(0.333, 4, 1.0) == cs[k].figure;
    assert Distance(0.333, cs[k], 1.0) <= Distance(0.333, cs[7], 1.0);
  }
}
