/** The choice of the next word to show: the record of highest priority,
    where difficult and rarely reviewed words come first. */
module Selector {
  import opened Words

  /** The priority as the store writes it: difficulty minus a tenth of the
      number of views. */
  function Score(w: Word): real {
    w.difficultyScore as real - w.timesSeen as real * 0.1
  }

  /** The same priority scaled by ten, so that it is an integer. */
  function Priority(w: Word): int {
    10 * w.difficultyScore - w.timesSeen
  }

  /** Scaling by ten changes no comparison: ranking by `Priority` is ranking
      by `Score`. */
  lemma PriorityOrdersLikeScore(a: Word, b: Word)
    ensures Priority(a) <= Priority(b) <==> Score(a) <= Score(b)
    ensures Priority(a) == Priority(b) <==> Score(a) == Score(b)
  {
  }

  /** The position of the first record of maximal priority: what a stable
      sort by descending priority puts in front. */
  function BestIndex(ws: seq<Word>): (k: nat)
    requires |ws| > 0
    ensures k < |ws|
    ensures forall j :: 0 <= j < |ws| ==> Priority(ws[j]) <= Priority(ws[k])
    ensures forall j :: 0 <= j < k ==> Priority(ws[j]) < Priority(ws[k])
  {
    if |ws| == 1 then 0
    else
      var k := BestIndex(ws[..|ws| - 1]);
      if Priority(ws[k]) < Priority(ws[|ws| - 1]) then |ws| - 1 else k
  }

  /** The two properties of `BestIndex` pin down one position. */
  lemma BestIndexUnique(ws: seq<Word>, k: nat)
    requires k < |ws|
    requires forall j :: 0 <= j < |ws| ==> Priority(ws[j]) <= Priority(ws[k])
    requires forall j :: 0 <= j < k ==> Priority(ws[j]) < Priority(ws[k])
    ensures BestIndex(ws) == k
  {
  }

  /** The next word to show, or none when there are no records. */
  function SelectNext(ws: seq<Word>): (r: Option<Word>)
    ensures r == None <==> ws == []
    ensures r.Some? ==> r.value in ws
    ensures r.Some? ==> forall v :: v in ws ==> Priority(v) <= Priority(r.value)
  {
    if ws == [] then None else Some(ws[BestIndex(ws)])
  }

  /** Showing the selected word and recording a miss raises its priority by
      nine and leaves every other record as it was, so the same position is
      selected again. */
  lemma MissKeepsSelection(ws: seq<Word>, now: int)
    requires |ws| > 0
    ensures var b := BestIndex(ws);
      Priority(Seen(ws[b], false, now)) == Priority(ws[b]) + 9
      && BestIndex(ws[b := Seen(ws[b], false, now)]) == b
  {
    var b := BestIndex(ws);
    var after := ws[b := Seen(ws[b], false, now)];
    assert forall j :: 0 <= j < |after| && j != b ==> after[j] == ws[j];
    BestIndexUnique(after, b);
  }

  /** A hit lowers the priority of the record by eleven, or by one when its
      difficulty is already at the floor. */
  lemma HitLowersPriority(w: Word, now: int)
    requires WellFormed(w)
    ensures Priority(Seen(w, true, now)) ==
      if w.difficultyScore > MIN_DIFFICULTY then Priority(w) - 11 else Priority(w) - 1
  {
  }
}
