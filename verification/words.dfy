/** The Word record of the local vocabulary store and the per-record update
    applied when a word has been shown to the learner. */
module Words {

  datatype Option<T> = None | Some(value: T)

  /** The fields a caller supplies when a new vocabulary item is ingested. */
  datatype Draft = Draft(word: string, meaning: string, etymology: string, translationEn: string)

  /** One stored record. `lastSeen` is a wall-clock time in milliseconds,
      absent until the word is first shown. */
  datatype Word = Word(
    id: nat,
    word: string,
    meaning: string,
    etymology: string,
    translationEn: string,
    timesSeen: nat,
    timesCorrect: nat,
    lastSeen: Option<int>,
    difficultyScore: int)

  /** The lowest difficulty a record can reach. */
  const MIN_DIFFICULTY: int := 1

  /** What every stored record satisfies: the difficulty floor holds and a
      word is never answered correctly more often than it was shown. */
  predicate WellFormed(w: Word) {
    w.difficultyScore >= MIN_DIFFICULTY && w.timesCorrect <= w.timesSeen
  }

  /** True when the two records describe the same vocabulary item: the key
      and the descriptive texts, which no update ever touches. */
  predicate SameItem(a: Word, b: Word) {
    a.id == b.id && a.word == b.word && a.meaning == b.meaning
    && a.etymology == b.etymology && a.translationEn == b.translationEn
  }

  /** The record a successful insert stores under key `id`: the caller's texts
      with fresh statistics. */
  function NewWord(id: nat, d: Draft): (r: Word)
    ensures WellFormed(r)
  {
    Word(id, d.word, d.meaning, d.etymology, d.translationEn, 0, 0, None, MIN_DIFFICULTY)
  }

  function Max(a: int, b: int): int {
    if a < b then b else a
  }

  /** The record after it was shown at time `now`: one more view, stamped;
      a hit also counts as correct and eases the word down to the floor,
      a miss makes it harder without limit. */
  function Seen(w: Word, wasCorrect: bool, now: int): Word {
    var shown := w.(timesSeen := w.timesSeen + 1, lastSeen := Some(now));
    if wasCorrect then
      shown.(timesCorrect := w.timesCorrect + 1,
             difficultyScore := Max(MIN_DIFFICULTY, w.difficultyScore - 1))
    else
      shown.(difficultyScore := w.difficultyScore + 1)
  }

  /** Showing a word keeps it the same item, counts exactly one view and
      stamps the given time. */
  lemma SeenKeepsItem(w: Word, wasCorrect: bool, now: int)
    ensures var r := Seen(w, wasCorrect, now);
      SameItem(r, w) && r.timesSeen == w.timesSeen + 1 && r.lastSeen == Some(now)
  {
  }

  /** Showing a well-formed word keeps it well-formed: the difficulty floor
      holds and the correct count stays within the views. */
  lemma SeenKeepsWellFormed(w: Word, wasCorrect: bool, now: int)
    requires WellFormed(w)
    ensures WellFormed(Seen(w, wasCorrect, now))
  {
  }

  /** A hit: one more correct answer, and the difficulty drops by one unless
      that would take it below the floor, where it is then set. */
  lemma SeenOnHit(w: Word, now: int)
    ensures var r := Seen(w, true, now);
      r.timesCorrect == w.timesCorrect + 1
      && (w.difficultyScore > MIN_DIFFICULTY ==> r.difficultyScore == w.difficultyScore - 1)
      && (w.difficultyScore <= MIN_DIFFICULTY ==> r.difficultyScore == MIN_DIFFICULTY)
  {
  }

  /** A miss: the correct count is untouched and the difficulty rises by
      exactly one, whatever it was before. */
  lemma SeenOnMiss(w: Word, now: int)
    ensures var r := Seen(w, false, now);
      r.timesCorrect == w.timesCorrect && r.difficultyScore == w.difficultyScore + 1
  {
  }
}
