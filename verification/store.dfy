/** The local record store: a table of Word records under an auto-incremented
    key, with a unique index on the word text. Every operation is one
    transaction and is modelled as one atomic step. */
module Store {
  import opened Words
  import opened Selector

  /** The first key the store's key generator hands out. */
  const FIRST_ID: nat := 1

  /** True when some record already carries this word text. */
  predicate HasWord(ws: seq<Word>, text: string) {
    exists j :: 0 <= j < |ws| && ws[j].word == text
  }

  /** The invariant of the table: records in ascending key order (the order a
      read of all records yields), every key below the next one the generator
      will hand out, word texts unique, every record well-formed. */
  predicate ValidTable(ws: seq<Word>, nextId: nat) {
    FIRST_ID <= nextId
    && (forall i, j :: 0 <= i < j < |ws| ==> ws[i].id < ws[j].id && ws[i].word != ws[j].word)
    && (forall i :: 0 <= i < |ws| ==> FIRST_ID <= ws[i].id < nextId && WellFormed(ws[i]))
  }

  /** The position of the record stored under key `id`, if any. */
  function IndexOf(ws: seq<Word>, id: int): (r: Option<nat>)
    ensures r.Some? ==> r.value < |ws| && ws[r.value].id == id
    ensures r.Some? ==> forall j :: 0 <= j < r.value ==> ws[j].id != id
    ensures r.None? <==> forall j :: 0 <= j < |ws| ==> ws[j].id != id
  {
    if ws == [] then None
    else if ws[0].id == id then Some(0)
    else match IndexOf(ws[1..], id)
      case None => None
      case Some(k) => Some(k + 1)
  }

  /** Inserting a word whose text is new keeps the table valid, and the key it
      receives is used by no record already stored. */
  lemma InsertKeepsValid(ws: seq<Word>, nextId: nat, d: Draft)
    requires ValidTable(ws, nextId)
    requires !HasWord(ws, d.word)
    ensures forall j :: 0 <= j < |ws| ==> ws[j].id != nextId
    ensures ValidTable(ws + [NewWord(nextId, d)], nextId + 1)
  {
  }

  /** Recording a view of one record keeps the table valid. */
  lemma SeenKeepsValid(ws: seq<Word>, nextId: nat, k: nat, wasCorrect: bool, now: int)
    requires ValidTable(ws, nextId)
    requires k < |ws|
    ensures ValidTable(ws[k := Seen(ws[k], wasCorrect, now)], nextId)
  {
  }

  /** In a valid table the selected record has the maximal priority and, among
      the records that share it, the lowest key. */
  lemma SelectNextLowestId(ws: seq<Word>, nextId: nat)
    requires ValidTable(ws, nextId)
    requires ws != []
    ensures var w := SelectNext(ws).value;
      forall v :: v in ws && Priority(v) == Priority(w) ==> w.id <= v.id
  {
  }

  class WordStore {
    /** The stored records, in ascending key order. */
    var records: seq<Word>
    /** The key generator's next key. */
    var nextId: nat

    ghost predicate Valid()
      reads this
    {
      ValidTable(records, nextId)
    }

    /** A freshly created, empty store. */
    constructor ()
      ensures Valid()
      ensures records == [] && nextId == FIRST_ID
    {
      records := [];
      nextId := FIRST_ID;
    }

    /** Adds a record for `d` with fresh statistics under a fresh key, unless
        its word text is already stored: then nothing changes and the answer
        is false. */
    method SaveWord(d: Draft) returns (ok: bool)
      requires Valid()
      modifies this
      ensures Valid()
      ensures ok <==> !HasWord(old(records), d.word)
      ensures ok ==> records == old(records) + [NewWord(old(nextId), d)] && nextId == old(nextId) + 1
      ensures ok ==> forall j :: 0 <= j < |old(records)| ==> old(records)[j].id != old(nextId)
      ensures !ok ==> records == old(records) && nextId == old(nextId)
    {
      // the unique index on the word text
      var i := 0;
      while i < |records|
        invariant 0 <= i <= |records|
        invariant forall j :: 0 <= j < i ==> records[j].word != d.word
      {
        if records[i].word == d.word {
          return false;
        }
        i := i + 1;
      }
      InsertKeepsValid(records, nextId, d);
      records := records + [NewWord(nextId, d)];
      nextId := nextId + 1;
      ok := true;
    }

    /** Every stored record, in ascending key order; reading changes nothing,
        so two reads with no write between them agree. */
    method GetAllWords() returns (ws: seq<Word>)
      requires Valid()
      ensures ws == records
      ensures forall i, j :: 0 <= i < j < |ws| ==> ws[i].id < ws[j].id
      ensures forall i :: 0 <= i < |ws| ==> WellFormed(ws[i])
    {
      ws := records;
    }

    /** The record to show next: none for an empty store, otherwise the first
        record, in key order, of maximal priority. */
    method GetNextWord() returns (r: Option<Word>)
      requires Valid()
      ensures r == SelectNext(records)
    {
      var ws := GetAllWords();
      if |ws| == 0 {
        return None;
      }
      var best := 0;
      var i := 1;
      while i < |ws|
        invariant 1 <= i <= |ws|
        invariant best < i
        invariant forall j :: 0 <= j < i ==> Priority(ws[j]) <= Priority(ws[best])
        invariant forall j :: 0 <= j < best ==> Priority(ws[j]) < Priority(ws[best])
      {
        if Priority(ws[best]) < Priority(ws[i]) {
          best := i;
        }
        i := i + 1;
      }
      BestIndexUnique(ws, best);
      r := Some(ws[best]);
    }

    /** Records that the word under key `id` was shown at time `now`, as a miss
        unless `wasCorrect` says otherwise: false and no change when no record
        has that key, otherwise that one record becomes `Seen` of its old value
        and all others stay. */
    method MarkWordSeen(id: int, now: int, wasCorrect: bool := false) returns (ok: bool)
      requires Valid()
      modifies this
      ensures Valid() && nextId == old(nextId)
      ensures ok <==> IndexOf(old(records), id).Some?
      ensures !ok ==> records == old(records)
      ensures ok ==> var k := IndexOf(old(records), id).value;
        records == old(records)[k := Seen(old(records)[k], wasCorrect, now)]
    {
      // the lookup by key
      var i := 0;
      while i < |records| && records[i].id != id
        invariant 0 <= i <= |records|
        invariant forall j :: 0 <= j < i ==> records[j].id != id
      {
        i := i + 1;
      }
      if i == |records| {
        return false;
      }
      var w := records[i];
      w := w.(timesSeen := w.timesSeen + 1);
      w := w.(lastSeen := Some(now));
      if wasCorrect {
        w := w.(timesCorrect := w.timesCorrect + 1);
        w := w.(difficultyScore := Max(MIN_DIFFICULTY, w.difficultyScore - 1));
      } else {
        w := w.(difficultyScore := w.difficultyScore + 1);
      }
      SeenKeepsValid(records, nextId, i, wasCorrect, now);
      records := records[i := w];
      ok := true;
    }

    /** True exactly when the store holds no record, which is exactly when
        there is no next word to show. */
    method IsDatabaseEmpty() returns (empty: bool)
      requires Valid()
      ensures empty <==> records == []
      ensures empty <==> SelectNext(records) == None
    {
      var ws := GetAllWords();
      empty := |ws| == 0;
    }
  }

  /** One round of the application's loop on a new store: ingest a word,
      select it, show it and record the miss the application records on
      display, then select again. */
  method FirstWordRound(d: Draft, now: int)
  {
    var store := new WordStore();
    var empty := store.IsDatabaseEmpty();
    assert empty;
    var saved := store.SaveWord(d);
    assert saved && store.records == [NewWord(FIRST_ID, d)];
    var next := store.GetNextWord();
    assert next == Some(NewWord(FIRST_ID, d));
    var marked := store.MarkWordSeen(next.value.id, now);
    assert marked;
    assert store.records[0].difficultyScore == 2 && store.records[0].timesSeen == 1;
    var again := store.GetNextWord();
    assert again.Some? && again.value.id == FIRST_ID && again.value.word == d.word;
  }
}
