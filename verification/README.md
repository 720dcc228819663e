# Word-learning local store, modelled in Dafny

WORD-LEARNING is a browser vocabulary trainer. It keeps its words in a local
IndexedDB object store so that it works offline, and it picks the next word
to show from that store. This project models that core, `db.js`:

- the `words` object store: records keyed by an auto-incremented `id`, with a
  unique index on the `word` text;
- its operations `saveWord`, `getAllWords`, `markWordSeen` and
  `isDatabaseEmpty`;
- the selector `getNextWord`, which shows the word that maximises
  `difficulty_score - 0.1 * times_seen`.

Files:

- `words.dfy` (module `Words`): the `Word` record and the `Draft` a caller
  inserts. `NewWord` is the record a successful insert stores. `Seen` is the
  update `markWordSeen` applies. `WellFormed` holds two facts: the difficulty
  floor of 1, and `timesCorrect <= timesSeen`.
- `selector.dfy` (module `Selector`): the priority, the first-maximum index
  `BestIndex`, and `SelectNext`.
  - `Priority` is `10 * difficulty - timesSeen`. It ranks records exactly as
    the score computed over the reals, `Score`, does
    (`PriorityOrdersLikeScore`).
  - The source sorts the fetched records by descending score with a stable
    sort and takes the first. That is the first record of maximal priority in
    read order. `BestIndex` states this, and `BestIndexUnique` shows that the
    statement determines it.
- `store.dfy` (module `Store`): the class `WordStore`.
  - Its fields are the records, in ascending key order (the order a read of
    all records yields), and the key generator's next key.
  - The invariant `ValidTable` says four things: keys ascend and are below
    the next key, word texts are unique, and every record is well-formed.
  - Each method is one atomic transaction. Each is specified against the pure
    definitions above and keeps the invariant.
  - `FirstWordRound` is a verified client. It runs one round of the
    application's loop on a new store.

The selector and the caller interact in one notable way. `app.js` records a
miss every time it displays a word (`markWordSeen(id, false)`). A miss raises
a record's priority by nine and changes no other record. So the word just
shown is selected again on the next round (`MissKeepsSelection`): with that
caller, the application keeps showing the same word. This describes the
caller, not the store.

`db.js` names no tie order. One follows from `getAll` returning records in
ascending key order and from the stable sort: the earliest record wins, and
that is the lowest key (`SelectNextLowestId`).

## Model

| member | source | states |
|---|---|---|
| `Words.NewWord` | db.js:47-56 | a new record carries the caller's four texts with zero views, zero correct answers, no last-seen time and difficulty 1, and is well-formed |
| `Words.SeenKeepsItem` | db.js:113-127 | for every record, showing it keeps its key and texts, adds exactly one view and stamps the given time |
| `Words.SeenKeepsWellFormed` | db.js:116-124 | showing a well-formed record keeps the difficulty floor of 1 and `timesCorrect <= timesSeen` |
| `Words.SeenOnHit` | db.js:119-121 | for every record, on a hit the correct count rises by one and the difficulty drops by one, except at or below the floor of 1, where it becomes 1 |
| `Words.SeenOnMiss` | db.js:122-124 | on a miss the correct count is unchanged and the difficulty rises by exactly one, with no ceiling |
| `Selector.PriorityOrdersLikeScore` | db.js:92-94 | the integer priority `10*d - s` orders and ties records exactly as the score `d - 0.1*s` does |
| `Selector.BestIndex` | db.js:91-97 | the chosen position has a priority at least that of every record, and strictly above that of every earlier record (the front of a stable descending sort) |
| `Selector.BestIndexUnique` | db.js:91-97 | exactly one position has both properties, so the selection is determined |
| `Selector.SelectNext` | db.js:85-98 | no word exactly when there are no records; otherwise a stored record of maximal priority |
| `Selector.MissKeepsSelection` | db.js:122-124 | a miss on the selected record raises its priority by nine, and the same position is selected again |
| `Selector.HitLowersPriority` | db.js:119-121 | a hit lowers the record's priority by eleven, or by one when its difficulty is already 1 |
| `Store.IndexOf` | db.js:110-114 | finds the first record with the key, and reports none exactly when no record has it |
| `Store.InsertKeepsValid` | db.js:21-26 | the next generated key is used by no stored record; adding a word with new text keeps keys ascending and below the next key, texts unique and records well-formed |
| `Store.SeenKeepsValid` | db.js:116-126 | updating one record as shown keeps the table invariant |
| `Store.SelectNextLowestId` | db.js:91-97 | in a valid table the selected record has the lowest key among the records of maximal priority |
| `Store.WordStore.constructor` | db.js:17-29 | a new store is empty, valid, and its key generator starts at 1 |
| `Store.WordStore.SaveWord` | db.js:40-61 | returns true exactly when the text is new. It then appends exactly one fresh record under a key no record uses, and advances the generator. On a duplicate it returns false and changes nothing. It keeps the invariant |
| `Store.WordStore.GetAllWords` | db.js:66-77 | returns every stored record in ascending key order, each well-formed, and changes nothing |
| `Store.WordStore.GetNextWord` | db.js:85-98 | returns exactly `SelectNext` of the stored records: none for an empty store, else the first record of maximal priority |
| `Store.WordStore.MarkWordSeen` | db.js:103-132 | `wasCorrect` defaults to false, a miss. False with nothing changed for an unknown key. Otherwise true: that one record becomes `Seen` of its old value, every other record and the key generator stay, and the invariant holds |
| `Store.WordStore.IsDatabaseEmpty` | db.js:137-140 | true exactly when the store holds no record, which is exactly when there is no next word |

## Left out

- Opening the database is not modelled: the `onupgradeneeded`, `onsuccess` and `onerror` callbacks, and the Promise wrapping of every operation. Each operation is one atomic step on an in-memory store, and the constructor stands for the first open that creates the empty store.
- Storage-engine failures are not modelled: the rejected requests of `getAllWords` and `markWordSeen`, and a failed open. The only failures modelled are the duplicate text and the unknown key.
- The secondary indexes on `difficulty_score` and `last_seen` are not modelled. Nothing queries them.
- `Date.now()` is not modelled. The current time is the parameter `now` of `MarkWordSeen`.
- Store.WordStore.GetNextWord: the source sorts its fetched copy in place. The model scans for the first maximum instead. The copy is transient, so the sort changes nothing stored, and only its first element is observable.
- Selector.SelectNext: ranks with the exact integer priority. The source compares floating-point scores. No JavaScript rounding on near-ties is modelled.
- Word texts are modelled as strings. In the source a draft may lack a valid `word` key (`fetchWordOnline` passes `undefined` when the remote reply is empty). IndexedDB then stores the record outside the unique index, so it is never refused as a duplicate. Such drafts are not modelled.
- Counters and keys are unbounded integers. JavaScript numbers lose precision above 2^53; this is not modelled.
- A key of a type IndexedDB rejects (it throws on `store.get`) is not modelled. Keys are integers, and an unknown one is simply absent.
- `app.js` is not part of this model: the page rendering, the online/offline banner and the remote word fetch. Its display-then-miss behaviour is described above.
- `service-worker.js` is not part of this model: asset pre-caching and the cache-first fetch handler.
