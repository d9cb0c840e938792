/** The local leaderboard cache of lib/storage.ts: one list of scores kept under the
    AsyncStorage key '@horror_game_scores', read by `getScores`, appended to by `saveScore`
    and removed by `clearScores`. */
module Storage {
  import opened Scores

  /** What the key-value store holds under the scores key, as `getScores` sees it after
      `JSON.parse`: nothing (`getItem` yields null), the empty string, a parsed list of
      records, or text that `JSON.parse` rejects or that parses to something without a
      `sort` method. */
  datatype Slot = Absent | Blank | Stored(records: seq<Score>) | Unparseable

  /** What `getScores` returns: the stored records sorted by descending score, and the
      empty list when the read throws, when nothing or the empty string is stored, or when
      parsing and sorting throw. */
  function ReadScores(slot: Slot, readFails: bool): (r: seq<Score>)
    ensures SortedDesc(r)
    ensures readFails || !slot.Stored? ==> r == []
    ensures !readFails && slot.Stored? ==> multiset(r) == multiset(slot.records)
  {
    if readFails then []
    else match slot
      case Stored(records) =>
        SortIsSorted(records);
        SortByScoreDesc(records)
      case _ => []
  }

  /** The key's contents after `saveScore` with record `rec`: the list `getScores` returned
      followed by `rec`, unless `setItem` throws, in which case nothing is written. */
  function SavedSlot(slot: Slot, readFails: bool, writeFails: bool, rec: Score): (r: Slot)
    ensures writeFails ==> r == slot
    ensures !writeFails ==> r.Stored? && |r.records| == |ReadScores(slot, readFails)| + 1
    ensures !writeFails ==> r.records[|r.records| - 1] == rec
    ensures !writeFails ==> r.records[..|r.records| - 1] == ReadScores(slot, readFails)
  {
    if writeFails then slot else Stored(ReadScores(slot, readFails) + [rec])
  }

  /** The key's contents after `clearScores`: removed, unless `removeItem` throws. */
  function ClearedSlot(slot: Slot, writeFails: bool): (r: Slot)
    ensures writeFails ==> r == slot
    ensures !writeFails ==> ReadScores(r, false) == []
  {
    if writeFails then slot else Absent
  }

  /** The key-value store as far as the scores key is concerned. `readFails` and
      `writeFails` say whether `AsyncStorage.getItem` and `setItem`/`removeItem` throw;
      they belong to the environment, and no operation changes them. */
  class ScoreStore {
    var slot: Slot
    var readFails: bool
    var writeFails: bool

    constructor (slot: Slot, readFails: bool, writeFails: bool)
      ensures this.slot == slot && this.readFails == readFails && this.writeFails == writeFails
    {
      this.slot := slot;
      this.readFails := readFails;
      this.writeFails := writeFails;
    }

    /** `getScores`: read, parse, sort descending; every failure yields []. */
    method GetScores() returns (scores: seq<Score>)
      ensures scores == ReadScores(slot, readFails)
    {
      if readFails {
        return [];
      }
      match slot {
        case Absent => scores := [];
        case Blank => scores := [];
        case Unparseable => scores := [];
        case Stored(records) => scores := SortByScoreDesc(records);
      }
    }

    /** `saveScore`: read the sorted list through `getScores`, append one new record and
      write the whole list back; a failed write leaves the key as it was and nothing is
      reported to the caller. */
    method SaveScore(playerName: string, score: int, id: string, createdAt: string)
      modifies this
      ensures slot == SavedSlot(old(slot), readFails, writeFails, NewScore(playerName, score, id, createdAt))
      ensures readFails == old(readFails) && writeFails == old(writeFails)
    {
      var existing := GetScores();
      var newScore := NewScore(playerName, score, id, createdAt);
      var updated := existing + [newScore];
      if !writeFails {
        slot := Stored(updated);
      }
    }

    /** `clearScores`: remove the key; a failed removal leaves it as it was. */
    method ClearScores()
      modifies this
      ensures slot == ClearedSlot(old(slot), writeFails)
      ensures readFails == old(readFails) && writeFails == old(writeFails)
    {
      if !writeFails {
        slot := Absent;
      }
    }
  }

  /** `getScores` returns the empty list exactly when the read fails, nothing usable is
      stored, or the stored list is empty. */
  lemma ReadEmptyIff(slot: Slot, readFails: bool)
    ensures ReadScores(slot, readFails) == [] <==>
            readFails || !slot.Stored? || slot.records == []
  {
    if !readFails && slot.Stored? && ReadScores(slot, readFails) == [] {
      assert |multiset(slot.records)| == 0;
    }
  }

  /** `getScores` neither adds, drops nor alters a record: whatever it returns was stored,
      as many times as it was stored. The multiset equality is a corollary of
      `ReadScores`' contract; the length equality follows from it. */
  lemma ReadIsPermutation(records: seq<Score>)
    ensures multiset(ReadScores(Stored(records), false)) == multiset(records)
    ensures |ReadScores(Stored(records), false)| == |records|
  {
    var r := ReadScores(Stored(records), false);
    assert |multiset(r)| == |r|;
  }

  /** A successful save keeps every record that was stored and adds exactly the new one. */
  lemma {:induction false} SaveKeepsEveryRecord(records: seq<Score>, rec: Score)
    ensures var after := SavedSlot(Stored(records), false, false, rec);
            after.Stored? && multiset(after.records) == multiset(records) + multiset{rec}
            && |after.records| == |records| + 1
  {
    var after := SavedSlot(Stored(records), false, false, rec);
    ReadIsPermutation(records);
    assert after.records == ReadScores(Stored(records), false) + [rec];
  }

  /** The list a save writes is the previous leaderboard, still in descending order,
      followed by the new record. */
  lemma SaveWritesSortedPrefix(slot: Slot, readFails: bool, rec: Score)
    ensures var after := SavedSlot(slot, readFails, false, rec);
            after.Stored? && after.records[..|after.records| - 1] == ReadScores(slot, readFails)
            && SortedDesc(after.records[..|after.records| - 1])
  {
    var after := SavedSlot(slot, readFails, false, rec);
    assert after.records[..|after.records| - 1] == ReadScores(slot, readFails);
  }

  /** When the read inside `saveScore` yields [] because it failed, or because nothing,
      an empty string or unparseable text was stored, the write replaces whatever was
      there with the single new record. */
  lemma SaveAfterFailedRead(slot: Slot, readFails: bool, rec: Score)
    requires readFails || !slot.Stored?
    ensures SavedSlot(slot, readFails, false, rec) == Stored([rec])
  {
  }

  /** After a successful save, the leaderboard holds the previous leaderboard's records and
      the new one, in descending order, with the new record among them. */
  lemma {:induction false} LeaderboardAfterSave(slot: Slot, rec: Score)
    ensures var board := ReadScores(SavedSlot(slot, false, false, rec), false);
            SortedDesc(board)
            && multiset(board) == multiset(ReadScores(slot, false)) + multiset{rec}
            && rec in board
  {
    var board := ReadScores(SavedSlot(slot, false, false, rec), false);
    assert rec in multiset(board);
  }

  /** After a successful clear, `getScores` returns []: a corollary of `ClearedSlot`'s
      contract, stated on its own for the clear-then-read sequence. */
  lemma ReadAfterClear(slot: Slot)
    ensures ReadScores(ClearedSlot(slot, false), false) == []
  {
  }

  /** The leaderboard is the stored list in descending order: stored scores [30, 90, 60]
      read back as [90, 60, 30]. */
  lemma ReadSortsExample(a: Score, b: Score, c: Score)
    requires a.score == 30 && b.score == 90 && c.score == 60
    ensures ReadScores(Stored([a, b, c]), false) == [b, c, a]
  {
    assert [b, c, a][1..] == [c, a];
  }

  /** Saving score 50 for an empty name into an empty cache gives a leaderboard holding
      one record, for 'Anonymous' with score 50. */
  lemma AnonymousSaveExample(id: string, at: string)
    ensures ReadScores(SavedSlot(Absent, false, false, NewScore("", 50, id, at)), false)
            == [Score(id, "Anonymous", 50, at)]
  {
    var rec := NewScore("", 50, id, at);
    assert ReadScores(Absent, false) + [rec] == [rec];
    assert SortByScoreDesc([rec]) == Insert(rec, SortByScoreDesc([rec][1..]));
  }
}
