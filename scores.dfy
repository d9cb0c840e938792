/** The leaderboard record of lib/storage.ts, the record `saveScore` builds, and the
    descending sort `getScores` applies to what it reads. */
module Scores {

  /** One leaderboard entry. `score` is a JavaScript number in the source; the game only
      ever produces multiples of ten, so it is an integer here. */
  datatype Score = Score(id: string, player_name: string, score: int, created_at: string)

  /** The display name used when the player left the name empty. */
  const DefaultName: string := "Anonymous"

  /** The record `saveScore` appends: `playerName || 'Anonymous'` as the name, the score as
      given. `id` (from `Date.now()`) and `createdAt` (from `new Date()`) are parameters. */
  function NewScore(playerName: string, score: int, id: string, createdAt: string): (r: Score)
    ensures r.player_name != ""
    ensures playerName != "" ==> r.player_name == playerName
    ensures playerName == "" ==> r.player_name == DefaultName
    ensures r.score == score && r.id == id && r.created_at == createdAt
  {
    Score(id, if playerName == "" then DefaultName else playerName, score, createdAt)
  }

  /** Scores never increase along the list. */
  ghost predicate SortedDesc(s: seq<Score>)
  {
    forall i, j :: 0 <= i < j < |s| ==> s[i].score >= s[j].score
  }

  /** Places `x` in front of the first element whose score is at most its own, so that
      among equal scores `x` comes first. */
  function Insert(x: Score, s: seq<Score>): (r: seq<Score>)
    ensures multiset(r) == multiset(s) + multiset{x}
  {
    if s == [] || x.score >= s[0].score then [x] + s
    else
      assert s == [s[0]] + s[1..];
      [s[0]] + Insert(x, s[1..])
  }

  /** The order produced by `Array.prototype.sort` with the comparator
      `(a, b) => b.score - a.score`: descending by score and, since that sort is stable,
      equal scores keep their original relative order. */
  function SortByScoreDesc(s: seq<Score>): (r: seq<Score>)
    ensures multiset(r) == multiset(s)
  {
    if s == [] then []
    else
      assert s == [s[0]] + s[1..];
      Insert(s[0], SortByScoreDesc(s[1..]))
  }

  lemma {:induction false} InsertSorted(x: Score, s: seq<Score>)
    requires SortedDesc(s)
    ensures SortedDesc(Insert(x, s))
  {
    if s == [] || x.score >= s[0].score {
    } else {
      var t := Insert(x, s[1..]);
      InsertSorted(x, s[1..]);
      forall j | 0 <= j < |t|
        ensures s[0].score >= t[j].score
      {
        assert t[j] in multiset(t);
        if t[j] != x {
          assert t[j] in multiset(s[1..]);
          var i :| 0 <= i < |s[1..]| && s[1..][i] == t[j];
          assert s[i + 1] == t[j];
        }
      }
    }
  }

  /** `getScores` returns its records sorted: each score is at least every later one. */
  lemma {:induction false} SortIsSorted(s: seq<Score>)
    ensures SortedDesc(SortByScoreDesc(s))
  {
    if s != [] {
      SortIsSorted(s[1..]);
      InsertSorted(s[0], SortByScoreDesc(s[1..]));
    }
  }

  /** The records of `s` whose score is `k`, in their order in `s`. */
  function OfScore(s: seq<Score>, k: int): seq<Score>
  {
    if s == [] then []
    else (if s[0].score == k then [s[0]] else []) + OfScore(s[1..], k)
  }

  lemma {:induction false} InsertKeepsTies(x: Score, s: seq<Score>, k: int)
    ensures OfScore(Insert(x, s), k) == (if x.score == k then [x] else []) + OfScore(s, k)
  {
    if s == [] || x.score >= s[0].score {
      assert ([x] + s)[1..] == s;
    } else {
      var t := Insert(x, s[1..]);
      assert ([s[0]] + t)[1..] == t;
      InsertKeepsTies(x, s[1..], k);
    }
  }

  /** The sort is stable: records with the same score come out in the order they were
      stored in. */
  lemma {:induction false} SortIsStable(s: seq<Score>, k: int)
    ensures OfScore(SortByScoreDesc(s), k) == OfScore(s, k)
  {
    if s != [] {
      SortIsStable(s[1..], k);
      InsertKeepsTies(s[0], SortByScoreDesc(s[1..]), k);
    }
  }

  /** A list that is already in descending order comes back unchanged. */
  lemma {:induction false} SortOfSortedIsIdentity(s: seq<Score>)
    requires SortedDesc(s)
    ensures SortByScoreDesc(s) == s
  {
    if s != [] {
      SortOfSortedIsIdentity(s[1..]);
    }
  }
}
