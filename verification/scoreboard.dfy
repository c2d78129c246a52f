/** The score list of the scoreboard page: the form's validation schema,
    adding a record with a fresh id, the statistics, the table's descending
    sort and clearing, all as pure functions over the list of records. */
module Scoreboard {

  /** One stored result: `{ id, player, score }`. */
  datatype Score = Score(id: int, player: string, score: int)

  // ---------------------------------------------------------------------------
  // Validation (the form's schema)

  const MinNameLength: int := 3
  const MaxNameLength: int := 50

  type Positive = d: int | d > 0 witness 1

  /** What the number field holds: nothing, or the number num / den. */
  datatype NumberInput = Blank | Number(num: int, den: Positive)

  /** The constraints the schema declares, one per failed rule. */
  datatype Rejection =
    | NameMissing | NameTooShort | NameTooLong
    | ScoreMissing | ScoreNotPositive | ScoreNotInteger

  /** The declared constraints: a name of 3 to 50 characters and a score that
      is a positive integer. */
  predicate Acceptable(player: string, score: NumberInput)
  {
    && MinNameLength <= |player| <= MaxNameLength
    && score.Number?
    && score.num > 0
    && score.num % score.den == 0
  }

  /** Every rule of the schema that the submission breaks. */
  function Rejections(player: string, score: NumberInput): (errs: set<Rejection>)
    ensures errs == {} <==> Acceptable(player, score)
  {
    (if |player| == 0 then {NameMissing} else {})
    + (if |player| < MinNameLength then {NameTooShort} else {})
    + (if |player| > MaxNameLength then {NameTooLong} else {})
    + (match score
       case Blank => {ScoreMissing}
       case Number(n, d) =>
         (if n <= 0 then {ScoreNotPositive} else {})
         + (if n % d != 0 then {ScoreNotInteger} else {}))
  }

  /** The integer an accepted score field holds. */
  function ScoreValue(score: NumberInput): (v: int)
    requires score.Number? && score.num % score.den == 0
    ensures v * score.den == score.num
  {
    score.num / score.den
  }

  // ---------------------------------------------------------------------------
  // Fresh ids and adding a record

  /** `Math.max(...scores.map((s) => s.id))`. */
  function MaxId(s: seq<Score>): (m: int)
    requires |s| > 0
    ensures forall i :: 0 <= i < |s| ==> s[i].id <= m
    ensures exists i :: 0 <= i < |s| && s[i].id == m
  {
    if |s| == 1 then s[0].id
    else
      var rest := MaxId(s[1..]);
      assert forall i :: 1 <= i < |s| ==> s[i] == s[1..][i - 1];
      if s[0].id >= rest then s[0].id else rest
  }

  /** The id of the next record: 1 for an empty list, otherwise one more
      than the largest id in use, hence larger than every id in use. */
  function NextId(s: seq<Score>): (id: int)
    ensures forall i :: 0 <= i < |s| ==> s[i].id < id
    ensures |s| == 0 ==> id == 1
    ensures |s| > 0 ==> exists i :: 0 <= i < |s| && s[i].id == id - 1
  {
    if |s| > 0 then MaxId(s) + 1 else 1
  }

  /** `[...scores, newScore]`: one record appended, the others untouched. */
  function AddScore(s: seq<Score>, player: string, score: int): (r: seq<Score>)
    ensures |r| == |s| + 1
    ensures r[..|s|] == s
    ensures r[|s|].player == player && r[|s|].score == score
    ensures forall i :: 0 <= i < |s| ==> s[i].id < r[|s|].id
    ensures r[|s|].id == NextId(s)
  {
    s + [Score(NextId(s), player, score)]
  }

  /** The outcome of submitting the form. */
  datatype Submission = Added(scores: seq<Score>) | Rejected(reasons: set<Rejection>)

  /** The form calls addScore only for a submission the schema accepts. */
  function Submit(s: seq<Score>, player: string, score: NumberInput): (out: Submission)
    ensures out.Added? <==> Acceptable(player, score)
    ensures out.Added? ==> out.scores == AddScore(s, player, ScoreValue(score))
    ensures out.Rejected? ==> out.reasons != {}
  {
    var errs := Rejections(player, score);
    if errs == {} then Added(AddScore(s, player, ScoreValue(score))) else Rejected(errs)
  }

  predicate DistinctIds(s: seq<Score>)
  {
    forall i, j :: 0 <= i < j < |s| ==> s[i].id != s[j].id
  }

  /** Adding a record keeps the ids pairwise distinct. */
  lemma AddKeepsIdsDistinct(s: seq<Score>, player: string, score: int)
    requires DistinctIds(s)
    ensures DistinctIds(AddScore(s, player, score))
  {
    var r := AddScore(s, player, score);
    forall i, j | 0 <= i < j < |r|
      ensures r[i].id != r[j].id
    {
      if j < |s| {
        assert r[i] == s[i] && r[j] == s[j];
      } else {
        assert r[i] == s[i];
      }
    }
  }

  // ---------------------------------------------------------------------------
  // Statistics

  /** `Math.max(...scores.map((s) => s.score))`. */
  function MaxScore(s: seq<Score>): (m: int)
    requires |s| > 0
    ensures forall i :: 0 <= i < |s| ==> s[i].score <= m
    ensures exists i :: 0 <= i < |s| && s[i].score == m
  {
    if |s| == 1 then s[0].score
    else
      var rest := MaxScore(s[1..]);
      assert forall i :: 1 <= i < |s| ==> s[i] == s[1..][i - 1];
      if s[0].score >= rest then s[0].score else rest
  }

  /** The "best score" statistic: the maximum score, 0 for an empty list. */
  function Highest(s: seq<Score>): (h: int)
    ensures |s| == 0 ==> h == 0
    ensures |s| > 0 ==> (forall i :: 0 <= i < |s| ==> s[i].score <= h)
    ensures |s| > 0 ==> exists i :: 0 <= i < |s| && s[i].score == h
  {
    if |s| > 0 then MaxScore(s) else 0
  }

  /** The statistics the page shows: number of players and best score. */
  datatype Stats = Stats(players: int, highest: int)

  function StatsOf(s: seq<Score>): Stats
  {
    Stats(|s|, Highest(s))
  }

  // ---------------------------------------------------------------------------
  // Descending sort for the table

  predicate SortedByScore(s: seq<Score>)
  {
    forall i, j :: 0 <= i < j < |s| ==> s[i].score >= s[j].score
  }

  /** The records of s with score v, in their order in s. */
  function WithScore(s: seq<Score>, v: int): seq<Score>
  {
    if |s| == 0 then []
    else if s[0].score == v then [s[0]] + WithScore(s[1..], v)
    else WithScore(s[1..], v)
  }

  /** Inserts x after every record that scores strictly higher, so x comes
      before the records it ties with. */
  function Insert(x: Score, t: seq<Score>): (r: seq<Score>)
    ensures multiset(r) == multiset(t) + multiset{x}
    ensures SortedByScore(t) ==> SortedByScore(r)
    ensures forall v :: WithScore(r, v) == if x.score == v then [x] + WithScore(t, v) else WithScore(t, v)
  {
    if |t| == 0 || t[0].score <= x.score then
      var r := [x] + t;
      WithScoreCons(x, t);
      r
    else
      var rest := Insert(x, t[1..]);
      var r := [t[0]] + rest;
      assert t == [t[0]] + t[1..];
      WithScoreCons(t[0], rest);
      WithScoreCons(t[0], t[1..]);
      ConsKeepsSorted(t, x, rest);
      r
  }

  /** WithScore of a record followed by a list. */
  lemma WithScoreCons(y: Score, t: seq<Score>)
    ensures forall v :: WithScore([y] + t, v) == if y.score == v then [y] + WithScore(t, v) else WithScore(t, v)
  {
    assert ([y] + t)[1..] == t;
  }

  /** Putting t[0] in front of the insertion into t[1..] keeps the order. */
  lemma ConsKeepsSorted(t: seq<Score>, x: Score, rest: seq<Score>)
    requires |t| > 0 && x.score < t[0].score
    requires multiset(rest) == multiset(t[1..]) + multiset{x}
    requires SortedByScore(t[1..]) ==> SortedByScore(rest)
    ensures SortedByScore(t) ==> SortedByScore([t[0]] + rest)
  {
    if SortedByScore(t) {
      var r := [t[0]] + rest;
      assert SortedByScore(t[1..]);
      forall k | 0 <= k < |rest|
        ensures rest[k].score <= t[0].score
      {
        assert rest[k] in multiset(rest);
        if rest[k] != x {
          assert rest[k] in multiset(t[1..]);
          var m :| 0 <= m < |t[1..]| && t[1..][m] == rest[k];
          assert t[m + 1] == rest[k];
        }
      }
      forall i, j | 0 <= i < j < |r|
        ensures r[i].score >= r[j].score
      {
        if i > 0 {
          assert r[i] == rest[i - 1] && r[j] == rest[j - 1];
        } else {
          assert r[j] == rest[j - 1];
        }
      }
    }
  }

  /** `scores.sort((a, b) => b.score - a.score)`: a stable sort by score,
      highest first. */
  function SortForDisplay(s: seq<Score>): (r: seq<Score>)
    ensures multiset(r) == multiset(s)
    ensures SortedByScore(r)
    ensures forall v :: WithScore(r, v) == WithScore(s, v)
  {
    if |s| == 0 then []
    else
      assert s == [s[0]] + s[1..];
      Insert(s[0], SortForDisplay(s[1..]))
  }

  /** Where record k of a reordering b of a sits in a. */
  lemma PositionIn(a: seq<Score>, b: seq<Score>, k: int) returns (i: int)
    requires multiset(a) == multiset(b) && 0 <= k < |b|
    ensures 0 <= i < |a| && a[i] == b[k]
  {
    assert b[k] in multiset(b);
    assert b[k] in a;
    i :| 0 <= i < |a| && a[i] == b[k];
  }

  /** The best score depends only on which records are present. */
  lemma PermutationKeepsHighest(a: seq<Score>, b: seq<Score>)
    requires multiset(a) == multiset(b)
    ensures Highest(a) == Highest(b)
  {
    assert |a| == |multiset(a)| == |multiset(b)| == |b|;
    if |a| > 0 {
      var i :| 0 <= i < |a| && a[i].score == Highest(a);
      var j :| 0 <= j < |b| && b[j].score == Highest(b);
      var k := PositionIn(b, a, i);
      var l := PositionIn(a, b, j);
      assert b[k].score <= Highest(b);
      assert a[l].score <= Highest(a);
    }
  }

  /** The next id depends only on which records are present. */
  lemma PermutationKeepsNextId(a: seq<Score>, b: seq<Score>)
    requires multiset(a) == multiset(b)
    ensures NextId(a) == NextId(b)
  {
    assert |a| == |multiset(a)| == |multiset(b)| == |b|;
    if |a| > 0 {
      var i :| 0 <= i < |a| && a[i].id == NextId(a) - 1;
      var j :| 0 <= j < |b| && b[j].id == NextId(b) - 1;
      var k := PositionIn(b, a, i);
      var l := PositionIn(a, b, j);
      assert b[k].id < NextId(b);
      assert a[l].id < NextId(a);
    }
  }

  /** Distinct ids stay distinct under any reordering. */
  lemma PermutationKeepsIdsDistinct(a: seq<Score>, b: seq<Score>)
    requires multiset(a) == multiset(b)
    requires DistinctIds(a)
    ensures DistinctIds(b)
  {
    forall i, j | 0 <= i < j < |b|
      ensures b[i].id != b[j].id
    {
      var p := PositionIn(a, b, i);
      if b[i] == b[j] {
        CountAtLeastTwo(b, i, j);
        CountAtMostOne(a, p);
      } else {
        var q := PositionIn(a, b, j);
        assert p != q;
      }
    }
  }

  lemma CountAtLeastTwo(s: seq<Score>, i: int, j: int)
    requires 0 <= i < j < |s| && s[i] == s[j]
    ensures multiset(s)[s[i]] >= 2
  {
    assert s == s[..i] + [s[i]] + s[i + 1..j] + [s[j]] + s[j + 1..];
  }

  /** With distinct ids, no record occurs twice. */
  lemma CountAtMostOne(s: seq<Score>, p: int)
    requires DistinctIds(s) && 0 <= p < |s|
    ensures multiset(s)[s[p]] == 1
  {
    assert s == s[..p] + [s[p]] + s[p + 1..];
    assert forall k :: 0 <= k < p ==> s[..p][k] == s[k];
    assert forall k :: p < k < |s| ==> s[p + 1..][k - p - 1] == s[k];
    assert s[p] !in s[..p];
    assert s[p] !in s[p + 1..];
  }

  // ---------------------------------------------------------------------------
  // Clearing

  /** clearAllScores: the list is emptied only when the user confirms.
      After a confirmed clear the statistics read 0 players, best score 0,
      and the next record gets id 1 again; without confirmation nothing
      changes. */
  function ClearAll(s: seq<Score>, confirmed: bool): (r: seq<Score>)
    ensures confirmed ==> |r| == 0 && StatsOf(r) == Stats(0, 0) && NextId(r) == 1
    ensures !confirmed ==> r == s
  {
    if confirmed then [] else s
  }

  // ---------------------------------------------------------------------------
  // The list over a session

  /** What the user can do to the list: submit the form, let the table
      render (its sort reorders the stored array in place), or ask to clear. */
  datatype Action = SubmitForm(player: string, score: NumberInput) | Display | Clear(confirmed: bool)

  /** One action on the stored list: an accepted submission appends one
      record and a rejected one changes nothing; rendering the table
      reorders the list into descending score order without adding or
      losing a record; a clear empties the list only when confirmed. */
  function Apply(s: seq<Score>, a: Action): (r: seq<Score>)
    ensures a.SubmitForm? && Acceptable(a.player, a.score) ==>
      r == AddScore(s, a.player, ScoreValue(a.score))
    ensures a.SubmitForm? && !Acceptable(a.player, a.score) ==> r == s
    ensures a.Display? ==> multiset(r) == multiset(s) && SortedByScore(r)
    ensures a.Clear? ==> r == (if a.confirmed then [] else s)
  {
    match a
    case SubmitForm(player, score) =>
      (match Submit(s, player, score)
       case Added(r) => r
       case Rejected(_) => s)
    case Display => SortForDisplay(s)
    case Clear(confirmed) => ClearAll(s, confirmed)
  }

  function Replay(s: seq<Score>, actions: seq<Action>): seq<Score>
    decreases |actions|
  {
    if |actions| == 0 then s else Replay(Apply(s, actions[0]), actions[1..])
  }

  /** Every stored record satisfies the schema and the ids are positive and
      pairwise distinct. */
  predicate WellFormed(s: seq<Score>)
  {
    && DistinctIds(s)
    && (forall i :: 0 <= i < |s| ==> s[i].id >= 1)
    && (forall i :: 0 <= i < |s| ==> MinNameLength <= |s[i].player| <= MaxNameLength && s[i].score > 0)
  }

  lemma SubmitKeepsWellFormed(s: seq<Score>, player: string, score: NumberInput)
    requires WellFormed(s)
    ensures WellFormed(Apply(s, SubmitForm(player, score)))
  {
    if Acceptable(player, score) {
      var v := ScoreValue(score);
      AddKeepsIdsDistinct(s, player, v);
      var r := AddScore(s, player, v);
      assert Apply(s, SubmitForm(player, score)) == r;
      assert forall i :: 0 <= i < |s| ==> r[i] == s[i];
      assert r[|s|].id >= 1 by {
        if |s| > 0 {
          assert s[0].id < r[|s|].id;
        }
      }
      assert r[|s|].score == v && v > 0;
    }
  }

  lemma DisplayKeepsWellFormed(s: seq<Score>)
    requires WellFormed(s)
    ensures WellFormed(Apply(s, Display))
  {
    var r := SortForDisplay(s);
    PermutationKeepsIdsDistinct(s, r);
    forall k | 0 <= k < |r|
      ensures r[k].id >= 1 && MinNameLength <= |r[k].player| <= MaxNameLength && r[k].score > 0
    {
      var i := PositionIn(s, r, k);
    }
  }

  lemma ApplyKeepsWellFormed(s: seq<Score>, a: Action)
    requires WellFormed(s)
    ensures WellFormed(Apply(s, a))
  {
    match a
    case SubmitForm(player, score) => SubmitKeepsWellFormed(s, player, score);
    case Display => DisplayKeepsWellFormed(s);
    case Clear(_) =>
  }

  /** Starting from an empty list, any session keeps every record valid and
      every id unique. */
  lemma {:induction false} SessionKeepsWellFormed(s: seq<Score>, actions: seq<Action>)
    requires WellFormed(s)
    ensures WellFormed(Replay(s, actions))
    decreases |actions|
  {
    if |actions| > 0 {
      ApplyKeepsWellFormed(s, actions[0]);
      SessionKeepsWellFormed(Apply(s, actions[0]), actions[1..]);
    }
  }

  /** Rendering the table reorders the stored list without changing what
      the statistics show or which id comes next. */
  lemma DisplayKeepsStats(s: seq<Score>)
    ensures StatsOf(Apply(s, Display)) == StatsOf(s)
    ensures NextId(Apply(s, Display)) == NextId(s)
  {
    PermutationKeepsHighest(s, SortForDisplay(s));
    PermutationKeepsNextId(s, SortForDisplay(s));
  }
}
