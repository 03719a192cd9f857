/** The relational meaning of the SQL statements the data-access layer sends, as functions
    over the abstract database, and the properties the callers rely on. */
module Queries {

  import opened Ordering
  import opened Tables

  // ---------------------------------------------------------------------------------------
  // Polls: `SELECT ... FROM polls WHERE id = $1` and
  //        `SELECT ... FROM polls WHERE is_open = true ORDER BY created_at DESC LIMIT 1`
  // ---------------------------------------------------------------------------------------

  /** The rows of `polls` whose id is `id`, in storage order. */
  function PollsWithId(ps: seq<Poll>, id: int): (r: seq<Poll>)
    ensures forall p :: p in r <==> p in ps && p.id == id
  {
    if ps == [] then []
    else (if ps[0].id == id then [ps[0]] else []) + PollsWithId(ps[1..], id)
  }

  /** The rows of `polls` that are open, in storage order. */
  function OpenPolls(ps: seq<Poll>): (r: seq<Poll>)
    ensures forall p :: p in r <==> p in ps && p.isOpen
  {
    if ps == [] then []
    else (if ps[0].isOpen then [ps[0]] else []) + OpenPolls(ps[1..])
  }

  /** Sort key for `ORDER BY created_at DESC`. */
  function NewestFirst(p: Poll): int { -p.createdAt }

  /** The rows of the latest-poll query before `LIMIT 1`. */
  function LatestOpenRows(ps: seq<Poll>): seq<Poll> {
    SortBy(OpenPolls(ps), NewestFirst)
  }

  /** The first row of the latest-poll query is an open poll created no earlier than any other
      open poll, and there is a first row exactly when some poll is open. */
  lemma LatestOpenRowsFirst(ps: seq<Poll>)
    ensures |LatestOpenRows(ps)| > 0 <==> exists p :: p in ps && p.isOpen
    ensures |LatestOpenRows(ps)| > 0 ==>
      var p := LatestOpenRows(ps)[0];
      && p in ps && p.isOpen
      && forall q :: q in ps && q.isOpen ==> q.createdAt <= p.createdAt
  {
    var rows := LatestOpenRows(ps);
    SortByCorrect(OpenPolls(ps), NewestFirst);
    forall q | q in OpenPolls(ps) ensures q in rows {
      SortByMembers(OpenPolls(ps), NewestFirst, q);
    }
    if |rows| > 0 {
      SortByMembers(OpenPolls(ps), NewestFirst, rows[0]);
      forall q | q in ps && q.isOpen ensures q.createdAt <= rows[0].createdAt {
        SortByMembers(OpenPolls(ps), NewestFirst, q);
        var k :| 0 <= k < |rows| && rows[k] == q;
        if k > 0 { assert NewestFirst(rows[0]) <= NewestFirst(rows[k]); }
      }
    }
  }

  /** The `polls` primary key leaves at most one row for an id. */
  lemma {:induction false} PollsWithIdAtMostOne(ps: seq<Poll>, id: int)
    requires DistinctBy(ps, PollKey)
    ensures |PollsWithId(ps, id)| <= 1
  {
    if ps != [] {
      var t := ps[1..];
      assert DistinctBy(t, PollKey) by {
        forall i, j | 0 <= i < j < |t| ensures PollKey(t[i]) != PollKey(t[j]) {
          assert t[i] == ps[i + 1] && t[j] == ps[j + 1];
        }
      }
      PollsWithIdAtMostOne(t, id);
      if ps[0].id == id {
        forall q | q in t ensures q.id != id {
          var k :| 0 <= k < |t| && t[k] == q;
          assert ps[k + 1] == q;
        }
        PollsWithIdNone(t, id);
      }
    }
  }

  lemma {:induction false} PollsWithIdNone(ps: seq<Poll>, id: int)
    requires forall q :: q in ps ==> q.id != id
    ensures PollsWithId(ps, id) == []
  {
    if ps != [] {
      assert ps[0] in ps;
      PollsWithIdNone(ps[1..], id);
    }
  }

  // ---------------------------------------------------------------------------------------
  // Choices: `SELECT ... FROM choices WHERE poll_id = $1 ORDER BY id`
  // ---------------------------------------------------------------------------------------

  /** The rows of `choices` whose poll is `pollId`, in storage order. */
  function PollChoices(cs: seq<Choice>, pollId: int): (r: seq<Choice>)
    ensures forall c :: c in r <==> c in cs && c.pollId == pollId
  {
    if cs == [] then []
    else (if cs[0].pollId == pollId then [cs[0]] else []) + PollChoices(cs[1..], pollId)
  }

  /** The result rows of the choices query. */
  function ChoicesOf(cs: seq<Choice>, pollId: int): seq<Choice> {
    SortBy(PollChoices(cs, pollId), ChoiceKey)
  }

  lemma {:induction false} PollChoicesDistinct(cs: seq<Choice>, pollId: int)
    requires DistinctBy(cs, ChoiceKey)
    ensures DistinctBy(PollChoices(cs, pollId), ChoiceKey)
  {
    if cs != [] {
      var t := cs[1..];
      assert DistinctBy(t, ChoiceKey) by {
        forall i, j | 0 <= i < j < |t| ensures ChoiceKey(t[i]) != ChoiceKey(t[j]) {
          assert t[i] == cs[i + 1] && t[j] == cs[j + 1];
        }
      }
      PollChoicesDistinct(t, pollId);
      var rest := PollChoices(t, pollId);
      if cs[0].pollId == pollId {
        var r := [cs[0]] + rest;
        forall i, j | 0 <= i < j < |r| ensures ChoiceKey(r[i]) != ChoiceKey(r[j]) {
          assert r[j] == rest[j - 1];
          if i > 0 {
            assert r[i] == rest[i - 1];
          } else {
            assert rest[j - 1] in t;
            var k :| 0 <= k < |t| && t[k] == rest[j - 1];
            assert cs[k + 1] == r[j];
          }
        }
      }
    }
  }

  /** The choices query returns exactly the poll's choices. */
  lemma ChoicesOfMembers(cs: seq<Choice>, pollId: int)
    ensures forall c :: c in ChoicesOf(cs, pollId) <==> c in cs && c.pollId == pollId
  {
    forall c ensures c in ChoicesOf(cs, pollId) <==> c in PollChoices(cs, pollId) {
      SortByMembers(PollChoices(cs, pollId), ChoiceKey, c);
    }
  }

  /** With unique choice ids the choices query is in strictly ascending id order. */
  lemma ChoicesOfAscending(cs: seq<Choice>, pollId: int)
    requires DistinctBy(cs, ChoiceKey)
    ensures forall i, j :: 0 <= i < j < |ChoicesOf(cs, pollId)| ==>
      ChoicesOf(cs, pollId)[i].id < ChoicesOf(cs, pollId)[j].id
  {
    var rows := ChoicesOf(cs, pollId);
    SortByCorrect(PollChoices(cs, pollId), ChoiceKey);
    PollChoicesDistinct(cs, pollId);
    PermutationDistinct(PollChoices(cs, pollId), rows, ChoiceKey);
    forall i, j | 0 <= i < j < |rows| ensures rows[i].id < rows[j].id {
      assert ChoiceKey(rows[i]) <= ChoiceKey(rows[j]);
      assert ChoiceKey(rows[i]) != ChoiceKey(rows[j]);
    }
  }

  /** A poll id that no poll has yields no choices (the foreign key choice -> poll), and no error. */
  lemma ChoicesOfUnknownPoll(db: Db, pollId: int)
    requires Consistent(db)
    requires !HasPoll(db.polls, pollId)
    ensures ChoicesOf(db.choices, pollId) == []
  {
    forall c | c in db.choices ensures c.pollId != pollId {
      assert HasPoll(db.polls, c.pollId);
    }
    PollChoicesNone(db.choices, pollId);
  }

  lemma {:induction false} PollChoicesNone(cs: seq<Choice>, pollId: int)
    requires forall c :: c in cs ==> c.pollId != pollId
    ensures PollChoices(cs, pollId) == []
  {
    if cs != [] {
      assert cs[0] in cs;
      PollChoicesNone(cs[1..], pollId);
    }
  }

  // ---------------------------------------------------------------------------------------
  // Results: `SELECT c.*, count(a.choice_id) FROM choices c LEFT OUTER JOIN answers a
  //           ON a.choice_id = c.id WHERE c.poll_id = $1 GROUP BY ... ORDER BY count DESC`
  // ---------------------------------------------------------------------------------------

  /** The number of answers that reference choice `id`. */
  function CountVotes(ans: seq<AnswerRow>, id: int): nat {
    if ans == [] then 0
    else (if ans[0].choiceId == id then 1 else 0) + CountVotes(ans[1..], id)
  }

  /** The number of answers whose choice id is in `ids`. */
  function VotesIn(ans: seq<AnswerRow>, ids: set<int>): nat {
    if ans == [] then 0
    else (if ans[0].choiceId in ids then 1 else 0) + VotesIn(ans[1..], ids)
  }

  /** The ids of the choices of poll `pollId`. */
  function PollChoiceIds(cs: seq<Choice>, pollId: int): set<int> {
    set c | c in cs && c.pollId == pollId :: c.id
  }

  /** The answers recorded for poll `pollId`: those referencing one of its choices. */
  function VotesForPoll(db: Db, pollId: int): nat {
    VotesIn(db.answers, PollChoiceIds(db.choices, pollId))
  }

  /** One result row of the join: a choice and its `count(a.choice_id)`. */
  datatype Row = Row(choice: Choice, count: nat)

  /** The grouped outer join, one row per choice, before ordering.  Grouping also by
      `a.choice_id` splits nothing: on a choice's joined rows it is that choice's id, or NULL
      on the single row of a choice without answers. */
  function Counted(cs: seq<Choice>, ans: seq<AnswerRow>): seq<Row> {
    if cs == [] then [] else [Row(cs[0], CountVotes(ans, cs[0].id))] + Counted(cs[1..], ans)
  }

  function RowChoiceId(r: Row): int { r.choice.id }

  /** `rows` is an answer the database may give to the results query: the grouped join's rows
      in any order of non-increasing count.  The query names no tie-break, so rows with equal
      counts may come in any order. */
  predicate JoinRows(db: Db, pollId: int, rows: seq<Row>) {
    && multiset(rows) == multiset(Counted(PollChoices(db.choices, pollId), db.answers))
    && forall i, j :: 0 <= i < j < |rows| ==> rows[i].count >= rows[j].count
  }

  /** Sort key for `ORDER BY count(a.choice_id) DESC`. */
  function MostVotesFirst(r: Row): int { -(r.count as int) }

  /** One particular answer to the results query: the grouped rows, stably sorted. */
  function ResultRows(db: Db, pollId: int): seq<Row> {
    SortBy(Counted(PollChoices(db.choices, pollId), db.answers), MostVotesFirst)
  }

  /** The database can always answer the results query. */
  lemma ResultRowsAnswer(db: Db, pollId: int)
    ensures JoinRows(db, pollId, ResultRows(db, pollId))
  {
    var rows := ResultRows(db, pollId);
    SortByCorrect(Counted(PollChoices(db.choices, pollId), db.answers), MostVotesFirst);
    forall i, j | 0 <= i < j < |rows| ensures rows[i].count >= rows[j].count {
      assert MostVotesFirst(rows[i]) <= MostVotesFirst(rows[j]);
    }
  }

  function SumCounts(rows: seq<Row>): nat {
    if rows == [] then 0 else rows[0].count + SumCounts(rows[1..])
  }

  lemma {:induction false} CountedMembers(cs: seq<Choice>, ans: seq<AnswerRow>, r: Row)
    ensures r in Counted(cs, ans) <==> r.choice in cs && r.count == CountVotes(ans, r.choice.id)
  {
    if cs != [] {
      CountedMembers(cs[1..], ans, r);
      assert cs == [cs[0]] + cs[1..];
    }
  }

  lemma {:induction false} CountedDistinct(cs: seq<Choice>, ans: seq<AnswerRow>)
    requires DistinctBy(cs, ChoiceKey)
    ensures DistinctBy(Counted(cs, ans), RowChoiceId)
    ensures |Counted(cs, ans)| == |cs|
  {
    if cs != [] {
      var t := cs[1..];
      assert DistinctBy(t, ChoiceKey) by {
        forall i, j | 0 <= i < j < |t| ensures ChoiceKey(t[i]) != ChoiceKey(t[j]) {
          assert t[i] == cs[i + 1] && t[j] == cs[j + 1];
        }
      }
      CountedDistinct(t, ans);
      var rest := Counted(t, ans);
      var r := Counted(cs, ans);
      assert r == [Row(cs[0], CountVotes(ans, cs[0].id))] + rest;
      forall i, j | 0 <= i < j < |r| ensures RowChoiceId(r[i]) != RowChoiceId(r[j]) {
        assert r[j] == rest[j - 1];
        if i > 0 {
          assert r[i] == rest[i - 1];
        } else {
          CountedMembers(t, ans, rest[j - 1]);
          assert rest[j - 1] in rest;
          var k :| 0 <= k < |t| && t[k] == rest[j - 1].choice;
          assert cs[k + 1] == t[k];
        }
      }
    }
  }

  /** Every result row is a choice of the poll with its answer count, and every choice of the
      poll with its answer count is a result row: zero-vote choices appear with count 0. */
  lemma JoinRowsMembers(db: Db, pollId: int, rows: seq<Row>, r: Row)
    requires JoinRows(db, pollId, rows)
    ensures r in rows <==>
      && r.choice in db.choices && r.choice.pollId == pollId
      && r.count == CountVotes(db.answers, r.choice.id)
  {
    var cs := PollChoices(db.choices, pollId);
    assert r in rows <==> r in multiset(rows);
    assert r in Counted(cs, db.answers) <==> r in multiset(Counted(cs, db.answers));
    CountedMembers(cs, db.answers, r);
  }

  /** With unique choice ids there is one result row per choice of the poll. */
  lemma JoinRowsOnePerChoice(db: Db, pollId: int, rows: seq<Row>)
    requires DistinctBy(db.choices, ChoiceKey)
    requires JoinRows(db, pollId, rows)
    ensures DistinctBy(rows, RowChoiceId)
    ensures |rows| == |PollChoices(db.choices, pollId)|
  {
    var cs := PollChoices(db.choices, pollId);
    PollChoicesDistinct(db.choices, pollId);
    CountedDistinct(cs, db.answers);
    PermutationDistinct(Counted(cs, db.answers), rows, RowChoiceId);
    assert |multiset(rows)| == |rows|;
    assert |multiset(Counted(cs, db.answers))| == |Counted(cs, db.answers)|;
  }

  lemma {:induction false} SumCountsAppend(s: seq<Row>, t: seq<Row>)
    ensures SumCounts(s + t) == SumCounts(s) + SumCounts(t)
  {
    if s == [] {
      assert s + t == t;
    } else {
      assert (s + t)[1..] == s[1..] + t;
      SumCountsAppend(s[1..], t);
    }
  }

  /** Taking row `k` out of `b` removes its count from the sum. */
  lemma {:induction false} SumCountsRemove(b: seq<Row>, k: nat)
    requires k < |b|
    ensures SumCounts(b) == b[k].count + SumCounts(b[..k] + b[k + 1..])
  {
    if k == 0 {
      assert b[..k] + b[k + 1..] == b[1..];
    } else {
      var t := b[1..];
      SumCountsRemove(t, k - 1);
      var rest := t[..k - 1] + t[k..];
      assert b[..k] + b[k + 1..] == [b[0]] + rest;
      assert SumCounts([b[0]] + rest) == b[0].count + SumCounts(rest);
    }
  }

  /** Rearranging rows keeps their count sum. */
  lemma {:induction false} SumCountsPermutation(a: seq<Row>, b: seq<Row>)
    requires multiset(a) == multiset(b)
    ensures SumCounts(a) == SumCounts(b)
    decreases |a|
  {
    if a == [] {
      assert |b| == |multiset(b)| == 0;
    } else {
      assert a[0] in multiset(b);
      var k :| 0 <= k < |b| && b[k] == a[0];
      SumCountsRemove(b, k);
      MultisetRemove(b, k);
      assert a == [a[0]] + a[1..];
      assert multiset(a[1..]) == multiset(a) - multiset{a[0]};
      SumCountsPermutation(a[1..], b[..k] + b[k + 1..]);
    }
  }

  lemma {:induction false} VotesInAdd(ans: seq<AnswerRow>, ids: set<int>, id: int)
    requires id !in ids
    ensures VotesIn(ans, ids + {id}) == VotesIn(ans, ids) + CountVotes(ans, id)
  {
    if ans != [] {
      VotesInAdd(ans[1..], ids, id);
    }
  }

  lemma {:induction false} VotesInEmpty(ans: seq<AnswerRow>)
    ensures VotesIn(ans, {}) == 0
  {
    if ans != [] {
      VotesInEmpty(ans[1..]);
    }
  }

  lemma {:induction false} SumCountsCounted(cs: seq<Choice>, ans: seq<AnswerRow>)
    requires DistinctBy(cs, ChoiceKey)
    ensures SumCounts(Counted(cs, ans)) == VotesIn(ans, set c | c in cs :: c.id)
  {
    if cs == [] {
      assert (set c | c in cs :: c.id) == {};
      VotesInEmpty(ans);
    } else {
      var t := cs[1..];
      assert DistinctBy(t, ChoiceKey) by {
        forall i, j | 0 <= i < j < |t| ensures ChoiceKey(t[i]) != ChoiceKey(t[j]) {
          assert t[i] == cs[i + 1] && t[j] == cs[j + 1];
        }
      }
      SumCountsCounted(t, ans);
      var ids := set c | c in t :: c.id;
      forall c | c in t ensures c.id != cs[0].id {
        var k :| 0 <= k < |t| && t[k] == c;
        assert cs[k + 1] == c;
      }
      assert (set c | c in cs :: c.id) == ids + {cs[0].id} by {
        assert cs == [cs[0]] + t;
      }
      VotesInAdd(ans, ids, cs[0].id);
    }
  }

  /** The counts of the result rows add up to the answers recorded for the poll. */
  lemma JoinRowsTotal(db: Db, pollId: int, rows: seq<Row>)
    requires DistinctBy(db.choices, ChoiceKey)
    requires JoinRows(db, pollId, rows)
    ensures SumCounts(rows) == VotesForPoll(db, pollId)
  {
    var cs := PollChoices(db.choices, pollId);
    PollChoicesDistinct(db.choices, pollId);
    SumCountsPermutation(Counted(cs, db.answers), rows);
    SumCountsCounted(cs, db.answers);
    assert (set c | c in cs :: c.id) == PollChoiceIds(db.choices, pollId);
  }

  // ---------------------------------------------------------------------------------------
  // Summaries: the Go part of GetResults
  // ---------------------------------------------------------------------------------------

  /** A choice's share of the votes; 0 when there are no votes (no division by zero). */
  function Share(count: nat, total: nat): real {
    if total > 0 then count as real / total as real else 0.0
  }

  /** The summaries built from the result rows, with percentages against `total`. */
  function Tally(rows: seq<Row>, total: nat): seq<Summary> {
    if rows == [] then []
    else [Summary(rows[0].choice, rows[0].count, Share(rows[0].count, total))] + Tally(rows[1..], total)
  }

  /** The result GetResults returns for poll `p` from the result rows `rows`. */
  function ResultsFrom(p: Poll, rows: seq<Row>): PollResult {
    PollResult(p, Tally(rows, SumCounts(rows)), SumCounts(rows))
  }

  function SumSummaryCounts(ss: seq<Summary>): nat {
    if ss == [] then 0 else ss[0].count + SumSummaryCounts(ss[1..])
  }

  function SumPercentages(ss: seq<Summary>): real {
    if ss == [] then 0.0 else ss[0].percentage + SumPercentages(ss[1..])
  }

  /** Summary `k` carries row `k`'s choice and count and that count's share of `total`. */
  lemma {:induction false} TallyAt(rows: seq<Row>, total: nat, k: nat)
    requires k < |rows|
    ensures |Tally(rows, total)| == |rows|
    ensures Tally(rows, total)[k] == Summary(rows[k].choice, rows[k].count, Share(rows[k].count, total))
  {
    TallyLength(rows, total);
    if k > 0 {
      TallyAt(rows[1..], total, k - 1);
    }
  }

  /** Summaries that agree with `Tally` position by position are `Tally`. */
  lemma TallyPointwise(rows: seq<Row>, total: nat, ss: seq<Summary>)
    requires |ss| == |rows|
    requires forall k :: 0 <= k < |rows| ==>
      ss[k] == Summary(rows[k].choice, rows[k].count, Share(rows[k].count, total))
    ensures ss == Tally(rows, total)
  {
    TallyLength(rows, total);
    forall k | 0 <= k < |rows| ensures ss[k] == Tally(rows, total)[k] {
      TallyAt(rows, total, k);
    }
  }

  lemma {:induction false} TallyLength(rows: seq<Row>, total: nat)
    ensures |Tally(rows, total)| == |rows|
  {
    if rows != [] {
      TallyLength(rows[1..], total);
    }
  }

  lemma {:induction false} TallyCounts(rows: seq<Row>, total: nat)
    ensures SumSummaryCounts(Tally(rows, total)) == SumCounts(rows)
  {
    if rows != [] {
      TallyCounts(rows[1..], total);
    }
  }

  lemma DivAdd(a: real, b: real, t: real)
    requires t > 0.0
    ensures a / t + b / t == (a + b) / t
  {
  }

  lemma {:induction false} TallyShares(rows: seq<Row>, total: nat)
    requires total > 0
    ensures SumPercentages(Tally(rows, total)) == SumCounts(rows) as real / total as real
  {
    if rows != [] {
      TallyShares(rows[1..], total);
      DivAdd(rows[0].count as real, SumCounts(rows[1..]) as real, total as real);
    }
  }

  /** The result's count is the sum of its summaries' counts, and every summary is a choice of
      the poll carrying the number of answers that reference it. */
  lemma ResultCountsAgree(db: Db, p: Poll, rows: seq<Row>)
    requires JoinRows(db, p.id, rows)
    ensures SumSummaryCounts(ResultsFrom(p, rows).summaries) == ResultsFrom(p, rows).count
    ensures forall s :: s in ResultsFrom(p, rows).summaries ==>
      && s.choice in db.choices && s.choice.pollId == p.id
      && s.count == CountVotes(db.answers, s.choice.id)
  {
    var res := ResultsFrom(p, rows);
    TallyCounts(rows, SumCounts(rows));
    TallyLength(rows, SumCounts(rows));
    forall s | s in res.summaries
      ensures s.choice in db.choices && s.choice.pollId == p.id && s.count == CountVotes(db.answers, s.choice.id)
    {
      var k :| 0 <= k < |res.summaries| && res.summaries[k] == s;
      TallyAt(rows, SumCounts(rows), k);
      assert rows[k] in rows;
      JoinRowsMembers(db, p.id, rows, rows[k]);
    }
  }

  /** Every choice of the poll has a summary, with its answer count (0 when nobody voted). */
  lemma ResultCoversChoices(db: Db, p: Poll, rows: seq<Row>, c: Choice)
    requires JoinRows(db, p.id, rows)
    requires c in db.choices && c.pollId == p.id
    ensures exists s :: s in ResultsFrom(p, rows).summaries && s.choice == c && s.count == CountVotes(db.answers, c.id)
  {
    var r := Row(c, CountVotes(db.answers, c.id));
    JoinRowsMembers(db, p.id, rows, r);
    var k :| 0 <= k < |rows| && rows[k] == r;
    TallyAt(rows, SumCounts(rows), k);
    assert ResultsFrom(p, rows).summaries[k] in ResultsFrom(p, rows).summaries;
  }

  /** With unique choice ids no choice has two summaries; summaries come most-voted first, and
      the result's count is the number of answers recorded for the poll. */
  lemma ResultOrderAndTotal(db: Db, p: Poll, rows: seq<Row>)
    requires DistinctBy(db.choices, ChoiceKey)
    requires JoinRows(db, p.id, rows)
    ensures forall i, j :: 0 <= i < j < |ResultsFrom(p, rows).summaries| ==>
      && ResultsFrom(p, rows).summaries[i].choice.id != ResultsFrom(p, rows).summaries[j].choice.id
      && ResultsFrom(p, rows).summaries[i].count >= ResultsFrom(p, rows).summaries[j].count
    ensures ResultsFrom(p, rows).count == VotesForPoll(db, p.id)
  {
    var ss := ResultsFrom(p, rows).summaries;
    JoinRowsOnePerChoice(db, p.id, rows);
    JoinRowsTotal(db, p.id, rows);
    TallyLength(rows, SumCounts(rows));
    forall i, j | 0 <= i < j < |ss| ensures ss[i].choice.id != ss[j].choice.id && ss[i].count >= ss[j].count {
      TallyAt(rows, SumCounts(rows), i);
      TallyAt(rows, SumCounts(rows), j);
      assert RowChoiceId(rows[i]) != RowChoiceId(rows[j]);
    }
  }

  lemma WholeShare(n: nat)
    requires n > 0
    ensures n as real / n as real == 1.0
  {
  }

  /** With no votes every percentage stays 0; otherwise each is count / total and they sum to 1. */
  lemma ResultPercentages(p: Poll, rows: seq<Row>)
    ensures ResultsFrom(p, rows).count == 0 ==> forall s :: s in ResultsFrom(p, rows).summaries ==> s.percentage == 0.0
    ensures ResultsFrom(p, rows).count > 0 ==>
      forall s :: s in ResultsFrom(p, rows).summaries ==> s.percentage == s.count as real / ResultsFrom(p, rows).count as real
    ensures ResultsFrom(p, rows).count > 0 ==> SumPercentages(ResultsFrom(p, rows).summaries) == 1.0
  {
    var res := ResultsFrom(p, rows);
    TallyLength(rows, SumCounts(rows));
    forall s | s in res.summaries ensures s.percentage == Share(s.count, res.count) {
      var k :| 0 <= k < |res.summaries| && res.summaries[k] == s;
      TallyAt(rows, SumCounts(rows), k);
    }
    if res.count > 0 {
      TallyShares(rows, res.count);
      WholeShare(res.count);
    }
  }

  // ---------------------------------------------------------------------------------------
  // Voting: `INSERT INTO answers (choice_id, created_at)
  //          SELECT id, NOW() FROM choices WHERE poll_id = $1 AND id = $2`
  // ---------------------------------------------------------------------------------------

  /** Some choice with id `choiceId` belongs to poll `pollId`. */
  predicate Belongs(cs: seq<Choice>, pollId: int, choiceId: int) {
    exists c :: c in cs && c.id == choiceId && c.pollId == pollId
  }

  /** The rows the `INSERT ... SELECT` inserts: one per matching choice. */
  function Selected(cs: seq<Choice>, pollId: int, choiceId: int): seq<AnswerRow> {
    if cs == [] then []
    else (if cs[0].pollId == pollId && cs[0].id == choiceId then [AnswerRow(cs[0].id)] else [])
         + Selected(cs[1..], pollId, choiceId)
  }

  /** The database after the insert statement has run. */
  function AfterAnswer(db: Db, pollId: int, choiceId: int): Db {
    db.(answers := db.answers + Selected(db.choices, pollId, choiceId))
  }

  /** With unique choice ids the insert adds exactly one answer for `choiceId` when the choice
      belongs to the poll, and nothing otherwise. */
  lemma {:induction false} SelectedOneOrNone(cs: seq<Choice>, pollId: int, choiceId: int)
    requires DistinctBy(cs, ChoiceKey)
    ensures Selected(cs, pollId, choiceId) == if Belongs(cs, pollId, choiceId) then [AnswerRow(choiceId)] else []
  {
    if cs != [] {
      var t := cs[1..];
      assert DistinctBy(t, ChoiceKey) by {
        forall i, j | 0 <= i < j < |t| ensures ChoiceKey(t[i]) != ChoiceKey(t[j]) {
          assert t[i] == cs[i + 1] && t[j] == cs[j + 1];
        }
      }
      SelectedOneOrNone(t, pollId, choiceId);
      if cs[0].pollId == pollId && cs[0].id == choiceId {
        forall c | c in t ensures c.id != choiceId {
          var k :| 0 <= k < |t| && t[k] == c;
          assert cs[k + 1] == c;
        }
        assert cs[0] in cs;
      } else {
        assert cs == [cs[0]] + t;
        assert Belongs(cs, pollId, choiceId) <==> Belongs(t, pollId, choiceId);
      }
    }
  }

  lemma {:induction false} CountVotesAppend(a: seq<AnswerRow>, b: seq<AnswerRow>, id: int)
    ensures CountVotes(a + b, id) == CountVotes(a, id) + CountVotes(b, id)
  {
    if a == [] {
      assert a + b == b;
    } else {
      assert (a + b)[1..] == a[1..] + b;
      CountVotesAppend(a[1..], b, id);
    }
  }

  /** A vote adds one to its own choice's count and leaves every other count, and the polls
      and choices, as they were; an invalid vote changes nothing. */
  lemma AnswerEffect(db: Db, pollId: int, choiceId: int, other: int)
    requires DistinctBy(db.choices, ChoiceKey)
    requires other != choiceId
    ensures AfterAnswer(db, pollId, choiceId).polls == db.polls
    ensures AfterAnswer(db, pollId, choiceId).choices == db.choices
    ensures Belongs(db.choices, pollId, choiceId) ==>
      && CountVotes(AfterAnswer(db, pollId, choiceId).answers, choiceId) == CountVotes(db.answers, choiceId) + 1
      && CountVotes(AfterAnswer(db, pollId, choiceId).answers, other) == CountVotes(db.answers, other)
    ensures !Belongs(db.choices, pollId, choiceId) ==> AfterAnswer(db, pollId, choiceId) == db
  {
    SelectedOneOrNone(db.choices, pollId, choiceId);
    var ins := Selected(db.choices, pollId, choiceId);
    CountVotesAppend(db.answers, ins, choiceId);
    CountVotesAppend(db.answers, ins, other);
    if !Belongs(db.choices, pollId, choiceId) {
      assert db.answers + ins == db.answers;
    }
  }

  /** The insert keeps the schema's constraints: the new answer references an existing choice. */
  lemma AnswerKeepsConsistent(db: Db, pollId: int, choiceId: int)
    requires Consistent(db)
    ensures Consistent(AfterAnswer(db, pollId, choiceId))
  {
    SelectedOneOrNone(db.choices, pollId, choiceId);
    var after := AfterAnswer(db, pollId, choiceId);
    forall a | a in after.answers ensures HasChoice(db.choices, a.choiceId) {
      if a !in db.answers {
        var c :| c in db.choices && c.id == choiceId && c.pollId == pollId;
      }
    }
  }

  /** No deduplication: two valid votes for the same choice count twice. */
  lemma RepeatedVotesCountTwice(db: Db, pollId: int, choiceId: int)
    requires DistinctBy(db.choices, ChoiceKey)
    requires Belongs(db.choices, pollId, choiceId)
    ensures CountVotes(AfterAnswer(AfterAnswer(db, pollId, choiceId), pollId, choiceId).answers, choiceId)
         == CountVotes(db.answers, choiceId) + 2
  {
    AnswerEffect(db, pollId, choiceId, choiceId + 1);
    AnswerEffect(AfterAnswer(db, pollId, choiceId), pollId, choiceId, choiceId + 1);
  }

  /** Two valid votes for different choices are both counted. */
  lemma DifferentVotesBothCounted(db: Db, pollId: int, c1: int, c2: int)
    requires DistinctBy(db.choices, ChoiceKey)
    requires c1 != c2
    requires Belongs(db.choices, pollId, c1) && Belongs(db.choices, pollId, c2)
    ensures var after := AfterAnswer(AfterAnswer(db, pollId, c1), pollId, c2);
      && CountVotes(after.answers, c1) == CountVotes(db.answers, c1) + 1
      && CountVotes(after.answers, c2) == CountVotes(db.answers, c2) + 1
  {
    AnswerEffect(db, pollId, c1, c2);
    AnswerEffect(AfterAnswer(db, pollId, c1), pollId, c2, c1);
  }
}
