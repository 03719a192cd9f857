/** Worked examples: a poll with two choices and three recorded votes. */
module Scenarios {

  import opened Tables
  import opened Queries

  const Open1 := Poll(1, "Lunch", true, 100)
  const ChoiceA := Choice(10, 1, "A", 101)
  const ChoiceB := Choice(11, 1, "B", 102)
  const Seeded := Db([Open1], [ChoiceA, ChoiceB], [])
  const Voted := Db([Open1], [ChoiceA, ChoiceB], [AnswerRow(10), AnswerRow(10), AnswerRow(11)])

  /** The inserts for a vote for 10 and a vote for 11 each add one answer. */
  lemma SeededInserts()
    ensures Selected(Seeded.choices, 1, 10) == [AnswerRow(10)]
    ensures Selected(Seeded.choices, 1, 11) == [AnswerRow(11)]
  {
    assert Seeded.choices[1..] == [ChoiceB] && [ChoiceB][1..] == [];
    assert Selected([ChoiceB], 1, 10) == [];
    assert Selected([ChoiceB], 1, 11) == [AnswerRow(11)];
  }

  /** Two votes for 10 and one for 11 are recorded in order. */
  lemma ThreeVotesRecorded()
    ensures AfterAnswer(AfterAnswer(AfterAnswer(Seeded, 1, 10), 1, 10), 1, 11) == Voted
  {
    SeededInserts();
  }

  /** The grouped join over those votes: 10 with two votes and 11 with one. */
  lemma ThreeVotesCounted()
    ensures Counted(PollChoices(Voted.choices, 1), Voted.answers) == [Row(ChoiceA, 2), Row(ChoiceB, 1)]
  {
    var cs := [ChoiceA, ChoiceB];
    var ans := Voted.answers;
    assert cs[1..] == [ChoiceB] && [ChoiceB][1..] == [];
    assert ans[1..] == [AnswerRow(10), AnswerRow(11)] && ans[1..][1..] == [AnswerRow(11)];
    assert CountVotes(ans, 10) == 2 && CountVotes(ans, 11) == 1;
    assert PollChoices([ChoiceB], 1) == [ChoiceB];
    assert PollChoices(cs, 1) == cs;
    assert Counted([ChoiceB], ans) == [Row(ChoiceB, 1)];
  }

  /** Whatever order the database picks, the counts differ, so the rows are 10 then 11. */
  lemma ThreeVotesRows(rows: seq<Row>)
    requires JoinRows(Voted, 1, rows)
    ensures rows == [Row(ChoiceA, 2), Row(ChoiceB, 1)]
  {
    ThreeVotesCounted();
    var m := multiset([Row(ChoiceA, 2), Row(ChoiceB, 1)]);
    assert multiset(rows) == m;
    assert |rows| == |multiset(rows)| == 2;
    assert rows[0] in multiset(rows) && rows[1] in multiset(rows);
    assert Row(ChoiceA, 2) in multiset(rows) && Row(ChoiceB, 1) in multiset(rows);
    assert rows == [rows[0], rows[1]];
    assert rows[0].count >= rows[1].count;
  }

  /** Two votes for 10 and one for 11 give the results 10 (2 votes, 2/3) then 11 (1 vote, 1/3). */
  lemma ThreeVotesTally(rows: seq<Row>)
    requires JoinRows(AfterAnswer(AfterAnswer(AfterAnswer(Seeded, 1, 10), 1, 10), 1, 11), 1, rows)
    ensures ResultsFrom(Open1, rows)
         == PollResult(Open1, [Summary(ChoiceA, 2, 2.0 / 3.0), Summary(ChoiceB, 1, 1.0 / 3.0)], 3)
  {
    ThreeVotesRecorded();
    ThreeVotesRows(rows);
    assert rows[1..] == [Row(ChoiceB, 1)] && [Row(ChoiceB, 1)][1..] == [];
    assert SumCounts([Row(ChoiceB, 1)]) == 1;
    assert SumCounts(rows) == 3;
    assert Tally([Row(ChoiceB, 1)], 3) == [Summary(ChoiceB, 1, 1.0 / 3.0)];
  }

  /** A vote for a choice that is not in the poll records nothing. */
  lemma ForeignChoiceRecordsNothing()
    ensures !Belongs(Seeded.choices, 1, 999)
    ensures AfterAnswer(Seeded, 1, 999) == Seeded
  {
    assert Seeded.choices[1..] == [ChoiceB] && [ChoiceB][1..] == [];
    assert Selected([ChoiceB], 1, 999) == [];
    assert Selected(Seeded.choices, 1, 999) == [];
  }
}
