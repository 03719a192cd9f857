/** The poll data-access object: the five operations of the data-access interface over the
    database it holds.  Every call into the database driver may fail; each failure is an
    explicit `Option<Failure>` argument, `Some` when that call fails. */
module Dal {

  import opened Tables
  import opened Queries

  /** What `Answer` returns after the insert, as written: a failed `Exec` is dropped and
      reported as success; a failed `RowsAffected` is returned; zero affected rows is `NotFound`. */
  function AnswerStatus(execFault: Option<Failure>, affectedFault: Option<Failure>, affected: nat): Option<Error> {
    if execFault.Some? then None
    else if affectedFault.Some? then Some(Storage(affectedFault.value))
    else if affected == 0 then Some(NotFound)
    else None
  }

  /** A failed insert is reported as success although no answer was recorded. */
  lemma ExecFailureReportedAsSuccess()
    ensures AnswerStatus(Some(Failure("connection reset")), None, 0) == None
  {
  }

  /** What `Answer` evidently means to return: every driver failure is surfaced. */
  function CorrectedAnswerStatus(execFault: Option<Failure>, affectedFault: Option<Failure>, affected: nat): (r: Option<Error>)
    ensures r == None <==> execFault.None? && affectedFault.None? && affected > 0
    ensures execFault.Some? ==> r == Some(Storage(execFault.value))
    ensures execFault.None? && affectedFault.Some? ==> r == Some(Storage(affectedFault.value))
    ensures execFault.None? && affectedFault.None? && affected == 0 ==> r == Some(NotFound)
  {
    if execFault.Some? then Some(Storage(execFault.value))
    else AnswerStatus(execFault, affectedFault, affected)
  }

  /** The two loops of `GetResults`: one summary per join row with the running vote total,
      then, when the total is positive, each summary's share of it. */
  method Summarize(rows: seq<Row>) returns (summaries: seq<Summary>, totalVotes: nat)
    ensures totalVotes == SumCounts(rows)
    ensures summaries == Tally(rows, totalVotes)
  {
    summaries, totalVotes := [], 0;
    var i := 0;
    while i < |rows|
      invariant 0 <= i <= |rows|
      invariant |summaries| == i
      invariant forall k :: 0 <= k < i ==> summaries[k] == Summary(rows[k].choice, rows[k].count, 0.0)
      invariant totalVotes == SumCounts(rows[..i])
    {
      SumCountsAppend(rows[..i], [rows[i]]);
      assert rows[..i + 1] == rows[..i] + [rows[i]];
      summaries := summaries + [Summary(rows[i].choice, rows[i].count, 0.0)];
      totalVotes := totalVotes + rows[i].count;
      i := i + 1;
    }
    assert rows[..i] == rows;

    if totalVotes > 0 {
      var j := 0;
      while j < |summaries|
        invariant 0 <= j <= |summaries| == |rows|
        invariant forall k :: 0 <= k < j ==>
          summaries[k] == Summary(rows[k].choice, rows[k].count, Share(rows[k].count, totalVotes))
        invariant forall k :: j <= k < |rows| ==> summaries[k] == Summary(rows[k].choice, rows[k].count, 0.0)
      {
        summaries := summaries[j := summaries[j].(percentage := summaries[j].count as real / totalVotes as real)];
        j := j + 1;
      }
    }

    TallyPointwise(rows, totalVotes, summaries);
  }

  class PollDAL {
    /** The tables behind the database handle. */
    var db: Db

    ghost predicate Valid()
      reads this
    {
      Consistent(db)
    }

    constructor (initial: Db)
      requires Consistent(initial)
      ensures Valid() && db == initial
    {
      db := initial;
    }

    /** `GetByID`: the poll with id `pollId`, or `NotFound` when there is none. */
    method GetByID(pollId: int, queryFault: Option<Failure>) returns (r: Outcome<Poll>)
      requires Valid()
      ensures queryFault.Some? ==> r == Err(Storage(queryFault.value))
      ensures queryFault.None? && HasPoll(db.polls, pollId) ==>
        r.Ok? && r.value in db.polls && r.value.id == pollId
      ensures queryFault.None? && !HasPoll(db.polls, pollId) ==> r == Err(NotFound)
      ensures r.Ok? ==> PollsWithId(db.polls, pollId) == [r.value]
    {
      if queryFault.Some? {
        return Err(Storage(queryFault.value));
      }
      var rows := PollsWithId(db.polls, pollId);
      PollsWithIdAtMostOne(db.polls, pollId);
      if |rows| > 0 {
        assert rows[0] in rows;
        return Ok(rows[0]);
      }
      return Err(NotFound);
    }

    /** `GetLatest`: an open poll created no earlier than any other open poll, or `NotFound`
        when no poll is open. */
    method GetLatest(queryFault: Option<Failure>) returns (r: Outcome<Poll>)
      ensures queryFault.Some? ==> r == Err(Storage(queryFault.value))
      ensures queryFault.None? ==> (r.Ok? <==> exists p :: p in db.polls && p.isOpen)
      ensures queryFault.None? && r.Err? ==> r.error == NotFound
      ensures r.Ok? ==> r.value in db.polls && r.value.isOpen
      ensures r.Ok? ==> forall q :: q in db.polls && q.isOpen ==> q.createdAt <= r.value.createdAt
    {
      if queryFault.Some? {
        return Err(Storage(queryFault.value));
      }
      var rows := LatestOpenRows(db.polls);
      LatestOpenRowsFirst(db.polls);
      if |rows| > 0 {
        return Ok(rows[0]);
      }
      return Err(NotFound);
    }

    /** `GetChoices`: the poll's choices in ascending id order; an unknown poll gives an empty
        list, never `NotFound`. */
    method GetChoices(pollId: int, queryFault: Option<Failure>) returns (r: Outcome<seq<Choice>>)
      requires Valid()
      ensures queryFault.Some? ==> r == Err(Storage(queryFault.value))
      ensures queryFault.None? ==> r.Ok?
      ensures r.Ok? ==> forall c :: c in r.value <==> c in db.choices && c.pollId == pollId
      ensures r.Ok? ==> forall i, j :: 0 <= i < j < |r.value| ==> r.value[i].id < r.value[j].id
      ensures r.Ok? && !HasPoll(db.polls, pollId) ==> r.value == []
    {
      if queryFault.Some? {
        return Err(Storage(queryFault.value));
      }
      var rows := ChoicesOf(db.choices, pollId);
      var choices: seq<Choice> := [];
      var i := 0;
      while i < |rows|
        invariant 0 <= i <= |rows|
        invariant choices == rows[..i]
      {
        choices := choices + [rows[i]];
        i := i + 1;
      }
      assert choices == rows;
      ChoicesOfMembers(db.choices, pollId);
      ChoicesOfAscending(db.choices, pollId);
      if !HasPoll(db.polls, pollId) {
        ChoicesOfUnknownPoll(db, pollId);
      }
      return Ok(choices);
    }

    /** `GetResults`: the poll's error from `GetByID` unchanged, or its summaries and vote total
        computed from the result rows of the join query.  `joinRows` is what the database
        returns for that query: any order of the grouped rows with non-increasing counts. */
    method GetResults(pollId: int, lookupFault: Option<Failure>, queryFault: Option<Failure>, joinRows: seq<Row>)
      returns (r: Outcome<PollResult>)
      requires Valid()
      requires JoinRows(db, pollId, joinRows)
      ensures lookupFault.Some? ==> r == Err(Storage(lookupFault.value))
      ensures lookupFault.None? && !HasPoll(db.polls, pollId) ==> r == Err(NotFound)
      ensures lookupFault.None? && HasPoll(db.polls, pollId) && queryFault.Some? ==>
        r == Err(Storage(queryFault.value))
      ensures lookupFault.None? && HasPoll(db.polls, pollId) && queryFault.None? ==> r.Ok?
      ensures r.Ok? ==> r.value.poll in db.polls && r.value.poll.id == pollId
      ensures r.Ok? ==> r.value == ResultsFrom(r.value.poll, joinRows)
    {
      var found := GetByID(pollId, lookupFault);
      if found.Err? {
        return Err(found.error);
      }
      var p := found.value;
      if queryFault.Some? {
        return Err(Storage(queryFault.value));
      }
      var summaries, totalVotes := Summarize(joinRows);
      return Ok(PollResult(p, summaries, totalVotes));
    }

    /** `Answer` as written: the insert runs unless `Exec` fails; a failed `Exec` still
        reports success. */
    method Answer(pollId: int, choiceId: int, execFault: Option<Failure>, affectedFault: Option<Failure>)
      returns (err: Option<Error>)
      requires Valid()
      modifies this
      ensures Valid()
      ensures db.polls == old(db.polls) && db.choices == old(db.choices)
      ensures execFault.Some? ==> db == old(db) && err == None
      ensures execFault.None? ==>
        db.answers == old(db.answers) + (if Belongs(old(db).choices, pollId, choiceId) then [AnswerRow(choiceId)] else [])
      ensures execFault.None? && affectedFault.Some? ==> err == Some(Storage(affectedFault.value))
      ensures execFault.None? && affectedFault.None? ==>
        (err == None <==> Belongs(old(db).choices, pollId, choiceId))
      ensures execFault.None? && affectedFault.None? && err != None ==> err == Some(NotFound)
    {
      var affected := 0;
      if execFault.None? {
        var inserted := Selected(db.choices, pollId, choiceId);
        SelectedOneOrNone(db.choices, pollId, choiceId);
        AnswerKeepsConsistent(db, pollId, choiceId);
        db := AfterAnswer(db, pollId, choiceId);
        affected := |inserted|;
      }
      err := AnswerStatus(execFault, affectedFault, affected);
    }

    /** `Answer` with every driver failure surfaced: a failed `Exec` records nothing and is
        reported as a storage error. */
    method AnswerCorrected(pollId: int, choiceId: int, execFault: Option<Failure>, affectedFault: Option<Failure>)
      returns (err: Option<Error>)
      requires Valid()
      modifies this
      ensures Valid()
      ensures db.polls == old(db.polls) && db.choices == old(db.choices)
      ensures execFault.Some? ==> db == old(db) && err == Some(Storage(execFault.value))
      ensures execFault.None? ==>
        db.answers == old(db.answers) + (if Belongs(old(db).choices, pollId, choiceId) then [AnswerRow(choiceId)] else [])
      ensures execFault.None? && affectedFault.Some? ==> err == Some(Storage(affectedFault.value))
      ensures execFault.None? && affectedFault.None? ==>
        (err == None <==> Belongs(old(db).choices, pollId, choiceId))
      ensures execFault.None? && affectedFault.None? && err != None ==> err == Some(NotFound)
      ensures err == None ==> db.answers == old(db.answers) + [AnswerRow(choiceId)]
    {
      var affected := 0;
      if execFault.None? {
        var inserted := Selected(db.choices, pollId, choiceId);
        SelectedOneOrNone(db.choices, pollId, choiceId);
        AnswerKeepsConsistent(db, pollId, choiceId);
        db := AfterAnswer(db, pollId, choiceId);
        affected := |inserted|;
      }
      err := CorrectedAnswerStatus(execFault, affectedFault, affected);
    }
  }
}
