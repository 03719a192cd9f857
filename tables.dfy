/** The records of the poll service and the three database tables that hold them.
    Timestamps are abstract integers; ids are unbounded integers. */
module Tables {

  import opened Ordering

  datatype Option<+T> = None | Some(value: T)

  /** An opaque failure reported by the database driver (connectivity, constraint, ...). */
  datatype Failure = Failure(reason: string)

  /** The errors the data-access layer hands back: the `notFound` sentinel, or a driver failure. */
  datatype Error = NotFound | Storage(failure: Failure)

  datatype Outcome<+T> = Ok(value: T) | Err(error: Error)

  /** A row of `polls`. */
  datatype Poll = Poll(id: int, name: string, isOpen: bool, createdAt: int)

  /** A row of `choices`. */
  datatype Choice = Choice(id: int, pollId: int, answer: string, createdAt: int)

  /** A row of `answers`: only the referenced choice matters to the data-access layer. */
  datatype AnswerRow = AnswerRow(choiceId: int)

  /** A choice together with its vote count and its share of the poll's votes. */
  datatype Summary = Summary(choice: Choice, count: nat, percentage: real)

  /** What the results page shows: the poll, its summaries and the total vote count. */
  datatype PollResult = PollResult(poll: Poll, summaries: seq<Summary>, count: nat)

  /** The database: three tables, each in storage order. */
  datatype Db = Db(polls: seq<Poll>, choices: seq<Choice>, answers: seq<AnswerRow>)

  function PollKey(p: Poll): int { p.id }

  function ChoiceKey(c: Choice): int { c.id }

  predicate HasPoll(polls: seq<Poll>, id: int) {
    exists p :: p in polls && p.id == id
  }

  predicate HasChoice(choices: seq<Choice>, id: int) {
    exists c :: c in choices && c.id == id
  }

  /** The schema's constraints: primary keys and the foreign keys answer -> choice -> poll. */
  predicate Consistent(db: Db) {
    && DistinctBy(db.polls, PollKey)
    && DistinctBy(db.choices, ChoiceKey)
    && (forall c :: c in db.choices ==> HasPoll(db.polls, c.pollId))
    && (forall a :: a in db.answers ==> HasChoice(db.choices, a.choiceId))
  }
}
