// The round of claim queues of a worker (raceframe-worker/worker.py).
module FairPoller {
  // What a claim on a queue gives: nothing, a job, or an error that is raised.
  datatype Answer = Nothing | Job | Raises

  datatype Outcome = Served(queue: nat) | Idle | Raised

  datatype Turn = Turn(outcome: Outcome, cursor: nat)

  function Wrap(index: nat, n: nat): (r: nat)
    requires index < 2 * n
    ensures r < n
  {
    if index < n then index else index - n
  }

  lemma WrapIsMod(index: nat, n: nat)
    requires index < 2 * n
    ensures index % n == Wrap(index, n)
  {
  }

  // The scan from `offset` queues after the cursor.
  function Scan(answers: seq<Answer>, cursor: nat, offset: nat): Turn
    requires cursor < |answers| && offset <= |answers|
    decreases |answers| - offset
  {
    var n := |answers|;
    if offset == n then Turn(Idle, Wrap(cursor + 1, n))
    else
      var index := Wrap(cursor + offset, n);
      match answers[index]
      case Nothing => Scan(answers, cursor, offset + 1)
      case Job => Turn(Served(index), Wrap(index + 1, n))
      case Raises => Turn(Raised, cursor)
  }

  class FairClaimPoller {
    const queues: nat
    var cursor: nat

    ghost predicate Valid()
      reads this
    {
      cursor < queues
    }

    constructor (queues: nat)
      requires queues > 0
      ensures Valid() && cursor == 0 && this.queues == queues
    {
      this.queues, cursor := queues, 0;
    }

    // answers[q] is what a claim on queue q would give in this call.
    method WorkOnce(answers: seq<Answer>) returns (outcome: Outcome)
      requires Valid() && |answers| == queues
      modifies this
      ensures Valid() && Turn(outcome, cursor) == Scan(answers, old(cursor), 0)
    {
      for offset := 0 to queues
        invariant cursor == old(cursor)
        invariant Scan(answers, cursor, offset) == Scan(answers, cursor, 0)
      {
        WrapIsMod(cursor + offset, queues);
        var index := (cursor + offset) % queues;
        if answers[index] == Nothing {
          continue;
        }
        if answers[index] == Raises {
          return Raised;
        }
        WrapIsMod(index + 1, queues);
        cursor := (index + 1) % queues;
        return Served(index);
      }
      WrapIsMod(cursor + 1, queues);
      cursor := (cursor + 1) % queues;
      outcome := Idle;
    }
  }

  // ----- what a scan finds -----

  // The queue `offset` places after the cursor.
  function At(cursor: nat, offset: nat, n: nat): nat
    requires n > 0
  {
    (cursor + offset) % n
  }

  // The first queue from the cursor on that does not answer with nothing.
  ghost predicate First(answers: seq<Answer>, cursor: nat, offset: nat)
    requires answers != []
  {
    && offset < |answers| && answers[At(cursor, offset, |answers|)] != Nothing
    && forall o | 0 <= o < offset :: answers[At(cursor, o, |answers|)] == Nothing
  }

  ghost predicate AllNothing(answers: seq<Answer>) {
    forall q | 0 <= q < |answers| :: answers[q] == Nothing
  }

  // What a call does when the first such queue is `offset` places on.
  ghost predicate Found(answers: seq<Answer>, cursor: nat, offset: nat, turn: Turn)
    requires answers != []
  {
    var q := At(cursor, offset, |answers|);
    First(answers, cursor, offset)
    && match answers[q]
       case Job => turn == Turn(Served(q), (q + 1) % |answers|)
       case Raises => turn == Turn(Raised, cursor)
       case Nothing => false
  }

  lemma {:induction false} ScanFrom(answers: seq<Answer>, cursor: nat, offset: nat) returns (found: nat)
    requires cursor < |answers| && offset <= |answers|
    requires forall o | 0 <= o < offset :: answers[At(cursor, o, |answers|)] == Nothing
    ensures var turn := Scan(answers, cursor, offset);
      if found < |answers| then Found(answers, cursor, found, turn)
      else turn == Turn(Idle, (cursor + 1) % |answers|)
           && forall o | 0 <= o < |answers| :: answers[At(cursor, o, |answers|)] == Nothing
    decreases |answers| - offset
  {
    var n := |answers|;
    if offset == n {
      WrapIsMod(cursor + 1, n);
      found := n;
    } else {
      WrapIsMod(cursor + offset, n);
      var q := At(cursor, offset, n);
      if answers[q] == Nothing {
        found := ScanFrom(answers, cursor, offset + 1);
      } else {
        WrapIsMod(q + 1, n);
        found := offset;
      }
    }
  }

  // Every queue is some places after the cursor.
  lemma Reached(cursor: nat, q: nat, n: nat) returns (offset: nat)
    requires cursor < n && q < n
    ensures offset < n && At(cursor, offset, n) == q
  {
    offset := if q >= cursor then q - cursor else q + n - cursor;
    WrapIsMod(cursor + offset, n);
  }

  // A call asks the queues in turn, from the cursor on. The first that has a job
  // or fails ends it: a job is served and the cursor moves past its queue, and a
  // failure is raised with the cursor where it was. When no queue has anything,
  // the cursor moves on by one.
  lemma ScanIs(answers: seq<Answer>, cursor: nat) returns (offset: nat)
    requires cursor < |answers|
    ensures var turn := Scan(answers, cursor, 0);
      if AllNothing(answers) then turn == Turn(Idle, (cursor + 1) % |answers|)
      else Found(answers, cursor, offset, turn)
  {
    offset := ScanFrom(answers, cursor, 0);
    if offset < |answers| {
      assert First(answers, cursor, offset);
    } else {
      forall q | 0 <= q < |answers| ensures answers[q] == Nothing {
        var o := Reached(cursor, q, |answers|);
      }
    }
  }

  // ----- fairness -----

  // How far queue q is ahead of the cursor.
  function Distance(cursor: nat, q: nat, n: nat): (d: nat)
    requires cursor < n && q < n
    ensures d < n
  {
    if q >= cursor then q - cursor else q + n - cursor
  }

  lemma {:induction false} ScanReaches(answers: seq<Answer>, cursor: nat, offset: nat, q: nat)
    requires cursor < |answers| && q < |answers| && answers[q] == Job
    requires offset <= Distance(cursor, q, |answers|)
    ensures var turn := Scan(answers, cursor, offset);
      && turn.cursor < |answers|
      && match turn.outcome
         case Served(i) =>
           i == q || Distance(turn.cursor, q, |answers|) < Distance(cursor, q, |answers|)
         case Raised => turn.cursor == cursor
         case Idle => false
    decreases Distance(cursor, q, |answers|) - offset
  {
    if offset < Distance(cursor, q, |answers|) {
      ScanReaches(answers, cursor, offset + 1, q);
    }
  }

  // A series of calls; calls[c] are the answers of the queues in call c.
  ghost predicate Run(n: nat, calls: seq<seq<Answer>>, turns: seq<Turn>) {
    && |turns| == |calls| + 1 && turns[0].cursor < n
    && forall c | 0 <= c < |calls| ::
         |calls[c]| == n && turns[c].cursor < n && turns[c + 1] == Scan(calls[c], turns[c].cursor, 0)
  }

  predicate Ready(call: seq<Answer>, q: nat) {
    q < |call| && call[q] == Job
  }

  // The calls from a to b that return normally.
  function Returned(turns: seq<Turn>, a: nat, b: nat): nat
    requires a <= b < |turns|
  {
    if a == b then 0 else Returned(turns, a, b - 1) + (if turns[b].outcome == Raised then 0 else 1)
  }

  ghost predicate ServedIn(turns: seq<Turn>, q: nat, a: nat, b: nat)
    requires a <= b < |turns|
  {
    exists c | a < c <= b :: turns[c].outcome == Served(q)
  }

  // While a ready queue is passed over, each call that returns brings the
  // cursor nearer to it.
  lemma {:induction false} CursorApproaches(n: nat, calls: seq<seq<Answer>>, turns: seq<Turn>, q: nat, a: nat, b: nat)
    requires Run(n, calls, turns) && a <= b <= |calls| && q < n && turns[a].cursor < n
    requires forall c | a <= c < b :: Ready(calls[c], q)
    ensures turns[b].cursor < n
    ensures !ServedIn(turns, q, a, b) ==>
              Distance(turns[b].cursor, q, n) + Returned(turns, a, b) <= Distance(turns[a].cursor, q, n)
    decreases b
  {
    if a < b {
      CursorApproaches(n, calls, turns, q, a, b - 1);
      assert Ready(calls[b - 1], q);
      ScanReaches(calls[b - 1], turns[b - 1].cursor, 0, q);
      assert turns[b].outcome == Served(q) ==> ServedIn(turns, q, a, b);
      assert ServedIn(turns, q, a, b - 1) ==> ServedIn(turns, q, a, b);
    }
  }

  // A queue that always has work is served within n calls that return
  // normally, however many other calls raise in between.
  lemma ServedWithinRound(n: nat, calls: seq<seq<Answer>>, turns: seq<Turn>, q: nat, a: nat, b: nat)
    requires Run(n, calls, turns) && a < b <= |calls| && q < n
    requires forall c | a <= c < b :: Ready(calls[c], q)
    requires Returned(turns, a, b) >= n
    ensures ServedIn(turns, q, a, b)
  {
    assert turns[a].cursor < n;
    CursorApproaches(n, calls, turns, q, a, b);
  }
}
