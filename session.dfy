/**
 * The student's test session (test_app.py:85-123): the shuffled order of the
 * problems, the cursor into it, the answers recorded so far per problem, and
 * whether the last problem has been answered.
 */
module Quiz {
  import opened Grading

  /** One stored problem: the question shown and the reference answer. */
  datatype Problem = Problem(question: string, answer: Answer)

  /** One recorded answer, as written to `results[idx]`. */
  datatype Entry = Entry(
    question: string,
    studentAnswer: string,
    correctAnswer: Answer,
    isCorrect: bool,
    timestamp: string)

  /** `order` lists every problem index below `n` exactly once. */
  ghost predicate IsPermutation(order: seq<nat>, n: nat) {
    && |order| == n
    && (forall j | 0 <= j < n :: order[j] < n)
    && (forall j, k | 0 <= j < k < n :: order[j] != order[k])
    && (forall p | 0 <= p < n :: p in order)
  }

  /** `list(range(n))`, the order before it is shuffled. */
  function Range(n: nat): (r: seq<nat>)
    ensures |r| == n
    ensures forall j | 0 <= j < n :: r[j] == j
  {
    if n == 0 then [] else Range(n - 1) + [n - 1]
  }

  lemma RangeIsPermutation(n: nat)
    ensures IsPermutation(Range(n), n)
  {
    var r := Range(n);
    forall p | 0 <= p < n ensures p in r {
      assert r[p] == p;
    }
  }

  class Session {
    /** The number of problems; the session only exists when there is at least one. */
    const n: nat
    /** The shuffled `order`, fixed when the session starts. */
    const order: seq<nat>
    /** The cursor `q`: the position in `order` of the problem on screen. */
    var q: nat
    /** `results`, keyed by problem index. */
    var results: map<nat, Entry>
    var finished: bool

    ghost predicate Valid()
      reads this
    {
      && 1 <= n
      && IsPermutation(order, n)
      && q < n
      && (forall p | p in results :: p < n)
      && (forall j | 0 <= j < q :: order[j] in results)
      && (finished ==> forall j | 0 <= j < n :: order[j] in results)
    }

    /**
     * A fresh session. `shuffled` stands for the outcome of `random.shuffle` on
     * `list(range(n))`, which leaves a permutation of it.
     */
    constructor (n: nat, shuffled: seq<nat>)
      requires 1 <= n
      requires IsPermutation(shuffled, n)
      ensures Valid()
      ensures this.n == n && order == shuffled
      ensures q == 0 && results == map[] && !finished
    {
      this.n := n;
      order := shuffled;
      q := 0;
      results := map[];
      finished := false;
    }

    /** `idx = order[q]`: the problem on screen is always a real problem. */
    function Current(): (idx: nat)
      reads this
      requires Valid()
      ensures idx < n
      ensures idx in order
    {
      order[q]
    }

    /**
     * The bookkeeping of "answer and next" once the record is built: it is stored
     * under the index of the problem on screen, overwriting an earlier answer to
     * it, and the cursor moves one step forward or, on the last problem, the
     * session is marked finished.
     */
    method Record(e: Entry)
      requires Valid()
      modifies this
      ensures Valid()
      ensures results == old(results)[old(order[q]) := e]
      ensures old(q) < n - 1 ==> q == old(q) + 1 && finished == old(finished)
      ensures old(q) == n - 1 ==> q == old(q) && finished
    {
      results := results[order[q] := e];
      if q < n - 1 {
        q := q + 1;
      } else {
        finished := true;
      }
    }

    /**
     * "Answer and next". The answer is graded against the problem on screen and
     * recorded under its index, overwriting an earlier answer to it; the cursor
     * then moves one step forward, or, on the last problem, the session is marked
     * finished. If grading raises, the dictionary is never built and nothing changes.
     */
    method Submit(problems: seq<Problem>, answer: string, o: Oracles, timestamp: string)
      returns (outcome: Outcome)
      requires Valid()
      requires |problems| == n
      modifies this
      ensures Valid()
      ensures outcome == CheckAnswer(answer, problems[old(order[q])].answer, o)
      ensures outcome.Raised? ==>
        q == old(q) && results == old(results) && finished == old(finished)
      ensures outcome.Verdict? ==>
        results == old(results)[old(order[q]) :=
          Entry(problems[old(order[q])].question, answer, problems[old(order[q])].answer,
                outcome.accepted, timestamp)]
      ensures outcome.Verdict? && old(q) < n - 1 ==> q == old(q) + 1 && finished == old(finished)
      ensures outcome.Verdict? && old(q) == n - 1 ==> q == old(q) && finished
    {
      var prob := problems[Current()];
      outcome := CheckAnswer(answer, prob.answer, o);
      if outcome.Verdict? {
        Record(Entry(prob.question, answer, prob.answer, outcome.accepted, timestamp));
      }
    }

    /** "Back": one step towards the first problem, and nothing else. */
    method Back()
      requires Valid()
      modifies this
      ensures Valid()
      ensures old(q) > 0 ==> q == old(q) - 1
      ensures old(q) == 0 ==> q == 0
      ensures results == old(results) && finished == old(finished)
    {
      if q > 0 {
        q := q - 1;
      }
    }
  }

  /** A finished session holds an answer for every problem. */
  lemma FinishedAnsweredAll(s: Session)
    requires s.Valid()
    requires s.finished
    ensures forall p | 0 <= p < s.n :: p in s.results
  {
    forall p | 0 <= p < s.n ensures p in s.results {
      assert p in s.order;
      var j :| 0 <= j < |s.order| && s.order[j] == p;
    }
  }

  /** Every problem before the cursor has been answered. */
  lemma AnsweredBeforeCursor(s: Session, p: nat)
    requires s.Valid()
    requires p in s.order[..s.q]
    ensures p in s.results
  {
    var j :| 0 <= j < s.q && s.order[..s.q][j] == p;
    assert s.order[j] == p;
  }
}
