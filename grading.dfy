/**
 * Answer grading (test_app.py:39-69, with the answer-field rule of lines 161 and 181).
 *
 * The foreign parts are parameters, bundled in `Oracles`:
 *  - `symbolic(s, c)` stands for `sp.simplify(sp.sympify(s) - sp.sympify(c)) == 0`
 *    (line 58); None means that one of the three sympy calls raised;
 *  - `eval(e)` stands for `float(eval(e, {"sqrt": math.sqrt}))` (line 49), on the
 *    text after `√` has become `sqrt`; None means it raised;
 *  - `lowerChar` is the per-character case mapping behind `str.lower()`.
 * The tolerance test `abs(sv - cv) < 1e-6` (line 63) is modelled on reals.
 */
module Grading {
  import opened Wrappers
  import opened Normalization

  /**
   * A value given to `is_equal` and `check_answer`. A reference answer loaded from
   * JSON need not be a string: `NonText` stands for a number, boolean, null, list
   * or object, told apart by an opaque token. A list only occurs as an element of
   * a list of alternatives: a top-level list is always `Alternatives`.
   */
  datatype Value = Str(text: string) | NonText(token: int)

  /**
   * The reference answer: one value, or a list of alternatives (`isinstance(correct, list)`).
   * So `Scalar(NonText(_))` never holds a list.
   */
  datatype Answer = Scalar(v: Value) | Alternatives(alts: seq<Value>)

  /** What a grading call ends in: a verdict, or an exception that escapes it. */
  datatype Outcome = Verdict(accepted: bool) | Raised

  datatype Oracles = Oracles(
    symbolic: (Value, Value) -> Option<bool>,
    eval: string -> Option<real>,
    lowerChar: char -> char)

  /** `normalize(s)`: strings are normalized, every other value passes through. */
  function Normalize(v: Value): (r: Value)
    ensures r.Str? <==> v.Str?
    ensures v.NonText? ==> r == v
    ensures v.Str? ==> r.text == NormalizeText(v.text)
  {
    match v
    case Str(s) => Str(NormalizeText(s))
    case NonText(_) => v
  }

  /** A normalized text is in normal form and differs from the input only in whitespace. */
  lemma NormalizeShape(v: Value)
    requires v.Str?
    ensures NormalForm(Normalize(v).text)
    ensures DropWs(Normalize(v).text) == DropWs(v.text)
  {
    NormalizeTextShape(v.text);
    NormalizeTextOnlyDropsWs(v.text);
  }

  lemma NormalizeIdempotent(v: Value)
    ensures Normalize(Normalize(v)) == Normalize(v)
  {
    if v.Str? {
      NormalizeTextIdempotent(v.text);
    }
  }

  // ---------------------------------------------------------------------------
  // safe_eval (test_app.py:46-51)
  // ---------------------------------------------------------------------------

  const Radical: char := '√'

  /** `expr.replace("√", "sqrt")` */
  function ReplaceRadical(s: string): (r: string)
    ensures Radical !in r
    ensures Radical !in s ==> r == s
  {
    if s == [] then []
    else (if s[0] == Radical then "sqrt" else [s[0]]) + ReplaceRadical(s[1..])
  }

  /** Each `√` becomes `sqrt`, character by character. */
  lemma ReplaceRadicalChar(c: char)
    ensures ReplaceRadical([c]) == (if c == Radical then "sqrt" else [c])
  {
    assert [c][1..] == [];
  }

  /** The replacement works on each part of a text separately, keeping their order. */
  lemma {:induction false} ReplaceRadicalAppend(a: string, b: string)
    ensures ReplaceRadical(a + b) == ReplaceRadical(a) + ReplaceRadical(b)
  {
    if a == [] {
      assert a + b == b;
    } else {
      assert (a + b)[0] == a[0];
      assert (a + b)[1..] == a[1..] + b;
      ReplaceRadicalAppend(a[1..], b);
    }
  }

  /** A non-string has no `replace`, and the bare `except` turns that into None too. */
  function SafeEval(v: Value, o: Oracles): (r: Option<real>)
    ensures v.NonText? ==> r.None?
  {
    match v
    case Str(s) => o.eval(ReplaceRadical(s))
    case NonText(_) => None
  }

  // ---------------------------------------------------------------------------
  // is_equal (test_app.py:53-64)
  // ---------------------------------------------------------------------------

  const Tolerance: real := 0.000001

  function Abs(x: real): real {
    if x < 0.0 then -x else x
  }

  /** `abs(a - b) < 1e-6`: equal values match, and the test is symmetric. */
  predicate WithinTolerance(a: real, b: real)
    ensures a == b ==> WithinTolerance(a, b)
    ensures WithinTolerance(a, b) <==> -Tolerance < b - a < Tolerance
  {
    Abs(a - b) < Tolerance
  }

  function LowerText(s: string, o: Oracles): (r: string)
    ensures |r| == |s|
    ensures forall i | 0 <= i < |s| :: r[i] == o.lowerChar(s[i])
  {
    if s == [] then [] else [o.lowerChar(s[0])] + LowerText(s[1..], o)
  }

  /**
   * The three stages on normalized values: a symbolic verdict is final; when the
   * symbolic stage raised, two numbers are compared with the tolerance; otherwise
   * the texts are compared after lowering. `student.lower() == correct.lower()`
   * raises when either side is not a string, and nothing catches it there.
   */
  function Stages(s: Value, c: Value, o: Oracles): (r: Outcome)
    ensures s.Str? && c.Str? ==> r.Verdict?
    ensures r.Raised? ==> o.symbolic(s, c).None? && (s.NonText? || c.NonText?)
  {
    match o.symbolic(s, c)
    case Some(b) => Verdict(b)
    case None =>
      var sv := SafeEval(s, o);
      var cv := SafeEval(c, o);
      if sv.Some? && cv.Some? then Verdict(WithinTolerance(sv.value, cv.value))
      else if s.Str? && c.Str? then Verdict(LowerText(s.text, o) == LowerText(c.text, o))
      else Raised
  }

  /** `is_equal`: both sides are normalized, then compared in stages. */
  function IsEqual(student: Value, correct: Value, o: Oracles): (r: Outcome)
    ensures student.Str? && correct.Str? ==> r.Verdict?
    ensures r.Raised? ==> o.symbolic(Normalize(student), Normalize(correct)).None?
    ensures r.Raised? ==> student.NonText? || correct.NonText?
  {
    Stages(Normalize(student), Normalize(correct), o)
  }

  lemma StagesSymmetric(s: Value, c: Value, o: Oracles)
    requires forall x, y :: o.symbolic(x, y) == o.symbolic(y, x)
    ensures Stages(s, c, o) == Stages(c, s, o)
  {
    assert o.symbolic(s, c) == o.symbolic(c, s);
  }

  /** A successful symbolic stage decides alone: the later stages are never consulted. */
  lemma SymbolicStageIsFinal(student: Value, correct: Value, o: Oracles)
    requires o.symbolic(Normalize(student), Normalize(correct)).Some?
    ensures IsEqual(student, correct, o) == Verdict(o.symbolic(Normalize(student), Normalize(correct)).value)
  {
  }

  /** In particular a parsed, non-zero difference rejects even identical texts. */
  lemma SymbolicRejectionOverridesText(student: string, correct: string, o: Oracles)
    requires o.symbolic(Normalize(Str(student)), Normalize(Str(correct))) == Some(false)
    requires student == correct
    ensures IsEqual(Str(student), Str(correct), o) == Verdict(false)
  {
  }

  lemma NumericStage(student: Value, correct: Value, o: Oracles)
    requires o.symbolic(Normalize(student), Normalize(correct)).None?
    requires SafeEval(Normalize(student), o).Some? && SafeEval(Normalize(correct), o).Some?
    ensures IsEqual(student, correct, o)
         == Verdict(WithinTolerance(SafeEval(Normalize(student), o).value, SafeEval(Normalize(correct), o).value))
  {
  }

  lemma LiteralStage(student: string, correct: string, o: Oracles)
    requires o.symbolic(Normalize(Str(student)), Normalize(Str(correct))).None?
    requires SafeEval(Normalize(Str(student)), o).None? || SafeEval(Normalize(Str(correct)), o).None?
    ensures IsEqual(Str(student), Str(correct), o)
         == Verdict(LowerText(NormalizeText(student), o) == LowerText(NormalizeText(correct), o))
  {
    var s := Normalize(Str(student));
    var c := Normalize(Str(correct));
    assert s == Str(NormalizeText(student)) && c == Str(NormalizeText(correct));
    assert !(SafeEval(s, o).Some? && SafeEval(c, o).Some?);
    assert Stages(s, c, o) == Verdict(LowerText(s.text, o) == LowerText(c.text, o));
  }

  /** The exception escapes exactly when no stage settles and a side is not a string. */
  lemma RaisesExactly(student: Value, correct: Value, o: Oracles)
    ensures IsEqual(student, correct, o).Raised? <==>
      && o.symbolic(Normalize(student), Normalize(correct)).None?
      && (student.NonText? || correct.NonText?)
      && !(SafeEval(Normalize(student), o).Some? && SafeEval(Normalize(correct), o).Some?)
  {
  }

  /** With a non-string reference, a failed symbolic stage always ends in the exception. */
  lemma NonTextReferenceRaises(student: Value, token: int, o: Oracles)
    requires o.symbolic(Normalize(student), NonText(token)).None?
    ensures IsEqual(student, NonText(token), o) == Raised
  {
  }

  /** Symmetric whenever the symbolic oracle is. */
  lemma IsEqualSymmetric(a: Value, b: Value, o: Oracles)
    requires forall x, y :: o.symbolic(x, y) == o.symbolic(y, x)
    ensures IsEqual(a, b, o) == IsEqual(b, a, o)
  {
    StagesSymmetric(Normalize(a), Normalize(b), o);
  }

  /** A text matches itself unless sympy finds its difference with itself non-zero. */
  lemma IsEqualReflexive(s: string, o: Oracles)
    requires o.symbolic(Normalize(Str(s)), Normalize(Str(s))) != Some(false)
    ensures IsEqual(Str(s), Str(s), o) == Verdict(true)
  {
  }

  /** Grading depends on the texts only through their normalized forms. */
  lemma IsEqualSeesNormalForms(student: Value, correct: Value, o: Oracles)
    ensures IsEqual(Normalize(student), Normalize(correct), o) == IsEqual(student, correct, o)
  {
    calc {
      IsEqual(Normalize(student), Normalize(correct), o);
      Stages(Normalize(Normalize(student)), Normalize(Normalize(correct)), o);
      { NormalizeIdempotent(student); NormalizeIdempotent(correct); }
      Stages(Normalize(student), Normalize(correct), o);
      IsEqual(student, correct, o);
    }
  }

  // ---------------------------------------------------------------------------
  // check_answer (test_app.py:66-69)
  // ---------------------------------------------------------------------------

  /**
   * Python's `any` over outcomes produced one after another: the first outcome
   * that is not a rejection decides, whether an acceptance or an exception, and
   * the ones after it are never produced.
   */
  function AnyOf(outs: seq<Outcome>): (r: Outcome)
    ensures r == Verdict(false) <==> forall i | 0 <= i < |outs| :: outs[i] == Verdict(false)
  {
    if outs == [] then Verdict(false)
    else if outs[0] == Verdict(false) then
      assert forall i | 0 < i < |outs| :: outs[i] == outs[1..][i - 1];
      AnyOf(outs[1..])
    else outs[0]
  }

  /** The outcome of `any` is that of the first outcome that is not a rejection. */
  lemma {:induction false} AnyOfStopsAtFirstDecisive(outs: seq<Outcome>, i: nat)
    requires i < |outs|
    requires forall j | 0 <= j < i :: outs[j] == Verdict(false)
    requires outs[i] != Verdict(false)
    ensures AnyOf(outs) == outs[i]
  {
    if i > 0 {
      assert forall j | 0 <= j < i - 1 :: outs[1..][j] == outs[j + 1];
      AnyOfStopsAtFirstDecisive(outs[1..], i - 1);
    }
  }

  /** Without exceptions, `any` is plain "some outcome is an acceptance". */
  lemma {:induction false} AnyOfVerdicts(outs: seq<Outcome>)
    requires forall i | 0 <= i < |outs| :: outs[i].Verdict?
    ensures AnyOf(outs) == Verdict(Verdict(true) in outs)
  {
    if outs != [] {
      assert forall i | 0 <= i < |outs| - 1 :: outs[1..][i] == outs[i + 1];
      AnyOfVerdicts(outs[1..]);
      assert outs == [outs[0]] + outs[1..];
    }
  }

  /** Two lists of verdicts with the same members give the same `any`. */
  lemma AnyOfSameMembers(outs: seq<Outcome>, other: seq<Outcome>)
    requires forall i | 0 <= i < |outs| :: outs[i].Verdict?
    requires forall x | x in outs :: x in other
    requires forall x | x in other :: x in outs
    ensures AnyOf(outs) == AnyOf(other)
  {
    forall i | 0 <= i < |other| ensures other[i].Verdict? {
      assert other[i] in outs;
    }
    AnyOfVerdicts(outs);
    AnyOfVerdicts(other);
  }

  /** Without exceptions, the order of the outcomes does not matter to `any`. */
  lemma AnyOfOrderIrrelevant(outs: seq<Outcome>, perm: seq<Outcome>)
    requires multiset(outs) == multiset(perm)
    requires forall i | 0 <= i < |outs| :: outs[i].Verdict?
    ensures AnyOf(outs) == AnyOf(perm)
  {
    assert forall x :: x in outs <==> x in multiset(outs);
    assert forall x :: x in perm <==> x in multiset(perm);
    AnyOfSameMembers(outs, perm);
  }

  /** The outcomes of grading the answer against each alternative, in order. */
  function Grades(student: string, alts: seq<Value>, o: Oracles): (g: seq<Outcome>)
    ensures |g| == |alts|
    ensures forall i | 0 <= i < |alts| :: g[i] == IsEqual(Str(student), alts[i], o)
  {
    if alts == [] then []
    else [IsEqual(Str(student), alts[0], o)] + Grades(student, alts[1..], o)
  }

  /** `check_answer`: a list of alternatives goes through `any`, a single value through `is_equal`. */
  function CheckAnswer(student: string, correct: Answer, o: Oracles): (r: Outcome)
    ensures correct.Scalar? ==> r == IsEqual(Str(student), correct.v, o)
    ensures correct.Alternatives? ==>
      (r == Verdict(false) <==>
        forall i | 0 <= i < |correct.alts| :: IsEqual(Str(student), correct.alts[i], o) == Verdict(false))
  {
    match correct
    case Scalar(v) => IsEqual(Str(student), v, o)
    case Alternatives(alts) => AnyOf(Grades(student, alts, o))
  }

  /** An empty list of alternatives accepts nothing. */
  lemma NoAlternativesRejects(student: string, o: Oracles)
    ensures CheckAnswer(student, Alternatives([]), o) == Verdict(false)
  {
  }

  /**
   * The alternatives are tried in order: the first one that is not rejected
   * decides, by its acceptance or by its exception.
   */
  lemma CheckAnswerStopsAtFirstDecisive(student: string, alts: seq<Value>, i: nat, o: Oracles)
    requires i < |alts|
    requires forall j | 0 <= j < i :: IsEqual(Str(student), alts[j], o) == Verdict(false)
    requires IsEqual(Str(student), alts[i], o) != Verdict(false)
    ensures CheckAnswer(student, Alternatives(alts), o) == IsEqual(Str(student), alts[i], o)
  {
    AnyOfStopsAtFirstDecisive(Grades(student, alts, o), i);
  }

  /** When no alternative raises, the answer is accepted exactly when some alternative accepts it. */
  lemma CheckAnswerWhenAllGraded(student: string, alts: seq<Value>, o: Oracles)
    requires forall i | 0 <= i < |alts| :: IsEqual(Str(student), alts[i], o).Verdict?
    ensures CheckAnswer(student, Alternatives(alts), o)
         == Verdict(exists i | 0 <= i < |alts| :: IsEqual(Str(student), alts[i], o) == Verdict(true))
  {
    var g := Grades(student, alts, o);
    AnyOfVerdicts(g);
    assert (Verdict(true) in g) == (exists i | 0 <= i < |alts| :: IsEqual(Str(student), alts[i], o) == Verdict(true)) by {
      if Verdict(true) in g {
        var i :| 0 <= i < |g| && g[i] == Verdict(true);
        assert IsEqual(Str(student), alts[i], o) == Verdict(true);
      }
    }
  }

  /** Grading against alternatives drawn from `a` gives outcomes drawn from grading against `a`. */
  lemma GradesSubset(student: string, a: seq<Value>, b: seq<Value>, o: Oracles)
    requires forall j | 0 <= j < |b| :: b[j] in a
    ensures forall x | x in Grades(student, b, o) :: x in Grades(student, a, o)
  {
    var g := Grades(student, a, o);
    var h := Grades(student, b, o);
    forall x | x in h ensures x in g {
      var j :| 0 <= j < |h| && h[j] == x;
      var i :| 0 <= i < |a| && a[i] == b[j];
      assert g[i] == x;
    }
  }

  /** Lists with the same multiset of elements have the same members. */
  lemma SameMembers(a: seq<Value>, b: seq<Value>)
    requires multiset(a) == multiset(b)
    ensures forall j | 0 <= j < |b| :: b[j] in a
    ensures forall i | 0 <= i < |a| :: a[i] in b
  {
    forall j | 0 <= j < |b| ensures b[j] in a {
      assert b[j] in multiset(b);
    }
    forall i | 0 <= i < |a| ensures a[i] in b {
      assert a[i] in multiset(a);
    }
  }

  /** When no alternative raises, their order does not matter. */
  lemma CheckAnswerOrderIrrelevant(student: string, alts: seq<Value>, perm: seq<Value>, o: Oracles)
    requires multiset(alts) == multiset(perm)
    requires forall i | 0 <= i < |alts| :: IsEqual(Str(student), alts[i], o).Verdict?
    ensures CheckAnswer(student, Alternatives(alts), o) == CheckAnswer(student, Alternatives(perm), o)
  {
    var g := Grades(student, alts, o);
    var h := Grades(student, perm, o);
    SameMembers(alts, perm);
    GradesSubset(student, alts, perm, o);
    GradesSubset(student, perm, alts, o);
    GradesAllVerdicts(student, alts, o);
    AnyOfSameMembers(g, h);
    CheckAlternatives(student, alts, o);
    CheckAlternatives(student, perm, o);
  }

  /** Alternatives that all get a verdict give a list of verdicts. */
  lemma GradesAllVerdicts(student: string, alts: seq<Value>, o: Oracles)
    requires forall i | 0 <= i < |alts| :: IsEqual(Str(student), alts[i], o).Verdict?
    ensures forall i | 0 <= i < |alts| :: Grades(student, alts, o)[i].Verdict?
  {
  }

  /** A list of alternatives goes through `any`. */
  lemma CheckAlternatives(student: string, alts: seq<Value>, o: Oracles)
    ensures CheckAnswer(student, Alternatives(alts), o) == AnyOf(Grades(student, alts, o))
  {
  }

  /** Alternatives that are all strings never raise, so `any` is plain "some alternative matches". */
  lemma TextAlternatives(student: string, alts: seq<Value>, o: Oracles)
    requires forall i | 0 <= i < |alts| :: alts[i].Str?
    ensures CheckAnswer(student, Alternatives(alts), o)
         == Verdict(exists i | 0 <= i < |alts| :: IsEqual(Str(student), alts[i], o) == Verdict(true))
  {
    CheckAnswerWhenAllGraded(student, alts, o);
  }

  /** An alternative that raises before any is accepted makes the whole check raise, whatever follows. */
  lemma RaisingAlternativeFirst(student: string, bad: Value, rest: seq<Value>, o: Oracles)
    requires IsEqual(Str(student), bad, o) == Raised
    ensures CheckAnswer(student, Alternatives([bad] + rest), o) == Raised
  {
    CheckAnswerStopsAtFirstDecisive(student, [bad] + rest, 0, o);
  }

  // ---------------------------------------------------------------------------
  // The answer field of the teacher's editor (test_app.py:161, 181)
  // ---------------------------------------------------------------------------

  /**
   * `json.loads(a) if a.startswith("[") else a`, with a failed decode falling back
   * to the text. `decodeArray` stands for `json.loads` on a text that starts with
   * `[`: such a text can only decode to a list.
   */
  function AnswerField(a: string, decodeArray: string -> Option<seq<Value>>): (r: Answer)
    ensures r.Alternatives? <==> (|a| > 0 && a[0] == '[' && decodeArray(a).Some?)
    ensures r.Alternatives? ==> r.alts == decodeArray(a).value
    ensures r.Scalar? ==> r.v == Str(a)
  {
    if |a| > 0 && a[0] == '[' then
      match decodeArray(a)
      case Some(vs) => Alternatives(vs)
      case None => Scalar(Str(a))
    else Scalar(Str(a))
  }

  /** A typed answer that is not a JSON list is graded as the single text it is. */
  lemma AnswerFieldScalarGrading(student: string, a: string, decodeArray: string -> Option<seq<Value>>, o: Oracles)
    requires !(|a| > 0 && a[0] == '[') || decodeArray(a).None?
    ensures CheckAnswer(student, AnswerField(a, decodeArray), o) == IsEqual(Str(student), Str(a), o)
  {
  }
}
