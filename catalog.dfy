/**
 * The page's question catalog, the way one question is chosen at random, and
 * the ten questions shown, together with what the catalog's data make true:
 * the answers every question reveals and how many times each question shows.
 *
 * The sinusoidal question's gradient calls Math.cos and Math.sin; those two
 * functions are parameters here.
 */
module Catalog {
  import opened Step
  import Selection
  import Format
  import FormatExamples

  /** Minus sign U+2212, which the display strings use. */
  const Minus: char := '\U{2212}'

  /** The questions, in the order the page lists them. */
  function Questions(cos: real -> real, sin: real -> real): (qs: seq<Question>)
    ensures |qs| == 9
    ensures forall i :: 0 <= i < |qs| ==> qs[i].alpha > 0.0
  {
    [ Question("f(x, y) = x^2 + y^2", "2x", "2y",
               (p: Point) => Gradient(2.0 * p.x, 2.0 * p.y),
               0.1, 3.0, -4.0),
      Question("f(x, y) = (x - 1)^2 + (y + 2)^2", "2(x " + [Minus] + " 1)", "2(y + 2)",
               (p: Point) => Gradient(2.0 * (p.x - 1.0), 2.0 * (p.y + 2.0)),
               0.2, -1.0, 3.0),
      Question("f(x, y) = x^2 + 3y^2", "2x", "6y",
               (p: Point) => Gradient(2.0 * p.x, 6.0 * p.y),
               0.05, 2.0, 1.0),
      Question("f(x, y) = 0.5x^2 + 2y^2", "x", "4y",
               (p: Point) => Gradient(p.x, 4.0 * p.y),
               0.15, -2.0, -2.0),
      Question("f(x, y) = x^2 " + [Minus] + " y^2", "2x", [Minus] + "2y",
               (p: Point) => Gradient(2.0 * p.x, -2.0 * p.y),
               0.1, 1.5, -1.0),
      Question("f(x, y) = x^2 + xy + y^2", "2x + y", "x + 2y",
               (p: Point) => Gradient(2.0 * p.x + p.y, p.x + 2.0 * p.y),
               0.1, -2.0, 1.0),
      Question("f(x, y) = (x " + [Minus] + " 1)^2 + 10(y " + [Minus] + " 1)^2", "2(x " + [Minus] + " 1)", "20(y " + [Minus] + " 1)",
               (p: Point) => Gradient(2.0 * (p.x - 1.0), 20.0 * (p.y - 1.0)),
               0.04, 0.0, 2.0),
      Question("f(x, y) = sin(x) + cos(y)", "cos(x)", [Minus] + "sin(y)",
               (p: Point) => Gradient(cos(p.x), -sin(p.y)),
               0.2, 1.0, 2.0),
      Question("f(x, y) = (1/3)x^3 + y^2", "x^2", "2y",
               (p: Point) => Gradient(p.x * p.x, 2.0 * p.y),
               0.05, -1.0, -1.5)
    ]
  }

  /** The answer each question reveals: the gradient at its start and the point one step on. */
  lemma RevealedAnswers(cos: real -> real, sin: real -> real)
    ensures var qs := Questions(cos, sin);
      ComputeStep(qs[0]) == StepResult(6.0, -8.0, 2.4, -3.2) &&
      ComputeStep(qs[1]) == StepResult(-4.0, 10.0, -0.2, 1.0) &&
      ComputeStep(qs[2]) == StepResult(4.0, 6.0, 1.8, 0.7) &&
      ComputeStep(qs[3]) == StepResult(-2.0, -8.0, -1.7, -0.8) &&
      ComputeStep(qs[4]) == StepResult(3.0, 2.0, 1.2, -1.2) &&
      ComputeStep(qs[5]) == StepResult(-3.0, 0.0, -1.7, 1.0) &&
      ComputeStep(qs[6]) == StepResult(-2.0, 20.0, 0.08, 1.2) &&
      ComputeStep(qs[7]) == StepResult(cos(1.0), -sin(2.0), 1.0 - 0.2 * cos(1.0), 2.0 + 0.2 * sin(2.0)) &&
      ComputeStep(qs[8]) == StepResult(1.0, -3.0, -1.05, -1.35)
  {
  }

  /**
   * The revealed point of the first question is written 2.4 and -3.2 (toFixed
   * writes the sign as an ASCII hyphen), that of the second -0.2 and 1, and
   * the x1 of the seventh 0.08.
   */
  lemma AnswersDisplayed(cos: real -> real, sin: real -> real)
    ensures var qs := Questions(cos, sin);
      Format.FmtReal(ComputeStep(qs[0]).x1) == "2.4" &&
      Format.FmtReal(ComputeStep(qs[0]).y1) == "-3.2" &&
      Format.FmtReal(ComputeStep(qs[1]).x1) == "-0.2" &&
      Format.FmtReal(ComputeStep(qs[1]).y1) == "1" &&
      Format.FmtReal(ComputeStep(qs[6]).x1) == "0.08"
  {
    RevealedAnswers(cos, sin);
    FormatExamples.FmtTwoPointFour();
    FormatExamples.FmtMinusThreePointTwo();
    FormatExamples.FmtMinusTwoTenths();
    FormatExamples.FmtOne();
    FormatExamples.FmtEightHundredths();
  }

  /** Every question's step moves each coordinate against its gradient component. */
  lemma EveryStepMovesAgainstGradient(cos: real -> real, sin: real -> real, i: nat)
    requires i < 9
    ensures var q := Questions(cos, sin)[i]; var r := ComputeStep(q);
      (r.gx > 0.0 ==> r.x1 < q.x0) && (r.gx < 0.0 ==> r.x1 > q.x0) &&
      (r.gy > 0.0 ==> r.y1 < q.y0) && (r.gy < 0.0 ==> r.y1 > q.y0)
  {
    StepMovesAgainstGradient(Questions(cos, sin)[i]);
  }

  /** What `chooseQuestion` returns: the index drawn and the question at that index. */
  datatype Choice = Choice(idx: nat, question: Question)

  /**
   * `chooseQuestion`: the index Math.floor(u * 9) for the number u in [0, 1)
   * that Math.random returned, and the question stored there.
   */
  function ChooseQuestion(u: real, cos: real -> real, sin: real -> real): (c: Choice)
    requires 0.0 <= u < 1.0
    ensures c.idx < 9
    ensures c.idx as real <= u * 9.0 < c.idx as real + 1.0
    ensures c.question == Questions(cos, sin)[c.idx]
  {
    var idx := (u * 9.0).Floor;
    Choice(idx, Questions(cos, sin)[idx])
  }

  /** Every index is drawn for some random number: the choice can land on any question. */
  lemma EveryQuestionChoosable(cos: real -> real, sin: real -> real, i: nat)
    requires i < 9
    ensures ChooseQuestion(i as real / 9.0, cos, sin).idx == i
  {
    assert (i as real / 9.0) * 9.0 == i as real;
  }

  /** The questions shown for the keys drawn in the two shuffled passes. */
  function Shown(cos: real -> real, sin: real -> real, keys1: seq<real>, keys2: seq<real>): (shown: seq<Question>)
    requires |keys1| == 9 && |keys2| == 9
    ensures |shown| == 10
  {
    Selection.Select(Questions(cos, sin), keys1, keys2)
  }

  /** No two catalog questions are the same: their starting points differ. */
  lemma QuestionsDistinct(cos: real -> real, sin: real -> real)
    ensures Selection.Distinct(Questions(cos, sin))
  {
    var qs := Questions(cos, sin);
    forall i, j | 0 <= i < j < |qs|
      ensures qs[i] != qs[j]
    {
      assert qs[i].x0 != qs[j].x0 || qs[i].y0 != qs[j].y0;
    }
  }

  /**
   * With the nine shipped questions the page shows every question once or
   * twice, and at least one of them twice.
   */
  lemma ShownCounts(cos: real -> real, sin: real -> real, keys1: seq<real>, keys2: seq<real>)
    requires |keys1| == 9 && |keys2| == 9
    ensures var qs, shown := Questions(cos, sin), Shown(cos, sin, keys1, keys2);
      forall q :: q in qs ==> 1 <= multiset(shown)[q] <= 2
    ensures var qs, shown := Questions(cos, sin), Shown(cos, sin, keys1, keys2);
      exists q :: q in qs && multiset(shown)[q] == 2
  {
    QuestionsDistinct(cos, sin);
    Selection.SelectSmallCounts(Questions(cos, sin), keys1, keys2);
    Selection.SelectSmallRepeats(Questions(cos, sin), keys1, keys2);
  }
}
