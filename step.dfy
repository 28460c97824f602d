/**
 * One gradient-descent step, as `computeStep` performs it for a question:
 * evaluate the gradient at the starting point, then move against it by the
 * learning rate.
 *
 * Numbers are exact reals; the gradient of a question is whatever function
 * the question carries.
 */
module Step {

  /** A point of the plane, the `{ x, y }` object handed to a gradient function. */
  datatype Point = Point(x: real, y: real)

  /** The `{ gx, gy }` object a gradient function returns. */
  datatype Gradient = Gradient(gx: real, gy: real)

  /**
   * A practice question: the surface and the two gradient components as
   * shown to the reader, the gradient itself, the learning rate alpha and
   * the starting point (x0, y0).
   */
  datatype Question = Question(
    fStr: string,
    gxStr: string,
    gyStr: string,
    gradFn: Point -> Gradient,
    alpha: real,
    x0: real,
    y0: real)

  /** What `computeStep` returns: the gradient at the start and the point reached. */
  datatype StepResult = StepResult(gx: real, gy: real, x1: real, y1: real)

  /**
   * `computeStep`: the gradient at (x0, y0), and the point reached by one
   * step of size alpha against it.
   */
  function ComputeStep(q: Question): (r: StepResult)
    ensures Gradient(r.gx, r.gy) == q.gradFn(Point(q.x0, q.y0))
    ensures r.x1 + q.alpha * r.gx == q.x0 && r.y1 + q.alpha * r.gy == q.y0
  {
    var g := q.gradFn(Point(q.x0, q.y0));
    StepResult(g.gx, g.gy, q.x0 - q.alpha * g.gx, q.y0 - q.alpha * g.gy)
  }

  /**
   * With a positive learning rate each coordinate moves against its
   * gradient component: down where the component is positive, up where it
   * is negative, and not at all where it is zero.
   */
  lemma StepMovesAgainstGradient(q: Question)
    requires q.alpha > 0.0
    ensures var r := ComputeStep(q);
      (r.gx > 0.0 ==> r.x1 < q.x0) && (r.gx < 0.0 ==> r.x1 > q.x0) && (r.gx == 0.0 ==> r.x1 == q.x0)
    ensures var r := ComputeStep(q);
      (r.gy > 0.0 ==> r.y1 < q.y0) && (r.gy < 0.0 ==> r.y1 > q.y0) && (r.gy == 0.0 ==> r.y1 == q.y0)
  {
    var r := ComputeStep(q);
    MoveAgainst(q.alpha, r.gx, q.x0, r.x1);
    MoveAgainst(q.alpha, r.gy, q.y0, r.y1);
  }

  /** One coordinate of the update: v1 = v0 - alpha * g with alpha positive. */
  lemma MoveAgainst(alpha: real, g: real, v0: real, v1: real)
    requires alpha > 0.0 && v1 + alpha * g == v0
    ensures g > 0.0 ==> v1 < v0
    ensures g < 0.0 ==> v1 > v0
    ensures g == 0.0 ==> v1 == v0
  {
    if g > 0.0 {
      PositiveProduct(alpha, g);
    } else if g < 0.0 {
      PositiveProduct(alpha, -g);
      assert alpha * (-g) == -(alpha * g);
    }
  }

  lemma PositiveProduct(a: real, b: real)
    requires a > 0.0 && b > 0.0
    ensures a * b > 0.0
  {
  }

  /**
   * With a nonzero learning rate the step stays where it started exactly
   * when the gradient vanishes there.
   */
  lemma StepFixedPoint(q: Question)
    requires q.alpha != 0.0
    ensures var r := ComputeStep(q);
      (r.x1 == q.x0 && r.y1 == q.y0) <==> (r.gx == 0.0 && r.gy == 0.0)
  {
    var r := ComputeStep(q);
    if r.x1 == q.x0 {
      ZeroProduct(q.alpha, r.gx);
    }
    if r.y1 == q.y0 {
      ZeroProduct(q.alpha, r.gy);
    }
  }

  lemma ZeroProduct(a: real, b: real)
    requires a != 0.0 && a * b == 0.0
    ensures b == 0.0
  {
  }
}
