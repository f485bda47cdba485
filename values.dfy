/**
 * JavaScript values as the quiz code sees them, and the integer reading of
 * `Math.round(part / whole * 100)` shared by the quiz score and the flashcard
 * progress bar.
 */
module Values {

  datatype Option<T> = None | Some(value: T)

  /**
   * A raw answer field (`selectedAnswer` or `correctAnswer`) as it arrives in
   * a request body or comes back from the database. Numbers are integers here;
   * JavaScript's `===` on these values is Dafny's `==`.
   */
  datatype Answer = Num(n: int) | Text(s: string) | Null | Undefined

  /** JavaScript truthiness: 0, "", null and undefined are falsy. */
  function Truthy(a: Answer): (t: bool)
    ensures !t <==> a in {Num(0), Text(""), Null, Undefined}
  {
    match a
    case Num(n) => n != 0
    case Text(s) => s != ""
    case Null => false
    case Undefined => false
  }

  /**
   * The exact-rational reading of `Math.round(part / whole * 100)` for a
   * positive `whole`: `Math.round(x)` is `floor(x + 1/2)`, so the result is the
   * integer `r` with `r <= 100 * part / whole + 1/2 < r + 1`.
   */
  function RoundedPercent(part: nat, whole: nat): (r: nat)
    requires whole > 0
    ensures 2 * whole * r <= 200 * part + whole < 2 * whole * (r + 1)
  {
    var num, den := 200 * part + whole, 2 * whole;
    DivBounds(num, den);
    num / den
  }

  lemma DivBounds(num: nat, den: nat)
    requires den > 0
    ensures den * (num / den) <= num < den * (num / den + 1)
  {
  }

  /** The percentage is monotone in the part. */
  lemma {:induction false} RoundedPercentMonotone(p: nat, q: nat, whole: nat)
    requires whole > 0 && p <= q
    ensures RoundedPercent(p, whole) <= RoundedPercent(q, whole)
  {
    var a, b := RoundedPercent(p, whole), RoundedPercent(q, whole);
    if a > b {
      assert 2 * whole * (b + 1) <= 2 * whole * a by {
        MulMonotone(2 * whole, b + 1, a);
      }
    }
  }

  lemma MulMonotone(k: nat, x: nat, y: nat)
    requires x <= y
    ensures k * x <= k * y
  {
  }

  /** 0 of anything is 0 %, and the whole of it is exactly 100 %. */
  lemma {:induction false} RoundedPercentEnds(whole: nat)
    requires whole > 0
    ensures RoundedPercent(0, whole) == 0
    ensures RoundedPercent(whole, whole) == 100
  {
    var z, h := RoundedPercent(0, whole), RoundedPercent(whole, whole);
    if z > 0 { MulMonotone(2 * whole, 1, z); }
    if h > 100 { MulMonotone(2 * whole, 101, h); }
    if h < 100 { MulMonotone(2 * whole, h + 1, 100); }
  }

  /** A part no larger than the whole gives a percentage in [0, 100]. */
  lemma {:induction false} RoundedPercentAtMost100(part: nat, whole: nat)
    requires 0 < whole && part <= whole
    ensures RoundedPercent(part, whole) <= 100
  {
    RoundedPercentMonotone(part, whole, whole);
    RoundedPercentEnds(whole);
  }

  /**
   * 100 % is reached exactly when the part is at least 99.5 % of the whole,
   * so with fewer than 200 in the whole it means the part is all of it.
   */
  lemma {:induction false} RoundedPercentIs100(part: nat, whole: nat)
    requires 0 < whole && part <= whole
    ensures RoundedPercent(part, whole) == 100 <==> 200 * part >= 199 * whole
    ensures whole < 200 ==> (RoundedPercent(part, whole) == 100 <==> part == whole)
  {
    var r := RoundedPercent(part, whole);
    RoundedPercentAtMost100(part, whole);
    if r < 100 {
      MulMonotone(2 * whole, r + 1, 100);
    }
    if whole < 200 && part < whole {
      assert 200 * part <= 200 * (whole - 1);
    }
  }

  /**
   * The score `Math.round(correct / total * 100)`: a percentage (read on
   * exact rationals) when `total > 0`, `NaN` for 0 / 0 and `Infinity` for a
   * positive count over 0.
   */
  datatype Score = Percent(value: int) | NaN | Infinity

  function ComputeScore(correct: nat, total: nat): (s: Score)
    ensures total > 0 <==> s.Percent?
    ensures s.Percent? ==> 0 <= s.value && (correct <= total ==> s.value <= 100)
    ensures total == 0 ==> (s.NaN? <==> correct == 0)
    ensures total > 0 ==> s == Percent(RoundedPercent(correct, total))
  {
    if total > 0 then
      RoundedPercentAtMost100(if correct <= total then correct else total, total);
      Percent(RoundedPercent(correct, total))
    else if correct == 0 then NaN
    else Infinity
  }
}
