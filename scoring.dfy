/** The results screen: the rounded percentage of correct answers and the
    performance tier it falls in. */
module Scoring {
  import opened Wrappers

  /** The six performance tiers, named after the message keys. */
  datatype Tier = Excellent | Great | Good | NotBad | GettingThere | KeepPracticing

  /** `Math.round((score / total) * 100)`, computed on the exact rational
      value. `None` is JavaScript's `NaN`, the value of `0 / 0` when the
      session has no questions. */
  function Percentage(score: nat, total: nat): (r: Option<nat>)
    ensures r.None? <==> total == 0
  {
    if total == 0 then None else Some((200 * score + total) / (2 * total))
  }

  /** The percentage rounds half up: it lies within one half of
      `100 * score / total`, ties going up. */
  lemma PercentageRounds(score: nat, total: nat)
    requires total > 0
    ensures var p := Percentage(score, total).value;
      2 * total * p <= 200 * score + total < 2 * total * p + 2 * total
  {
    var x, d := 200 * score + total, 2 * total;
    var q := x / d;
    assert d * q <= x < d * q + d;
  }

  lemma {:induction false} MulMonotone(d: nat, a: nat, b: nat)
    ensures a <= b ==> d * a <= d * b
    decreases if a <= b then b - a else 0
  {
    if a < b {
      MulMonotone(d, a, b - 1);
      assert d * b == d * (b - 1) + d;
    }
  }

  /** Round half up determines the percentage: no other value lies within
      one half of `100 * score / total` (ties going up). */
  lemma PercentageUnique(score: nat, total: nat, p: nat)
    requires total > 0
    requires 2 * total * p <= 200 * score + total < 2 * total * p + 2 * total
    ensures Percentage(score, total) == Some(p)
  {
    var d := 2 * total;
    var q := Percentage(score, total).value;
    PercentageRounds(score, total);
    MulMonotone(d, q + 1, p);
    MulMonotone(d, p + 1, q);
  }

  /** With at most `total` correct answers the percentage is at most 100. */
  lemma PercentageAtMost100(score: nat, total: nat)
    requires 0 < total && score <= total
    ensures Percentage(score, total).Some? && Percentage(score, total).value <= 100
  {
    var d := 2 * total;
    var q := Percentage(score, total).value;
    PercentageRounds(score, total);
    MulMonotone(200, score, total);
    MulMonotone(d, 101, q);
  }

  /** More correct answers never lower the percentage. */
  lemma PercentageMonotone(s1: nat, s2: nat, total: nat)
    requires 0 < total && s1 <= s2
    ensures Percentage(s1, total).value <= Percentage(s2, total).value
  {
    var d := 2 * total;
    var p1, p2 := Percentage(s1, total).value, Percentage(s2, total).value;
    PercentageRounds(s1, total);
    PercentageRounds(s2, total);
    MulMonotone(200, s1, s2);
    MulMonotone(d, p2 + 1, p1);
  }

  /** The performance tier: the first threshold met among 90, 80, 70, 60
      and 50. Every comparison with `NaN` is false, so a session without
      questions lands in the last tier. */
  function TierFor(p: Option<nat>): (t: Tier)
    ensures t == Excellent <==> p.Some? && p.value >= 90
    ensures t == Great <==> p.Some? && 80 <= p.value < 90
    ensures t == Good <==> p.Some? && 70 <= p.value < 80
    ensures t == NotBad <==> p.Some? && 60 <= p.value < 70
    ensures t == GettingThere <==> p.Some? && 50 <= p.value < 60
    ensures t == KeepPracticing <==> p.None? || p.value < 50
  {
    match p
    case None => KeepPracticing
    case Some(v) =>
      if v >= 90 then Excellent
      else if v >= 80 then Great
      else if v >= 70 then Good
      else if v >= 60 then NotBad
      else if v >= 50 then GettingThere
      else KeepPracticing
  }

  /** The tiers from worst (0) to best (5). */
  function Rank(t: Tier): nat
  {
    match t
    case KeepPracticing => 0
    case GettingThere => 1
    case NotBad => 2
    case Good => 3
    case Great => 4
    case Excellent => 5
  }

  /** A higher percentage never earns a worse tier. */
  lemma TierMonotone(p: nat, q: nat)
    requires p <= q
    ensures Rank(TierFor(Some(p))) <= Rank(TierFor(Some(q)))
  {
  }

  /** What the results screen shows. */
  datatype Outcome = Outcome(score: nat, total: nat, percentage: Option<nat>, tier: Tier)

  /** `showResults`: the percentage of `score` out of `total` and its tier. */
  function Finalize(score: nat, total: nat): (o: Outcome)
    ensures o.score == score && o.total == total
    ensures o.percentage == Percentage(score, total) && o.tier == TierFor(o.percentage)
    ensures total == 0 ==> o.percentage.None? && o.tier == KeepPracticing
    ensures 0 < total && score <= total ==> o.percentage.Some? && o.percentage.value <= 100
    ensures 0 < total && score == total ==> o.percentage == Some(100) && o.tier == Excellent
    ensures 0 < total && score == 0 ==> o.percentage == Some(0) && o.tier == KeepPracticing
  {
    var p := Percentage(score, total);
    assert 0 < total && score <= total ==> p.Some? && p.value <= 100 by {
      if 0 < total && score <= total {
        PercentageAtMost100(score, total);
      }
    }
    assert 0 < total && score == total ==> p == Some(100) by {
      if 0 < total && score == total {
        PercentageUnique(score, total, 100);
      }
    }
    assert 0 < total && score == 0 ==> p == Some(0) by {
      if 0 < total && score == 0 {
        PercentageUnique(score, total, 0);
      }
    }
    Outcome(score, total, p, TierFor(p))
  }

  /** Sessions of three questions answered right, right, wrong; of one
      question answered wrong; of ten questions all answered right. */
  lemma ExampleOutcomes()
    ensures Finalize(2, 3) == Outcome(2, 3, Some(67), NotBad)
    ensures Finalize(0, 1) == Outcome(0, 1, Some(0), KeepPracticing)
    ensures Finalize(10, 10) == Outcome(10, 10, Some(100), Excellent)
  {
    PercentageUnique(2, 3, 67);
  }
}
