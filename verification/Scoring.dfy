/** The popularity score that ranks cache candidates (syncer/cache.go:355-362),
    over reals: rounding is not modelled. */
module Scoring {

  /** Files below 2 GiB are all scored as if they were 2 GiB. */
  const SIZE_FLOOR: nat := 2 * 1024 * 1024 * 1024

  function Weight(size: nat): (w: nat)
    ensures w > SIZE_FLOOR
  {
    (if size < SIZE_FLOOR then SIZE_FLOOR else size) + 1
  }

  function Score(votes: nat, size: nat): real {
    votes as real / Weight(size) as real * 1048576.0
  }

  lemma FractionOrder(a: real, b: real, c: real, d: real)
    requires b > 0.0 && d > 0.0
    ensures a / b > c / d <==> a * d > c * b
  {
    var x, y := a / b, c / d;
    assert a == x * b && c == y * d;
    assert a * d == x * (b * d) && c * b == y * (b * d);
    assert b * d > 0.0;
    if x > y {
      assert (x - y) * (b * d) > 0.0;
    } else {
      assert (y - x) * (b * d) >= 0.0;
    }
  }

  /** The score is 2^20 times the votes per byte, of at least 2 GiB and a byte more. */
  lemma ScoreIs(votes: nat, size: nat)
    ensures var m := if size < 2147483648 then 2147483648 else size;
            Score(votes, size) * (m + 1) as real == votes as real * 1048576.0
  {
    var w := Weight(size) as real;
    assert votes as real / w * w == votes as real;
    assert votes as real / w * 1048576.0 * w == votes as real / w * w * 1048576.0;
  }

  /** Comparing two scores is comparing integer cross products. */
  lemma ScoreOrder(v1: nat, s1: nat, v2: nat, s2: nat)
    ensures var m1, m2 := if s1 < 2147483648 then 2147483648 else s1, if s2 < 2147483648 then 2147483648 else s2;
            Score(v1, s1) > Score(v2, s2) <==> v1 * (m2 + 1) > v2 * (m1 + 1)
  {
    WeightOrder(v1, s1, v2, s2);
  }

  lemma WeightOrder(v1: nat, s1: nat, v2: nat, s2: nat)
    ensures Score(v1, s1) > Score(v2, s2) <==> v1 * Weight(s2) > v2 * Weight(s1)
  {
    FractionOrder(v1 as real, Weight(s1) as real, v2 as real, Weight(s2) as real);
    assert v1 as real * Weight(s2) as real == (v1 * Weight(s2)) as real;
    assert v2 as real * Weight(s1) as real == (v2 * Weight(s1)) as real;
  }

  /** More votes never hurt, more bytes never help, and below 2 GiB only votes count. */
  lemma ScoreMonotone(v1: nat, s1: nat, v2: nat, s2: nat)
    requires v1 <= v2 && s2 <= s1
    ensures Score(v1, s1) <= Score(v2, s2)
    ensures s1 <= SIZE_FLOOR ==> (Score(v1, s1) == Score(v2, s2) <==> v1 == v2)
  {
    WeightOrder(v1, s1, v2, s2);
    WeightOrder(v2, s2, v1, s1);
    var w1, w2 := Weight(s1), Weight(s2);
    assert v1 * w2 <= v2 * w1 by {
      assert v1 * w2 <= v1 * w1;
      assert v1 * w1 <= v2 * w1;
    }
    if s1 <= SIZE_FLOOR {
      assert w1 == w2;
      assert v1 < v2 ==> v1 * w1 < v2 * w1;
    }
  }

  /** A vote is worth at most 2^20 / (2^31 + 1), reached exactly below 2 GiB. */
  lemma ScoreBound(votes: nat, size: nat)
    ensures Score(votes, size) <= votes as real * 1048576.0 / 2147483649.0
    ensures votes > 0 ==> (Score(votes, size) == votes as real * 1048576.0 / 2147483649.0 <==> size <= SIZE_FLOOR)
  {
    WeightOrder(votes, size, votes, 0);
    WeightOrder(votes, 0, votes, size);
    assert Weight(0) == 2147483649;
    assert Score(votes, 0) == votes as real * 1048576.0 / 2147483649.0;
    assert votes > 0 && size > SIZE_FLOOR ==> votes * Weight(size) > votes * Weight(0);
    assert votes * Weight(size) >= votes * Weight(0);
  }
}
