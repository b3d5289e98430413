/** Order-free sums over the values of a finite map.
    Python's `sum(...)` over the items of a dict does not depend on the order
    in which the dict is iterated; these functions pick keys in an unspecified
    order and the lemmas below show that the choice does not matter. */
module Sums {

  /** The sum of all values of `m`. */
  ghost function Sum<K>(m: map<K, int>): int
    decreases m.Keys
  {
    if m.Keys == {} then 0
    else
      var k :| k in m.Keys;
      m[k] + Sum(m - {k})
  }

  /** The sum of all values of `m`, over the reals. */
  ghost function RealSum<K>(m: map<K, real>): real
    decreases m.Keys
  {
    if m.Keys == {} then 0.0
    else
      var k :| k in m.Keys;
      m[k] + RealSum(m - {k})
  }

  /** Any key may be taken out first. */
  lemma {:induction false} SumRemove<K>(m: map<K, int>, k: K)
    requires k in m
    ensures Sum(m) == m[k] + Sum(m - {k})
    decreases m.Keys
  {
    var j :| j in m.Keys && Sum(m) == m[j] + Sum(m - {j});
    if j != k {
      SumRemove(m - {j}, k);
      SumRemove(m - {k}, j);
      assert m - {j} - {k} == m - {k} - {j};
    }
  }

  /** Any key may be taken out first. */
  lemma {:induction false} RealSumRemove<K>(m: map<K, real>, k: K)
    requires k in m
    ensures RealSum(m) == m[k] + RealSum(m - {k})
    decreases m.Keys
  {
    var j :| j in m.Keys && RealSum(m) == m[j] + RealSum(m - {j});
    if j != k {
      RealSumRemove(m - {j}, k);
      RealSumRemove(m - {k}, j);
      assert m - {j} - {k} == m - {k} - {j};
    }
  }

  /** Changing the value at one key changes the sum by the difference. */
  lemma SumUpdate<K>(m: map<K, int>, k: K, v: int)
    requires k in m
    ensures Sum(m[k := v]) == Sum(m) - m[k] + v
  {
    SumRemove(m, k);
    SumRemove(m[k := v], k);
    assert m[k := v] - {k} == m - {k};
  }

  /** A map whose values are all zero sums to zero. */
  lemma {:induction false} SumOfZeros<K>(m: map<K, int>)
    requires forall k :: k in m ==> m[k] == 0
    ensures Sum(m) == 0
    decreases m.Keys
  {
    if m.Keys != {} {
      var k :| k in m.Keys;
      SumRemove(m, k);
      SumOfZeros(m - {k});
    }
  }

  /** When every value is at least `b`, the sum is at least `b` times the number of keys. */
  lemma {:induction false} SumAtLeast<K>(m: map<K, int>, b: int)
    requires forall k :: k in m ==> m[k] >= b
    ensures Sum(m) >= b * |m|
    decreases m.Keys
  {
    if m.Keys != {} {
      var k :| k in m.Keys;
      SumRemove(m, k);
      SumAtLeast(m - {k}, b);
      assert |m| == |m - {k}| + 1;
      MulSucc(b, |m - {k}|);
    } else {
      assert |m| == |m.Keys|;
    }
  }

  /** When every value is at most `b`, the sum is at most `b` times the number of keys. */
  lemma {:induction false} SumAtMost<K>(m: map<K, int>, b: int)
    requires forall k :: k in m ==> m[k] <= b
    ensures Sum(m) <= b * |m|
    decreases m.Keys
  {
    if m.Keys != {} {
      var k :| k in m.Keys;
      SumRemove(m, k);
      SumAtMost(m - {k}, b);
      assert |m| == |m - {k}| + 1;
      MulSucc(b, |m - {k}|);
    } else {
      assert |m| == |m.Keys|;
    }
  }

  lemma MulSucc(b: int, n: nat)
    ensures b * (n + 1) == b + b * n
  {
  }

  /** A single non-negative value never exceeds the sum of non-negative values. */
  lemma ValueAtMostSum<K>(m: map<K, int>, k: K)
    requires forall j :: j in m ==> m[j] >= 0
    requires k in m
    ensures 0 <= m[k] <= Sum(m)
  {
    SumRemove(m, k);
    SumAtLeast(m - {k}, 0);
  }

  /** The sum of the quotients is the quotient of the sum. */
  lemma {:induction false} RealSumOfQuotients<K>(m: map<K, int>, t: real)
    requires t != 0.0
    ensures RealSum(map k | k in m :: m[k] as real / t) == Sum(m) as real / t
    decreases m.Keys
  {
    var q := map k | k in m :: m[k] as real / t;
    if m.Keys != {} {
      var k :| k in m.Keys;
      var rest := m - {k};
      SumRemove(m, k);
      RealSumRemove(q, k);
      assert q - {k} == map j | j in rest :: rest[j] as real / t;
      RealSumOfQuotients(rest, t);
      QuotientsAdd(m[k] as real, Sum(rest) as real, t);
    } else {
      assert q.Keys == {};
    }
  }

  lemma QuotientsAdd(a: real, b: real, t: real)
    requires t != 0.0
    ensures a / t + b / t == (a + b) / t
  {
  }

  /** When every value is at least `b` and one exceeds it, the sum exceeds
      `b` times the number of keys. */
  lemma SumAboveFloor<K>(m: map<K, int>, b: int, k: K)
    requires forall j :: j in m ==> m[j] >= b
    requires k in m && m[k] > b
    ensures Sum(m) > b * |m|
  {
    SumRemove(m, k);
    SumAtLeast(m - {k}, b);
    assert |m| == |m - {k}| + 1;
    MulSucc(b, |m - {k}|);
  }

  // Quotients of natural numbers, as Python's true division gives them.

  lemma SelfQuotient(t: real)
    requires t != 0.0
    ensures t / t == 1.0
  {
  }

  lemma QuotientAtMostOne(n: nat, total: nat)
    requires n <= total && total > 0
    ensures 0.0 <= n as real / total as real <= 1.0
  {
  }

  /** A positive quotient of a count by a larger total is one exactly when
      the two are equal. */
  lemma QuotientIsOne(n: nat, total: nat)
    requires 0 < n <= total
    ensures 0.0 < n as real / total as real <= 1.0
    ensures n as real / total as real == 1.0 <==> n == total
  {
    QuotientAtMostOne(n, total);
    if n as real / total as real == 1.0 {
      assert n as real == (n as real / total as real) * total as real;
    }
  }

  /** A quotient by a positive total is positive exactly when the count is. */
  lemma QuotientPositive(n: nat, total: nat)
    requires total > 0
    ensures n as real / total as real > 0.0 <==> n > 0
  {
  }

  /** At most half when the total is at least twice the count. */
  lemma QuotientAtMostHalf(n: nat, total: nat)
    requires total > 0 && 2 * n <= total
    ensures n as real / total as real <= 0.5
  {
    assert n as real / total as real == (2 * n) as real / (2 * total) as real;
  }
}
