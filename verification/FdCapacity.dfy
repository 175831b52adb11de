/** Apportioning file descriptors to the three socket owners of a Server. */
module FdCapacity {
  import opened Prelude

  const U128_LIMIT: nat := U64_LIMIT * U64_LIMIT

  /** One number per kind of socket: waiting ClientHellos, opens under way, proxies at work. */
  type Capacities = c: seq<nat> | |c| == 3 && forall i :: 0 <= i < 3 ==> c[i] < U64_LIMIT witness [0, 0, 0]

  function Total(c: Capacities): nat {
    c[0] + c[1] + c[2]
  }

  function Available(nofile: nat, reserve: nat): nat {
    if nofile <= reserve then 0 else nofile - reserve
  }

  /** The floor of an owner's proportional share. */
  function Share(v: nat, available: nat, total: nat): (s: nat)
    requires total > available
    ensures s <= v
  {
    ShareBounds(v, available, total);
    (v * available) / total
  }

  function Shares(c: Capacities, available: nat): (s: Capacities)
    requires Total(c) > available
    ensures forall i :: 0 <= i < 3 ==> s[i] <= c[i]
  {
    [Share(c[0], available, Total(c)), Share(c[1], available, Total(c)), Share(c[2], available, Total(c))]
  }

  lemma ShareBounds(v: nat, available: nat, total: nat)
    requires total > available
    ensures (v * available) / total <= v
    ensures ((v * available) / total) * total <= v * available < ((v * available) / total) * total + total
  {
    var s := (v * available) / total;
    assert v * available == s * total + (v * available) % total;
    assert v * available <= v * total;
    Cancel(s, v, total);
  }

  lemma Cancel(a: nat, b: nat, t: nat)
    requires t > 0
    ensures a * t <= b * t ==> a <= b
    ensures a * t < b * t ==> a < b
  {
    if a > b { Multiply(b + 1, a, t); }
    if a >= b { Multiply(b, a, t); }
  }

  lemma Multiply(a: nat, b: nat, t: nat)
    requires a <= b
    ensures a * t <= b * t
  {
  }

  lemma Distribute(a: nat, b: nat, c: nat, t: nat)
    ensures (a + b + c) * t == a * t + b * t + c * t
  {
  }

  /** Floor shares lose at most two descriptors between them. */
  lemma SharesLoseAtMostTwo(c: Capacities, available: nat)
    requires Total(c) > available
    ensures available - 2 <= Total(Shares(c, available)) <= available
  {
    var t, s := Total(c), Shares(c, available);
    ShareBounds(c[0], available, t);
    ShareBounds(c[1], available, t);
    ShareBounds(c[2], available, t);
    ThreeFloors(c[0] * available, c[1] * available, c[2] * available, s[0], s[1], s[2], available, t) by {
      Distribute(c[0], c[1], c[2], available);
      assert t * available == available * t;
    }
  }

  /** Three floors of parts of `a * t`, divided by `t`, add up to within two of `a`. */
  lemma ThreeFloors(p0: nat, p1: nat, p2: nat, s0: nat, s1: nat, s2: nat, a: nat, t: nat)
    requires t > 0 && p0 + p1 + p2 == a * t
    requires s0 * t <= p0 < s0 * t + t && s1 * t <= p1 < s1 * t + t && s2 * t <= p2 < s2 * t + t
    ensures a - 2 <= s0 + s1 + s2 <= a
  {
    var given := s0 + s1 + s2;
    Distribute(s0, s1, s2, t);
    Cancel(given, a, t);
    Distribute(given, 3, 0, t);
    Cancel(a, given + 3, t);
  }

  /**
   * `r` apportions `available` among the configured limits: all of it is handed out, everybody
   * gets the floor of their share and at most their limit, and a rounding leftover reaches an
   * owner only once those served before it (active proxies, then ClientHellos, then opens) are full.
   */
  ghost predicate Apportions(c: Capacities, available: nat, r: Capacities)
    requires Total(c) > available
  {
    var s := Shares(c, available);
    && Total(r) == available
    && (forall i :: 0 <= i < 3 ==> s[i] <= r[i] <= c[i])
    && (r[0] > s[0] ==> r[2] == c[2])
    && (r[1] > s[1] ==> r[2] == c[2] && r[0] == c[0])
  }

  /** An apportionment is unique, and nobody gets more than two above the floor of their share. */
  lemma ApportionmentIsUnique(c: Capacities, available: nat, r: Capacities, q: Capacities)
    requires Total(c) > available
    requires Apportions(c, available, r) && Apportions(c, available, q)
    ensures r == q
    ensures forall i :: 0 <= i < 3 ==> r[i] <= Shares(c, available)[i] + 2
  {
    SharesLoseAtMostTwo(c, available);
    assert r == [r[0], r[1], r[2]] && q == [q[0], q[1], q[2]];
  }

  /** Nobody is a whole descriptor below their exact proportional share, or more than two above it. */
  lemma SharesAreProportional(c: Capacities, available: nat, r: Capacities, i: nat)
    requires Total(c) > available && Apportions(c, available, r) && i < 3
    ensures c[i] * available < (r[i] + 1) * Total(c)
    ensures r[i] >= 2 ==> (r[i] - 2) * Total(c) <= c[i] * available
  {
    var s, t := Shares(c, available)[i], Total(c);
    ApportionmentIsUnique(c, available, r, r);
    ShareBounds(c[i], available, t);
    AroundFloor(c[i] * available, s, r[i], t);
  }

  lemma AroundFloor(p: nat, s: nat, r: nat, t: nat)
    requires s * t <= p < s * t + t && s <= r <= s + 2
    ensures p < (r + 1) * t
    ensures r >= 2 ==> (r - 2) * t <= p
  {
    assert s * t + t == (s + 1) * t by { Distribute(s, 1, 0, t); }
    Multiply(s + 1, r + 1, t);
    if r >= 2 { Multiply(r - 2, s, t); }
  }

  /** Hand the leftover `remaining` to active proxies, then ClientHellos, then opens. */
  method HandOut(configured: Capacities, shares: Capacities, leftover: nat) returns (result: Capacities)
    requires forall i :: 0 <= i < 3 ==> shares[i] <= configured[i]
    requires Total(shares) + leftover <= Total(configured)
    ensures Total(result) == Total(shares) + leftover
    ensures forall i :: 0 <= i < 3 ==> shares[i] <= result[i] <= configured[i]
    ensures result[0] > shares[0] ==> result[2] == configured[2]
    ensures result[1] > shares[1] ==> result[2] == configured[2] && result[0] == configured[0]
  {
    result := shares;
    var remaining: nat := leftover;
    var order := [2, 0, 1];
    for k := 0 to 3
      invariant Total(result) + remaining == Total(shares) + leftover
      invariant forall i :: 0 <= i < 3 ==> shares[i] <= result[i] <= configured[i]
      invariant (k <= 0 ==> result[2] == shares[2]) && (k <= 1 ==> result[0] == shares[0]) && (k <= 2 ==> result[1] == shares[1])
      invariant remaining > 0 && k > 0 ==> result[2] == configured[2]
      invariant remaining > 0 && k > 1 ==> result[0] == configured[0]
      invariant remaining > 0 && k > 2 ==> result[1] == configured[1]
      invariant result[0] > shares[0] ==> result[2] == configured[2]
      invariant result[1] > shares[1] ==> result[2] == configured[2] && result[0] == configured[0]
    {
      var index := order[k];
      var extra: nat := Min(remaining, configured[index] - result[index]);
      result := result[index := result[index] + extra];
      remaining := remaining - extra;
    }
  }

  /** Scale the configured limits down to the descriptors available, losing none of them. */
  method ServerCapacity(configured: Capacities, nofile: nat, reserve: nat) returns (result: Capacities)
    requires nofile < U64_LIMIT && reserve < U64_LIMIT
    ensures Total(result) == Min(Total(configured), if nofile <= reserve then 0 else nofile - reserve)
    ensures Total(configured) <= Available(nofile, reserve) ==> result == configured
    ensures Total(configured) > Available(nofile, reserve) ==> Apportions(configured, Available(nofile, reserve), result)
  {
    var available := Available(nofile, reserve);
    if Total(configured) <= available {
      return configured;
    }
    var shares := Shares(configured, available);
    SharesLoseAtMostTwo(configured, available);
    result := HandOut(configured, shares, available - Total(shares));
  }

  /** No 128-bit step overflows or divides by zero. */
  lemma ArithmeticFits(c: Capacities, nofile: nat, reserve: nat)
    requires nofile < U64_LIMIT && reserve < U64_LIMIT
    ensures Total(c) < U128_LIMIT
    ensures forall i :: 0 <= i < 3 ==> c[i] * Available(nofile, reserve) < U128_LIMIT
    ensures Total(c) > Available(nofile, reserve) ==> Total(c) > 0
  {
    forall i | 0 <= i < 3 ensures c[i] * Available(nofile, reserve) < U128_LIMIT {
      ProductBelow(c[i], Available(nofile, reserve), U64_LIMIT);
    }
  }

  lemma ProductBelow(a: nat, b: nat, limit: nat)
    requires a < limit && b < limit
    ensures a * b < limit * limit
  {
    assert a * b <= a * limit <= (limit - 1) * limit;
  }
}
