/** Shifting page numbers by a buddy order, and counting clear bits. */
module Shifts {

  /** n >> k */
  function Right(n: nat, k: nat): nat
    decreases k
  {
    if k == 0 then n else Right(n, k - 1) / 2
  }

  /** n << k */
  function Left(n: nat, k: nat): nat
    decreases k
  {
    if k == 0 then n else 2 * Left(n, k - 1)
  }

  lemma {:induction false} LeftAdds(a: nat, b: nat, k: nat)
    ensures Left(a, k) + Left(b, k) == Left(a + b, k)
    decreases k
  {
    if k > 0 {
      LeftAdds(a, b, k - 1);
    }
  }

  lemma {:induction false} LeftDoubles(n: nat, k: nat)
    ensures Left(2 * n, k) == 2 * Left(n, k)
    decreases k
  {
    if k > 0 {
      LeftDoubles(n, k - 1);
    }
  }

  lemma {:induction false} LeftScales(n: nat, k: nat)
    ensures Left(n, k) == n * Left(1, k)
    decreases k
  {
    if k > 0 {
      LeftScales(n, k - 1);
    }
  }

  lemma {:induction false} LeftMonotone(a: nat, b: nat, k: nat)
    requires a <= b
    ensures Left(a, k) <= Left(b, k)
    decreases k
  {
    if k > 0 {
      LeftMonotone(a, b, k - 1);
    }
  }

  lemma {:induction false} LeftPositive(k: nat)
    ensures Left(1, k) >= 1
    decreases k
  {
    if k > 0 {
      LeftPositive(k - 1);
    }
  }

  lemma {:induction false} RightMonotone(a: nat, b: nat, k: nat)
    requires a <= b
    ensures Right(a, k) <= Right(b, k)
    decreases k
  {
    if k > 0 {
      RightMonotone(a, b, k - 1);
    }
  }

  /** Shifting right and comparing is comparing with the value shifted left. */
  lemma {:induction false} RightAtMost(n: nat, j: nat, k: nat)
    ensures Left(j, k) <= n <==> j <= Right(n, k)
    decreases k
  {
    if k > 0 {
      RightAtMost(n, 2 * j, k - 1);
      LeftDoubles(j, k - 1);
    }
  }

  lemma {:induction false} RightOfLeft(j: nat, k: nat)
    ensures Right(Left(j, k), k) == j
  {
    RightAtMost(Left(j, k), j, k);
    RightAtMost(Left(j, k), j + 1, k);
    LeftAdds(j, 1, k);
    LeftPositive(k);
  }

  /** A page lies in the buddy whose number is the page number shifted right. */
  lemma {:induction false} InBuddy(p: nat, j: nat, k: nat)
    ensures Right(p, k) == j <==> Left(j, k) <= p < Left(j, k) + Left(1, k)
  {
    RightAtMost(p, j, k);
    RightAtMost(p, j + 1, k);
    LeftAdds(j, 1, k);
  }

  function CountClear(s: seq<bool>): nat {
    if s == [] then 0 else CountClear(s[..|s| - 1]) + if s[|s| - 1] then 0 else 1
  }

  lemma {:induction false} CountClearUpdate(s: seq<bool>, j: nat, v: bool)
    requires j < |s|
    ensures CountClear(s[j := v]) == CountClear(s) + (if s[j] && !v then 1 else 0) - (if !s[j] && v then 1 else 0)
  {
    var n := |s| - 1;
    if j < n {
      assert s[j := v][..n] == s[..n][j := v];
      CountClearUpdate(s[..n], j, v);
    } else {
      assert s[j := v][..n] == s[..n];
    }
  }

  lemma {:induction false} CountClearZero(s: seq<bool>)
    ensures CountClear(s) == 0 <==> forall j | 0 <= j < |s| :: s[j]
    ensures CountClear(s) <= |s|
  {
    if s != [] {
      CountClearZero(s[..|s| - 1]);
      assert forall j | 0 <= j < |s| - 1 :: s[..|s| - 1][j] == s[j];
    }
  }
}
