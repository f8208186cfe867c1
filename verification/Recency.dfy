/**
 Least-recently-used order over a sequence of accesses, independent of any cache.
 `Keep(accesses, n)` is the set of the `n` most recently accessed distinct keys.
 */
module Recency {
  import opened Arith

  function Elements<T(==)>(s: seq<T>): set<T> { set x | x in s }

  /** The position of the last access to `x`. */
  function Last(accesses: seq<nat>, x: nat): (i: nat)
    requires x in accesses
    ensures i < |accesses| && accesses[i] == x
    ensures forall j | i < j < |accesses| :: accesses[j] != x
  {
    if accesses[|accesses| - 1] == x then |accesses| - 1 else Last(accesses[..|accesses| - 1], x)
  }

  /** The distinct keys accessed after the last access to `x`. */
  function Later(accesses: seq<nat>, x: nat): set<nat>
    requires x in accesses
  {
    Elements(accesses[Last(accesses, x) + 1..])
  }

  /** The keys with fewer than `n` distinct keys accessed after them. */
  function Keep(accesses: seq<nat>, n: nat): set<nat> {
    set x | x in accesses && |Later(accesses, x)| < n
  }

  lemma LaterThan(accesses: seq<nat>, x: nat, y: nat)
    requires x in accesses && y in accesses && Last(accesses, x) < Last(accesses, y)
    ensures Later(accesses, y) + {y} <= Later(accesses, x)
    ensures y !in Later(accesses, y)
    ensures |Later(accesses, y)| < |Later(accesses, x)|
  {
    var i, j := Last(accesses, x), Last(accesses, y);
    assert accesses[i + 1..][j - i - 1] == y;
    forall t | t in Later(accesses, y)
      ensures t in Later(accesses, x)
    {
      var k :| j + 1 <= k < |accesses| && accesses[k] == t;
      assert accesses[i + 1..][k - i - 1] == t;
    }
    SubsetSize(Later(accesses, y) + {y}, Later(accesses, x));
  }

  lemma LastDiffers(accesses: seq<nat>, x: nat, y: nat)
    requires x in accesses && y in accesses && x != y
    ensures Last(accesses, x) != Last(accesses, y)
  {
  }

  lemma LastAppend(accesses: seq<nat>, x: nat, a: nat)
    requires x in accesses + [a]
    ensures Last(accesses + [a], x) == if x == a then |accesses| else Last(accesses, x)
  {
    assert (accesses + [a])[..|accesses|] == accesses;
  }

  lemma LaterAppend(accesses: seq<nat>, x: nat, a: nat)
    requires x in accesses + [a]
    ensures Later(accesses + [a], x) == if x == a then {} else Later(accesses, x) + {a}
  {
    LastAppend(accesses, x, a);
    if x != a {
      var i := Last(accesses, x);
      assert (accesses + [a])[i + 1..] == accesses[i + 1..] + [a];
    }
  }

  /** Touching a kept key changes nothing about which keys are kept. */
  lemma TouchKept(accesses: seq<nat>, a: nat, n: nat)
    requires a in Keep(accesses, n)
    ensures Keep(accesses + [a], n) == Keep(accesses, n)
  {
    forall x | x in accesses + [a]
      ensures x in Keep(accesses + [a], n) <==> x in Keep(accesses, n)
    {
      LaterAppend(accesses, x, a);
      if x != a {
        SubsetSize(Later(accesses, x), Later(accesses, x) + {a});
        LastDiffers(accesses, x, a);
        if Last(accesses, a) < Last(accesses, x) {
          LaterThan(accesses, a, x);
        } else {
          LaterThan(accesses, x, a);
        }
      }
    }
  }

  lemma LaterElsewhere(accesses: seq<nat>, x: nat)
    requires x in accesses
    ensures Later(accesses, x) <= Elements(accesses) - {x}
  {
  }

  /** While there is room every key accessed is kept, and a new one joins them. */
  lemma TouchWithRoom(accesses: seq<nat>, a: nat, n: nat)
    requires a !in Keep(accesses, n) && |Keep(accesses, n)| < n
    requires Keep(accesses, n) == Elements(accesses)
    ensures Keep(accesses + [a], n) == Keep(accesses, n) + {a}
  {
    forall x | x in accesses + [a]
      ensures x in Keep(accesses + [a], n)
    {
      LaterAppend(accesses, x, a);
      if x != a {
        LaterElsewhere(accesses, x);
        var others := Elements(accesses) - {x};
        assert |others| == |Elements(accesses)| - 1;
        SubsetSize(Later(accesses, x) + {a}, others + {a});
      }
    }
  }

  /** When full, a new key displaces the least recently accessed kept key, and only that one. */
  lemma TouchWhenFull(accesses: seq<nat>, a: nat, n: nat, victim: nat)
    requires a !in Keep(accesses, n) && |Keep(accesses, n)| == n
    requires victim in Keep(accesses, n)
    requires forall x | x in Keep(accesses, n) && x != victim :: Last(accesses, victim) < Last(accesses, x)
    ensures Keep(accesses + [a], n) == Keep(accesses, n) - {victim} + {a}
  {
    var kept := Keep(accesses, n);
    forall x | x in accesses + [a]
      ensures x in Keep(accesses + [a], n) <==> x in kept - {victim} + {a}
    {
      LaterAppend(accesses, x, a);
      if x != a {
        SubsetSize(Later(accesses, x), Later(accesses, x) + {a});
        if x == victim {
          VictimDisplaced(accesses, a, n, victim);
        } else if x in kept {
          LaterThan(accesses, victim, x);
        }
      }
    }
    assert a in Keep(accesses + [a], n) by { LaterAppend(accesses, a, a); }
  }

  lemma VictimDisplaced(accesses: seq<nat>, a: nat, n: nat, victim: nat)
    requires a !in Keep(accesses, n) && |Keep(accesses, n)| == n
    requires victim in Keep(accesses, n)
    requires forall x | x in Keep(accesses, n) && x != victim :: Last(accesses, victim) < Last(accesses, x)
    ensures |Later(accesses, victim) + {a}| >= n
  {
    var kept := Keep(accesses, n);
    forall x | x in kept && x != victim
      ensures x in Later(accesses, victim)
    {
      LaterThan(accesses, victim, x);
    }
    assert kept - {victim} + {a} <= Later(accesses, victim) + {a};
    SubsetSize(kept - {victim} + {a}, Later(accesses, victim) + {a});
    assert |kept - {victim}| == n - 1;
  }

  /** A key last accessed after a kept key is kept too. */
  lemma KeepUpward(accesses: seq<nat>, n: nat, x: nat, y: nat)
    requires x in Keep(accesses, n) && y in accesses && Last(accesses, x) < Last(accesses, y)
    ensures y in Keep(accesses, n)
  {
    LaterThan(accesses, x, y);
  }

  /** Exactly `n` keys are kept, or all of them when fewer were accessed. */
  lemma {:induction false} KeepSize(accesses: seq<nat>, n: nat)
    ensures Keep(accesses, n) <= Elements(accesses)
    ensures |Keep(accesses, n)| <= n
    ensures |Keep(accesses, n)| < n ==> Keep(accesses, n) == Elements(accesses)
  {
    hide Later, Last;
    if accesses != [] {
      var front, a := accesses[..|accesses| - 1], accesses[|accesses| - 1];
      assert accesses == front + [a];
      KeepSize(front, n);
      if a in Keep(front, n) {
        TouchKept(front, a, n);
      } else if |Keep(front, n)| < n {
        TouchWithRoom(front, a, n);
      } else if n > 0 {
        var victim := Oldest(front, Keep(front, n));
        TouchWhenFull(front, a, n, victim);
      }
    }
  }

  lemma {:induction false} Oldest(accesses: seq<nat>, keys: set<nat>) returns (x: nat)
    requires keys != {} && forall k | k in keys :: k in accesses
    ensures x in keys && forall y | y in keys && y != x :: Last(accesses, x) < Last(accesses, y)
    decreases keys
  {
    x :| x in keys;
    if keys != {x} {
      var y := Oldest(accesses, keys - {x});
      LastDiffers(accesses, x, y);
      if Last(accesses, y) < Last(accesses, x) {
        x := y;
      }
    }
  }
}
