/** How many keys of a map hold a given value, and how that changes with one update; sizes and multiplicities. */
module Counting {
  lemma {:induction false} SizeOfSubset<T>(a: set<T>, b: set<T>)
    requires a <= b
    ensures |a| <= |b|
  {
    if a != {} {
      var x :| x in a;
      SizeOfSubset(a - {x}, b - {x});
    }
  }

  lemma FirstCounts<T>(q: seq<T>, x: T)
    requires q != []
    ensures multiset(q)[x] == multiset(q[1..])[x] + Bit(q[0] == x)
  {
    assert q == [q[0]] + q[1..];
  }

  function Holders<K, V(==)>(m: map<K, V>, v: V): set<K> {
    set k | k in m && m[k] == v
  }

  function CountOf<K, V(==)>(m: map<K, V>, v: V): nat {
    |Holders(m, v)|
  }

  function Bit(b: bool): nat {
    if b then 1 else 0
  }

  lemma CountAfterUpdate<K, V>(m: map<K, V>, k: K, v': V, v: V)
    ensures CountOf(m[k := v'], v) + Bit(k in m && m[k] == v) == CountOf(m, v) + Bit(v' == v)
  {
    var rest := Holders(m, v) - {k};
    assert Holders(m, v) == if k in m && m[k] == v then rest + {k} else rest;
    assert Holders(m[k := v'], v) == if v' == v then rest + {k} else rest;
  }

  lemma CountAfterRemove<K, V>(m: map<K, V>, k: K, v: V)
    ensures CountOf(m - {k}, v) + Bit(k in m && m[k] == v) == CountOf(m, v)
  {
    var rest := Holders(m, v) - {k};
    assert Holders(m, v) == if k in m && m[k] == v then rest + {k} else rest;
    assert Holders(m - {k}, v) == rest;
  }

  /** The keys whose value satisfies `p`. */
  function Where<K, V>(m: map<K, V>, p: V -> bool): set<K> {
    set k | k in m && p(m[k])
  }

  lemma WhereAfterUpdate<K, V>(m: map<K, V>, k: K, v: V, p: V -> bool)
    requires k in m
    ensures |Where(m[k := v], p)| + Bit(p(m[k])) == |Where(m, p)| + Bit(p(v))
  {
    var rest := Where(m, p) - {k};
    assert Where(m, p) == if p(m[k]) then rest + {k} else rest;
    assert Where(m[k := v], p) == if p(v) then rest + {k} else rest;
  }

  lemma CountPositive<K, V>(m: map<K, V>, k: K)
    requires k in m
    ensures CountOf(m, m[k]) > 0
  {
    assert k in Holders(m, m[k]);
  }
}
