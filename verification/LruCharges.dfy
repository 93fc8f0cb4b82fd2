/** Sums of charges over sets and lists of LRU handles. */
module LruCharges {
  import opened LruHandles

  function Sum(s: seq<LRUHandle>): nat {
    if s == [] then 0 else s[0].totalCharge + Sum(s[1..])
  }

  /** The charges from position `i` on. */
  function SumFrom(s: seq<LRUHandle>, i: nat): nat
    requires i <= |s|
  {
    Sum(s[i..])
  }

  ghost function Total(hs: set<LRUHandle>): nat {
    if hs == {} then 0 else var h :| h in hs; h.totalCharge + Total(hs - {h})
  }

  lemma {:induction false} SumAppend(a: seq<LRUHandle>, b: seq<LRUHandle>)
    ensures Sum(a + b) == Sum(a) + Sum(b)
  {
    if a == [] {
      assert a + b == b;
    } else {
      SumAppend(a[1..], b);
      assert (a + b)[1..] == a[1..] + b;
    }
  }

  lemma SumAppendOne(s: seq<LRUHandle>, e: LRUHandle)
    ensures Sum(s + [e]) == Sum(s) + e.totalCharge
  {
    SumAppend(s, [e]);
    assert [e][1..] == [];
  }

  lemma SumFromAppend(s: seq<LRUHandle>, i: nat, e: LRUHandle)
    requires i <= |s|
    ensures SumFrom(s + [e], i) == SumFrom(s, i) + e.totalCharge
  {
    assert (s + [e])[i..] == s[i..] + [e];
    SumAppendOne(s[i..], e);
  }

  lemma SumFromStep(s: seq<LRUHandle>, i: nat)
    requires i <= |s| && SumFrom(s, i) > 0
    ensures i < |s| && SumFrom(s, i) == s[i].totalCharge + SumFrom(s, i + 1)
  {
    assert s[i..] != [];
    assert s[i..][1..] == s[i + 1..];
  }

  lemma SumCut(s: seq<LRUHandle>, i: nat)
    requires i < |s|
    ensures Sum(s) == Sum(s[..i] + s[i + 1..]) + s[i].totalCharge
  {
    assert s == s[..i] + ([s[i]] + s[i + 1..]);
    SumAppend(s[..i], [s[i]] + s[i + 1..]);
    SumAppend(s[..i], s[i + 1..]);
    assert ([s[i]] + s[i + 1..])[1..] == s[i + 1..];
  }

  lemma {:induction false} TotalRemove(hs: set<LRUHandle>, h: LRUHandle)
    requires h in hs
    ensures Total(hs) == h.totalCharge + Total(hs - {h})
  {
    var g :| g in hs && Total(hs) == g.totalCharge + Total(hs - {g});
    if g != h {
      TotalRemove(hs - {g}, h);
      TotalRemove(hs - {h}, g);
      assert hs - {g} - {h} == hs - {h} - {g};
    }
  }

  lemma TotalAdd(hs: set<LRUHandle>, h: LRUHandle)
    requires h !in hs
    ensures Total(hs + {h}) == h.totalCharge + Total(hs)
  {
    TotalRemove(hs + {h}, h);
    assert hs + {h} - {h} == hs;
  }
}
