/** Finite sets of integers: majorities, and the least element. */
module IntSets {
  function Peers(n: nat): (s: set<int>)
    ensures |s| == n && forall p :: p in s <==> 0 <= p < n
  {
    if n == 0 then {} else
      var rest := Peers(n - 1);
      assert n - 1 !in rest;
      rest + {n - 1}
  }

  lemma SubsetSize<T>(a: set<T>, b: set<T>)
    requires a <= b
    ensures |a| <= |b|
  {
    assert b == a + (b - a);
  }

  lemma SameSize<T>(a: set<T>, b: set<T>)
    requires a <= b && |a| >= |b|
    ensures a == b
  {
    assert b == a + (b - a);
    assert |b - a| == 0;
  }

  // Two majorities of n peers share a peer.
  lemma MajoritiesMeet(a: set<int>, b: set<int>, n: nat) returns (p: int)
    requires a <= Peers(n) && b <= Peers(n)
    requires |a| >= n / 2 + 1 && |b| >= n / 2 + 1
    ensures p in a && p in b
  {
    SubsetSize(a + b, Peers(n));
    assert |a + b| + |a * b| == |a| + |b|;
    assert a * b != {};
    p :| p in a * b;
  }

  lemma Inhabited<T>(s: set<T>) returns (x: T)
    requires s != {}
    ensures x in s
  {
    x :| x in s;
  }

  lemma LeastExists(keys: set<int>) returns (k: int)
    requires keys != {}
    ensures k in keys && forall j :: j in keys ==> k <= j
    decreases |keys|
  {
    var x := Inhabited(keys);
    var rest := keys - {x};
    if rest == {} {
      assert keys == {x};
      return x;
    }
    var m := LeastExists(rest);
    k := if m < x then m else x;
    assert forall j :: j in keys ==> j == x || j in rest;
  }

  // The maps of the original are walked in the order of their keys.
  method Least(keys: set<int>) returns (k: int)
    requires keys != {}
    ensures k in keys && forall j :: j in keys ==> k <= j
  {
    ghost var m := LeastExists(keys);
    assert m in keys && forall j :: j in keys ==> m <= j;
    k :| k in keys && forall j :: j in keys ==> k <= j;
  }

  ghost function LeastOf(keys: set<int>): (k: int)
    requires keys != {}
    ensures k in keys && forall j :: j in keys ==> k <= j
  {
    IsLeastExists(keys);
    var k :| k in keys && forall j :: j in keys ==> k <= j;
    k
  }

  lemma IsLeastExists(keys: set<int>)
    requires keys != {}
    ensures exists k :: k in keys && forall j :: j in keys ==> k <= j
  {
    var k := LeastExists(keys);
    assert k in keys && forall j :: j in keys ==> k <= j;
  }
}
