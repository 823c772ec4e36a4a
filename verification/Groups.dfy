/** Abelian groups on part of a type, and multiples of an element. */
module Groups {

  datatype Group<!T> = Group(has: T -> bool, add: (T, T) -> T, zero: T, neg: T -> T)

  ghost predicate Associative<T(!new)>(g: Group<T>) {
    forall p, q, r {:trigger g.add(g.add(p, q), r)} :: g.has(p) && g.has(q) && g.has(r) ==>
      g.add(g.add(p, q), r) == g.add(p, g.add(q, r))
  }

  ghost predicate Commutative<T(!new)>(g: Group<T>) {
    forall p, q {:trigger g.add(p, q)} :: g.has(p) && g.has(q) ==> g.has(g.add(p, q)) && g.add(p, q) == g.add(q, p)
  }

  ghost predicate HasUnit<T(!new)>(g: Group<T>) {
    g.has(g.zero) && forall p {:trigger g.add(p, g.zero)} :: g.has(p) ==> g.add(p, g.zero) == p
  }

  ghost predicate HasInverses<T(!new)>(g: Group<T>) {
    forall p {:trigger g.neg(p)} :: g.has(p) ==> g.has(g.neg(p)) && g.add(p, g.neg(p)) == g.zero
  }

  ghost predicate IsAbelianGroup<T(!new)>(g: Group<T>) {
    Associative(g) && Commutative(g) && HasUnit(g) && HasInverses(g)
  }

  /* ---- the laws, one instance at a time ---- */

  lemma Assoc<T(!new)>(g: Group<T>, p: T, q: T, r: T)
    requires IsAbelianGroup(g) && g.has(p) && g.has(q) && g.has(r)
    ensures g.add(g.add(p, q), r) == g.add(p, g.add(q, r))
  {
    hide Commutative, HasUnit, HasInverses;
  }

  lemma Sum<T(!new)>(g: Group<T>, p: T, q: T)
    requires IsAbelianGroup(g) && g.has(p) && g.has(q)
    ensures g.has(g.add(p, q)) && g.add(p, q) == g.add(q, p)
  {
    hide Associative, HasUnit, HasInverses;
  }

  lemma Unit<T(!new)>(g: Group<T>, p: T)
    requires IsAbelianGroup(g) && g.has(p)
    ensures g.has(g.zero) && g.add(p, g.zero) == p && g.add(g.zero, p) == p
  {
    hide Associative, HasInverses;
  }

  lemma Inverse<T(!new)>(g: Group<T>, p: T)
    requires IsAbelianGroup(g) && g.has(p)
    ensures g.has(g.neg(p)) && g.add(p, g.neg(p)) == g.zero && g.add(g.neg(p), p) == g.zero
  {
    hide Associative, HasUnit;
  }

  lemma Cancel<T(!new)>(g: Group<T>, p: T, q: T, r: T)
    requires IsAbelianGroup(g) && g.has(p) && g.has(q) && g.has(r) && g.add(p, r) == g.add(q, r)
    ensures p == q
  {
    hide IsAbelianGroup;
    Inverse(g, r);
    Assoc(g, p, r, g.neg(r));
    Assoc(g, q, r, g.neg(r));
    Unit(g, p);
    Unit(g, q);
  }

  /* ---- multiples ---- */

  // k p
  ghost function Times<T>(g: Group<T>, k: nat, p: T): T {
    if k == 0 then g.zero else g.add(Times(g, k - 1, p), p)
  }

  lemma {:induction false} TimesHas<T(!new)>(g: Group<T>, k: nat, p: T)
    requires IsAbelianGroup(g) && g.has(p)
    ensures g.has(Times(g, k, p))
  {
    hide IsAbelianGroup;
    Unit(g, p);
    if k > 0 {
      TimesHas(g, k - 1, p);
      Sum(g, Times(g, k - 1, p), p);
    }
  }

  lemma TimesOne<T(!new)>(g: Group<T>, p: T)
    requires IsAbelianGroup(g) && g.has(p)
    ensures Times(g, 1, p) == p && Times(g, 2, p) == g.add(p, p)
  {
    hide IsAbelianGroup;
    Unit(g, p);
    assert Times(g, 1, p) == g.add(Times(g, 0, p), p);
  }

  lemma {:induction false} TimesSum<T(!new)>(g: Group<T>, a: nat, b: nat, p: T)
    requires IsAbelianGroup(g) && g.has(p)
    ensures Times(g, a + b, p) == g.add(Times(g, a, p), Times(g, b, p))
    decreases b
  {
    hide IsAbelianGroup;
    TimesHas(g, a, p);
    if b == 0 {
      Unit(g, Times(g, a, p));
    } else {
      TimesSum(g, a, b - 1, p);
      TimesHas(g, b - 1, p);
      Assoc(g, Times(g, a, p), Times(g, b - 1, p), p);
      assert a + b - 1 == a + (b - 1);
    }
  }

  lemma {:induction false} TimesProduct<T(!new)>(g: Group<T>, a: nat, b: nat, p: T)
    requires IsAbelianGroup(g) && g.has(p)
    ensures Times(g, a * b, p) == Times(g, a, Times(g, b, p))
    decreases a
  {
    hide IsAbelianGroup;
    if a > 0 {
      TimesProduct(g, a - 1, b, p);
      assert a * b == (a - 1) * b + b;
      TimesSum(g, (a - 1) * b, b, p);
    }
  }

  lemma {:induction false} TimesZero<T(!new)>(g: Group<T>, k: nat)
    requires IsAbelianGroup(g) && g.has(g.zero)
    ensures Times(g, k, g.zero) == g.zero
  {
    hide IsAbelianGroup;
    if k > 0 {
      TimesZero(g, k - 1);
      Unit(g, g.zero);
    }
  }

  // Multiples of an element of order dividing n depend on the factor modulo n only.
  lemma TimesModulo<T(!new)>(g: Group<T>, k: nat, n: nat, p: T)
    requires IsAbelianGroup(g) && g.has(p) && n > 0 && Times(g, n, p) == g.zero
    ensures Times(g, k, p) == Times(g, k % n, p)
  {
    hide IsAbelianGroup;
    var q, r := k / n, k % n;
    assert k == q * n + r;
    Unit(g, p);
    TimesSum(g, q * n, r, p);
    TimesProduct(g, q, n, p);
    TimesZero(g, q);
    TimesHas(g, r, p);
    Unit(g, Times(g, r, p));
  }

  // n is the order of p.
  ghost predicate HasOrder<T(!new)>(g: Group<T>, p: T, n: nat) {
    && g.has(p) && n > 0 && Times(g, n, p) == g.zero
    && forall k: nat {:trigger Times(g, k, p)} :: 0 < k < n ==> Times(g, k, p) != g.zero
  }

  // Multiples a p and b p with 0 < a < b and a + b < n are neither equal nor opposite.
  lemma Distinct<T(!new)>(g: Group<T>, p: T, n: nat, a: nat, b: nat)
    requires IsAbelianGroup(g) && HasOrder(g, p, n) && 0 < a < b && a + b < n
    ensures Times(g, a, p) != Times(g, b, p) && Times(g, a, p) != g.neg(Times(g, b, p))
  {
    hide IsAbelianGroup, Times;
    var A, B := Times(g, a, p), Times(g, b, p);
    TimesHas(g, a, p);
    TimesHas(g, b, p);
    TimesHas(g, b - a, p);
    TimesSum(g, b - a, a, p);
    TimesSum(g, b, a, p);
    Unit(g, A);
    Inverse(g, B);
    assert b - a + a == b;
    if A == B {
      Cancel(g, Times(g, b - a, p), g.zero, A);
    }
  }

  // Which multiples vanish.
  lemma VanishesExactly<T(!new)>(g: Group<T>, p: T, n: nat, k: nat)
    requires IsAbelianGroup(g) && HasOrder(g, p, n)
    ensures Times(g, k, p) == g.zero <==> k % n == 0
  {
    hide IsAbelianGroup;
    TimesModulo(g, k, n, p);
    assert Times(g, 0, p) == g.zero;
  }

  // Multiples with factors that differ, and do not add up to a multiple of n, are neither equal nor opposite.
  lemma Different<T(!new)>(g: Group<T>, p: T, n: nat, a: nat, b: nat)
    requires IsAbelianGroup(g) && HasOrder(g, p, n) && a <= b
    ensures Times(g, a, p) == Times(g, b, p) <==> (b - a) % n == 0
    ensures Times(g, a, p) == g.neg(Times(g, b, p)) <==> (a + b) % n == 0
  {
    hide IsAbelianGroup, Times, HasOrder;
    OrderHas(g, p, n);
    var A, B := Times(g, a, p), Times(g, b, p);
    TimesHas(g, a, p);
    TimesHas(g, b, p);
    TimesHas(g, b - a, p);
    TimesSum(g, b - a, a, p);
    assert b - a + a == b;
    TimesSum(g, a, b, p);
    Unit(g, A);
    Inverse(g, B);
    VanishesExactly(g, p, n, b - a);
    VanishesExactly(g, p, n, a + b);
    if A == B {
      Cancel(g, Times(g, b - a, p), g.zero, A);
    }
    if (a + b) % n == 0 {
      Cancel(g, A, g.neg(B), B);
    }
  }

  lemma OrderHas<T(!new)>(g: Group<T>, p: T, n: nat)
    requires HasOrder(g, p, n)
    ensures g.has(p) && n > 0
  {
  }
}
