/** Page blocks of power-of-two size that partition a range of memory, in units of pages. */
module BuddySpec {
  import opened Bits

  const MAX_ORDER: nat := 11

  datatype Blk = Blk(order: nat, free: bool)

  /** The blocks by the page they start at. */
  type Blocks = map<nat, Blk>

  function End(m: Blocks, a: nat): nat
    requires a in m
  {
    a + Pow2(m[a].order)
  }

  ghost predicate Disjoint(m: Blocks) {
    forall a, b :: a in m && b in m && a < b ==> End(m, a) <= b
  }

  ghost predicate Inside(m: Blocks, s: nat, e: nat) {
    forall a :: a in m ==> s <= a && End(m, a) <= e
  }

  ghost predicate Has(m: Blocks, a: nat, p: nat) { a in m && a <= p < End(m, a) }

  ghost predicate Covered(m: Blocks, s: nat, e: nat) {
    forall p :: s <= p < e ==> InSome(m, p)
  }

  ghost predicate InSome(m: Blocks, p: nat) { exists a :: Has(m, a, p) }

  /** The blocks tile [s, e): no page is in two of them, and every page is in one. */
  ghost predicate Partition(m: Blocks, s: nat, e: nat) {
    Disjoint(m) && Inside(m, s, e) && Covered(m, s, e)
  }

  /** Handing a block out or back does not move it. */
  lemma {:induction false} MarkOk(m: Blocks, s: nat, e: nat, a: nat, free: bool)
    requires Partition(m, s, e) && a in m
    ensures Partition(m[a := m[a].(free := free)], s, e)
  {
    var n := m[a := m[a].(free := free)];
    forall p | s <= p < e ensures InSome(n, p) {
      assert InSome(m, p);
      var x :| Has(m, x, p);
      assert Has(n, x, p);
    }
  }

  function Split(m: Blocks, a: nat, low: bool, high: bool): Blocks
    requires a in m && m[a].order > 0
  {
    var o := m[a].order - 1;
    m[a := Blk(o, low)][a + Pow2(o) := Blk(o, high)]
  }

  lemma {:induction false} SplitDisjoint(m: Blocks, a: nat, low: bool, high: bool)
    requires Disjoint(m) && a in m && m[a].order > 0
    ensures Disjoint(Split(m, a, low, high)) && a + Pow2(m[a].order - 1) !in m
  {
    hide Pow2;
    var o := m[a].order - 1;
    Pow2Step(o);
    var b := a + Pow2(o);
    var n := Split(m, a, low, high);
    assert End(m, a) == b + Pow2(o);
    assert b !in m;
    forall x, y | x in n && y in n && x < y ensures End(n, x) <= y {
      if x != b && y != b {
        assert End(m, x) <= y;
      } else if y == b && x != a {
        assert End(m, x) <= a;
      } else if x == b {
        assert End(m, a) <= y;
      }
    }
  }

  /** The two halves of a block take its place. */
  lemma {:induction false} SplitOk(m: Blocks, s: nat, e: nat, a: nat, low: bool, high: bool)
    requires Partition(m, s, e) && a in m && m[a].order > 0
    ensures Partition(Split(m, a, low, high), s, e) && a + Pow2(m[a].order - 1) !in m
  {
    hide Pow2, Disjoint;
    SplitDisjoint(m, a, low, high);
    var o := m[a].order - 1;
    Pow2Step(o);
    var b := a + Pow2(o);
    var n := Split(m, a, low, high);
    forall p | s <= p < e ensures InSome(n, p) {
      assert InSome(m, p);
      var x :| Has(m, x, p);
      if x != a { assert Has(n, x, p); }
      else if p < b { assert Has(n, a, p); }
      else { assert Has(n, b, p); }
    }
  }

  function Merge(m: Blocks, a: nat, b: nat, free: bool): Blocks
    requires a in m
  {
    (m - {b})[a := Blk(m[a].order + 1, free)]
  }

  /** Two adjacent blocks of one order make a block of the next. */
  lemma {:induction false} MergeOk(m: Blocks, s: nat, e: nat, a: nat, b: nat, free: bool)
    requires Partition(m, s, e) && a in m && b in m && m[a].order == m[b].order && b == End(m, a)
    ensures Partition(Merge(m, a, b, free), s, e)
  {
    hide Pow2, Merge, Disjoint, Inside, Covered;
    MergeDisjoint(m, a, b, free);
    MergeCovered(m, s, e, a, b, free);
  }

  lemma {:induction false} MergeEnds(m: Blocks, a: nat, b: nat, free: bool)
    requires a in m && b in m && m[a].order == m[b].order && b == End(m, a) && a != b
    ensures var n := Merge(m, a, b, free);
            && (forall x :: x in n <==> x in m && x != b) && End(n, a) == End(m, b)
            && (forall x :: x in n && x != a ==> End(n, x) == End(m, x))
  {
    hide Pow2;
    Pow2Step(m[a].order);
  }

  lemma {:induction false} EndBehind(m: Blocks, a: nat)
    requires a in m
    ensures a < End(m, a)
  {
  }

  lemma {:induction false} MergeDisjoint(m: Blocks, a: nat, b: nat, free: bool)
    requires Disjoint(m) && a in m && b in m && m[a].order == m[b].order && b == End(m, a)
    ensures Disjoint(Merge(m, a, b, free))
  {
    EndBehind(m, a);
    hide Merge, End;
    MergeEnds(m, a, b, free);
    var n := Merge(m, a, b, free);
    forall x, y | x in n && y in n && x < y ensures End(n, x) <= y {
      assert End(m, x) <= y;
      if x == a { assert b <= y && b != y && End(m, b) <= y; }
    }
  }

  lemma {:induction false} MergeCovered(m: Blocks, s: nat, e: nat, a: nat, b: nat, free: bool)
    requires Inside(m, s, e) && Covered(m, s, e) && a in m && b in m && m[a].order == m[b].order && b == End(m, a)
    ensures var n := Merge(m, a, b, free); Inside(n, s, e) && Covered(n, s, e)
  {
    EndBehind(m, a);
    EndBehind(m, b);
    hide Merge, End;
    MergeEnds(m, a, b, free);
    var n := Merge(m, a, b, free);
    forall p | s <= p < e ensures InSome(n, p) {
      assert InSome(m, p);
      var x :| Has(m, x, p);
      assert Has(n, if x == b then a else x, p);
    }
  }

  // ---------------------------------------------------------------- buddy addresses

  /** BUDDY_BLOCK: the page number with the order's bit flipped. */
  function BuddyOf(a: nat, order: nat): nat { Xor(a, Pow2(order)) }

  /** BUDDY_LOW: the page number with the order's bit cleared, in a machine word of w bits. */
  function LowOf(a: nat, order: nat, w: nat): nat
    requires order < w
  {
    Pow2Mono(order, w);
    And(a, Pow2(w) - 1 - Pow2(order))
  }

  lemma {:induction false} XorSplit(a: nat, b: nat)
    ensures Xor(a, b) == 2 * Xor(a / 2, b / 2) + (a + b) % 2
  {
    if a == 0 { assert b == 2 * (b / 2) + b % 2; }
    else if b == 0 { assert a == 2 * (a / 2) + a % 2; }
  }

  /** Flipping one bit moves by exactly one block, up or down, whatever the alignment. */
  lemma {:induction false} BuddyIs(a: nat, order: nat)
    ensures BuddyOf(a, order) == if a / Pow2(order) % 2 == 0 then a + Pow2(order) else a - Pow2(order)
    decreases order
  {
    hide Pow2, Xor;
    if order == 0 {
      Pow2Zero();
      XorOne(a);
    } else {
      var p := Pow2(order - 1);
      Pow2Step(order - 1);
      DivStep(a, order - 1);
      XorDouble(a, p);
      BuddyIs(a / 2, order - 1);
    }
  }

  lemma {:induction false} XorOne(a: nat)
    ensures Xor(a, 1) == if a / 1 % 2 == 0 then a + 1 else a - 1
  {
    XorSplit(a, 1);
    assert Xor(a / 2, 0) == a / 2;
  }

  lemma {:induction false} XorDouble(a: nat, p: nat)
    ensures Xor(a, 2 * p) == 2 * Xor(a / 2, p) + a % 2
  {
    XorSplit(a, 2 * p);
    assert 2 * p / 2 == p;
  }

  /** Clearing it gives the lower of the two buddies. */
  lemma {:induction false} LowIs(a: nat, order: nat, w: nat)
    requires order < w && a < Pow2(w)
    ensures LowOf(a, order, w) == if a / Pow2(order) % 2 == 0 then a else a - Pow2(order)
    decreases order
  {
    hide Pow2, And;
    if order == 0 {
      LowBit(a, w);
    } else {
      LowHalf(a, order, w);
      LowIs(a / 2, order - 1, w - 1);
      DivStep(a, order - 1);
      Doubled(a, Pow2(order - 1), a / Pow2(order) % 2 == 0, LowOf(a / 2, order - 1, w - 1));
    }
  }

  lemma {:induction false} LowBit(a: nat, w: nat)
    requires 0 < w && a < Pow2(w)
    ensures LowOf(a, 0, w) == if a / Pow2(0) % 2 == 0 then a else a - Pow2(0)
  {
    hide Pow2, And;
    Pow2Step(w - 1);
    Pow2Zero();
    LowZero(a, Pow2(w - 1) - 1);
    MaskIsMod(a / 2, w - 1);
    ModUnique(a / 2, Pow2(w - 1), 0, a / 2);
  }

  /** Clearing bit order of a is clearing bit order - 1 of its half. */
  lemma {:induction false} LowHalf(a: nat, order: nat, w: nat)
    requires 0 < order < w && a < Pow2(w)
    ensures a / 2 < Pow2(w - 1) && Pow2(order) == 2 * Pow2(order - 1)
    ensures LowOf(a, order, w) == 2 * LowOf(a / 2, order - 1, w - 1) + a % 2
  {
    hide Pow2, And;
    Pow2Step(w - 1);
    Pow2Step(order - 1);
    Pow2Mono(order - 1, w - 1);
    AndOdd(a, Pow2(w - 1) - 1 - Pow2(order - 1));
  }

  lemma {:induction false} Doubled(a: nat, p: nat, even: bool, low: nat)
    requires low == if even then a / 2 else a / 2 - p
    ensures 2 * low + a % 2 == if even then a else a - 2 * p
  {
  }

  lemma {:induction false} Pow2Zero()
    ensures Pow2(0) == 1
  {
  }

  lemma {:induction false} LowZero(a: nat, m: nat)
    ensures And(a, 2 * m) == 2 * And(a / 2, m)
  {
    hide And;
    assert 2 * m / 2 == m && 2 * m % 2 == 0;
    AndStep(a, 2 * m);
  }

  /** The merged block starts at the lower of the two, which touch each other. */
  lemma {:induction false} BuddiesTouch(a: nat, order: nat, w: nat)
    requires order < w && a < Pow2(w)
    ensures var b, l := BuddyOf(a, order), LowOf(a, order, w);
            (l == a && b == a + Pow2(order)) || (l == b && a == b + Pow2(order))
  {
    BuddyIs(a, order);
    LowIs(a, order, w);
  }
}
