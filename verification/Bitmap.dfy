/**
 The cascaded bitmap allocator: 16-bit leaves under 16-way summary nodes. A set
 bit means "available". `level` 0 is the leaf `BitAlloc16`; `level` n + 1 is
 `BitAllocCascade16` over level n, so 1 is `BitAlloc256` and 5 is `BitAlloc16M`.

 Every operation is stated against one set of naturals, `Free`.
 */
module Bitmap {

  import opened Options

  // ----- arithmetic of the cascade ---------------------------------------

  /** `CAP` of a tree of the given height. */
  function Cap(level: nat): (c: nat)
    ensures c >= 16
  {
    if level == 0 then 16 else 16 * Cap(level - 1)
  }

  /** `k / c` and `k % c`, by repeated subtraction. */
  function Hi(k: nat, c: nat): nat
    requires c > 0
  {
    if k < c then 0 else 1 + Hi(k - c, c)
  }

  function Lo(k: nat, c: nat): (x: nat)
    requires c > 0
    ensures x < c
  {
    if k < c then k else Lo(k - c, c)
  }

  lemma {:induction false} HiLoAreDivMod(k: nat, c: nat)
    requires c > 0
    ensures Hi(k, c) == k / c && Lo(k, c) == k % c
  {
    if k >= c {
      HiLoAreDivMod(k - c, c);
      var q, x := (k - c) / c, (k - c) % c;
      assert k == (q + 1) * c + x;
      DivModUnique(c, q + 1, x, k);
    } else {
      DivModUnique(c, 0, k, k);
    }
  }

  lemma DivModUnique(c: nat, q: nat, x: nat, k: nat)
    requires x < c && k == q * c + x
    ensures k / c == q && k % c == x
  {
    var q', x' := k / c, k % c;
    assert k == q' * c + x';
    assert (q' + 1) * c == q' * c + c && (q + 1) * c == q * c + c;
    if q < q' {
      MulMono(c, q + 1, q');
    } else if q' < q {
      MulMono(c, q' + 1, q);
    }
  }

  /** `i * c`, by repeated addition. */
  function Base(i: nat, c: nat): nat {
    if i == 0 then 0 else c + Base(i - 1, c)
  }

  lemma {:induction false} BaseIsProduct(i: nat, c: nat)
    ensures Base(i, c) == i * c
  {
    if i > 0 {
      BaseIsProduct(i - 1, c);
    }
  }

  ghost function Range(s: nat, e: nat): (r: set<nat>)
    ensures forall k: nat :: k in r <==> s <= k < e
    decreases e
  {
    if s >= e then {} else Range(s, e - 1) + {e - 1}
  }

  /** Splitting an index into (child, index in child) and joining it again. */
  lemma {:induction false} SplitJoin(c: nat, k: nat)
    requires c > 0
    ensures k == Base(Hi(k, c), c) + Lo(k, c)
  {
    if k >= c {
      SplitJoin(c, k - c);
    }
  }

  lemma MulMono(c: nat, a: nat, b: nat)
    requires a <= b
    ensures a * c <= b * c
  {
  }

  lemma {:induction false} BaseMono(c: nat, a: nat, b: nat)
    requires a < b
    ensures Base(a, c) + c <= Base(b, c)
  {
    if a + 1 < b {
      BaseMono(c, a, b - 1);
    }
  }

  lemma {:induction false} JoinSplit(c: nat, i: nat, x: nat)
    requires x < c
    ensures Hi(Base(i, c) + x, c) == i
    ensures Lo(Base(i, c) + x, c) == x
  {
    if i > 0 {
      JoinSplit(c, i - 1, x);
    }
  }

  /** The free set of a node is the disjoint union of its children's, shifted. */
  ghost predicate Joined(free: set<nat>, c: nat, parts: seq<set<nat>>)
    requires c > 0
  {
    && |parts| == 16
    && forall k: nat :: k in free <==> Hi(k, c) < 16 && Lo(k, c) in parts[Hi(k, c)]
  }

  /** The part of `[s, e)` that falls into child `i`, as `for_range` computes it. */
  function SubBegin(s: nat, c: nat, i: nat): nat
    requires c > 0
  {
    if Hi(s, c) == i then Lo(s, c) else 0
  }

  function SubEnd(e: nat, c: nat, i: nat): nat
    requires c > 0
  {
    if Hi(e, c) == i then Lo(e, c) else c
  }

  /** The order of indices is the lexicographic order of their splits. */
  lemma SplitOrder(c: nat, a: nat, b: nat)
    requires c > 0
    ensures a <= b <==> Hi(a, c) < Hi(b, c) || (Hi(a, c) == Hi(b, c) && Lo(a, c) <= Lo(b, c))
  {
    SplitJoin(c, a); SplitJoin(c, b);
    if Hi(a, c) < Hi(b, c) {
      BaseMono(c, Hi(a, c), Hi(b, c));
    } else if Hi(b, c) < Hi(a, c) {
      BaseMono(c, Hi(b, c), Hi(a, c));
    }
  }

  lemma InSubRange(s: nat, e: nat, c: nat, k: nat)
    requires c > 0 && s < e
    requires Hi(s, c) <= Hi(k, c) <= Hi(e - 1, c)
    ensures s <= k < e <==> SubBegin(s, c, Hi(k, c)) <= Lo(k, c) < SubEnd(e, c, Hi(k, c))
  {
    SplitOrder(c, s, k);
    SplitOrder(c, e, k);
    SplitOrder(c, e - 1, e);
  }

  /** An index below `n * c` lies in one of the first `n` children. */
  lemma HiBound(c: nat, k: nat, n: nat)
    requires c > 0
    ensures k < n * c <==> Hi(k, c) < n
  {
    BaseIsProduct(n, c);
    JoinSplit(c, n, 0);
    SplitOrder(c, Base(n, c), k);
  }

  lemma SubRangeBounds(s: nat, e: nat, c: nat, i: nat)
    requires c > 0 && s < e
    requires Hi(s, c) <= i <= Hi(e - 1, c)
    ensures SubBegin(s, c, i) < SubEnd(e, c, i) <= c
  {
    SplitOrder(c, s, e);
    SplitOrder(c, e, s);
    SplitOrder(c, e, e - 1);
  }

  // ----- what each update does to a joined set ----------------------------

  /** Only one index is at position `x` of child `i`. */
  lemma IndexOf(c: nat, i: nat, x: nat, k: nat)
    requires x < c
    ensures k == Base(i, c) + x <==> Hi(k, c) == i && Lo(k, c) == x
  {
    JoinSplit(c, i, x);
    SplitJoin(c, k);
  }

  lemma JoinedRemove(free: set<nat>, c: nat, parts: seq<set<nat>>, i: nat, x: nat)
    requires c > 0 && i < 16 && x < c && Joined(free, c, parts)
    ensures Joined(free - {Base(i, c) + x}, c, parts[i := parts[i] - {x}])
  {
    var free', parts' := free - {Base(i, c) + x}, parts[i := parts[i] - {x}];
    forall k: nat
      ensures k in free' <==> Hi(k, c) < 16 && Lo(k, c) in parts'[Hi(k, c)]
    {
      IndexOf(c, i, x, k);
      assert k in free <==> Hi(k, c) < 16 && Lo(k, c) in parts[Hi(k, c)];
    }
  }

  lemma JoinedAdd(free: set<nat>, c: nat, parts: seq<set<nat>>, i: nat, x: nat)
    requires c > 0 && i < 16 && x < c && Joined(free, c, parts)
    ensures Joined(free + {Base(i, c) + x}, c, parts[i := parts[i] + {x}])
  {
    var free', parts' := free + {Base(i, c) + x}, parts[i := parts[i] + {x}];
    forall k: nat
      ensures k in free' <==> Hi(k, c) < 16 && Lo(k, c) in parts'[Hi(k, c)]
    {
      IndexOf(c, i, x, k);
      assert k in free <==> Hi(k, c) < 16 && Lo(k, c) in parts[Hi(k, c)];
    }
  }

  /** The least index of the first nonempty child is the least index of all. */
  lemma MinJoined(free: set<nat>, c: nat, parts: seq<set<nat>>, i: nat, x: nat)
    requires c > 0 && i < 16 && x < c && Joined(free, c, parts)
    requires forall j :: 0 <= j < i ==> parts[j] == {}
    requires x in parts[i] && forall y :: y in parts[i] ==> x <= y
    ensures Base(i, c) + x in free
    ensures forall k :: k in free ==> Base(i, c) + x <= k
  {
    JoinSplit(c, i, x);
    forall k | k in free
      ensures Base(i, c) + x <= k
    {
      SplitOrder(c, Base(i, c) + x, k);
    }
  }

  /** Where the search for `key` starts in child `i`. */
  function NextFrom(key: nat, c: nat, i: nat): nat
    requires c > 0
  {
    if i == Hi(key, c) then Lo(key, c) else 0
  }

  /** No child in [Hi(key), i) holds an index at or above `key`. */
  ghost predicate NoneBefore(parts: seq<set<nat>>, c: nat, key: nat, i: nat)
    requires c > 0 && |parts| == 16
  {
    forall j, y: nat :: Hi(key, c) <= j < i && j < 16 && y in parts[j] ==> y < NextFrom(key, c, j)
  }

  /** The least free index at or above `key` when the children before `i` have none. */
  lemma NextJoined(free: set<nat>, c: nat, parts: seq<set<nat>>, key: nat, i: nat, x: nat)
    requires c > 0 && Hi(key, c) <= i < 16 && Joined(free, c, parts)
    requires x < c && x in parts[i] && NoneBefore(parts, c, key, i)
    requires NextFrom(key, c, i) <= x && forall y :: y in parts[i] && NextFrom(key, c, i) <= y ==> x <= y
    ensures Base(i, c) + x in free && Base(i, c) + x >= key
    ensures forall k :: k in free && k >= key ==> Base(i, c) + x <= k
  {
    var n := Base(i, c) + x;
    JoinSplit(c, i, x);
    SplitOrder(c, key, n);
    forall k | k in free && k >= key
      ensures n <= k
    {
      SplitOrder(c, key, k);
      SplitOrder(c, n, k);
    }
  }

  lemma NoneJoined(free: set<nat>, c: nat, parts: seq<set<nat>>, key: nat)
    requires c > 0 && Joined(free, c, parts) && NoneBefore(parts, c, key, 16)
    ensures forall k :: k in free ==> k < key
  {
    forall k | k in free
      ensures k < key
    {
      SplitOrder(c, key, k);
    }
  }

  /** Child `j`'s part with its share of [s, e) inserted (or removed). */
  ghost function RangePart(p: set<nat>, s: nat, e: nat, c: nat, j: nat, ins: bool): set<nat>
    requires c > 0
  {
    if ins then p + Range(SubBegin(s, c, j), SubEnd(e, c, j)) else p - Range(SubBegin(s, c, j), SubEnd(e, c, j))
  }

  /** `parts'` is `parts` with the range [s, e) done in the children below `upto`. */
  ghost predicate RangeParts(parts: seq<set<nat>>, parts': seq<set<nat>>, s: nat, e: nat, c: nat, upto: nat, ins: bool)
    requires c > 0 && |parts| == 16 && |parts'| == 16
  {
    forall j :: 0 <= j < 16 ==>
      parts'[j] == if Hi(s, c) <= j < upto then RangePart(parts[j], s, e, c, j, ins) else parts[j]
  }

  lemma RangePartsStep(parts: seq<set<nat>>, parts': seq<set<nat>>, s: nat, e: nat, c: nat, i: nat, ins: bool)
    requires c > 0 && |parts| == 16 && |parts'| == 16 && Hi(s, c) <= i < 16
    requires RangeParts(parts, parts', s, e, c, i, ins)
    ensures RangeParts(parts, parts'[i := RangePart(parts'[i], s, e, c, i, ins)], s, e, c, i + 1, ins)
  {
  }

  lemma JoinedAfterRange(free: set<nat>, c: nat, parts: seq<set<nat>>, parts': seq<set<nat>>, s: nat, e: nat, ins: bool)
    requires c > 0 && s < e <= 16 * c && |parts'| == 16
    requires Joined(free, c, parts)
    requires RangeParts(parts, parts', s, e, c, Hi(e - 1, c) + 1, ins)
    ensures Joined(if ins then free + Range(s, e) else free - Range(s, e), c, parts')
  {
    HiBound(c, e - 1, 16);
    var free' := if ins then free + Range(s, e) else free - Range(s, e);
    forall k: nat
      ensures k in free' <==> Hi(k, c) < 16 && Lo(k, c) in parts'[Hi(k, c)]
    {
      JoinedRangeAt(free, c, parts, parts', s, e, ins, k);
    }
  }

  lemma JoinedRangeAt(free: set<nat>, c: nat, parts: seq<set<nat>>, parts': seq<set<nat>>, s: nat, e: nat, ins: bool, k: nat)
    requires c > 0 && s < e && Hi(e - 1, c) < 16 && |parts'| == 16
    requires Joined(free, c, parts)
    requires RangeParts(parts, parts', s, e, c, Hi(e - 1, c) + 1, ins)
    ensures (if ins then k in free || s <= k < e else k in free && !(s <= k < e)) <==>
      Hi(k, c) < 16 && Lo(k, c) in parts'[Hi(k, c)]
  {
    var i, x := Hi(k, c), Lo(k, c);
    InSomeSubRange(s, e, c, k);
    assert k in free <==> i < 16 && x in parts[i];
    if i < 16 {
      assert parts'[i] == if Hi(s, c) <= i < Hi(e - 1, c) + 1 then RangePart(parts[i], s, e, c, i, ins) else parts[i];
    }
  }

  lemma InSomeSubRange(s: nat, e: nat, c: nat, k: nat)
    requires c > 0 && s < e
    ensures s <= k < e <==>
      && Hi(s, c) <= Hi(k, c) <= Hi(e - 1, c)
      && Lo(k, c) in Range(SubBegin(s, c, Hi(k, c)), SubEnd(e, c, Hi(k, c)))
  {
    if Hi(s, c) <= Hi(k, c) <= Hi(e - 1, c) {
      InSubRange(s, e, c, k);
    } else {
      SplitOrder(c, s, k);
      SplitOrder(c, k, e - 1);
    }
  }

  // ----- contiguous blocks in a set ----------------------------------------

  /** `size` available indices starting at the aligned index `b`. */
  ghost predicate Fits(free: set<nat>, cap: nat, b: nat, size: nat, align: nat)
    requires align > 0
  {
    && b % align == 0
    && b + size <= cap
    && forall k: nat :: b <= k < b + size ==> k in free
  }

  ghost predicate NoFitBelow(free: set<nat>, cap: nat, size: nat, align: nat, lim: nat)
    requires align > 0
  {
    forall b: nat :: b < lim ==> !Fits(free, cap, b, size, align)
  }

  /** No block fits anywhere. */
  ghost predicate NoFit(free: set<nat>, cap: nat, size: nat, align: nat)
    requires align > 0
  {
    forall b: nat :: !Fits(free, cap, b, size, align)
  }

  /** No block that meets the gap `[offset, next)` starts before the gap's end. */
  lemma SkipGap(free: set<nat>, cap: nat, base: nat, offset: nat, next: nat, size: nat, align: nat)
    requires align > 0 && base <= offset < next
    requires forall k :: k in free && k >= offset ==> next <= k
    requires offset - base < size && NoFitBelow(free, cap, size, align, base)
    ensures NoFitBelow(free, cap, size, align, ((next - 1) / align + 1) * align)
  {
    AlignUp(next, align);
    forall b: nat | b < ((next - 1) / align + 1) * align
      ensures !Fits(free, cap, b, size, align)
    {
      if base <= b && b % align == 0 {
        var k := if b <= offset then offset else b;
        assert k !in free && b <= k < b + size;
      }
    }
  }

  /** When everything from `offset` on is taken, or out of bounds, nothing fits. */
  lemma NothingLeft(free: set<nat>, cap: nat, base: nat, offset: nat, size: nat, align: nat)
    requires align > 0 && base <= offset < base + size && NoFitBelow(free, cap, size, align, base)
    requires (forall k :: k in free ==> k < offset) || offset >= cap
    ensures NoFit(free, cap, size, align)
  {
    forall b: nat
      ensures !Fits(free, cap, b, size, align)
    {
      if base <= b {
        var k := if b <= offset then offset else b;
        assert b <= k < b + size;
        assert k !in free || offset >= cap;
      }
    }
  }

  /** `trailing_zeros` of a 16-bit word. */
  function TrailingZeros(w: seq<bool>, from: nat := 0): (i: nat)
    requires from <= |w|
    ensures from <= i <= |w|
    ensures i < |w| ==> w[i]
    ensures forall j :: from <= j < i ==> !w[j]
    decreases |w| - from
  {
    if from == |w| || w[from] then from else TrailingZeros(w, from + 1)
  }

  function Pow2(n: nat): (p: nat)
    ensures p > 0
  {
    if n == 0 then 1 else 2 * Pow2(n - 1)
  }

  /** `(((n - 1) >> a) + 1) << a` is the least aligned index at or above `n`. */
  lemma AlignUp(n: nat, align: nat)
    requires n > 0 && align > 0
    ensures ((n - 1) / align + 1) * align >= n
    ensures ((n - 1) / align + 1) * align % align == 0
    ensures forall b: nat :: b % align == 0 && b < ((n - 1) / align + 1) * align ==> b < n
  {
    HiLoAreDivMod(n - 1, align);
    var q := Hi(n - 1, align) + 1;
    var up := Base(q, align);
    BaseIsProduct(q, align);
    JoinSplit(align, q, 0);
    HiLoAreDivMod(up, align);
    SplitOrder(align, n - 1, up);
    forall b: nat | b % align == 0 && b < up
      ensures b < n
    {
      HiLoAreDivMod(b, align);
      SplitOrder(align, up, b);
      SplitOrder(align, b, n - 1);
    }
  }

  // ----- the allocator ------------------------------------------------------

  class BitAlloc {
    const level: nat
    const sub: seq<BitAlloc>
    ghost const Repr: set<object>

    var bitset: seq<bool>
    /** The indices currently available. */
    ghost var Free: set<nat>
    ghost var parts: seq<set<nat>>

    /** The tree's immutable shape: sixteen separate subtrees of equal height. */
    ghost predicate Shape()
      decreases level
    {
      && this in Repr
      && (level == 0 ==> sub == [] && Repr == {this})
      && (level > 0 ==>
            && |sub| == 16
            && (forall i :: 0 <= i < 16 ==>
                  && sub[i] in Repr
                  && sub[i].level == level - 1
                  && sub[i].Repr <= Repr
                  && this !in sub[i].Repr
                  && sub[i].Shape())
            && (forall i, j :: 0 <= i < j < 16 ==> sub[i].Repr !! sub[j].Repr))
    }

    ghost predicate Valid()
      reads this, Repr
      decreases level, 2
    {
      && Shape()
      && |bitset| == 16
      && (level == 0 ==> forall k: nat :: k in Free <==> k < 16 && bitset[k])
      && (level > 0 ==> SubsValid() && Summary() && Joined(Free, Cap(level - 1), parts))
    }

    ghost predicate SubsValid()
      requires Shape() && level > 0
      reads this, Repr
      decreases level, 0
    {
      forall i :: 0 <= i < 16 ==> sub[i].Valid()
    }

    /** Each summary bit is set exactly when its child has a free index. */
    ghost predicate Summary()
      requires Shape() && level > 0 && |bitset| == 16
      reads this, Repr
    {
      && |parts| == 16
      && forall i :: 0 <= i < 16 ==> Agrees(i)
    }

    ghost predicate Agrees(i: nat)
      requires Shape() && level > 0 && i < 16 && |bitset| == 16 && |parts| == 16
      reads this, Repr
    {
      sub[i].Free == parts[i] && (bitset[i] <==> parts[i] != {})
    }

    /** Work on one child leaves its siblings alone. */
    twostate lemma SiblingsKept(i: nat)
      requires Shape() && level > 0 && i < 16
      requires old(SubsValid())
      requires sub[i].Valid()
      requires forall o: object :: o in Repr && o !in sub[i].Repr ==> unchanged(o)
      ensures SubsValid()
    {
      forall j | 0 <= j < 16 && j != i
        ensures sub[j].Valid() == true
      {
        assert sub[i].Repr !! sub[j].Repr;
        assert old(sub[j].Valid());
        assert forall o: object :: o in sub[j].Repr ==> unchanged(o);
      }
    }

    twostate lemma SiblingsAgree(i: nat)
      requires Shape() && level > 0 && i < 16 && old(|bitset|) == 16
      requires old(Summary())
      requires forall o: object :: o in Repr && o !in sub[i].Repr ==> unchanged(o)
      ensures |bitset| == 16 && |parts| == 16
      ensures parts == old(parts) && bitset == old(bitset) && Free == old(Free)
      ensures forall j :: 0 <= j < 16 && j != i ==> Agrees(j)
    {
      assert this !in sub[i].Repr;
      forall j | 0 <= j < 16 && j != i
        ensures Agrees(j)
      {
        assert sub[i].Repr !! sub[j].Repr;
        assert sub[j].Shape();
        assert old(Agrees(j));
      }
    }

    /** `bitset.set_bit(i, b)`, after work on child `i`. */
    method SetBit(i: nat, b: bool)
      requires Shape() && level > 0 && i < 16 && SubsValid()
      requires |bitset| == 16 && |parts| == 16
      requires forall j :: 0 <= j < 16 && j != i ==> Agrees(j)
      requires b <==> sub[i].Free != {}
      modifies this`bitset, this`parts
      ensures |bitset| == 16 && SubsValid() && Summary()
      ensures parts == old(parts)[i := old(sub[i].Free)]
    {
      bitset := bitset[i := b];
      parts := parts[i := sub[i].Free];
      forall j | 0 <= j < 16
        ensures sub[j].Valid() == true && Agrees(j)
      {
        assert this !in sub[j].Repr;
        assert old(sub[j].Valid());
        if j != i {
          assert old(Agrees(j));
        }
      }
    }

    /** Recording the new free set of this node does not touch its children. */
    ghost method SetFree(f: set<nat>)
      requires Shape() && level > 0 && |bitset| == 16 && SubsValid() && Summary()
      modifies this`Free
      ensures Free == f && SubsValid() && Summary()
    {
      Free := f;
      forall j | 0 <= j < 16
        ensures sub[j].Valid() == true && Agrees(j)
      {
        assert this !in sub[j].Repr;
        assert old(sub[j].Valid());
        assert old(Agrees(j));
      }
    }

    /** `DEFAULT`: nothing is available. */
    constructor (level: nat)
      ensures Valid() && fresh(Repr)
      ensures this.level == level && Free == {}
      decreases level
    {
      this.level := level;
      bitset := seq(16, i => false);
      Free := {};
      parts := seq(16, i => {});
      if level == 0 {
        sub := [];
        Repr := {this};
      } else {
        var s: seq<BitAlloc> := [];
        ghost var r: set<object> := {};
        while |s| < 16
          invariant |s| <= 16
          invariant forall i :: 0 <= i < |s| ==>
            && s[i].Valid() && s[i].level == level - 1 && s[i].Free == {}
            && fresh(s[i].Repr) && s[i].Repr <= r
          invariant fresh(r)
          invariant forall i, j :: 0 <= i < j < |s| ==> s[i].Repr !! s[j].Repr
        {
          var t := new BitAlloc(level - 1);
          s := s + [t];
          r := r + t.Repr;
        }
        sub := s;
        Repr := {this} + r;
      }
    }

    lemma FreeBelowCap()
      requires Valid()
      ensures forall k :: k in Free ==> k < Cap(level)
      decreases level
    {
      if level > 0 {
        var c := Cap(level - 1);
        forall k | k in Free
          ensures k < Cap(level)
        {
          assert Agrees(Hi(k, c));
          sub[Hi(k, c)].FreeBelowCap();
          HiBound(c, k, 16);
        }
      }
    }

    /** A word is zero exactly when nothing is available below it. */
    method IsEmpty() returns (b: bool)
      requires Valid()
      ensures b <==> Free == {}
    {
      var z := TrailingZeros(bitset);
      if level > 0 && Free != {} {
        FirstChild(z);
      }
      if z < 16 {
        if level == 0 {
          assert z in Free;
        } else {
          NonEmptyChild(z);
        }
      }
      b := z == 16;
    }

    lemma NonEmptyChild(i: nat)
      requires Valid() && level > 0 && i < 16 && bitset[i]
      ensures Free != {}
    {
      assert Agrees(i);
      var x :| x in parts[i];
      var c := Cap(level - 1);
      sub[i].FreeBelowCap();
      JoinSplit(c, i, x);
      assert Base(i, c) + x in Free;
    }

    method Test(key: nat) returns (b: bool)
      requires Valid() && key < Cap(level)
      ensures b <==> key in Free
      decreases level
    {
      if level == 0 {
        b := bitset[key];
      } else {
        var c := Cap(level - 1);
        HiBound(c, key, 16);
        HiLoAreDivMod(key, c);
        assert Agrees(key / c);
        b := sub[key / c].Test(key % c);
      }
    }

    /** `alloc` hands out the least available index, and the inner `unwrap` never fails. */
    method Alloc() returns (r: Option<nat>)
      requires Valid()
      modifies Repr
      ensures Valid()
      ensures old(Free) == {} <==> r.None?
      ensures r.None? ==> Free == old(Free)
      ensures r.Some? ==>
        && r.value in old(Free)
        && (forall k :: k in old(Free) ==> r.value <= k)
        && Free == old(Free) - {r.value}
      decreases level, 2
    {
      if level == 0 {
        var i := TrailingZeros(bitset);
        if i < 16 {
          bitset := bitset[i := false];
          Free := Free - {i};
          return Some(i);
        }
        return None;
      }
      var empty := IsEmpty();
      if empty {
        return None;
      }
      var x := AllocInChild();
      r := Some(x);
    }

    /** The nonempty branch of the cascade's `alloc`. */
    method AllocInChild() returns (x: nat)
      requires Valid() && level > 0 && Free != {}
      modifies Repr
      ensures Valid()
      ensures x in old(Free) && forall k :: k in old(Free) ==> x <= k
      ensures Free == old(Free) - {x}
      decreases level, 1
    {
      var c := Cap(level - 1);
      var i := TrailingZeros(bitset);
      FirstChild(i);
      var t := TakeFrom(i);
      MinJoined(Free, c, old(parts), i, t);
      JoinedRemove(Free, c, old(parts), i, t);
      BaseIsProduct(i, c);
      x := t + i * c;
      SetFree(Free - {x});
    }

    /** Allocation in child `i`, with its summary bit brought up to date. */
    method TakeFrom(i: nat) returns (t: nat)
      requires Shape() && level > 0 && |bitset| == 16 && SubsValid() && Summary() && i < 16 && parts[i] != {}
      modifies Repr
      ensures |bitset| == 16 && SubsValid() && Summary() && Free == old(Free)
      ensures t in old(parts[i]) && (forall k :: k in old(parts[i]) ==> t <= k)
      ensures parts == old(parts)[i := old(parts[i]) - {t}]
      decreases level, 0
    {
      assert Agrees(i);
      var r := sub[i].Alloc();
      t := r.value;
      SiblingsKept(i);
      SiblingsAgree(i);
      var empty := sub[i].IsEmpty();
      SetBit(i, !empty);
    }

    lemma FirstChild(i: nat)
      requires Valid() && level > 0 && Free != {} && i == TrailingZeros(bitset)
      ensures i < 16 && parts[i] != {}
      ensures forall j :: 0 <= j < i ==> parts[j] == {}
      ensures forall x :: x in parts[i] ==> x < Cap(level - 1)
    {
      var k :| k in Free;
      assert Agrees(Hi(k, Cap(level - 1)));
      forall j | 0 <= j < i
        ensures parts[j] == {}
      {
        assert Agrees(j);
      }
      assert Agrees(i);
      sub[i].FreeBelowCap();
    }

    /** `dealloc`; the leaf's assertion demands that the index is not free yet. */
    method Dealloc(key: nat)
      requires Valid() && key < Cap(level) && key !in Free
      modifies Repr
      ensures Valid()
      ensures Free == old(Free) + {key}
      decreases level, 1
    {
      if level == 0 {
        bitset := bitset[key := true];
        Free := Free + {key};
      } else {
        DeallocInChild(key);
      }
    }

    method DeallocInChild(key: nat)
      requires Valid() && level > 0 && key < Cap(level) && key !in Free
      modifies Repr
      ensures Valid()
      ensures Free == old(Free) + {key}
      decreases level, 0
    {
      var c := Cap(level - 1);
      HiBound(c, key, 16);
      HiLoAreDivMod(key, c);
      SplitJoin(c, key);
      var i := key / c;
      assert Agrees(i);
      sub[i].Dealloc(key % c);
      SiblingsKept(i);
      SiblingsAgree(i);
      SetBit(i, true);
      JoinedAdd(Free, c, old(parts), i, key % c);
      SetFree(Free + {key});
    }

    /** `insert` (`ins`) and `remove` are the same walk, `for_range`. */
    method ForRange(start: nat, end: nat, ins: bool)
      requires Valid() && start < end <= Cap(level)
      modifies Repr
      ensures Valid()
      ensures Free == if ins then old(Free) + Range(start, end) else old(Free) - Range(start, end)
      decreases level, 1
    {
      if level == 0 {
        SetBits(start, end, ins);
      } else {
        ForChildren(start, end, ins);
      }
    }

    /** The leaf's `set_bits` over a range. */
    method SetBits(start: nat, end: nat, ins: bool)
      requires Valid() && level == 0 && start < end <= 16
      modifies this
      ensures Valid()
      ensures Free == if ins then old(Free) + Range(start, end) else old(Free) - Range(start, end)
    {
      var w := bitset;
      bitset := seq(16, k requires 0 <= k < 16 && |w| == 16 => if start <= k < end then ins else w[k]);
      Free := if ins then Free + Range(start, end) else Free - Range(start, end);
    }

    method ForChildren(start: nat, end: nat, ins: bool)
      requires Valid() && level > 0 && start < end <= Cap(level)
      modifies Repr
      ensures Valid()
      ensures Free == if ins then old(Free) + Range(start, end) else old(Free) - Range(start, end)
      decreases level, 0
    {
      var c := Cap(level - 1);
      HiBound(c, end - 1, 16);
      SplitOrder(c, start, end - 1);
      HiLoAreDivMod(start, c);
      HiLoAreDivMod(end - 1, c);
      WalkChildren(start, end, ins, start / c, (end - 1) / c);
      JoinedAfterRange(Free, c, old(parts), parts, start, end, ins);
      SetFree(if ins then Free + Range(start, end) else Free - Range(start, end));
    }

    /** The loop of `for_range`, over the children `first` to `last`. */
    method WalkChildren(start: nat, end: nat, ins: bool, first: nat, last: nat)
      requires Shape() && level > 0 && |bitset| == 16 && SubsValid() && Summary() && start < end
      requires first == Hi(start, Cap(level - 1)) <= last == Hi(end - 1, Cap(level - 1)) < 16
      modifies Repr
      ensures |bitset| == 16 && SubsValid() && Summary() && Free == old(Free)
      ensures RangeParts(old(parts), parts, start, end, Cap(level - 1), last + 1, ins)
      decreases level - 1, 3
    {
      var c := Cap(level - 1);
      var i := first;
      while i <= last
        invariant first <= i <= last + 1
        invariant |bitset| == 16 && SubsValid() && Summary() && Free == old(Free)
        invariant RangeParts(old(parts), parts, start, end, c, i, ins)
      {
        SubRangeBounds(start, end, c, i);
        RangePartsStep(old(parts), parts, start, end, c, i, ins);
        ForChild(i, SubBegin(start, c, i), SubEnd(end, c, i), ins);
        i := i + 1;
      }
    }

    method ForChild(i: nat, b: nat, e: nat, ins: bool)
      requires Shape() && level > 0 && |bitset| == 16 && SubsValid() && Summary()
      requires i < 16 && b < e <= Cap(level - 1)
      modifies Repr
      ensures |bitset| == 16 && SubsValid() && Summary() && Free == old(Free)
      ensures parts == old(parts)[i := if ins then old(parts[i]) + Range(b, e) else old(parts[i]) - Range(b, e)]
      decreases level - 1, 2
    {
      assert Agrees(i);
      sub[i].ForRange(b, e, ins);
      SiblingsKept(i);
      var empty := sub[i].IsEmpty();
      SiblingsAgree(i);
      SetBit(i, !empty);
    }

    /** `next`: the least available index that is not below `key`. */
    method Next(key: nat) returns (r: Option<nat>)
      requires Valid()
      ensures r.Some? ==> r.value in Free && r.value >= key && forall k :: k in Free && k >= key ==> r.value <= k
      ensures r.None? ==> forall k :: k in Free ==> k < key
      decreases level
    {
      if level == 0 {
        if key >= 16 {
          return None;
        }
        var i := TrailingZeros(bitset, key);
        return if i < 16 then Some(i) else None;
      }
      var c := Cap(level - 1);
      HiLoAreDivMod(key, c);
      var i := key / c;
      while i < 16
        invariant Hi(key, c) <= i && NoneBefore(parts, c, key, i)
      {
        assert Agrees(i);
        if bitset[i] {
          var t := sub[i].Next(NextFrom(key, c, i));
          if t.Some? {
            sub[i].FreeBelowCap();
            NextJoined(Free, c, parts, key, i, t.value);
            BaseIsProduct(i, c);
            return Some(t.value + c * i);
          }
        }
        i := i + 1;
      }
      NoneJoined(Free, c, parts, key);
      return None;
    }

    /** `find_contiguous`: first fit among the aligned bases. */
    method FindContiguous(size: nat, alignLog2: nat) returns (r: Option<nat>)
      requires Valid()
      ensures r.Some? ==>
        && size > 0
        && Cap(level) >= Pow2(alignLog2)
        && Fits(Free, Cap(level), r.value, size, Pow2(alignLog2))
        && NoFitBelow(Free, Cap(level), size, Pow2(alignLog2), r.value)
      ensures r.None? ==>
        || size == 0
        || Cap(level) < Pow2(alignLog2)
        || NoFit(Free, Cap(level), size, Pow2(alignLog2))
    {
      var capacity := Cap(level);
      var align := Pow2(alignLog2);
      FreeBelowCap();
      var empty := IsEmpty();
      if capacity < align || empty {
        if size > 0 && empty {
          NothingLeft(Free, capacity, 0, 0, size, align);
        }
        return None;
      }
      var base: nat, offset: nat := 0, 0;
      while offset < capacity
        invariant base <= offset && base % align == 0
        invariant size > 0 ==> offset - base < size
        invariant forall k: nat :: base <= k < offset ==> k in Free
        invariant NoFitBelow(Free, capacity, size, align, base) || size == 0
        decreases capacity - offset
      {
        var n := Next(offset);
        if n.None? {
          if size > 0 {
            NothingLeft(Free, capacity, base, offset, size, align);
          }
          return None;
        }
        if n.value != offset {
          AlignUp(n.value, align);
          if size > 0 {
            SkipGap(Free, capacity, base, offset, n.value, size, align);
          }
          base := ((n.value - 1) / align + 1) * align;
          offset := base;
        } else {
          offset := offset + 1;
          if offset - base == size {
            return Some(base);
          }
        }
      }
      if size > 0 {
        NothingLeft(Free, capacity, base, offset, size, align);
      }
      return None;
    }

    /** `alloc_contiguous` takes exactly the block that first fit finds. */
    method AllocContiguous(size: nat, alignLog2: nat) returns (r: Option<nat>)
      requires Valid()
      modifies Repr
      ensures Valid()
      ensures r.Some? ==>
        && size > 0
        && Fits(old(Free), Cap(level), r.value, size, Pow2(alignLog2))
        && NoFitBelow(old(Free), Cap(level), size, Pow2(alignLog2), r.value)
        && Free == old(Free) - Range(r.value, r.value + size)
      ensures r.None? ==>
        && Free == old(Free)
        && (size == 0 || Cap(level) < Pow2(alignLog2) || NoFit(Free, Cap(level), size, Pow2(alignLog2)))
    {
      r := FindContiguous(size, alignLog2);
      if r.Some? {
        ForRange(r.value, r.value + size, false);
      }
    }
  }
}
