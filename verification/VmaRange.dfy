/**
 Segments of one address space and the range edits `unmap` and `mprotect`. A
 segment is a byte interval with its own page map; `segments` is keyed by start
 and `pt` is the flat page table. All segments here are of the framed kind.
 */
module VmaRange {
  import opened Bitmap
  import opened Options
  import opened Sv39
  import opened PT = PageTable
  import opened Cow

  /** `align_down` and `align_up`. */
  function AlignDown(a: nat): nat {
    a / PAGE_SIZE * PAGE_SIZE
  }

  function AlignPageUp(a: nat): nat {
    (a + PAGE_SIZE - 1) / PAGE_SIZE * PAGE_SIZE
  }

  predicate Aligned(a: nat) {
    a % PAGE_SIZE == 0
  }

  function Vpn(a: nat): nat {
    a / PAGE_SIZE
  }

  /** A segment: `[start, end)` in bytes. */
  datatype Seg = Seg(start: nat, end: nat, perm: Perm, pages: map<nat, nat>)

  predicate Has(s: Seg, v: nat) {
    Vpn(s.start) <= v < Vpn(s.end)
  }

  predicate Within(s: Seg, x: nat) {
    s.start <= x < s.end
  }

  predicate Overlaps(s: Seg, start: nat, end: nat) {
    !(end <= s.start || start >= s.end)
  }

  ghost predicate SegOk(s: Seg) {
    && Aligned(s.start) && Aligned(s.end) && s.start <= s.end
    && forall v :: v in s.pages ==> Has(s, v)
  }

  // ----- splitting --------------------------------------------------------------

  /** `split` moves the pages of the right part one by one and unwraps each. */
  ghost predicate CanSplit(s: Seg, pos: nat) {
    forall v: nat :: Vpn(pos) <= v < Vpn(s.end) ==> v in s.pages
  }

  ghost function LeftOf(s: Seg, pos: nat): Seg {
    s.(end := pos, pages := s.pages - Range(Vpn(pos), Vpn(s.end)))
  }

  ghost function RightOf(s: Seg, pos: nat): Seg {
    s.(start := pos, pages := s.pages - (s.pages.Keys - Range(Vpn(pos), Vpn(s.end))))
  }

  lemma SplitOk(s: Seg, pos: nat)
    requires SegOk(s) && Aligned(pos) && s.start < pos < s.end
    ensures SegOk(LeftOf(s, pos)) && SegOk(RightOf(s, pos))
    ensures forall v :: v in s.pages <==> v in LeftOf(s, pos).pages || v in RightOf(s, pos).pages
    ensures forall v :: v in LeftOf(s, pos).pages ==> LeftOf(s, pos).pages[v] == s.pages[v]
    ensures forall v :: v in RightOf(s, pos).pages ==> RightOf(s, pos).pages[v] == s.pages[v]
    ensures forall v: nat :: Has(s, v) <==> Has(LeftOf(s, pos), v) || Has(RightOf(s, pos), v)
    ensures forall v: nat :: !(Has(LeftOf(s, pos), v) && Has(RightOf(s, pos), v))
  {
  }

  // ----- unmap of one segment ------------------------------------------------------

  /** The residency that the splits of `unmap_if_overlap` demand. */
  ghost predicate CanCut(s: Seg, a: nat, b: nat) {
    if a <= s.start then b < s.end ==> CanSplit(s, b) else CanSplit(s, a)
  }

  /**
   `unmap_if_overlap` on an overlapping segment, with `[a, b)` already rounded:
   what is left in the segment's place, and the piece split off to the right.
   */
  ghost function CutStay(s: Seg, a: nat, b: nat): Seg {
    if a <= s.start then
      if b < s.end then RightOf(s, b) else s.(pages := s.pages - Range(Vpn(s.start), Vpn(s.end)))
    else if b < s.end then LeftOf(LeftOf(s, b), a)
    else LeftOf(s, a)
  }

  ghost function CutRight(s: Seg, a: nat, b: nat): Option<Seg> {
    if s.start < a && b < s.end then Some(RightOf(s, b)) else None
  }

  /** The removed page numbers. */
  function CutFrom(s: Seg, a: nat): nat {
    Vpn(if a <= s.start then s.start else a)
  }

  function CutTo(s: Seg, b: nat): nat {
    Vpn(if b < s.end then b else s.end)
  }

  /** Some piece of the cut segment owns the page `g` at `v`. */
  ghost predicate OwnsIn(s: Seg, v: nat, g: nat) {
    v in s.pages && s.pages[v] == g
  }

  ghost predicate CutOwns(s: Seg, a: nat, b: nat, v: nat, g: nat) {
    || OwnsIn(CutStay(s, a, b), v, g)
    || (CutRight(s, a, b).Some? && OwnsIn(CutRight(s, a, b).value, v, g))
  }

  /** The surviving pieces own exactly the segment's pages outside the cut. */
  lemma CutPages(s: Seg, a: nat, b: nat, v: nat, g: nat)
    requires SegOk(s) && Aligned(a) && Aligned(b) && Overlaps(s, a, b)
    ensures CutOwns(s, a, b, v, g) <==> OwnsIn(s, v, g) && !(Vpn(a) <= v < Vpn(b))
  {
  }

  /** In the cut cases the pieces partition the old interval minus the cut and own only their own pages. */
  lemma CutPartition(s: Seg, a: nat, b: nat)
    requires SegOk(s) && Aligned(a) && Aligned(b) && Overlaps(s, a, b)
    requires a < b && (s.start < a || b < s.end)
    ensures SegOk(CutStay(s, a, b))
    ensures CutRight(s, a, b).Some? ==> SegOk(CutRight(s, a, b).value)
    ensures forall x: nat :: Within(s, x) && !(a <= x < b) <==>
      Within(CutStay(s, a, b), x) || (CutRight(s, a, b).Some? && Within(CutRight(s, a, b).value, x))
    ensures CutRight(s, a, b).Some? ==> CutStay(s, a, b).end <= CutRight(s, a, b).value.start
    ensures CutStay(s, a, b).perm == s.perm && (CutRight(s, a, b).Some? ==> CutRight(s, a, b).value.perm == s.perm)
  {
    if a <= s.start {
      SplitOk(s, b);
    } else if b < s.end {
      SplitOk(s, b);
      SplitOk(LeftOf(s, b), a);
    } else {
      SplitOk(s, a);
    }
  }

  // ----- unmap -------------------------------------------------------------------

  datatype Area = Area(segments: map<nat, Seg>, pt: map<nat, Entry>)

  /** Segments are keyed by their start, page-aligned and pairwise disjoint. */
  ghost predicate AreaOk(m: Area) {
    && (forall k :: k in m.segments ==> SegOk(m.segments[k]) && m.segments[k].start == k)
    && (forall j, k :: j in m.segments && k in m.segments && j < k ==> m.segments[j].end <= k)
  }

  /**
   What the loader builds: the segments of the program, the stack, and a heap at `h` with
   nothing in it yet.
   */
  lemma LoadedArea(m: Area, h: nat, perm: Perm)
    requires AreaOk(m) && Aligned(h) && h !in m.segments
    requires forall k :: k in m.segments ==> m.segments[k].end <= h || h < k
    ensures AreaOk(m.(segments := m.segments[h := Seg(h, h, perm, map[])]))
  {
    assert forall k :: k in m.segments ==> SegOk(m.segments[k]);
  }

  /** One round of the second loop of `unmap`. */
  ghost function UnmapOne(m: Area, k: nat, a: nat, b: nat): Area
    requires k in m.segments
  {
    var s := m.segments[k];
    var put := m.segments[k := CutStay(s, a, b)];
    Area(if CutRight(s, a, b).Some? then put[CutRight(s, a, b).value.start := CutRight(s, a, b).value] else put,
         m.pt - Range(CutFrom(s, a), CutTo(s, b)))
  }

  ghost function UnmapKeys(m: Area, ks: seq<nat>, a: nat, b: nat): Area
    decreases |ks|
  {
    if ks == [] then m
    else if ks[0] !in m.segments then UnmapKeys(m, ks[1..], a, b)
    else UnmapKeys(UnmapOne(m, ks[0], a, b), ks[1..], a, b)
  }

  /** The page `g` is held for page number `v` by some segment. */
  ghost predicate Owns(m: Area, v: nat, g: nat) {
    exists k :: k in m.segments && OwnsIn(m.segments[k], v, g)
  }

  /** A segment of `m` once the keys in `done` are processed. */
  ghost function SegAfter(m: Area, done: set<nat>, a: nat, b: nat, k: nat): Seg
    requires k in m.segments
  {
    if k in done then CutStay(m.segments[k], a, b) else m.segments[k]
  }

  /** The processed segment that `[a, b)` splits in two, whose right part goes under the new key `b`. */
  ghost predicate SplitsAt(m: Area, done: set<nat>, a: nat, b: nat, j: nat) {
    j in done && j in m.segments && CutRight(m.segments[j], a, b).Some?
  }

  /** `m'` is `m` with the keys in `done` processed. */
  ghost predicate SegsAfter(m: Area, m': Area, done: set<nat>, a: nat, b: nat) {
    && (forall k :: k in m.segments ==> k in m'.segments && m'.segments[k] == SegAfter(m, done, a, b, k))
    && (forall k :: k in m'.segments && k !in m.segments ==> k == b && exists j :: SplitsAt(m, done, a, b, j))
    && (forall j :: SplitsAt(m, done, a, b, j) ==>
          b !in m.segments && b in m'.segments && m'.segments[b] == CutRight(m.segments[j], a, b).value)
  }

  ghost predicate Cleared(m: Area, done: set<nat>, a: nat, b: nat, v: nat) {
    exists j :: j in done && j in m.segments && CutFrom(m.segments[j], a) <= v < CutTo(m.segments[j], b)
  }

  ghost predicate PtAfter(m: Area, m': Area, done: set<nat>, a: nat, b: nat) {
    && (forall v :: v in m'.pt <==> v in m.pt && !Cleared(m, done, a, b, v))
    && (forall v :: v in m'.pt ==> m'.pt[v] == m.pt[v])
  }

  ghost predicate GoodRange(a: nat, b: nat) {
    a < b && Aligned(a) && Aligned(b)
  }

  /** At most one segment is split in two, and no other starts at the cut's end. */
  lemma OneSplit(m: Area, a: nat, b: nat, j: nat)
    requires AreaOk(m) && GoodRange(a, b) && j in m.segments && CutRight(m.segments[j], a, b).Some?
    ensures b !in m.segments
    ensures forall k :: k in m.segments && CutRight(m.segments[k], a, b).Some? ==> k == j
  {
  }

  lemma StepSegs(m: Area, m1: Area, done: set<nat>, a: nat, b: nat, k: nat)
    requires AreaOk(m) && GoodRange(a, b) && SegsAfter(m, m1, done, a, b)
    requires k in m.segments && k !in done
    ensures k in m1.segments && SegsAfter(m, UnmapOne(m1, k, a, b), done + {k}, a, b)
  {
    assert m1.segments[k] == m.segments[k];
    if CutRight(m.segments[k], a, b).Some? {
      StepSplit(m, m1, done, a, b, k);
    } else {
      StepNoSplit(m, m1, done, a, b, k);
    }
  }

  lemma StepSplit(m: Area, m1: Area, done: set<nat>, a: nat, b: nat, k: nat)
    requires AreaOk(m) && GoodRange(a, b) && SegsAfter(m, m1, done, a, b)
    requires k in m.segments && k !in done && k in m1.segments && m1.segments[k] == m.segments[k]
    requires CutRight(m.segments[k], a, b).Some?
    ensures SegsAfter(m, UnmapOne(m1, k, a, b), done + {k}, a, b)
  {
    OneSplit(m, a, b, k);
    assert SplitsAt(m, done + {k}, a, b, k);
    assert forall j :: SplitsAt(m, done + {k}, a, b, j) ==> j == k;
    SplitPuts(m, m1, done, a, b, k);
  }

  lemma SplitPuts(m: Area, m1: Area, done: set<nat>, a: nat, b: nat, k: nat)
    requires SegsAfter(m, m1, done, a, b) && k in m.segments && k !in done && m1.segments[k] == m.segments[k]
    requires CutRight(m.segments[k], a, b).Some? && b !in m.segments
    ensures var m2 := UnmapOne(m1, k, a, b);
      && (forall j :: j in m.segments ==> j in m2.segments && m2.segments[j] == SegAfter(m, done + {k}, a, b, j))
      && (forall j :: j in m2.segments && j !in m.segments ==> j == b)
      && b in m2.segments && m2.segments[b] == CutRight(m.segments[k], a, b).value
  {
  }

  lemma StepNoSplit(m: Area, m1: Area, done: set<nat>, a: nat, b: nat, k: nat)
    requires SegsAfter(m, m1, done, a, b)
    requires k in m.segments && k !in done && k in m1.segments && m1.segments[k] == m.segments[k]
    requires CutRight(m.segments[k], a, b).None?
    ensures SegsAfter(m, UnmapOne(m1, k, a, b), done + {k}, a, b)
  {
    var m2 := UnmapOne(m1, k, a, b);
    assert forall j :: SplitsAt(m, done + {k}, a, b, j) <==> SplitsAt(m, done, a, b, j);
    forall j | j in m2.segments && j !in m.segments
      ensures j == b && exists i :: SplitsAt(m, done + {k}, a, b, i)
    {
      var i :| SplitsAt(m, done, a, b, i);
      assert SplitsAt(m, done + {k}, a, b, i);
    }
  }

  lemma StepPt(m: Area, m1: Area, done: set<nat>, a: nat, b: nat, k: nat)
    requires SegsAfter(m, m1, done, a, b) && PtAfter(m, m1, done, a, b) && k in m.segments && k !in done
    ensures k in m1.segments && PtAfter(m, UnmapOne(m1, k, a, b), done + {k}, a, b)
  {
    var s := m.segments[k];
    assert m1.segments[k] == s;
    forall v: nat
      ensures Cleared(m, done + {k}, a, b, v) <==> Cleared(m, done, a, b, v) || CutFrom(s, a) <= v < CutTo(s, b)
    {
      if CutFrom(s, a) <= v < CutTo(s, b) {
        assert k in done + {k};
      }
      if Cleared(m, done, a, b, v) {
        var j :| j in done && j in m.segments && CutFrom(m.segments[j], a) <= v < CutTo(m.segments[j], b);
        assert j in done + {k};
      }
    }
  }

  ghost predicate Distinct(ks: seq<nat>) {
    forall i, j :: 0 <= i < j < |ks| ==> ks[i] != ks[j]
  }

  ghost predicate StillToDo(m: Area, done: set<nat>, ks: seq<nat>) {
    Distinct(ks) && forall i :: 0 <= i < |ks| ==> ks[i] in m.segments && ks[i] !in done
  }

  lemma {:induction false} KeysProcessed(m: Area, m1: Area, done: set<nat>, ks: seq<nat>, a: nat, b: nat, all: set<nat>)
    requires AreaOk(m) && GoodRange(a, b)
    requires SegsAfter(m, m1, done, a, b) && PtAfter(m, m1, done, a, b)
    requires StillToDo(m, done, ks) && all == done + set k | k in ks
    ensures SegsAfter(m, UnmapKeys(m1, ks, a, b), all, a, b)
    ensures PtAfter(m, UnmapKeys(m1, ks, a, b), all, a, b)
    decreases |ks|
  {
    if ks == [] {
      assert all == done;
    } else {
      var m2 := UnmapOne(m1, ks[0], a, b);
      StepSegs(m, m1, done, a, b, ks[0]);
      StepPt(m, m1, done, a, b, ks[0]);
      NextToDo(m, done, ks);
      KeysProcessed(m, m2, done + {ks[0]}, ks[1..], a, b, all);
    }
  }

  lemma NextToDo(m: Area, done: set<nat>, ks: seq<nat>)
    requires StillToDo(m, done, ks) && ks != []
    ensures StillToDo(m, done + {ks[0]}, ks[1..])
    ensures done + (set k | k in ks) == done + {ks[0]} + set k | k in ks[1..]
  {
  }

  /** Who owns what, after the keys in `done`. */
  lemma OwnsAfter(m: Area, m': Area, done: set<nat>, a: nat, b: nat, v: nat, g: nat)
    requires AreaOk(m) && SegsAfter(m, m', done, a, b) && done <= m.segments.Keys
    ensures Owns(m', v, g) <==>
      exists k :: k in m.segments && if k in done then CutOwns(m.segments[k], a, b, v, g) else OwnsIn(m.segments[k], v, g)
  {
    if Owns(m', v, g) {
      var k :| k in m'.segments && OwnsIn(m'.segments[k], v, g);
      if k !in m.segments {
        var j :| SplitsAt(m, done, a, b, j);
        assert CutOwns(m.segments[j], a, b, v, g);
      } else {
        assert m'.segments[k] == SegAfter(m, done, a, b, k);
      }
    }
    if k :| k in m.segments && if k in done then CutOwns(m.segments[k], a, b, v, g) else OwnsIn(m.segments[k], v, g) {
      assert m'.segments[k] == SegAfter(m, done, a, b, k);
      if k in done && !OwnsIn(CutStay(m.segments[k], a, b), v, g) {
        assert SplitsAt(m, done, a, b, k);
        assert OwnsIn(m'.segments[b], v, g);
      }
    }
  }

  /** `ks` are the keys that the first loop of `unmap` collects. */
  ghost predicate ListsOverlaps(m: Area, ks: seq<nat>, start: nat, end: nat) {
    && Distinct(ks)
    && (forall i :: 0 <= i < |ks| ==> ks[i] in m.segments && Overlaps(m.segments[ks[i]], start, end))
    && (forall k :: k in m.segments && Overlaps(m.segments[k], start, end) ==> k in ks)
  }

  predicate SomeHas(m: Area, v: nat) {
    exists k :: k in m.segments && Has(m.segments[k], v)
  }

  /** Rounding to pages does not change which segments are met. */
  lemma RoundingOverlap(s: Seg, start: nat, end: nat)
    requires SegOk(s) && start < end
    ensures Overlaps(s, start, end) <==> Overlaps(s, AlignDown(start), AlignPageUp(end))
    ensures GoodRange(AlignDown(start), AlignPageUp(end))
  {
  }

  lemma OutsideOverlap(s: Seg, a: nat, b: nat, v: nat)
    requires SegOk(s) && GoodRange(a, b)
    ensures Overlaps(s, a, b) ==> (CutFrom(s, a) <= v < CutTo(s, b) <==> Has(s, v) && Vpn(a) <= v < Vpn(b))
    ensures !Overlaps(s, a, b) && Has(s, v) ==> !(Vpn(a) <= v < Vpn(b))
  {
  }

  /** One `unmap` clears exactly the owned pages in the page-rounded range ... */
  lemma UnmapPages(m: Area, ks: seq<nat>, start: nat, end: nat, v: nat, g: nat)
    requires AreaOk(m) && start < end && ListsOverlaps(m, ks, start, end)
    ensures var a, b := AlignDown(start), AlignPageUp(end);
      Owns(UnmapKeys(m, ks, a, b), v, g) <==> Owns(m, v, g) && !(Vpn(a) <= v < Vpn(b))
  {
    var a, b := AlignDown(start), AlignPageUp(end);
    var all := set k | k in ks;
    RoundRange(start, end);
    KeysProcessed(m, m, {}, ks, a, b, all);
    OwnsAfter(m, UnmapKeys(m, ks, a, b), all, a, b, v, g);
    forall k | k in m.segments
      ensures (if k in all then CutOwns(m.segments[k], a, b, v, g) else OwnsIn(m.segments[k], v, g))
        <==> OwnsIn(m.segments[k], v, g) && !(Vpn(a) <= v < Vpn(b))
    {
      RoundingOverlap(m.segments[k], start, end);
      if k in all {
        CutPages(m.segments[k], a, b, v, g);
      } else {
        OutsideOverlap(m.segments[k], a, b, v);
      }
    }
  }

  lemma RoundRange(start: nat, end: nat)
    requires start < end
    ensures GoodRange(AlignDown(start), AlignPageUp(end))
  {
  }

  /** ... and exactly the translations of the segments' pages there. */
  lemma UnmapTranslations(m: Area, ks: seq<nat>, start: nat, end: nat, v: nat)
    requires AreaOk(m) && start < end && ListsOverlaps(m, ks, start, end)
    ensures var a, b := AlignDown(start), AlignPageUp(end); var m' := UnmapKeys(m, ks, a, b);
      && (v in m'.pt <==> v in m.pt && !(SomeHas(m, v) && Vpn(a) <= v < Vpn(b)))
      && (v in m'.pt ==> m'.pt[v] == m.pt[v])
  {
    var a, b := AlignDown(start), AlignPageUp(end);
    var all := set k | k in ks;
    RoundRange(start, end);
    KeysProcessed(m, m, {}, ks, a, b, all);
    forall k | k in m.segments
      ensures k in all && CutFrom(m.segments[k], a) <= v < CutTo(m.segments[k], b) <==>
        Has(m.segments[k], v) && Vpn(a) <= v < Vpn(b)
    {
      RoundingOverlap(m.segments[k], start, end);
      OutsideOverlap(m.segments[k], a, b, v);
    }
    assert Cleared(m, all, a, b, v) <==> SomeHas(m, v) && Vpn(a) <= v < Vpn(b);
  }

  /** `s` covers page `v` with permission `p`. */
  ghost predicate Permits(s: Seg, v: nat, p: Perm) {
    Has(s, v) && s.perm == p
  }

  ghost predicate HasPerm(m: Area, v: nat, p: Perm) {
    exists k :: k in m.segments && Permits(m.segments[k], v, p)
  }

  ghost predicate CutPermits(s: Seg, a: nat, b: nat, v: nat, p: Perm) {
    Permits(CutStay(s, a, b), v, p) || (CutRight(s, a, b).Some? && Permits(CutRight(s, a, b).value, v, p))
  }

  /** A page stays in a segment if it is outside the range, or if all of its segment is inside: such a one is emptied and kept. */
  predicate StaysIn(s: Seg, a: nat, b: nat, v: nat) {
    !(Vpn(a) <= v < Vpn(b)) || (a <= s.start && s.end <= b)
  }

  /** The pieces cover the pages that stay, with the permission they had. */
  lemma CutPerms(s: Seg, a: nat, b: nat, v: nat, p: Perm)
    requires SegOk(s) && GoodRange(a, b) && Overlaps(s, a, b)
    ensures CutPermits(s, a, b, v, p) <==> Permits(s, v, p) && StaysIn(s, a, b, v)
  {
  }

  lemma PermsAfter(m: Area, m': Area, done: set<nat>, a: nat, b: nat, v: nat, p: Perm)
    requires SegsAfter(m, m', done, a, b) && done <= m.segments.Keys
    ensures HasPerm(m', v, p) <==>
      exists k :: k in m.segments && if k in done then CutPermits(m.segments[k], a, b, v, p) else Permits(m.segments[k], v, p)
  {
    if HasPerm(m', v, p) {
      var k :| k in m'.segments && Permits(m'.segments[k], v, p);
      if k !in m.segments {
        var j :| SplitsAt(m, done, a, b, j);
        assert CutPermits(m.segments[j], a, b, v, p);
      } else {
        assert m'.segments[k] == SegAfter(m, done, a, b, k);
      }
    }
    if k :| k in m.segments && if k in done then CutPermits(m.segments[k], a, b, v, p) else Permits(m.segments[k], v, p) {
      assert m'.segments[k] == SegAfter(m, done, a, b, k);
      if k in done && !Permits(CutStay(m.segments[k], a, b), v, p) {
        assert SplitsAt(m, done, a, b, k);
        assert Permits(m'.segments[b], v, p);
      }
    }
  }

  /** After `unmap` the segments cover exactly the pages that stay, each with the permission it had. */
  lemma UnmapPerms(m: Area, ks: seq<nat>, start: nat, end: nat, v: nat, p: Perm)
    requires AreaOk(m) && start < end && ListsOverlaps(m, ks, start, end)
    ensures var a, b := AlignDown(start), AlignPageUp(end);
      HasPerm(UnmapKeys(m, ks, a, b), v, p) <==>
        exists k :: k in m.segments && Permits(m.segments[k], v, p) && StaysIn(m.segments[k], a, b, v)
  {
    var a, b := AlignDown(start), AlignPageUp(end);
    var all := set k | k in ks;
    RoundRange(start, end);
    KeysProcessed(m, m, {}, ks, a, b, all);
    PermsAfter(m, UnmapKeys(m, ks, a, b), all, a, b, v, p);
    forall k | k in m.segments
      ensures (if k in all then CutPermits(m.segments[k], a, b, v, p) else Permits(m.segments[k], v, p))
        <==> Permits(m.segments[k], v, p) && StaysIn(m.segments[k], a, b, v)
    {
      RoundingOverlap(m.segments[k], start, end);
      if k in all {
        CutPerms(m.segments[k], a, b, v, p);
      } else {
        OutsideOverlap(m.segments[k], a, b, v);
      }
    }
  }

  // ----- mprotect ------------------------------------------------------------------

  /** The part of `s` inside `[a, b)`, with its new permission. */
  ghost function Inner(s: Seg, a: nat, b: nat, perm: Perm): Seg {
    var t := if b < s.end then LeftOf(s, b) else s;
    (if s.start < a then RightOf(t, a) else t).(perm := perm)
  }

  /** What stays under the segment's own key. */
  ghost function ProtectStay(s: Seg, a: nat, b: nat, perm: Perm): Seg {
    if s.start < a then LeftOf(if b < s.end then LeftOf(s, b) else s, a) else Inner(s, a, b, perm)
  }

  /** One round of the second loop of `mprotect`: `split_and_modify_if_overlap` and the insertions. */
  ghost function ProtectSegs(segs: map<nat, Seg>, k: nat, a: nat, b: nat, perm: Perm): map<nat, Seg>
    requires k in segs
  {
    var s := segs[k];
    var stay := segs[k := ProtectStay(s, a, b, perm)];
    var right := if b < s.end then stay[b := RightOf(s, b)] else stay;
    if s.start < a then right[a := Inner(s, a, b, perm)] else right
  }

  /** `modify`: each resident page of the piece gets the new R, W, X and U. */
  ghost predicate Modified(pt: map<nat, Entry>, pt': map<nat, Entry>, pages: map<nat, nat>, perm: Perm) {
    && pt'.Keys == pt.Keys
    && forall v :: v in pt ==> pt'[v] == if v in pages then Remode(pt[v], PermFlags(perm)) else pt[v]
  }

  ghost function ModifyPt(pt: map<nat, Entry>, pages: map<nat, nat>, perm: Perm): map<nat, Entry> {
    map v | v in pt :: if v in pages then Remode(pt[v], PermFlags(perm)) else pt[v]
  }

  ghost function Protect(m: Area, k: nat, a: nat, b: nat, perm: Perm): Area
    requires k in m.segments
  {
    Area(ProtectSegs(m.segments, k, a, b, perm), ModifyPt(m.pt, Inner(m.segments[k], a, b, perm).pages, perm))
  }

  ghost function ProtectKeysIn(m: Area, ks: seq<nat>, a: nat, b: nat, perm: Perm): Area
    decreases |ks|
  {
    if ks == [] then m
    else if ks[0] !in m.segments then ProtectKeysIn(m, ks[1..], a, b, perm)
    else ProtectKeysIn(Protect(m, ks[0], a, b, perm), ks[1..], a, b, perm)
  }

  ghost predicate ProtectOne(m: Area, k: nat, a: nat, b: nat, perm: Perm, m': Area) {
    && k in m.segments
    && m'.segments == ProtectSegs(m.segments, k, a, b, perm)
    && Modified(m.pt, m'.pt, Inner(m.segments[k], a, b, perm).pages, perm)
  }

  /** The three pieces of a protected segment: aligned, inside it, disjoint, and together all of it. */
  lemma ProtectPieces(s: Seg, a: nat, b: nat, perm: Perm)
    requires SegOk(s) && GoodRange(a, b) && Overlaps(s, a, b)
    ensures SegOk(Inner(s, a, b, perm)) && SegOk(ProtectStay(s, a, b, perm))
    ensures Inner(s, a, b, perm).start == (if s.start < a then a else s.start)
    ensures Inner(s, a, b, perm).end == (if b < s.end then b else s.end)
    ensures s.start < a ==> ProtectStay(s, a, b, perm).start == s.start && ProtectStay(s, a, b, perm).end == a
    ensures b < s.end ==> SegOk(RightOf(s, b)) && RightOf(s, b).start == b && RightOf(s, b).end == s.end
    ensures forall v :: v in s.pages ==>
      if Vpn(a) <= v < Vpn(b) then OwnsIn(Inner(s, a, b, perm), v, s.pages[v])
      else if v < Vpn(a) then s.start < a && OwnsIn(ProtectStay(s, a, b, perm), v, s.pages[v])
      else b < s.end && OwnsIn(RightOf(s, b), v, s.pages[v])
  {
    if b < s.end {
      SplitOk(s, b);
      if s.start < a {
        SplitOk(LeftOf(s, b), a);
      }
    } else if s.start < a {
      SplitOk(s, a);
    }
  }

  /** No segment starts inside another. */
  lemma CutsAreFree(m: Area, k: nat, x: nat)
    requires AreaOk(m) && k in m.segments && m.segments[k].start < x < m.segments[k].end
    ensures x !in m.segments
  {
  }

  /** The new segment map, key by key. */
  lemma ProtectKeys(m: Area, k: nat, a: nat, b: nat, perm: Perm)
    requires AreaOk(m) && GoodRange(a, b) && k in m.segments && Overlaps(m.segments[k], a, b)
    ensures var s, t := m.segments[k], ProtectSegs(m.segments, k, a, b, perm);
      && (s.start < a ==> a !in m.segments && a in t && t[a] == Inner(s, a, b, perm))
      && (b < s.end ==> b !in m.segments && b in t && t[b] == RightOf(s, b))
      && k in t && t[k] == ProtectStay(s, a, b, perm)
      && (forall j :: j in m.segments && j != k ==> j in t && t[j] == m.segments[j])
      && (forall j :: j in t ==> j in m.segments || (s.start < a && j == a) || (b < s.end && j == b))
  {
    var s := m.segments[k];
    if s.start < a {
      CutsAreFree(m, k, a);
    }
    if b < s.end {
      CutsAreFree(m, k, b);
    }
    ProtectPuts(m.segments, k, a, b, perm);
  }

  lemma ProtectPuts(segs: map<nat, Seg>, k: nat, a: nat, b: nat, perm: Perm)
    requires k in segs && a < b && (segs[k].start < a ==> a !in segs) && (b < segs[k].end ==> b !in segs)
    ensures var s, t := segs[k], ProtectSegs(segs, k, a, b, perm);
      && (s.start < a ==> a in t && t[a] == Inner(s, a, b, perm))
      && (b < s.end ==> b in t && t[b] == RightOf(s, b))
      && k in t && t[k] == ProtectStay(s, a, b, perm)
      && (forall j :: j in segs && j != k ==> j in t && t[j] == segs[j])
      && (forall j :: j in t ==> j in segs || (s.start < a && j == a) || (b < s.end && j == b))
  {
  }

  /** Each piece lies inside the segment it came from. */
  ghost predicate PieceOf(m: Area, k: nat, p: Seg, j: nat)
    requires k in m.segments
  {
    SegOk(p) && p.start == j && m.segments[k].start <= p.start && p.end <= m.segments[k].end
  }

  lemma ProtectPieceOf(m: Area, k: nat, a: nat, b: nat, perm: Perm, j: nat)
    requires AreaOk(m) && GoodRange(a, b) && k in m.segments && Overlaps(m.segments[k], a, b)
    requires j in ProtectSegs(m.segments, k, a, b, perm)
    ensures var p := ProtectSegs(m.segments, k, a, b, perm)[j];
      if j in m.segments && j != k then p == m.segments[j] else PieceOf(m, k, p, j)
  {
    ProtectPieces(m.segments[k], a, b, perm);
    ProtectKeys(m, k, a, b, perm);
  }

  lemma ProtectOrder(m: Area, k: nat, a: nat, b: nat, perm: Perm, i: nat, j: nat)
    requires AreaOk(m) && GoodRange(a, b) && k in m.segments && Overlaps(m.segments[k], a, b)
    requires i in ProtectSegs(m.segments, k, a, b, perm) && j in ProtectSegs(m.segments, k, a, b, perm) && i < j
    ensures ProtectSegs(m.segments, k, a, b, perm)[i].end <= j
  {
    ProtectPieceOf(m, k, a, b, perm, i);
    ProtectPieceOf(m, k, a, b, perm, j);
    ProtectPieces(m.segments[k], a, b, perm);
    ProtectKeys(m, k, a, b, perm);
  }

  /** `mprotect` of one segment keeps the area well-formed. */
  lemma ProtectOneOk(m: Area, k: nat, a: nat, b: nat, perm: Perm, m': Area)
    requires AreaOk(m) && GoodRange(a, b) && ProtectOne(m, k, a, b, perm, m') && Overlaps(m.segments[k], a, b)
    ensures AreaOk(m')
  {
    forall j | j in m'.segments
      ensures SegOk(m'.segments[j]) && m'.segments[j].start == j
    {
      ProtectPieceOf(m, k, a, b, perm, j);
    }
    forall i, j | i in m'.segments && j in m'.segments && i < j
      ensures m'.segments[i].end <= j
    {
      ProtectOrder(m, k, a, b, perm, i, j);
    }
  }

  /** With an end past the segment nothing is split there. */
  lemma EndPast(m: Area, k: nat, a: nat, b: nat, perm: Perm)
    requires k in m.segments && m.segments[k].end <= b
    ensures Protect(m, k, a, b, perm) == Protect(m, k, a, m.segments[k].end, perm)
  {
  }

  /** `sys_mprotect` checks its start only: the area stays well-formed if and only if the end is aligned or splits nothing. */
  lemma ProtectAligned(m: Area, k: nat, a: nat, b: nat, perm: Perm)
    requires AreaOk(m) && Aligned(a) && a < b && k in m.segments && Overlaps(m.segments[k], a, b)
    ensures AreaOk(Protect(m, k, a, b, perm)) <==> Aligned(b) || m.segments[k].end <= b
  {
    var s, m' := m.segments[k], Protect(m, k, a, b, perm);
    if Aligned(b) {
      ProtectIsOne(m, k, a, b, perm);
      ProtectOneOk(m, k, a, b, perm, m');
    } else if s.end <= b {
      EndPast(m, k, a, b, perm);
      if s.start < s.end {
        ProtectIsOne(m, k, a, s.end, perm);
        ProtectOneOk(m, k, a, s.end, perm, m');
      } else {
        ProtectEmpty(m, k, a, b, perm);
      }
    } else {
      UnalignedEnd(m, k, a, b, perm);
    }
  }

  /** An empty segment has no page to change. */
  lemma ProtectEmpty(m: Area, k: nat, a: nat, b: nat, perm: Perm)
    requires AreaOk(m) && k in m.segments && m.segments[k].end == k && a < k < b
    ensures AreaOk(Protect(m, k, a, b, perm))
  {
  }

  /**
   What an unaligned end does: the page that holds it goes to the part past the end and
   keeps its entry, although it begins inside the range, and a segment ends inside it.
   */
  lemma UnalignedEnd(m: Area, k: nat, a: nat, b: nat, perm: Perm)
    requires AreaOk(m) && a < b && k in m.segments && Overlaps(m.segments[k], a, b)
    requires !Aligned(b) && b < m.segments[k].end
    ensures var s, m' := m.segments[k], Protect(m, k, a, b, perm);
      && Vpn(b) * PAGE_SIZE < b
      && b in m'.segments && (Vpn(b) in s.pages ==> OwnsIn(m'.segments[b], Vpn(b), s.pages[Vpn(b)]))
      && (Vpn(b) in m.pt ==> m'.pt[Vpn(b)] == m.pt[Vpn(b)])
      && (exists j :: j in m'.segments && m'.segments[j].end == b) && !AreaOk(m')
  {
    var s, m' := m.segments[k], Protect(m, k, a, b, perm);
    var j := if s.start < a then a else k;
    assert j in m'.segments && m'.segments[j] == Inner(s, a, b, perm) && m'.segments[j].end == b;
    assert Vpn(b) !in Inner(s, a, b, perm).pages;
  }

  lemma EmptyRangeSegs(m: Area, k: nat, p: nat, perm: Perm)
    requires AreaOk(m) && k in m.segments && m.segments[k].start < p < m.segments[k].end
    ensures var s, m' := m.segments[k], Protect(m, k, p, p, perm);
      && m'.pt == m.pt && p !in m.segments
      && m'.segments == m.segments[k := LeftOf(LeftOf(s, p), p)][p := Inner(s, p, p, perm)]
      && Inner(s, p, p, perm) == Seg(p, p, perm, map[])
  {
    CutsAreFree(m, k, p);
    assert Inner(m.segments[k], p, p, perm).pages == map[];
  }

  /** A page of `s` lies in none of the other segments. */
  lemma OnlyIn(m: Area, k: nat, v: nat, j: nat)
    requires AreaOk(m) && k in m.segments && j in m.segments && j != k && Has(m.segments[k], v)
    ensures !Has(m.segments[j], v)
  {
    if Has(m.segments[j], v) {
      OneHas(m, j, k, v);
      assert false;
    }
  }

  /**
   An empty range strictly inside a segment splits it twice at one place, and the second
   insertion replaces the first: everything from there on is lost to the segments, while its
   translations stay.
   */
  lemma EmptyRangeLoses(m: Area, k: nat, p: nat, perm: Perm, v: nat)
    requires AreaOk(m) && Aligned(p) && k in m.segments && m.segments[k].start < p < m.segments[k].end
    requires Vpn(p) <= v < Vpn(m.segments[k].end)
    ensures var m' := Protect(m, k, p, p, perm);
      m'.pt == m.pt && SomeHas(m, v) && !SomeHas(m', v) && forall g :: !Owns(m', v, g)
  {
    var m' := Protect(m, k, p, p, perm);
    EmptyRangeSegs(m, k, p, perm);
    forall j | j in m'.segments ensures !Has(m'.segments[j], v) && v !in m'.segments[j].pages {
      if j in m.segments && j != k {
        OnlyIn(m, k, v, j);
      }
    }
  }

  /** In a well-formed area one segment covers a page. */
  lemma OneHas(m: Area, j: nat, k: nat, v: nat)
    requires AreaOk(m) && j in m.segments && k in m.segments && Has(m.segments[j], v) && Has(m.segments[k], v)
    ensures j == k
  {
  }

  lemma PagesApart(m: Area, j: nat, k: nat, v: nat)
    requires AreaOk(m) && j in m.segments && k in m.segments && j != k && v in m.segments[k].pages
    ensures v !in m.segments[j].pages
  {
  }

  lemma InnerHas(s: Seg, a: nat, b: nat, perm: Perm, v: nat)
    requires SegOk(s) && GoodRange(a, b) && Overlaps(s, a, b)
    ensures Has(Inner(s, a, b, perm), v) <==> Has(s, v) && Vpn(a) <= v < Vpn(b)
    ensures s.start < a ==> (Has(ProtectStay(s, a, b, perm), v) <==> Has(s, v) && v < Vpn(a))
    ensures b < s.end ==> (Has(RightOf(s, b), v) <==> Has(s, v) && Vpn(b) <= v)
  {
    ProtectPieces(s, a, b, perm);
  }

  lemma PermIs(m: Area, k: nat, v: nat, p: Perm)
    requires AreaOk(m) && k in m.segments && Has(m.segments[k], v)
    ensures HasPerm(m, v, p) <==> p == m.segments[k].perm
  {
    assert Permits(m.segments[k], v, m.segments[k].perm);
    if HasPerm(m, v, p) {
      var j :| j in m.segments && Permits(m.segments[j], v, p);
      OneHas(m, j, k, v);
    }
  }

  /** The key of the piece that covers page `v` of a protected segment. */
  lemma ProtectHome(m: Area, k: nat, a: nat, b: nat, perm: Perm, v: nat) returns (home: nat)
    requires AreaOk(m) && GoodRange(a, b) && k in m.segments && Overlaps(m.segments[k], a, b)
    requires Has(m.segments[k], v)
    ensures var t := ProtectSegs(m.segments, k, a, b, perm);
      && home in t && Has(t[home], v)
      && t[home].perm == (if Vpn(a) <= v < Vpn(b) then perm else m.segments[k].perm)
      && (v in m.segments[k].pages ==> OwnsIn(t[home], v, m.segments[k].pages[v]))
  {
    var s := m.segments[k];
    ProtectKeys(m, k, a, b, perm);
    ProtectPieces(s, a, b, perm);
    InnerHas(s, a, b, perm, v);
    home := if v < Vpn(a) then k else if v >= Vpn(b) then b else if s.start < a then a else k;
  }

  /** A page outside the protected segment keeps its segment. */
  lemma ProtectElsewhere(m: Area, k: nat, a: nat, b: nat, perm: Perm, v: nat, j: nat)
    requires AreaOk(m) && GoodRange(a, b) && k in m.segments && Overlaps(m.segments[k], a, b)
    requires !Has(m.segments[k], v)
    ensures var t := ProtectSegs(m.segments, k, a, b, perm);
      j in t && Has(t[j], v) <==> j in m.segments && Has(m.segments[j], v)
    ensures var t := ProtectSegs(m.segments, k, a, b, perm);
      j in t && Has(t[j], v) ==> t[j] == m.segments[j]
  {
    ProtectKeys(m, k, a, b, perm);
    if j in ProtectSegs(m.segments, k, a, b, perm) {
      ProtectPieceOf(m, k, a, b, perm, j);
    }
  }

  /** Its effect on the permission of each page. */
  lemma ProtectOnePerm(m: Area, k: nat, a: nat, b: nat, perm: Perm, m': Area, v: nat, p: Perm)
    requires AreaOk(m) && GoodRange(a, b) && ProtectOne(m, k, a, b, perm, m') && Overlaps(m.segments[k], a, b)
    ensures HasPerm(m', v, p) <==>
      if Has(m.segments[k], v) && Vpn(a) <= v < Vpn(b) then p == perm else HasPerm(m, v, p)
  {
    if Has(m.segments[k], v) {
      ProtectOneOk(m, k, a, b, perm, m');
      var home := ProtectHome(m, k, a, b, perm, v);
      PermIs(m', home, v, p);
      PermIs(m, k, v, p);
    } else {
      forall j
        ensures j in m'.segments && Has(m'.segments[j], v) <==> j in m.segments && Has(m.segments[j], v)
        ensures j in m'.segments && Has(m'.segments[j], v) ==> m'.segments[j] == m.segments[j]
      {
        ProtectElsewhere(m, k, a, b, perm, v, j);
      }
      SamePerms(m, m', v, p);
    }
  }

  lemma SamePerms(m: Area, m': Area, v: nat, p: Perm)
    requires forall j :: j in m'.segments && Has(m'.segments[j], v) <==> j in m.segments && Has(m.segments[j], v)
    requires forall j :: j in m'.segments && Has(m'.segments[j], v) ==> m'.segments[j] == m.segments[j]
    ensures HasPerm(m', v, p) <==> HasPerm(m, v, p)
  {
    if j :| j in m'.segments && Permits(m'.segments[j], v, p) {
      assert Permits(m.segments[j], v, p);
    }
    if j :| j in m.segments && Permits(m.segments[j], v, p) {
      assert Permits(m'.segments[j], v, p);
    }
  }

  lemma ProtectOneOwns(m: Area, k: nat, a: nat, b: nat, perm: Perm, m': Area, v: nat, g: nat)
    requires AreaOk(m) && GoodRange(a, b) && ProtectOne(m, k, a, b, perm, m') && Overlaps(m.segments[k], a, b)
    ensures Owns(m', v, g) <==> Owns(m, v, g)
  {
    ProtectOneOk(m, k, a, b, perm, m');
    if Has(m.segments[k], v) {
      ProtectInsideOwns(m, k, a, b, perm, m', v, g);
    } else {
      forall j
        ensures j in m'.segments && Has(m'.segments[j], v) <==> j in m.segments && Has(m.segments[j], v)
        ensures j in m'.segments && Has(m'.segments[j], v) ==> m'.segments[j] == m.segments[j]
      {
        ProtectElsewhere(m, k, a, b, perm, v, j);
      }
    }
  }

  lemma OwnsIs(m: Area, k: nat, v: nat, g: nat)
    requires AreaOk(m) && k in m.segments && Has(m.segments[k], v)
    ensures Owns(m, v, g) <==> OwnsIn(m.segments[k], v, g)
  {
    if Owns(m, v, g) {
      var j :| j in m.segments && OwnsIn(m.segments[j], v, g);
      OneHas(m, j, k, v);
    }
  }

  lemma ProtectInsideOwns(m: Area, k: nat, a: nat, b: nat, perm: Perm, m': Area, v: nat, g: nat)
    requires AreaOk(m) && AreaOk(m') && GoodRange(a, b) && ProtectOne(m, k, a, b, perm, m') && Overlaps(m.segments[k], a, b)
    requires Has(m.segments[k], v)
    ensures Owns(m', v, g) <==> Owns(m, v, g)
  {
    var home := ProtectHome(m, k, a, b, perm, v);
    OwnsIs(m', home, v, g);
    OwnsIs(m, k, v, g);
    if v in m'.segments[home].pages {
      ProtectPagesOnly(m, k, a, b, perm, home, v);
    }
  }

  lemma ProtectPagesOnly(m: Area, k: nat, a: nat, b: nat, perm: Perm, j: nat, v: nat)
    requires AreaOk(m) && GoodRange(a, b) && k in m.segments && Overlaps(m.segments[k], a, b)
    requires j in ProtectSegs(m.segments, k, a, b, perm) && v in ProtectSegs(m.segments, k, a, b, perm)[j].pages
    requires Has(m.segments[k], v)
    ensures v in m.segments[k].pages && m.segments[k].pages[v] == ProtectSegs(m.segments, k, a, b, perm)[j].pages[v]
  {
    ProtectKeys(m, k, a, b, perm);
    if j in m.segments && j != k {
      OneHas(m, j, k, v);
    }
  }

  lemma ProtectIsOne(m: Area, k: nat, a: nat, b: nat, perm: Perm)
    requires k in m.segments
    ensures ProtectOne(m, k, a, b, perm, Protect(m, k, a, b, perm))
  {
  }

  lemma NextOverlaps(m: Area, ks: seq<nat>, a: nat, b: nat, perm: Perm)
    requires AreaOk(m) && GoodRange(a, b) && ks != [] && KeysMeet(m, ks, a, b)
    ensures KeysMeet(Protect(m, ks[0], a, b, perm), ks[1..], a, b)
    ensures forall i :: 0 < i < |ks| ==> Protect(m, ks[0], a, b, perm).segments[ks[i]] == m.segments[ks[i]]
  {
    ProtectKeys(m, ks[0], a, b, perm);
  }

  /** `ks` are distinct keys of segments that meet `[a, b)`. */
  ghost predicate KeysMeet(m: Area, ks: seq<nat>, a: nat, b: nat) {
    Distinct(ks) && forall i :: 0 <= i < |ks| ==> ks[i] in m.segments && Overlaps(m.segments[ks[i]], a, b)
  }

  /** Page `v` lies in one of the listed segments. */
  ghost predicate Listed(m: Area, ks: seq<nat>, v: nat) {
    exists i :: 0 <= i < |ks| && ks[i] in m.segments && Has(m.segments[ks[i]], v)
  }

  lemma ListedStep(m: Area, ks: seq<nat>, a: nat, b: nat, perm: Perm, v: nat)
    requires AreaOk(m) && GoodRange(a, b) && ks != [] && KeysMeet(m, ks, a, b)
    ensures Listed(m, ks, v) <==> Has(m.segments[ks[0]], v) || Listed(Protect(m, ks[0], a, b, perm), ks[1..], v)
  {
    NextOverlaps(m, ks, a, b, perm);
    var m1 := Protect(m, ks[0], a, b, perm);
    if Listed(m, ks, v) && !Has(m.segments[ks[0]], v) {
      var i :| 0 <= i < |ks| && ks[i] in m.segments && Has(m.segments[ks[i]], v);
      assert ks[1..][i - 1] == ks[i];
    }
    if Listed(m1, ks[1..], v) {
      var i :| 0 <= i < |ks[1..]| && ks[1..][i] in m1.segments && Has(m1.segments[ks[1..][i]], v);
      assert ks[i + 1] == ks[1..][i];
    }
  }

  /** The loop of `mprotect` keeps the area well-formed and sets the permission of the listed pages in range. */
  lemma {:induction false} ProtectRun(m: Area, ks: seq<nat>, a: nat, b: nat, perm: Perm, v: nat, p: Perm, g: nat)
    requires AreaOk(m) && GoodRange(a, b) && KeysMeet(m, ks, a, b)
    ensures AreaOk(ProtectKeysIn(m, ks, a, b, perm))
    ensures HasPerm(ProtectKeysIn(m, ks, a, b, perm), v, p) <==>
      if Listed(m, ks, v) && Vpn(a) <= v < Vpn(b) then p == perm else HasPerm(m, v, p)
    ensures Owns(ProtectKeysIn(m, ks, a, b, perm), v, g) <==> Owns(m, v, g)
    decreases |ks|
  {
    if ks != [] {
      var m1 := Protect(m, ks[0], a, b, perm);
      ProtectIsOne(m, ks[0], a, b, perm);
      ProtectOneOk(m, ks[0], a, b, perm, m1);
      NextOverlaps(m, ks, a, b, perm);
      ProtectRun(m1, ks[1..], a, b, perm, v, p, g);
      ProtectOnePerm(m, ks[0], a, b, perm, m1, v, p);
      ProtectOneOwns(m, ks[0], a, b, perm, m1, v, g);
      ListedStep(m, ks, a, b, perm, v);
    }
  }

  /** A resident page of a listed segment in range. */
  ghost predicate ListedPage(m: Area, ks: seq<nat>, v: nat) {
    exists i :: 0 <= i < |ks| && ks[i] in m.segments && v in m.segments[ks[i]].pages
  }

  lemma ListedPageStep(m: Area, ks: seq<nat>, a: nat, b: nat, perm: Perm, v: nat)
    requires AreaOk(m) && GoodRange(a, b) && ks != [] && KeysMeet(m, ks, a, b)
    ensures ListedPage(m, ks, v) <==> v in m.segments[ks[0]].pages || ListedPage(Protect(m, ks[0], a, b, perm), ks[1..], v)
    ensures v in m.segments[ks[0]].pages ==> !ListedPage(Protect(m, ks[0], a, b, perm), ks[1..], v)
  {
    NextOverlaps(m, ks, a, b, perm);
    var m1 := Protect(m, ks[0], a, b, perm);
    if ListedPage(m, ks, v) && v !in m.segments[ks[0]].pages {
      var i :| 0 <= i < |ks| && ks[i] in m.segments && v in m.segments[ks[i]].pages;
      assert ks[1..][i - 1] == ks[i];
    }
    if ListedPage(m1, ks[1..], v) {
      var i :| 0 <= i < |ks[1..]| && ks[1..][i] in m1.segments && v in m1.segments[ks[1..][i]].pages;
      assert ks[i + 1] == ks[1..][i];
      PagesApart(m, ks[0], ks[i + 1], v);
    }
  }

  /** The pages of the inner piece are the segment's resident pages in range. */
  lemma InnerPages(s: Seg, a: nat, b: nat, perm: Perm, v: nat)
    requires SegOk(s) && GoodRange(a, b) && Overlaps(s, a, b)
    ensures v in Inner(s, a, b, perm).pages <==> v in s.pages && Vpn(a) <= v < Vpn(b)
  {
    ProtectPieces(s, a, b, perm);
  }

  /** The table entries of resident pages in range change in R, W, X and U; no other entry changes. */
  lemma {:induction false} ProtectRunPt(m: Area, ks: seq<nat>, a: nat, b: nat, perm: Perm, v: nat)
    requires AreaOk(m) && GoodRange(a, b) && KeysMeet(m, ks, a, b)
    ensures v in ProtectKeysIn(m, ks, a, b, perm).pt <==> v in m.pt
    ensures v in m.pt ==>
      ProtectKeysIn(m, ks, a, b, perm).pt[v] ==
        (if ListedPage(m, ks, v) && Vpn(a) <= v < Vpn(b) then Remode(m.pt[v], PermFlags(perm)) else m.pt[v])
    decreases |ks|
  {
    if ks != [] {
      var m1 := Protect(m, ks[0], a, b, perm);
      ProtectIsOne(m, ks[0], a, b, perm);
      ProtectOneOk(m, ks[0], a, b, perm, m1);
      NextOverlaps(m, ks, a, b, perm);
      ProtectRunPt(m1, ks[1..], a, b, perm, v);
      InnerPages(m.segments[ks[0]], a, b, perm, v);
      ListedPageStep(m, ks, a, b, perm, v);
    }
  }

  /** `mprotect` is a pointwise permission update that moves no page and keeps the area well-formed. */
  lemma MprotectCorrect(m: Area, ks: seq<nat>, a: nat, b: nat, perm: Perm, v: nat, p: Perm, g: nat)
    requires AreaOk(m) && GoodRange(a, b) && ListsOverlaps(m, ks, a, b)
    ensures var m' := ProtectKeysIn(m, ks, a, b, perm);
      && AreaOk(m')
      && (HasPerm(m', v, p) <==> if SomeHas(m, v) && Vpn(a) <= v < Vpn(b) then p == perm else HasPerm(m, v, p))
      && (Owns(m', v, g) <==> Owns(m, v, g))
      && (v in m'.pt <==> v in m.pt)
      && (v in m.pt ==>
            if Owned(m, v) && Vpn(a) <= v < Vpn(b) then Regranted(m.pt[v], m'.pt[v], perm) else m'.pt[v] == m.pt[v])
  {
    ProtectRun(m, ks, a, b, perm, v, p, g);
    ProtectRunPt(m, ks, a, b, perm, v);
    if Vpn(a) <= v < Vpn(b) {
      ListedInRange(m, ks, a, b, v);
    }
  }

  ghost predicate Owned(m: Area, v: nat) {
    exists k :: k in m.segments && v in m.segments[k].pages
  }

  lemma ListedInRange(m: Area, ks: seq<nat>, a: nat, b: nat, v: nat)
    requires AreaOk(m) && GoodRange(a, b) && ListsOverlaps(m, ks, a, b) && Vpn(a) <= v < Vpn(b)
    ensures Listed(m, ks, v) <==> SomeHas(m, v)
    ensures ListedPage(m, ks, v) <==> Owned(m, v)
  {
    forall k | k in m.segments && Has(m.segments[k], v)
      ensures exists i :: 0 <= i < |ks| && ks[i] == k
    {
      OutsideOverlap(m.segments[k], a, b, v);
    }
  }
}
