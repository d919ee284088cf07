/** The segment code of one address space, step by step, proved against `VmaRange`. */
module Segments {
  import opened Bitmap
  import opened Options
  import opened Sv39
  import opened PT = PageTable
  import opened Cow
  import opened VmaRange

  const MMAP_BOTTOM: nat := 0xfe5f_f000
  const MMAP_TOP: nat := 0xff5f_f000

  /** `[x, x + len)` is clear of every segment. */
  ghost predicate Clear(m: Area, x: nat, len: nat) {
    forall k :: k in m.segments ==> x + len <= m.segments[k].start || m.segments[k].end <= x
  }

  /** The keys of the ordered map, ascending. */
  ghost predicate KeysInOrder(segs: map<nat, Seg>, ks: seq<nat>) {
    && (forall i :: 0 <= i < |ks| ==> ks[i] in segs)
    && (forall k :: k in segs ==> k in ks)
    && (forall i, j :: 0 <= i < j < |ks| ==> ks[i] < ks[j])
  }

  /** `idx` are those of the first `i` keys whose segments meet the range. */
  ghost predicate Collected(segs: map<nat, Seg>, ks: seq<nat>, i: nat, idx: seq<nat>, start: nat, end: nat)
    requires i <= |ks|
  {
    && (forall j, l :: 0 <= j < l < |idx| ==> idx[j] < idx[l])
    && (forall j :: 0 <= j < |idx| ==> idx[j] in segs && Overlaps(segs[idx[j]], start, end))
    && (forall j :: 0 <= j < |idx| && i < |ks| ==> idx[j] < ks[i])
    && (forall k :: k in ks[..i] && k in segs && Overlaps(segs[k], start, end) ==> k in idx)
  }

  lemma CollectNext(segs: map<nat, Seg>, ks: seq<nat>, i: nat, idx: seq<nat>, start: nat, end: nat)
    requires KeysInOrder(segs, ks) && i < |ks| && Collected(segs, ks, i, idx, start, end)
    ensures Collected(segs, ks, i + 1, if Overlaps(segs[ks[i]], start, end) then idx + [ks[i]] else idx, start, end)
  {
    assert ks[..i + 1] == ks[..i] + [ks[i]];
  }

  lemma CollectedAll(m: Area, ks: seq<nat>, idx: seq<nat>, start: nat, end: nat)
    requires KeysInOrder(m.segments, ks) && Collected(m.segments, ks, |ks|, idx, start, end)
    ensures ListsOverlaps(m, idx, start, end)
  {
    assert ks[..|ks|] == ks;
  }

  /** The residency that the splits of `split_and_modify_if_overlap` demand. */
  ghost predicate CanProtect(s: Seg, a: nat, b: nat) {
    if s.start < a then CanSplit(s, a) else b < s.end ==> CanSplit(s, b)
  }

  lemma SplitPagesDone(pages: map<nat, nat>, left: map<nat, nat>, right: map<nat, nat>, lo: nat, hi: nat)
    requires forall u :: u in left <==> u in pages && !(lo <= u < hi)
    requires forall u :: u in right <==> u in pages && lo <= u < hi
    requires forall u :: u in left ==> left[u] == pages[u]
    requires forall u :: u in right ==> right[u] == pages[u]
    ensures left == pages - Range(lo, hi)
    ensures right == pages - (pages.Keys - Range(lo, hi))
  {
  }

  /** Exactly the pages and translations of `[lo, hi)` that belong to segments are gone. */
  ghost predicate Unmapped(m: Area, m': Area, lo: nat, hi: nat) {
    && (forall v: nat, g: nat :: Owns(m', v, g) <==> Owns(m, v, g) && !(lo <= v < hi))
    && (forall v: nat :: v in m'.pt <==> v in m.pt && !(SomeHas(m, v) && lo <= v < hi))
    && (forall v: nat :: v in m'.pt ==> m'.pt[v] == m.pt[v])
  }

  /** The pages that stay in segments have the permission they had. */
  ghost predicate PermsKept(m: Area, m': Area, a: nat, b: nat) {
    forall v: nat, p: Perm :: HasPerm(m', v, p) <==>
      exists k :: k in m.segments && Permits(m.segments[k], v, p) && StaysIn(m.segments[k], a, b, v)
  }

  lemma UnmapAllPerms(m: Area, ks: seq<nat>, start: nat, end: nat)
    requires AreaOk(m) && start < end && ListsOverlaps(m, ks, start, end)
    ensures var a, b := AlignDown(start), AlignPageUp(end); PermsKept(m, UnmapKeys(m, ks, a, b), a, b)
  {
    var a, b := AlignDown(start), AlignPageUp(end);
    forall v: nat, p: Perm
      ensures HasPerm(UnmapKeys(m, ks, a, b), v, p) <==>
        exists k :: k in m.segments && Permits(m.segments[k], v, p) && StaysIn(m.segments[k], a, b, v)
    {
      UnmapPerms(m, ks, start, end, v, p);
    }
  }

  lemma UnmapAll(m: Area, ks: seq<nat>, start: nat, end: nat)
    requires AreaOk(m) && start < end && ListsOverlaps(m, ks, start, end)
    ensures var a, b := AlignDown(start), AlignPageUp(end);
      Unmapped(m, UnmapKeys(m, ks, a, b), Vpn(a), Vpn(b))
  {
    var a, b := AlignDown(start), AlignPageUp(end);
    var m' := UnmapKeys(m, ks, a, b);
    forall v: nat, g: nat
      ensures Owns(m', v, g) <==> Owns(m, v, g) && !(Vpn(a) <= v < Vpn(b))
    {
      UnmapPages(m, ks, start, end, v, g);
    }
    forall v: nat
      ensures v in m'.pt <==> v in m.pt && !(SomeHas(m, v) && Vpn(a) <= v < Vpn(b))
      ensures v in m'.pt ==> m'.pt[v] == m.pt[v]
    {
      UnmapTranslations(m, ks, start, end, v);
    }
  }

  /** Covered pages in range have the new permission, all others keep theirs; */
  ghost predicate PermsSet(m: Area, m': Area, lo: nat, hi: nat, perm: Perm) {
    forall v: nat, p: Perm :: HasPerm(m', v, p) <==>
      if SomeHas(m, v) && lo <= v < hi then p == perm else HasPerm(m, v, p)
  }

  /** no page changes hands; */
  ghost predicate SameOwners(m: Area, m': Area) {
    forall v: nat, g: nat :: Owns(m', v, g) <==> Owns(m, v, g)
  }

  /** and the entries of resident pages in range change in R, W, X and U only. */
  ghost predicate EntriesSet(m: Area, m': Area, lo: nat, hi: nat, perm: Perm) {
    && (forall v: nat :: v in m'.pt <==> v in m.pt)
    && (forall v: nat :: v in m.pt ==>
          if Owned(m, v) && lo <= v < hi then Regranted(m.pt[v], m'.pt[v], perm) else m'.pt[v] == m.pt[v])
  }

  lemma MprotectPerms(m: Area, ks: seq<nat>, a: nat, b: nat, perm: Perm)
    requires AreaOk(m) && GoodRange(a, b) && ListsOverlaps(m, ks, a, b)
    ensures AreaOk(ProtectKeysIn(m, ks, a, b, perm))
    ensures PermsSet(m, ProtectKeysIn(m, ks, a, b, perm), Vpn(a), Vpn(b), perm)
  {
    MprotectCorrect(m, ks, a, b, perm, 0, perm, 0);
    var m' := ProtectKeysIn(m, ks, a, b, perm);
    forall v: nat, p: Perm
      ensures HasPerm(m', v, p) <==> if SomeHas(m, v) && Vpn(a) <= v < Vpn(b) then p == perm else HasPerm(m, v, p)
    {
      MprotectCorrect(m, ks, a, b, perm, v, p, 0);
    }
  }

  lemma MprotectOwners(m: Area, ks: seq<nat>, a: nat, b: nat, perm: Perm)
    requires AreaOk(m) && GoodRange(a, b) && ListsOverlaps(m, ks, a, b)
    ensures SameOwners(m, ProtectKeysIn(m, ks, a, b, perm))
  {
    var m' := ProtectKeysIn(m, ks, a, b, perm);
    forall v: nat, g: nat
      ensures Owns(m', v, g) <==> Owns(m, v, g)
    {
      MprotectCorrect(m, ks, a, b, perm, v, perm, g);
    }
  }

  lemma MprotectEntries(m: Area, ks: seq<nat>, a: nat, b: nat, perm: Perm)
    requires AreaOk(m) && GoodRange(a, b) && ListsOverlaps(m, ks, a, b)
    ensures EntriesSet(m, ProtectKeysIn(m, ks, a, b, perm), Vpn(a), Vpn(b), perm)
  {
    var m' := ProtectKeysIn(m, ks, a, b, perm);
    forall v: nat
      ensures v in m'.pt <==> v in m.pt
      ensures v in m.pt ==>
        if Owned(m, v) && Vpn(a) <= v < Vpn(b) then Regranted(m.pt[v], m'.pt[v], perm) else m'.pt[v] == m.pt[v]
    {
      MprotectCorrect(m, ks, a, b, perm, v, perm, 0);
    }
  }

  /** The segments of the keys from `i` on are still as in `m`. */
  ghost predicate ComingKept(m: Area, m': Area, ks: seq<nat>, i: nat) {
    forall j :: i <= j < |ks| ==> ks[j] in m.segments && ks[j] in m'.segments && m'.segments[ks[j]] == m.segments[ks[j]]
  }

  lemma UnmapOneOthers(m: Area, m1: Area, ks: seq<nat>, i: nat, a: nat, b: nat)
    requires AreaOk(m) && GoodRange(a, b) && Distinct(ks) && i < |ks| && ComingKept(m, m1, ks, i)
    ensures ComingKept(m, UnmapOne(m1, ks[i], a, b), ks, i + 1)
  {
    if CutRight(m.segments[ks[i]], a, b).Some? {
      OneSplit(m, a, b, ks[i]);
    }
  }

  /** Protecting one listed segment leaves those still to come as they were. */
  lemma ProtectOthers(m: Area, m1: Area, ks: seq<nat>, i: nat, a: nat, b: nat, perm: Perm)
    requires AreaOk(m) && a <= b && Distinct(ks) && i < |ks| && ComingKept(m, m1, ks, i)
    requires Overlaps(m.segments[ks[i]], a, b)
    ensures ComingKept(m, Protect(m1, ks[i], a, b, perm), ks, i + 1)
  {
    var k := ks[i];
    if m.segments[k].start < a {
      CutsAreFree(m, k, a);
    }
    if b < m.segments[k].end {
      CutsAreFree(m, k, b);
    }
  }

  /** Nothing starting in `[from, to)` is clear of a segment that is met from `from` and ends at `to`. */
  lemma NotClear(m: Area, k: nat, from: nat, len: nat)
    requires k in m.segments && m.segments[k].start < from + len
    ensures forall x: nat :: from <= x < m.segments[k].end ==> !Clear(m, x, len)
  {
  }

  class AddressSpace {
    var segments: map<nat, Seg>
    var pt: map<nat, Entry>

    ghost function State(): Area
      reads this
    {
      Area(segments, pt)
    }

    /** Iteration over the ordered map. */
    method SortedKeys() returns (ks: seq<nat>)
      ensures KeysInOrder(segments, ks)
    {
      ks := [];
      var rest := segments.Keys;
      while rest != {}
        invariant rest <= segments.Keys
        invariant forall k :: k in segments <==> k in rest || k in ks
        invariant forall i, j :: 0 <= i < j < |ks| ==> ks[i] < ks[j]
        invariant forall i, k :: 0 <= i < |ks| && k in rest ==> ks[i] < k
        decreases |rest|
      {
        HasMin(rest);
        var k :| k in rest && forall y :: y in rest ==> k <= y;
        ks := ks + [k];
        rest := rest - {k};
      }
    }

    /** `find_anywhere`: exact first fit. */
    method FindAnywhere(hint: nat, len: nat) returns (r: Option<nat>)
      requires forall k :: k in segments ==> segments[k].start == k
      ensures var lo := if hint < MMAP_BOTTOM then MMAP_BOTTOM else hint;
        && (r.Some? ==>
              && lo <= r.value && Clear(State(), r.value, len)
              && forall x: nat :: lo <= x < r.value ==> !Clear(State(), x, len))
        && (r.None? ==> forall x: nat :: lo <= x && Clear(State(), x, len) ==> MMAP_TOP < x + len)
    {
      var ks := SortedKeys();
      var lo := if hint < MMAP_BOTTOM then MMAP_BOTTOM else hint;
      var lastEnd := lo;
      var i := 0;
      while i < |ks|
        invariant 0 <= i <= |ks| && lo <= lastEnd
        invariant forall j :: 0 <= j < i ==> segments[ks[j]].end <= lastEnd
        invariant forall x: nat :: lo <= x < lastEnd ==> !Clear(State(), x, len)
      {
        if lastEnd + len <= ks[i] {
          assert forall k :: k in segments ==> k in ks;
          return Some(lastEnd);
        }
        NotClear(State(), ks[i], lastEnd, len);
        lastEnd := if lastEnd < segments[ks[i]].end then segments[ks[i]].end else lastEnd;
        i := i + 1;
      }
      if lastEnd + len <= MMAP_TOP {
        return Some(lastEnd);
      }
      return None;
    }

    /** `split`, with the loop of `PhysMemoryAddr::split` that moves pages to the right part. */
    static method SplitSeg(s: Seg, pos: nat) returns (left: Seg, right: Seg)
      requires CanSplit(s, pos) && Vpn(pos) <= Vpn(s.end)
      ensures left == LeftOf(s, pos) && right == RightOf(s, pos)
    {
      var lp: map<nat, nat>, rp: map<nat, nat> := s.pages, map[];
      var v := Vpn(pos);
      while v < Vpn(s.end)
        invariant Vpn(pos) <= v <= Vpn(s.end)
        invariant forall u :: u in lp <==> u in s.pages && !(Vpn(pos) <= u < v)
        invariant forall u :: u in rp <==> u in s.pages && Vpn(pos) <= u < v
        invariant forall u :: u in lp ==> lp[u] == s.pages[u]
        invariant forall u :: u in rp ==> rp[u] == s.pages[u]
      {
        rp := rp[v := lp[v]];
        lp := lp - {v};
        v := v + 1;
      }
      SplitPagesDone(s.pages, lp, rp, Vpn(pos), Vpn(s.end));
      left := s.(end := pos, pages := lp);
      right := Seg(pos, s.end, s.perm, rp);
    }

    /** `remove`: drop each page and its translation. */
    method Remove(s: Seg) returns (s': Seg)
      modifies this`pt
      ensures s' == s.(pages := s.pages - Range(Vpn(s.start), Vpn(s.end)))
      ensures pt == old(pt) - Range(Vpn(s.start), Vpn(s.end))
    {
      var pages := s.pages;
      var v := Vpn(s.start);
      while v < Vpn(s.end)
        invariant Vpn(s.start) <= v && (v <= Vpn(s.end) || v == Vpn(s.start))
        invariant pages == s.pages - Range(Vpn(s.start), v)
        invariant pt == old(pt) - Range(Vpn(s.start), v)
      {
        pages := pages - {v};
        pt := pt - {v};
        v := v + 1;
      }
      s' := s.(pages := pages);
    }

    /** `unmap_if_overlap`. */
    method UnmapIfOverlap(s: Seg, start: nat, end: nat) returns (stay: Seg, right: Option<Seg>)
      requires SegOk(s) && start < end
      requires Overlaps(s, AlignDown(start), AlignPageUp(end)) ==> CanCut(s, AlignDown(start), AlignPageUp(end))
      modifies this`pt
      ensures var a, b := AlignDown(start), AlignPageUp(end);
        if Overlaps(s, a, b) then
          stay == CutStay(s, a, b) && right == CutRight(s, a, b) && pt == old(pt) - Range(CutFrom(s, a), CutTo(s, b))
        else stay == s && right == None && pt == old(pt)
    {
      var a, b := AlignDown(start), AlignPageUp(end);
      RoundRange(start, end);
      if !Overlaps(s, a, b) {
        return s, None;
      }
      if a <= s.start {
        if b < s.end {
          var l, r := SplitSeg(s, b);
          l := Remove(l);
          return r, None;
        }
        stay := Remove(s);
        return stay, None;
      }
      if b < s.end {
        var l, r := SplitSeg(s, b);
        var l', mid := SplitSeg(l, a);
        mid := Remove(mid);
        return l', Some(r);
      }
      var l, r := SplitSeg(s, a);
      r := Remove(r);
      return l, None;
    }

    /** The first loop of `unmap` and `mprotect`: the keys of the segments that meet the range. */
    method OverlappingKeys(start: nat, end: nat) returns (idx: seq<nat>)
      ensures ListsOverlaps(State(), idx, start, end)
    {
      var ks := SortedKeys();
      idx := [];
      var i := 0;
      while i < |ks|
        invariant 0 <= i <= |ks| && Collected(segments, ks, i, idx, start, end)
      {
        CollectNext(segments, ks, i, idx, start, end);
        if Overlaps(segments[ks[i]], start, end) {
          idx := idx + [ks[i]];
        }
        i := i + 1;
      }
      CollectedAll(State(), ks, idx, start, end);
    }

    /** `VmaRange::unmap`. */
    method Unmap(start: nat, end: nat)
      requires AreaOk(State()) && start <= end
      requires forall k :: k in segments && Overlaps(segments[k], start, end) ==> CanCut(segments[k], AlignDown(start), AlignPageUp(end))
      modifies this
      ensures start == end ==> State() == old(State())
      ensures start < end ==> var lo, hi := Vpn(AlignDown(start)), Vpn(AlignPageUp(end));
        Unmapped(old(State()), State(), lo, hi)
      ensures start < end ==> PermsKept(old(State()), State(), AlignDown(start), AlignPageUp(end))
    {
      if start == end {
        return;
      }
      ghost var m := State();
      var ks := OverlappingKeys(start, end);
      UnmapListed(ks, start, end);
      UnmapAll(m, ks, start, end);
      UnmapAllPerms(m, ks, start, end);
    }

    /** One round of the second loop of `unmap`. */
    method UnmapSegment(k: nat, start: nat, end: nat)
      requires k in segments && SegOk(segments[k]) && start < end
      requires Overlaps(segments[k], AlignDown(start), AlignPageUp(end))
      requires CanCut(segments[k], AlignDown(start), AlignPageUp(end))
      modifies this
      ensures State() == UnmapOne(old(State()), k, AlignDown(start), AlignPageUp(end))
    {
      var stay, right := UnmapIfOverlap(segments[k], start, end);
      segments := segments[k := stay];
      if right.Some? {
        segments := segments[right.value.start := right.value];
      }
    }

    /** The second loop of `unmap`. */
    method UnmapListed(ks: seq<nat>, start: nat, end: nat)
      requires AreaOk(State()) && start < end && ListsOverlaps(State(), ks, start, end)
      requires forall k :: k in segments && Overlaps(segments[k], start, end) ==> CanCut(segments[k], AlignDown(start), AlignPageUp(end))
      modifies this
      ensures State() == UnmapKeys(old(State()), ks, AlignDown(start), AlignPageUp(end))
    {
      ghost var m := State();
      ghost var a, b := AlignDown(start), AlignPageUp(end);
      var i := 0;
      while i < |ks|
        invariant 0 <= i <= |ks|
        invariant UnmapKeys(State(), ks[i..], a, b) == UnmapKeys(m, ks, a, b)
        invariant ComingKept(m, State(), ks, i)
      {
        RoundingOverlap(m.segments[ks[i]], start, end);
        assert ks[i..][0] == ks[i] && ks[i..][1..] == ks[i + 1..];
        UnmapOneOthers(m, State(), ks, i, a, b);
        UnmapSegment(ks[i], start, end);
        i := i + 1;
      }
    }

    /** `modify`. */
    method Modify(s: Seg, perm: Perm) returns (s': Seg)
      requires forall v :: v in s.pages ==> v in pt
      modifies this`pt
      ensures s' == s.(perm := perm) && pt == ModifyPt(old(pt), s.pages, perm)
      ensures forall v :: v in s.pages ==> Regranted(old(pt)[v], pt[v], perm)
      ensures forall v :: v in old(pt) && v !in s.pages ==> pt[v] == old(pt)[v]
    {
      s' := s.(perm := perm);
      var rest := s.pages.Keys;
      while rest != {}
        invariant rest <= s.pages.Keys && pt.Keys == old(pt).Keys
        invariant forall v :: v in pt ==>
          pt[v] == (if v in s.pages && v !in rest then Remode(old(pt)[v], PermFlags(perm)) else old(pt)[v])
        decreases |rest|
      {
        var v :| v in rest;
        pt := pt[v := Remode(pt[v], PermFlags(perm))];
        rest := rest - {v};
      }
    }

    /** `split_and_modify_if_overlap` on an overlapping segment, with the insertions of `mprotect`. */
    method ProtectSegment(k: nat, start: nat, end: nat, perm: Perm)
      requires k in segments && start <= end && Overlaps(segments[k], start, end)
      requires CanProtect(segments[k], start, end)
      requires forall v :: v in segments[k].pages ==> v in pt
      modifies this
      ensures State() == Protect(old(State()), k, start, end, perm)
    {
      var s := segments[k];
      if start <= s.start {
        if end < s.end {
          var l, r := SplitSeg(s, end);
          l := Modify(l, perm);
          segments := segments[k := l][end := r];
        } else {
          s := Modify(s, perm);
          segments := segments[k := s];
        }
      } else if end < s.end {
        var l, r := SplitSeg(s, end);
        var l', mid := SplitSeg(l, start);
        mid := Modify(mid, perm);
        segments := segments[k := l'][end := r][start := mid];
      } else {
        var l, r := SplitSeg(s, start);
        r := Modify(r, perm);
        segments := segments[k := l][start := r];
      }
    }

    /** `VmaRange::mprotect`; a pointwise update when the range is aligned and not empty. */
    method Mprotect(start: nat, end: nat, perm: Perm) returns (ghost ks: seq<nat>)
      requires AreaOk(State()) && start <= end
      requires forall k :: k in segments && Overlaps(segments[k], start, end) ==> CanProtect(segments[k], start, end)
      requires forall k, v :: k in segments && v in segments[k].pages ==> v in pt
      modifies this
      ensures ListsOverlaps(old(State()), ks, start, end) && State() == ProtectKeysIn(old(State()), ks, start, end, perm)
      ensures GoodRange(start, end) ==> AreaOk(State())
      ensures GoodRange(start, end) ==> PermsSet(old(State()), State(), Vpn(start), Vpn(end), perm)
      ensures GoodRange(start, end) ==> SameOwners(old(State()), State())
      ensures GoodRange(start, end) ==> EntriesSet(old(State()), State(), Vpn(start), Vpn(end), perm)
    {
      ghost var m := State();
      var idx := OverlappingKeys(start, end);
      ks := idx;
      ProtectListed(idx, start, end, perm);
      if GoodRange(start, end) {
        MprotectPerms(m, idx, start, end, perm);
        MprotectOwners(m, idx, start, end, perm);
        MprotectEntries(m, idx, start, end, perm);
      }
    }

    /** The second loop of `mprotect`. */
    method ProtectListed(ks: seq<nat>, start: nat, end: nat, perm: Perm)
      requires AreaOk(State()) && start <= end && ListsOverlaps(State(), ks, start, end)
      requires forall k :: k in segments && Overlaps(segments[k], start, end) ==> CanProtect(segments[k], start, end)
      requires forall k, v :: k in segments && v in segments[k].pages ==> v in pt
      modifies this
      ensures State() == ProtectKeysIn(old(State()), ks, start, end, perm)
    {
      ghost var m := State();
      var i := 0;
      while i < |ks|
        invariant 0 <= i <= |ks|
        invariant ProtectKeysIn(State(), ks[i..], start, end, perm) == ProtectKeysIn(m, ks, start, end, perm)
        invariant ComingKept(m, State(), ks, i)
        invariant pt.Keys == m.pt.Keys
      {
        assert ks[i..][0] == ks[i] && ks[i..][1..] == ks[i + 1..];
        ProtectOthers(m, State(), ks, i, start, end, perm);
        ProtectSegment(ks[i], start, end, perm);
        i := i + 1;
      }
    }
  }
}
