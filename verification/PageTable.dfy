/**
 The three-level page tables of every address space, in one physical memory.
 Each user table shares two root slots, hence two subtrees, with the kernel's.

 `Phys` is the memory and the frame allocator as values: allocation takes the
 least free frame, which is what `Bitmap.BitAlloc.Alloc` does. Functions that
 can panic return `None` then.
 */
module PageTable {
  import opened Sv39
  import opened Options
  import opened BitOps

  type Words = s: seq<nat> | |s| == 512 witness seq(512, i => 0)

  datatype Phys = Phys(mem: map<nat, Words>, free: set<nat>)

  datatype Entry = Entry(ppn: nat, flags: Flags)

  function Zero(): (w: Words)
    ensures forall i :: 0 <= i < 512 ==> w[i] == 0
  {
    seq(512, i => 0)
  }

  // ----- frames --------------------------------------------------------------

  ghost predicate IsMin(s: set<nat>, m: nat) {
    m in s && forall y :: y in s ==> m <= y
  }

  lemma {:induction false} MinExists(s: set<nat>, x: nat)
    requires x in s
    ensures exists m: nat :: IsMin(s, m)
    decreases x
  {
    if exists y :: y in s && y < x {
      var y :| y in s && y < x;
      MinExists(s, y);
    } else {
      assert IsMin(s, x);
    }
  }

  lemma HasMin(s: set<nat>)
    requires s != {}
    ensures exists m: nat :: IsMin(s, m)
  {
    var x :| x in s;
    MinExists(s, x);
  }

  ghost function Min(s: set<nat>): (m: nat)
    requires s != {}
    ensures IsMin(s, m)
  {
    HasMin(s);
    var m: nat :| IsMin(s, m);
    m
  }

  /** `alloc_frame`: the least free frame, zeroed. */
  ghost function AllocFrame(p: Phys): (Phys, nat)
    requires p.free != {}
  {
    var f := Min(p.free);
    (Phys(p.mem[f := Zero()], p.free - {f}), f)
  }

  ghost function Poke(p: Phys, f: nat, i: nat, e: nat): Phys
    requires f in p.mem && i < 512
  {
    p.(mem := p.mem[f := p.mem[f][i := e]])
  }

  // ----- the walk ------------------------------------------------------------

  /** One level of `find_pte`: the table that entry `i` of table `f` points to. */
  function Child(mem: map<nat, Words>, f: nat, i: nat): Option<nat>
    requires i < 512
  {
    if f in mem && IsValid(mem[f][i]) then Some(PpnOf(mem[f][i])) else None
  }

  /** The leaf table of a page, if both upper levels are present. */
  function LeafTable(mem: map<nat, Words>, root: nat, v: nat): Option<nat> {
    match Child(mem, root, Split(v).top)
    case None => None
    case Some(t) => Child(mem, t, Split(v).mid)
  }

  /** `find_pte`, decoded. */
  function Lookup(mem: map<nat, Words>, root: nat, v: nat): Option<Entry> {
    match LeafTable(mem, root, v)
    case None => None
    case Some(t) => if t in mem then Decode(mem[t][Split(v).low]) else None
  }

  // ----- the no-alias invariant ------------------------------------------------

  /** Where a table frame sits; `owner` is the root it belongs to. */
  datatype Pos =
    | RootAt(owner: nat)
    | MidAt(owner: nat, top: nat)
    | LeafAt(owner: nat, top: nat, mid: nat)

  /** Kernel slots of every root lead into the kernel's subtrees. */
  function Owner(k: nat, r: nat, i: nat): nat {
    if KernelSlot(i) then k else r
  }

  /** A pointer to the next level: none of R, W and X; U, A and D, which are reserved there, clear; neither global nor COW. */
  predicate Pointer(e: nat) {
    var flags := FlagsOf(e);
    !flags.r && !flags.w && !flags.x && !flags.u && !flags.a && !flags.d && !flags.g && !flags.cow
  }

  ghost predicate ChildAt(tag: map<nat, Pos>, k: nat, f: nat, i: nat, e: nat)
    requires f in tag
  {
    match tag[f]
    case RootAt(r) => Pointer(e) && PpnOf(e) in tag && tag[PpnOf(e)] == MidAt(Owner(k, r, i), i)
    case MidAt(r, t) => Pointer(e) && PpnOf(e) in tag && tag[PpnOf(e)] == LeafAt(r, t, i)
    case LeafAt(_, _, _) => true
  }

  datatype Tables = Tables(p: Phys, tag: map<nat, Pos>, k: nat, roots: set<nat>)

  /**
   Every table frame has one position, and every valid upper-level entry is a pointer
   to the frame of its own position; so no table frame is reached by two paths.
   */
  ghost predicate Inv(s: Tables) {
    && Tagged(s)
    && Pointers(s)
    && Shared(s)
  }

  ghost predicate Tagged(s: Tables) {
    && s.k in s.roots
    && (forall r :: r in s.roots ==> r in s.tag && s.tag[r] == RootAt(r))
    && (forall f :: f in s.tag ==> f in s.p.mem && f !in s.p.free && Frame(f))
    && (forall f :: f in s.p.free ==> Frame(f))
    && (forall f :: f in s.tag && s.tag[f].RootAt? ==> s.tag[f] == RootAt(f) && f in s.roots)
  }

  ghost predicate Pointers(s: Tables)
    requires Tagged(s)
  {
    forall f, i {:trigger ChildAt(s.tag, s.k, f, i, s.p.mem[f][i])} ::
      f in s.tag && 0 <= i < 512 && IsValid(s.p.mem[f][i]) ==> ChildAt(s.tag, s.k, f, i, s.p.mem[f][i])
  }

  lemma EntryLeads(s: Tables, f: nat, i: nat)
    requires Tagged(s) && Pointers(s) && f in s.tag && i < 512 && IsValid(s.p.mem[f][i])
    ensures ChildAt(s.tag, s.k, f, i, s.p.mem[f][i])
  {
  }

  /** User roots carry the kernel's two entries, which are present before any user root exists. */
  ghost predicate Shared(s: Tables)
    requires Tagged(s)
  {
    && (forall r, i: nat :: r in s.roots && KernelSlot(i) ==> s.p.mem[r][i] == s.p.mem[s.k][i])
    && (s.roots == {s.k} || KernelReady(s))
  }

  ghost predicate KernelReady(s: Tables)
    requires s.k in s.p.mem
  {
    IsValid(s.p.mem[s.k][KERNEL_PTE_POS]) && IsValid(s.p.mem[s.k][KERNEL_MMIO_PTE_POS])
  }

  /** The path of a page, when present, ends at the frame tagged with its indices. */
  lemma LeafTag(s: Tables, r: nat, v: nat)
    requires Inv(s) && r in s.roots && LeafTable(s.p.mem, r, v).Some?
    ensures var t := LeafTable(s.p.mem, r, v).value;
      && t in s.tag
      && s.tag[t] == LeafAt(Owner(s.k, r, Split(v).top), Split(v).top, Split(v).mid)
  {
    var i := Split(v);
    var t1 := PpnOf(s.p.mem[r][i.top]);
    EntryLeads(s, r, i.top);
    EntryLeads(s, t1, i.mid);
  }

  /** All roots walk a kernel page alike. */
  lemma KernelWalk(s: Tables, r: nat, v: nat)
    requires Inv(s) && r in s.roots && KernelVpn(v)
    ensures LeafTable(s.p.mem, r, v) == LeafTable(s.p.mem, s.k, v)
    ensures Lookup(s.p.mem, r, v) == Lookup(s.p.mem, s.k, v)
  {
    assert s.p.mem[r][Split(v).top] == s.p.mem[s.k][Split(v).top];
  }

  // ----- the hardware's walk -----------------------------------------------------

  datatype Translation = PageFault | Leaf(e: Entry, level: nat)

  /** Virtual page number field `level` of a page. */
  function VpnField(v: nat, level: nat): (i: nat)
    ensures i < 512
  {
    if level == 0 then v % 512 else VpnField(v / 512, level - 1)
  }

  /**
   Section 4.3.2 of the RISC-V Privileged Architecture, steps 2 to 5: an entry with R or X
   ends the walk at whatever level it is, one with W alone is reserved.
   */
  function Translate(mem: map<nat, Words>, f: nat, v: nat, level: nat): Translation
    decreases level
  {
    if f !in mem then PageFault else
    var e := mem[f][VpnField(v, level)];
    var flags := FlagsOf(e);
    if !flags.v || (!flags.r && flags.w) then PageFault
    else if flags.r || flags.x then Leaf(Entry(PpnOf(e), flags), level)
    else if level == 0 then PageFault
    else Translate(mem, PpnOf(e), v, level - 1)
  }

  /** What a translation that the tables hold is to the hardware. */
  function Seen(e: Option<Entry>): Translation {
    if e.None? then PageFault else
    var flags := e.value.flags;
    if (flags.r || flags.x) && (flags.w ==> flags.r) then Leaf(e.value, 0) else PageFault
  }

  lemma SplitFields(v: nat)
    ensures Split(v) == Index(VpnField(v, 2), VpnField(v, 1), VpnField(v, 0))
  {
    SplitOnVpn(v);
    assert VpnField(v, 1) == v / 512 % 512;
    assert VpnField(v, 2) == VpnField(v / 512, 1) == v / 512 / 512 % 512;
    assert v / 512 / 512 == v / 0x4_0000;
  }

  /** The hardware walks a table as `find_pte` does, and never ends above the last level. */
  lemma HardwareWalk(s: Tables, r: nat, v: nat)
    requires Inv(s) && r in s.roots
    ensures Translate(s.p.mem, r, v, 2) == Seen(Lookup(s.p.mem, r, v))
  {
    var m := s.p.mem;
    SplitFields(v);
    if IsValid(m[r][Split(v).top]) {
      EntryLeads(s, r, Split(v).top);
      var t := PpnOf(m[r][Split(v).top]);
      assert Translate(m, r, v, 2) == Translate(m, t, v, 1);
      if IsValid(m[t][Split(v).mid]) {
        EntryLeads(s, t, Split(v).mid);
        assert Translate(m, t, v, 1) == Translate(m, PpnOf(m[t][Split(v).mid]), v, 0);
      }
    }
  }

  /** A store into a leaf table does not disturb the upper levels of any walk. */
  lemma LeafPokeKeepsUpper(s: Tables, t: nat, i: nat, e: nat, r: nat, v: nat)
    requires Inv(s) && r in s.roots && t in s.tag && s.tag[t].LeafAt? && i < 512
    ensures LeafTable(Poke(s.p, t, i, e).mem, r, v) == LeafTable(s.p.mem, r, v)
  {
    var m, m' := s.p.mem, Poke(s.p, t, i, e).mem;
    var j := Split(v);
    assert r != t && m'[r] == m[r];
    if IsValid(m[r][j.top]) {
      var t1 := PpnOf(m[r][j.top]);
      EntryLeads(s, r, j.top);
      assert t1 != t && m'[t1] == m[t1];
    }
  }

  /** Two walks that end in one leaf table have the same upper indices. */
  lemma SameLeaf(s: Tables, r: nat, v: nat, r': nat, v': nat)
    requires Inv(s) && r in s.roots && r' in s.roots && CheckedVpn(v) && CheckedVpn(v')
    requires LeafTable(s.p.mem, r, v).Some?
    ensures LeafTable(s.p.mem, r', v') == LeafTable(s.p.mem, r, v) && Split(v').low == Split(v).low <==>
      v' == v && (r' == r || KernelVpn(v))
  {
    LeafTag(s, r, v);
    if LeafTable(s.p.mem, r', v').Some? {
      LeafTag(s, r', v');
    }
    if Split(v') == Split(v) {
      SplitInjective(v, v');
    }
    if v' == v && KernelVpn(v) {
      KernelWalk(s, r, v);
      KernelWalk(s, r', v);
    }
  }

  /** An entry as a decoded, possibly absent, translation. */
  function Decode(e: nat): Option<Entry> {
    if IsValid(e) then Some(Entry(PpnOf(e), FlagsOf(e))) else None
  }

  /** A store into a leaf table is seen by exactly the pages with its indices. */
  lemma LeafStore(s: Tables, r: nat, v: nat, e: nat, r': nat, v': nat)
    requires Inv(s) && r in s.roots && r' in s.roots && CheckedVpn(v) && CheckedVpn(v')
    requires LeafTable(s.p.mem, r, v).Some?
    ensures var t := LeafTable(s.p.mem, r, v).value;
      && t in s.p.mem
      && Lookup(Poke(s.p, t, Split(v).low, e).mem, r', v') ==
           if v' == v && (r' == r || KernelVpn(v)) then Decode(e) else Lookup(s.p.mem, r', v')
  {
    LeafTag(s, r, v);
    var t := LeafTable(s.p.mem, r, v).value;
    LeafPokeKeepsUpper(s, t, Split(v).low, e, r', v');
    SameLeaf(s, r, v, r', v');
    var m' := Poke(s.p, t, Split(v).low, e).mem;
    if LeafTable(s.p.mem, r', v').Some? {
      LeafTag(s, r', v');
      var t' := LeafTable(s.p.mem, r', v').value;
      assert m'[t'][Split(v').low] ==
        if t' == t && Split(v').low == Split(v).low then e else s.p.mem[t'][Split(v').low];
    }
  }

  /** A store into a leaf table keeps the invariant. */
  lemma LeafPokeKeepsInv(s: Tables, t: nat, i: nat, e: nat)
    requires Inv(s) && t in s.tag && s.tag[t].LeafAt? && i < 512
    ensures Inv(s.(p := Poke(s.p, t, i, e)))
  {
    var s' := s.(p := Poke(s.p, t, i, e));
    forall f, j | f in s'.tag && 0 <= j < 512 && IsValid(s'.p.mem[f][j])
      ensures ChildAt(s'.tag, s'.k, f, j, s'.p.mem[f][j])
    {
      if f != t {
        assert s'.p.mem[f] == s.p.mem[f];
      }
    }
    assert forall r :: r in s.roots ==> s'.p.mem[r] == s.p.mem[r];
  }

  // ----- find_pte_create ---------------------------------------------------------

  /** One level of `find_pte_create`: follow entry `i` of table `f`, or hang a fresh table there. */
  ghost function Descend(p: Phys, f: nat, i: nat): Option<(Phys, nat)>
    requires i < 512
  {
    if f !in p.mem then None
    else if IsValid(p.mem[f][i]) then Some((p, PpnOf(p.mem[f][i])))
    else if p.free == {} then None
    else
      var (q, c) := AllocFrame(p);
      Some((Poke(q, f, i, NewPte(c, TableFlags())), c))
  }

  /** `PTEFlags::V` alone: a pointer to the next level. */
  function TableFlags(): Flags {
    Flags(true, false, false, false, false, false, false, false, false)
  }

  function ChildPos(k: nat, pos: Pos, i: nat): Pos
    requires !pos.LeafAt?
  {
    match pos
    case RootAt(r) => MidAt(Owner(k, r, i), i)
    case MidAt(r, t) => LeafAt(r, t, i)
  }

  /** May an entry be added here without breaking the sharing of kernel slots? */
  ghost predicate MayGrow(s: Tables, f: nat, i: nat)
    requires f in s.tag && f in s.p.mem && i < 512
  {
    s.tag[f].RootAt? && KernelSlot(i) && s.roots != {s.k} ==> IsValid(s.p.mem[f][i])
  }

  lemma ZeroInvalid(i: nat)
    requires i < 512
    ensures !IsValid(Zero()[i])
  {
    GetMask(0, 9, 0);
    GetZero(0);
    FlagsOfBits(0, 0);
  }

  /** `m'` is the memory of `s` with the zeroed frame `c` hung at entry `i` of table `f`. */
  ghost predicate Hung(s: Tables, m': map<nat, Words>, f: nat, i: nat, c: nat)
    requires Inv(s) && f in s.tag && i < 512
  {
    && !IsValid(s.p.mem[f][i]) && c in s.p.free
    && c in m' && m'[c] == Zero()
    && f in m' && m'[f] == s.p.mem[f][i := NewPte(c, TableFlags())]
    && forall g :: g in s.tag && g != f ==> g in m' && m'[g] == s.p.mem[g]
  }

  lemma DescendHangs(s: Tables, f: nat, i: nat)
    requires Inv(s) && f in s.tag && i < 512 && Descend(s.p, f, i).Some?
    ensures var (p', c) := Descend(s.p, f, i).value;
      if IsValid(s.p.mem[f][i]) then p' == s.p && c == PpnOf(s.p.mem[f][i])
      else Hung(s, p'.mem, f, i, c) && p'.free == s.p.free - {c}
  {
  }

  lemma HungEntry(c: nat)
    requires Frame(c)
    ensures var e := NewPte(c, TableFlags()); IsValid(e) && Pointer(e) && PpnOf(e) == c
  {
    FrameInRange(c);
    PteRoundTrip(c, TableFlags());
  }

  /** Hanging a fresh, zeroed table keeps the invariant. */
  lemma HungKeepsInv(s: Tables, s': Tables, f: nat, i: nat, c: nat)
    requires Inv(s) && f in s.tag && !s.tag[f].LeafAt? && i < 512 && MayGrow(s, f, i)
    requires Hung(s, s'.p.mem, f, i, c) && s'.p.free == s.p.free - {c}
    requires s' == s.(p := s'.p, tag := s.tag[c := ChildPos(s.k, s.tag[f], i)])
    ensures Inv(s')
  {
    assert Tagged(s');
    HungKeepsPointers(s, s', f, i, c);
    HungKeepsShared(s, s', f, i, c);
  }

  lemma HungKeepsPointers(s: Tables, s': Tables, f: nat, i: nat, c: nat)
    requires Inv(s) && f in s.tag && !s.tag[f].LeafAt? && i < 512
    requires Hung(s, s'.p.mem, f, i, c) && s'.p.free == s.p.free - {c}
    requires s' == s.(p := s'.p, tag := s.tag[c := ChildPos(s.k, s.tag[f], i)]) && Tagged(s')
    ensures Pointers(s')
  {
    HungEntry(c);
    forall g, j | g in s'.tag && 0 <= j < 512 && IsValid(s'.p.mem[g][j])
      ensures ChildAt(s'.tag, s'.k, g, j, s'.p.mem[g][j])
    {
      if g == c {
        ZeroInvalid(j);
      } else if g != f || j != i {
        HungKeepsChild(s, c, ChildPos(s.k, s.tag[f], i), g, j);
      }
    }
  }

  lemma HungKeepsChild(s: Tables, c: nat, pos: Pos, g: nat, j: nat)
    requires Inv(s) && c !in s.tag && g in s.tag && j < 512 && IsValid(s.p.mem[g][j])
    ensures ChildAt(s.tag[c := pos], s.k, g, j, s.p.mem[g][j])
  {
    EntryLeads(s, g, j);
  }

  lemma HungKeepsShared(s: Tables, s': Tables, f: nat, i: nat, c: nat)
    requires Inv(s) && f in s.tag && !s.tag[f].LeafAt? && i < 512 && MayGrow(s, f, i)
    requires Hung(s, s'.p.mem, f, i, c) && s'.p.free == s.p.free - {c}
    requires s' == s.(p := s'.p, tag := s.tag[c := ChildPos(s.k, s.tag[f], i)]) && Tagged(s')
    ensures Shared(s')
  {
    if s.roots != {s.k} {
      forall r, j: nat | r in s.roots && KernelSlot(j)
        ensures s'.p.mem[r][j] == s.p.mem[r][j]
      {
        assert f == r ==> i != j;
      }
    }
  }

  /** An entry other than the new one is as before; the new one leads to the zeroed table. */
  lemma HungChild(s: Tables, m': map<nat, Words>, f: nat, i: nat, c: nat, g: nat, j: nat)
    requires Inv(s) && f in s.tag && !s.tag[f].LeafAt? && i < 512 && Hung(s, m', f, i, c)
    requires g in s.tag && j < 512
    ensures Child(m', g, j) == if g == f && j == i then Some(c) else Child(s.p.mem, g, j)
  {
    HungEntry(c);
  }

  /** Hanging a fresh, zeroed table changes no translation of any table. */
  lemma HungKeepsView(s: Tables, m': map<nat, Words>, f: nat, i: nat, c: nat, r: nat, v: nat)
    requires Inv(s) && f in s.tag && !s.tag[f].LeafAt? && i < 512 && r in s.roots && Hung(s, m', f, i, c)
    ensures Lookup(m', r, v) == Lookup(s.p.mem, r, v)
  {
    var m, j := s.p.mem, Split(v);
    LookupBelow(m, r, v);
    LookupBelow(m', r, v);
    HungChild(s, m', f, i, c, r, j.top);
    HungIsEmpty(s, m', f, i, c, j.mid);
    if Child(m, r, j.top).Some? {
      EntryLeads(s, r, j.top);
      HungBelow(s, m', f, i, c, Child(m, r, j.top).value, j.mid, j.low);
    }
  }

  lemma HungIsEmpty(s: Tables, m': map<nat, Words>, f: nat, i: nat, c: nat, j: nat)
    requires Inv(s) && f in s.tag && i < 512 && Hung(s, m', f, i, c) && j < 512
    ensures Child(m', c, j).None? && Decode(m'[c][j]).None?
  {
    ZeroInvalid(j);
  }

  /** The last two levels of a walk. */
  function Below(mem: map<nat, Words>, t1: nat, mid: nat, low: nat): Option<Entry>
    requires mid < 512 && low < 512
  {
    match Child(mem, t1, mid)
    case None => None
    case Some(t) => if t in mem then Decode(mem[t][low]) else None
  }

  lemma LookupBelow(mem: map<nat, Words>, r: nat, v: nat)
    ensures Lookup(mem, r, v) ==
      match Child(mem, r, Split(v).top)
      case None => None
      case Some(t1) => Below(mem, t1, Split(v).mid, Split(v).low)
  {
  }

  lemma HungBelow(s: Tables, m': map<nat, Words>, f: nat, i: nat, c: nat, t1: nat, mid: nat, low: nat)
    requires Inv(s) && f in s.tag && !s.tag[f].LeafAt? && i < 512 && Hung(s, m', f, i, c)
    requires t1 in s.tag && s.tag[t1].MidAt? && mid < 512 && low < 512
    ensures Below(m', t1, mid, low) == Below(s.p.mem, t1, mid, low)
  {
    HungChild(s, m', f, i, c, t1, mid);
    HungIsEmpty(s, m', f, i, c, low);
    if Child(s.p.mem, t1, mid).Some? {
      var t0 := Child(s.p.mem, t1, mid).value;
      EntryLeads(s, t1, mid);
      assert m'[t0] == s.p.mem[t0];
    }
  }

  /** `s'` has the tables of `s` and maybe new ones, all of `owner`, from free frames. */
  ghost predicate Grown(s: Tables, s': Tables, owner: nat) {
    && s'.tag.Keys + s'.p.free == s.tag.Keys + s.p.free
    && (forall f :: f in s.tag ==> f in s'.tag && s'.tag[f] == s.tag[f])
    && (forall f :: f in s'.tag && f !in s.tag ==> s'.tag[f].owner == owner)
    && OthersKept(s, s')
  }

  /** Memory outside the tables is not written. */
  ghost predicate OthersKept(s: Tables, s': Tables) {
    forall f :: f in s.p.mem && f !in s'.tag ==> f in s'.p.mem && s'.p.mem[f] == s.p.mem[f]
  }

  ghost predicate SameViews(s: Tables, s': Tables) {
    forall r, v :: r in s.roots ==> Lookup(s'.p.mem, r, v) == Lookup(s.p.mem, r, v)
  }

  /** `Descend` for a table state: it only ever adds one zeroed, correctly tagged table. */
  lemma DescendKeeps(s: Tables, f: nat, i: nat) returns (s': Tables)
    requires Inv(s) && f in s.tag && !s.tag[f].LeafAt? && i < 512
    requires MayGrow(s, f, i) && Descend(s.p, f, i).Some?
    ensures s' == s.(p := Descend(s.p, f, i).value.0, tag := s'.tag) && Inv(s')
    ensures var c := Descend(s.p, f, i).value.1;
      && c in s'.tag && s'.tag[c] == ChildPos(s.k, s.tag[f], i)
      && Child(s'.p.mem, f, i) == Some(c)
    ensures Grown(s, s', ChildPos(s.k, s.tag[f], i).owner)
    ensures SameViews(s, s')
  {
    var (p', c) := Descend(s.p, f, i).value;
    DescendHangs(s, f, i);
    s' := s.(p := p', tag := s.tag[c := ChildPos(s.k, s.tag[f], i)]);
    if IsValid(s.p.mem[f][i]) {
      EntryLeads(s, f, i);
      assert s.tag[c := ChildPos(s.k, s.tag[f], i)] == s.tag;
      assert s' == s;
    } else {
      HungKeepsInv(s, s', f, i, c);
      HungGrows(s, s', f, i, c);
      HungViews(s, s', f, i, c);
    }
  }

  lemma HungGrows(s: Tables, s': Tables, f: nat, i: nat, c: nat)
    requires Inv(s) && f in s.tag && !s.tag[f].LeafAt? && i < 512
    requires Hung(s, s'.p.mem, f, i, c) && s'.p.free == s.p.free - {c}
    requires s' == s.(p := s'.p, tag := s.tag[c := ChildPos(s.k, s.tag[f], i)])
    requires s'.p.mem.Keys >= s.p.mem.Keys && forall g :: g in s.p.mem && g != f && g != c ==> s'.p.mem[g] == s.p.mem[g]
    ensures Grown(s, s', ChildPos(s.k, s.tag[f], i).owner) && Child(s'.p.mem, f, i) == Some(c)
  {
    HungEntry(c);
  }

  lemma HungViews(s: Tables, s': Tables, f: nat, i: nat, c: nat)
    requires Inv(s) && f in s.tag && !s.tag[f].LeafAt? && i < 512 && Hung(s, s'.p.mem, f, i, c)
    ensures SameViews(s, s')
  {
    forall r, v | r in s.roots
      ensures Lookup(s'.p.mem, r, v) == Lookup(s.p.mem, r, v)
    {
      HungKeepsView(s, s'.p.mem, f, i, c, r, v);
    }
  }

  // ----- the operations --------------------------------------------------------

  /** The flags `map_one` writes: the caller's with A, D and V. */
  function Accessed(flags: Flags): Flags {
    flags.(a := true, d := true, v := true)
  }

  /** `map_one`; `None` is one of its panics. */
  ghost function MapOne(p: Phys, root: nat, v: nat, ppn: nat, flags: Flags): Option<Phys> {
    if !CheckedVpn(v) then None else
    match WalkCreate(p, root, v)
    case None => None
    case Some((q, t)) =>
      if t !in q.mem || IsValid(q.mem[t][Split(v).low]) then None
      else Some(Poke(q, t, Split(v).low, NewPte(ppn, Accessed(flags))))
  }

  /** `unmap`; a page that is not mapped is left alone. */
  ghost function Unmap(p: Phys, root: nat, v: nat): Option<Phys> {
    if !CheckedVpn(v) then None
    else if Lookup(p.mem, root, v).None? then Some(p)
    else Some(Poke(p, LeafTable(p.mem, root, v).value, Split(v).low, 0))
  }

  /** `modify_flags`; it panics on a page that is not mapped. */
  ghost function ModifyFlags(p: Phys, root: nat, v: nat, flags: Flags): Option<Phys> {
    if !CheckedVpn(v) || Lookup(p.mem, root, v).None? then None
    else
      var t := LeafTable(p.mem, root, v).value;
      Some(Poke(p, t, Split(v).low, ModifiedPte(p.mem[t][Split(v).low], flags)))
  }

  /** `new_user`: a fresh root with the kernel's two entries. */
  ghost function NewUser(p: Phys, k: nat): Option<(Phys, nat)> {
    if p.free == {} || k !in p.mem then None
    else
      var (q, f) := AllocFrame(p);
      Some((Poke(Poke(q, f, KERNEL_PTE_POS, q.mem[k][KERNEL_PTE_POS]),
                 f, KERNEL_MMIO_PTE_POS, q.mem[k][KERNEL_MMIO_PTE_POS]), f))
  }

  /** The pages of all tables that a change to page `v` of table `r` reaches. */
  predicate Reaches(r: nat, v: nat, r': nat, v': nat) {
    v' == v && (r' == r || KernelVpn(v))
  }

  /** How many tables `map_one` has to create. */
  function Missing(mem: map<nat, Words>, r: nat, v: nat): nat {
    match Child(mem, r, Split(v).top)
    case None => 2
    case Some(t) => if Child(mem, t, Split(v).mid).Some? then 0 else 1
  }

  lemma RootMayGrow(s: Tables, r: nat, i: nat)
    requires Inv(s) && r in s.roots && i < 512
    ensures MayGrow(s, r, i)
  {
  }

  /** `find_pte_create` for the two upper levels. */
  ghost function WalkCreate(p: Phys, root: nat, v: nat): Option<(Phys, nat)> {
    match Descend(p, root, Split(v).top)
    case None => None
    case Some((p1, t1)) => Descend(p1, t1, Split(v).mid)
  }

  lemma WalkCreateKeeps(s: Tables, r: nat, v: nat) returns (s': Tables)
    requires Inv(s) && r in s.roots && WalkCreate(s.p, r, v).Some?
    ensures s' == s.(p := WalkCreate(s.p, r, v).value.0, tag := s'.tag) && Inv(s')
    ensures LeafTable(s'.p.mem, r, v) == Some(WalkCreate(s.p, r, v).value.1)
    ensures Grown(s, s', Owner(s.k, r, Split(v).top))
    ensures SameViews(s, s')
  {
    var i := Split(v);
    RootMayGrow(s, r, i.top);
    var t1 := Descend(s.p, r, i.top).value.1;
    var s1 := DescendKeeps(s, r, i.top);
    s' := DescendKeeps(s1, t1, i.mid);
    TopKept(s1, s', r, i.top, t1, i.mid);
  }

  /** The second step of the walk does not disturb the first. */
  lemma TopKept(s1: Tables, s2: Tables, r: nat, i: nat, t1: nat, j: nat)
    requires Inv(s1) && Inv(s2) && r in s1.roots && i < 512 && j < 512
    requires Child(s1.p.mem, r, i) == Some(t1) && t1 in s1.tag && s1.tag[t1].MidAt?
    requires Descend(s1.p, t1, j).Some? && s2.p == Descend(s1.p, t1, j).value.0
    ensures Child(s2.p.mem, r, i) == Some(t1)
  {
    DescendHangs(s1, t1, j);
  }

  /** `find_pte_create` fails exactly when there are fewer frames than missing tables. */
  lemma WalkCreateFails(s: Tables, r: nat, v: nat)
    requires Inv(s) && r in s.roots
    ensures WalkCreate(s.p, r, v).None? <==> |s.p.free| < Missing(s.p.mem, r, v)
  {
    var i := Split(v);
    RootMayGrow(s, r, i.top);
    if Descend(s.p, r, i.top).Some? {
      var t1 := Descend(s.p, r, i.top).value.1;
      DescendHangs(s, r, i.top);
      if IsValid(s.p.mem[r][i.top]) {
        EntryLeads(s, r, i.top);
        assert s.p.free == {} <==> |s.p.free| == 0;
      } else {
        ZeroInvalid(i.mid);
        var p1 := Descend(s.p, r, i.top).value.0;
        assert |p1.free| == |s.p.free| - 1;
        assert p1.free == {} <==> |p1.free| == 0;
      }
    }
  }

  /** A store into the leaf entry of a page, as a flat update of all tables. */
  lemma LeafWrite(s: Tables, r: nat, v: nat, e: nat) returns (s': Tables)
    requires Inv(s) && r in s.roots && CheckedVpn(v) && LeafTable(s.p.mem, r, v).Some?
    ensures var t := LeafTable(s.p.mem, r, v).value;
      t in s.p.mem && s' == s.(p := Poke(s.p, t, Split(v).low, e)) && Inv(s')
    ensures OthersKept(s, s')
    ensures forall r', v' :: r' in s.roots && CheckedVpn(v') ==>
      Lookup(s'.p.mem, r', v') == if Reaches(r, v, r', v') then Decode(e) else Lookup(s.p.mem, r', v')
  {
    LeafTag(s, r, v);
    var t := LeafTable(s.p.mem, r, v).value;
    s' := s.(p := Poke(s.p, t, Split(v).low, e));
    LeafPokeKeepsInv(s, t, Split(v).low, e);
    forall r', v' | r' in s.roots && CheckedVpn(v')
      ensures Lookup(s'.p.mem, r', v') == if Reaches(r, v, r', v') then Decode(e) else Lookup(s.p.mem, r', v')
    {
      LeafStore(s, r, v, e, r', v');
    }
  }

  lemma MapOneOnMapped(s: Tables, r: nat, v: nat, ppn: nat, flags: Flags)
    requires Inv(s) && r in s.roots && CheckedVpn(v) && WalkCreate(s.p, r, v).Some?
    ensures MapOne(s.p, r, v, ppn, flags).None? <==> Lookup(s.p.mem, r, v).Some?
  {
    var s1 := WalkCreateKeeps(s, r, v);
    LeafTag(s1, r, v);
    assert Lookup(s1.p.mem, r, v) == Lookup(s.p.mem, r, v);
  }

  /** `map_one` panics exactly on a mapped page or when frames run out. */
  lemma MapOnePanics(s: Tables, r: nat, v: nat, ppn: nat, flags: Flags)
    requires Inv(s) && r in s.roots && CheckedVpn(v)
    ensures MapOne(s.p, r, v, ppn, flags).None? <==>
      Lookup(s.p.mem, r, v).Some? || |s.p.free| < Missing(s.p.mem, r, v)
  {
    WalkCreateFails(s, r, v);
    if WalkCreate(s.p, r, v).Some? {
      MapOneOnMapped(s, r, v, ppn, flags);
    }
  }

  /** `map_one` as a flat update of all tables. */
  lemma MapOneCorrect(s: Tables, r: nat, v: nat, ppn: nat, flags: Flags) returns (s': Tables)
    requires Inv(s) && r in s.roots && CheckedVpn(v) && PteRange(ppn)
    requires MapOne(s.p, r, v, ppn, flags).Some?
    ensures s' == s.(p := MapOne(s.p, r, v, ppn, flags).value, tag := s'.tag) && Inv(s')
    ensures Grown(s, s', Owner(s.k, r, Split(v).top))
    ensures forall r', v' :: r' in s.roots && CheckedVpn(v') ==>
      Lookup(s'.p.mem, r', v') ==
        if Reaches(r, v, r', v') then Some(Entry(ppn, Accessed(flags))) else Lookup(s.p.mem, r', v')
  {
    assert WalkCreate(s.p, r, v).Some?;
    var s1 := WalkCreateKeeps(s, r, v);
    var e := NewPte(ppn, Accessed(flags));
    PteRoundTrip(ppn, Accessed(flags));
    assert Decode(e) == Some(Entry(ppn, Accessed(flags)));
    s' := LeafWrite(s1, r, v, e);
    GrownThenKept(s, s1, s', Owner(s.k, r, Split(v).top));
  }

  /** The entry a caller of `map_one` asks for: its page and flags, valid, accessed and dirty. */
  predicate AsAsked(e: Entry, ppn: nat, flags: Flags) {
    && e.ppn == ppn && e.flags.v && e.flags.a && e.flags.d
    && e.flags.r == flags.r && e.flags.w == flags.w && e.flags.x == flags.x && e.flags.u == flags.u
    && e.flags.g == flags.g && e.flags.cow == flags.cow
  }

  /** The page just mapped reads back as it was asked for. */
  lemma MapOneEntry(s: Tables, r: nat, v: nat, ppn: nat, flags: Flags)
    requires Inv(s) && r in s.roots && CheckedVpn(v) && PteRange(ppn)
    requires MapOne(s.p, r, v, ppn, flags).Some?
    ensures var e := Lookup(MapOne(s.p, r, v, ppn, flags).value.mem, r, v); e.Some? && AsAsked(e.value, ppn, flags)
  {
    var s' := MapOneCorrect(s, r, v, ppn, flags);
    assert Reaches(r, v, r, v);
  }

  lemma GrownThenKept(s: Tables, s1: Tables, s': Tables, owner: nat)
    requires Grown(s, s1, owner) && OthersKept(s1, s') && s' == s1.(p := s'.p) && s'.p.free == s1.p.free
    ensures Grown(s, s', owner)
  {
  }

  /** `unmap` as a flat removal. */
  lemma UnmapCorrect(s: Tables, r: nat, v: nat) returns (s': Tables)
    requires Inv(s) && r in s.roots && CheckedVpn(v)
    ensures Unmap(s.p, r, v) == Some(s'.p) && s' == s.(p := s'.p) && Inv(s')
    ensures s'.p.free == s.p.free && OthersKept(s, s')
    ensures forall r', v' :: r' in s.roots && CheckedVpn(v') ==>
      Lookup(s'.p.mem, r', v') == if Reaches(r, v, r', v') then None else Lookup(s.p.mem, r', v')
  {
    if Lookup(s.p.mem, r, v).None? {
      s' := s;
      if KernelVpn(v) {
        forall r' | r' in s.roots
          ensures Lookup(s.p.mem, r', v).None?
        {
          KernelWalk(s, r, v);
          KernelWalk(s, r', v);
        }
      }
    } else {
      LeafTag(s, r, v);
      ZeroInvalid(0);
      s' := LeafWrite(s, r, v, 0);
    }
  }

  /** `modify_flags` as a flat change of R, W, X and U. */
  lemma ModifyFlagsCorrect(s: Tables, r: nat, v: nat, flags: Flags) returns (s': Tables)
    requires Inv(s) && r in s.roots && CheckedVpn(v) && Lookup(s.p.mem, r, v).Some?
    ensures ModifyFlags(s.p, r, v, flags) == Some(s'.p) && s' == s.(p := s'.p) && Inv(s')
    ensures s'.p.free == s.p.free && OthersKept(s, s')
    ensures forall r', v' :: r' in s.roots && CheckedVpn(v') ==>
      Lookup(s'.p.mem, r', v') ==
        if Reaches(r, v, r', v') then Some(Remode(Lookup(s.p.mem, r, v).value, flags)) else Lookup(s.p.mem, r', v')
  {
    LeafTag(s, r, v);
    var t := LeafTable(s.p.mem, r, v).value;
    var e := s.p.mem[t][Split(v).low];
    ModifiedPteMeaning(e, flags);
    assert Decode(ModifiedPte(e, flags)) == Some(Remode(Lookup(s.p.mem, r, v).value, flags));
    s' := LeafWrite(s, r, v, ModifiedPte(e, flags));
  }

  function Remode(e: Entry, flags: Flags): Entry {
    e.(flags := e.flags.(r := flags.r, w := flags.w, x := flags.x, u := flags.u))
  }

  lemma NewUserShape(s: Tables)
    requires Inv(s) && s.p.free != {}
    ensures NewUser(s.p, s.k).Some?
    ensures var (p', f) := NewUser(s.p, s.k).value;
      && f == Min(s.p.free) && f !in s.tag
      && p'.free == s.p.free - {f}
      && f in p'.mem && p'.mem[f] == Zero()[KERNEL_PTE_POS := s.p.mem[s.k][KERNEL_PTE_POS]][KERNEL_MMIO_PTE_POS := s.p.mem[s.k][KERNEL_MMIO_PTE_POS]]
      && forall g :: g in s.p.mem && g != f ==> g in p'.mem && p'.mem[g] == s.p.mem[g]
  {
  }

  /** `new_user`: the new table has the kernel's translations and no other; no table changes. */
  lemma NewUserCorrect(s: Tables) returns (s': Tables)
    requires Inv(s) && KernelReady(s) && s.p.free != {}
    ensures NewUser(s.p, s.k).Some?
    ensures var (p', f) := NewUser(s.p, s.k).value;
      && f == Min(s.p.free)
      && s' == s.(p := p', tag := s.tag[f := RootAt(f)], roots := s.roots + {f}) && Inv(s')
      && p'.free == s.p.free - {f}
      && (forall v :: Lookup(p'.mem, f, v) == if KernelVpn(v) then Lookup(s.p.mem, s.k, v) else None)
    ensures SameViews(s, s') && OthersKept(s, s')
  {
    NewUserShape(s);
    var (p', f) := NewUser(s.p, s.k).value;
    s' := s.(p := p', tag := s.tag[f := RootAt(f)], roots := s.roots + {f});
    assert Tagged(s');
    NewUserPointers(s, s', f);
    forall r, v | r in s.roots
      ensures Lookup(p'.mem, r, v) == Lookup(s.p.mem, r, v)
    {
      KeptTablesKeepView(s, p'.mem, r, v);
    }
    forall v
      ensures Lookup(p'.mem, f, v) == if KernelVpn(v) then Lookup(s.p.mem, s.k, v) else None
    {
      if KernelVpn(v) {
        KernelWalk(s', f, v);
      } else {
        ZeroInvalid(Split(v).top);
      }
    }
  }

  lemma NewUserPointers(s: Tables, s': Tables, f: nat)
    requires Inv(s) && s.p.free != {} && KernelReady(s)
    requires NewUser(s.p, s.k) == Some((s'.p, f)) && Tagged(s')
    requires s' == s.(p := s'.p, tag := s.tag[f := RootAt(f)], roots := s.roots + {f})
    ensures Pointers(s') && Shared(s')
  {
    NewUserShape(s);
    forall g, j | g in s'.tag && 0 <= j < 512 && IsValid(s'.p.mem[g][j])
      ensures ChildAt(s'.tag, s'.k, g, j, s'.p.mem[g][j])
    {
      if g == f {
        ZeroInvalid(j);
        assert KernelSlot(j) && s'.p.mem[f][j] == s.p.mem[s.k][j];
        EntryLeads(s, s.k, j);
      } else {
        EntryLeads(s, g, j);
      }
    }
  }

  /** A walk only reads table frames. */
  lemma KeptTablesKeepView(s: Tables, m': map<nat, Words>, r: nat, v: nat)
    requires Inv(s) && r in s.roots
    requires forall g :: g in s.tag ==> g in m' && m'[g] == s.p.mem[g]
    ensures Lookup(m', r, v) == Lookup(s.p.mem, r, v)
  {
    var m, j := s.p.mem, Split(v);
    LookupBelow(m, r, v);
    LookupBelow(m', r, v);
    if Child(m, r, j.top).Some? {
      EntryLeads(s, r, j.top);
      KeptBelow(s, m', Child(m, r, j.top).value, j.mid, j.low);
    }
  }

  lemma KeptBelow(s: Tables, m': map<nat, Words>, t1: nat, mid: nat, low: nat)
    requires Inv(s) && t1 in s.tag && s.tag[t1].MidAt? && mid < 512 && low < 512
    requires forall g :: g in s.tag ==> g in m' && m'[g] == s.p.mem[g]
    ensures Below(m', t1, mid, low) == Below(s.p.mem, t1, mid, low)
  {
    if Child(s.p.mem, t1, mid).Some? {
      EntryLeads(s, t1, mid);
    }
  }

  /**
   Sharing needs the kernel's slot to be filled before `new_user`: a page the
   kernel maps later is seen by the user table exactly when it was.
   */
  lemma LateKernelMapping(s: Tables, v: nat, ppn: nat, flags: Flags)
    requires Inv(s) && s.roots == {s.k} && s.p.free != {}
    requires CheckedVpn(v) && KernelVpn(v) && PteRange(ppn)
    requires MapOne(NewUser(s.p, s.k).value.0, s.k, v, ppn, flags).Some?
    ensures var (p1, u) := NewUser(s.p, s.k).value;
      var m := MapOne(p1, s.k, v, ppn, flags).value.mem;
      Lookup(m, u, v) == Lookup(m, s.k, v) <==> IsValid(s.p.mem[s.k][Split(v).top])
  {
    NewUserOutside(s);
    var (p1, u) := NewUser(s.p, s.k).value;
    var i := Split(v).top;
    var s1 := s.(p := p1);
    var s2 := MapOneCorrect(s1, s.k, v, ppn, flags);
    assert Reaches(s.k, v, s.k, v);
    UntouchedRoot(s1, s2, u, i);
    if IsValid(s.p.mem[s.k][i]) {
      RootEntryKept(s1, s.k, v, i, ppn, flags);
    }
    SameTopSameView(s2.p.mem, s.k, u, v);
  }

  /** The kernel `k` can map page `v` after the user table was made, and that table does not see it. */
  ghost predicate MissedBy(k: nat, made: (Phys, nat), v: nat, ppn: nat, flags: Flags) {
    && MapOne(made.0, k, v, ppn, flags).Some?
    && var m := MapOne(made.0, k, v, ppn, flags).value.mem;
    Lookup(m, k, v) == Some(Entry(ppn, Accessed(flags))) && Lookup(m, made.1, v) != Lookup(m, k, v)
  }

  lemma MissedByEarlyTable(s: Tables, v: nat, ppn: nat, flags: Flags)
    requires Inv(s) && s.roots == {s.k} && |s.p.free| >= 3 && !IsValid(s.p.mem[s.k][Split(v).top])
    requires CheckedVpn(v) && KernelVpn(v) && PteRange(ppn)
    ensures s.p.free != {} && NewUser(s.p, s.k).Some?
    ensures MissedBy(s.k, NewUser(s.p, s.k).value, v, ppn, flags)
  {
    assert s.p.free != {};
    NewUserOutside(s);
    NewUserShape(s);
    var q := NewUser(s.p, s.k).value.0;
    assert |q.free| == |s.p.free| - 1;
    MapOnePanics(s.(p := q), s.k, v, ppn, flags);
    var s2 := MapOneCorrect(s.(p := q), s.k, v, ppn, flags);
    assert Reaches(s.k, v, s.k, v);
    LateKernelMapping(s, v, ppn, flags);
  }

  /** A walk depends on its root only through the entry it follows. */
  lemma SameTopSameView(m: map<nat, Words>, k: nat, u: nat, v: nat)
    requires k in m && u in m && Lookup(m, k, v).Some?
    ensures m[u][Split(v).top] == m[k][Split(v).top] ==> Lookup(m, u, v) == Lookup(m, k, v)
    ensures !IsValid(m[u][Split(v).top]) ==> Lookup(m, u, v) != Lookup(m, k, v)
  {
  }

  lemma UntouchedRoot(s1: Tables, s2: Tables, u: nat, i: nat)
    requires Inv(s1) && Inv(s2) && Grown(s1, s2, s1.k) && i < 512
    requires u in s1.p.mem && u !in s1.tag && u !in s1.p.free
    ensures u in s2.p.mem && s2.p.mem[u][i] == s1.p.mem[u][i]
  {
    assert u !in s1.tag.Keys + s1.p.free;
    assert u !in s2.tag;
  }

  /** Seen from the kernel's table alone, a new user root is just another frame. */
  lemma NewUserOutside(s: Tables)
    requires Inv(s) && s.roots == {s.k} && s.p.free != {}
    ensures NewUser(s.p, s.k).Some?
    ensures var (p1, u) := NewUser(s.p, s.k).value;
      && Inv(s.(p := p1)) && u in p1.mem && u !in s.tag && u !in p1.free
      && s.k in p1.mem && p1.mem[s.k] == s.p.mem[s.k]
      && forall i: nat :: KernelSlot(i) ==> p1.mem[u][i] == s.p.mem[s.k][i]
  {
    NewUserShape(s);
    var s1 := s.(p := NewUser(s.p, s.k).value.0);
    assert Tagged(s1);
    assert forall f, j :: f in s1.tag && 0 <= j < 512 ==> s1.p.mem[f][j] == s.p.mem[f][j];
    assert Pointers(s1);
  }

  /** `map_one` never changes an upper-level entry that is already there. */
  lemma RootEntryKept(s: Tables, r: nat, v: nat, i: nat, ppn: nat, flags: Flags)
    requires Inv(s) && r in s.roots && CheckedVpn(v) && i == Split(v).top && IsValid(s.p.mem[r][i])
    requires MapOne(s.p, r, v, ppn, flags).Some?
    ensures r in MapOne(s.p, r, v, ppn, flags).value.mem
    ensures MapOne(s.p, r, v, ppn, flags).value.mem[r][i] == s.p.mem[r][i]
  {
    var t1 := PpnOf(s.p.mem[r][i]);
    EntryLeads(s, r, i);
    WalkKeepsRoot(s, r, v, i, t1);
    LeafNotRoot(s, r, v);
  }

  lemma WalkKeepsRoot(s: Tables, r: nat, v: nat, i: nat, t1: nat)
    requires Inv(s) && r in s.roots && i == Split(v).top && Child(s.p.mem, r, i) == Some(t1)
    requires WalkCreate(s.p, r, v).Some?
    ensures var p1 := WalkCreate(s.p, r, v).value.0; r in p1.mem && p1.mem[r] == s.p.mem[r]
  {
    EntryLeads(s, r, i);
    assert WalkCreate(s.p, r, v) == Descend(s.p, t1, Split(v).mid);
    DescendHangs(s, t1, Split(v).mid);
  }

  lemma LeafNotRoot(s: Tables, r: nat, v: nat)
    requires Inv(s) && r in s.roots && WalkCreate(s.p, r, v).Some?
    ensures WalkCreate(s.p, r, v).value.1 != r
  {
    var s1 := WalkCreateKeeps(s, r, v);
    LeafTag(s1, r, v);
  }
}
