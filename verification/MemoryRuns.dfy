/**
 Whole runs of the memory stack: page tables and data pages that come and go in
 one physical memory. `frames` is each table's `Vec<FrameTracker>`, `held` the
 frames of all other live trackers.
 */
module MemoryRuns {
  import opened Bitmap
  import opened Options
  import opened Sv39
  import opened PageTable

  datatype Mach = Mach(p: Phys, k: nat, frames: map<nat, set<nat>>, held: set<nat>)

  /** One call into the memory stack. `NewTable` and the allocations name the frames they get. */
  datatype Op =
    | Map(r: nat, v: nat, ppn: nat, flags: Flags)
    | Unmap(r: nat, v: nat)
    | Modify(r: nat, v: nat, flags: Flags)
    | NewTable(r: nat)
    | DropTable(r: nat)
    | AllocPage(f: nat)
    | AllocPages(base: nat, n: nat)
    | DropPage(f: nat)
    | Store(f: nat, i: nat, w: nat)

  /** Capacity of `BitAlloc16M`. */
  const FRAME_LEVEL: nat := 5

  /** The calls the kernel makes: a kernel address is only ever mapped through the kernel's own table. */
  ghost predicate Enabled(m: Mach, op: Op) {
    match op
    case Map(r, v, ppn, _) => r in m.frames && CheckedVpn(v) && PteRange(ppn) && (r == m.k || !KernelVpn(v))
    case Unmap(r, v) => r in m.frames && CheckedVpn(v)
    case Modify(r, v, _) => r in m.frames && CheckedVpn(v)
    case NewTable(r) =>
      && m.p.free != {} && r == Min(m.p.free)
      && m.k in m.p.mem && KernelReady(Tables(m.p, map[], m.k, {}))
    case DropTable(r) => r in m.frames && r != m.k
    case AllocPage(f) => m.p.free != {} && f == Min(m.p.free)
    case AllocPages(b, n) =>
      n > 0 && Fits(m.p.free, Cap(FRAME_LEVEL), b, n, 1) && NoFitBelow(m.p.free, Cap(FRAME_LEVEL), n, 1, b)
    case DropPage(f) => f in m.held
    case Store(f, i, _) => f in m.held && f in m.p.mem && i < 512
  }

  /** Zeroing a run of frames, as `FrameTracker::new` does one by one. */
  ghost function ZeroAll(mem: map<nat, Words>, base: nat, n: nat): map<nat, Words> {
    if n == 0 then mem else ZeroAll(mem, base, n - 1)[base + n - 1 := Zero()]
  }

  /** One call; `None` when it panics. */
  ghost function Step(m: Mach, op: Op): Option<Mach>
    requires Enabled(m, op)
  {
    match op
    case Map(r, v, ppn, flags) =>
      (match PageTable.MapOne(m.p, r, v, ppn, flags)
       case None => None
       case Some(p') => Some(m.(p := p', frames := m.frames[r := m.frames[r] + (m.p.free - p'.free)])))
    case Unmap(r, v) =>
      (match PageTable.Unmap(m.p, r, v)
       case None => None
       case Some(p') => Some(m.(p := p')))
    case Modify(r, v, flags) =>
      (match PageTable.ModifyFlags(m.p, r, v, flags)
       case None => None
       case Some(p') => Some(m.(p := p')))
    case NewTable(r) =>
      (match NewUser(m.p, m.k)
       case None => None
       case Some((p', f)) => Some(m.(p := p', frames := m.frames[f := {f}])))
    case DropTable(r) =>
      Some(m.(p := m.p.(free := m.p.free + m.frames[r]), frames := m.frames - {r}))
    case AllocPage(f) =>
      Some(m.(p := AllocFrame(m.p).0, held := m.held + {f}))
    case AllocPages(b, n) =>
      Some(m.(p := Phys(ZeroAll(m.p.mem, b, n), m.p.free - Range(b, b + n)), held := m.held + Range(b, b + n)))
    case DropPage(f) =>
      Some(m.(p := m.p.(free := m.p.free + {f}), held := m.held - {f}))
    case Store(f, i, w) =>
      Some(m.(p := Poke(m.p, f, i, w)))
  }

  // ----- the flat picture --------------------------------------------------

  /** What page `v` of table `r` translates to, for all tables at once. */
  type View = (nat, nat) -> Option<Entry>

  /** `w` is what the tables in memory say, on every table and every checked page. */
  ghost predicate Agrees(w: View, p: Phys, roots: set<nat>) {
    forall r, v :: r in roots && CheckedVpn(v) ==> w(r, v) == Lookup(p.mem, r, v)
  }

  function Put(w: View, r: nat, v: nat, e: Option<Entry>): View {
    (r': nat, v': nat) => if Reaches(r, v, r', v') then e else w(r', v')
  }

  function FlatStep(w: View, k: nat, op: Op): View {
    match op
    case Map(r, v, ppn, flags) => Put(w, r, v, Some(Entry(ppn, Accessed(flags))))
    case Unmap(r, v) => Put(w, r, v, None)
    case Modify(r, v, flags) => if w(r, v).Some? then Put(w, r, v, Some(Remode(w(r, v).value, flags))) else w
    case NewTable(r) => (r': nat, v: nat) => if r' != r then w(r', v) else if KernelVpn(v) then w(k, v) else None
    case _ => w
  }

  // ----- the invariant ---------------------------------------------------------

  ghost function TablesOf(m: Mach, tag: map<nat, Pos>): Tables {
    Tables(m.p, tag, m.k, m.frames.Keys)
  }

  ghost function OwnedBy(tag: map<nat, Pos>, r: nat): set<nat> {
    set f | f in tag && tag[f].owner == r
  }

  /** Every frame is free, a data page, or a table frame; a table's trackers are its own frames. */
  ghost predicate MachInv(m: Mach, tag: map<nat, Pos>) {
    Inv(TablesOf(m, tag)) && Accounted(m, tag)
  }

  ghost predicate Accounted(m: Mach, tag: map<nat, Pos>) {
    && (forall f :: f in tag ==> tag[f].owner in m.frames)
    && (forall r :: r in m.frames ==> m.frames[r] == OwnedBy(tag, r))
    && m.held !! tag.Keys && m.held !! m.p.free
    && (forall f :: f in m.held ==> Frame(f) && f in m.p.mem)
  }

  ghost function AllFrames(m: Mach, tag: map<nat, Pos>): set<nat> {
    m.p.free + m.held + tag.Keys
  }

  /** No frame has two owners. */
  lemma OneOwner(m: Mach, tag: map<nat, Pos>, r: nat, r': nat)
    requires MachInv(m, tag) && r in m.frames && r' in m.frames && r != r'
    ensures m.frames[r] !! m.frames[r']
    ensures m.frames[r] !! m.held && m.frames[r] !! m.p.free && m.held !! m.p.free
  {
  }

  // ----- every step keeps it ----------------------------------------------------

  /** Changes outside the tables keep the table invariant and every translation. */
  lemma OutsideKeeps(s: Tables, p': Phys)
    requires Inv(s)
    requires forall g :: g in s.tag ==> g in p'.mem && p'.mem[g] == s.p.mem[g] && g !in p'.free
    requires forall g :: g in p'.free ==> Frame(g)
    ensures Inv(s.(p := p')) && SameViews(s, s.(p := p'))
  {
    var s' := s.(p := p');
    assert Pointers(s') by {
      forall f, i | f in s'.tag && 0 <= i < 512 && IsValid(s'.p.mem[f][i])
        ensures ChildAt(s'.tag, s'.k, f, i, s'.p.mem[f][i])
      {
        assert s'.p.mem[f][i] == s.p.mem[f][i];
      }
    }
    forall r, v | r in s.roots
      ensures Lookup(p'.mem, r, v) == Lookup(s.p.mem, r, v)
    {
      KeptTablesKeepView(s, p'.mem, r, v);
    }
  }

  /** What one step promises. */
  ghost predicate StepOk(m: Mach, tag: map<nat, Pos>, w: View, op: Op, m': Mach, tag': map<nat, Pos>) {
    && MachInv(m', tag')
    && m'.k == m.k
    && AllFrames(m', tag') == AllFrames(m, tag)
    && Agrees(FlatStep(w, m.k, op), m'.p, m'.frames.Keys)
  }

  ghost predicate Ready(m: Mach, tag: map<nat, Pos>, w: View, op: Op) {
    && MachInv(m, tag) && Agrees(w, m.p, m.frames.Keys)
    && Enabled(m, op) && Step(m, op).Some?
  }

  lemma MapStep(m: Mach, tag: map<nat, Pos>, w: View, op: Op) returns (tag': map<nat, Pos>)
    requires Ready(m, tag, w, op) && op.Map?
    ensures StepOk(m, tag, w, op, Step(m, op).value, tag')
  {
    var Map(r, v, ppn, flags) := op;
    var s := TablesOf(m, tag);
    var s' := MapOneCorrect(s, r, v, ppn, flags);
    tag' := s'.tag;
    var m' := Step(m, op).value;
    assert m'.frames.Keys == m.frames.Keys;
    MapFrames(m, tag, r, m', s');
    MapAgrees(m, w, op, s'.p);
  }

  lemma MapAgrees(m: Mach, w: View, op: Op, p': Phys)
    requires Agrees(w, m.p, m.frames.Keys) && op.Map?
    requires forall r', v' :: r' in m.frames.Keys && CheckedVpn(v') ==>
      Lookup(p'.mem, r', v') ==
        if Reaches(op.r, op.v, r', v') then Some(Entry(op.ppn, Accessed(op.flags))) else Lookup(m.p.mem, r', v')
    ensures Agrees(FlatStep(w, m.k, op), p', m.frames.Keys)
  {
  }

  /** The frames that left the free list are exactly the new tables. */
  lemma NewFrames(s: Tables, s': Tables, owner: nat)
    requires Inv(s) && Inv(s') && Grown(s, s', owner)
    ensures s.p.free - s'.p.free == s'.tag.Keys - s.tag.Keys
    ensures forall r :: OwnedBy(s'.tag, r) == OwnedBy(s.tag, r) + if r == owner then s.p.free - s'.p.free else {}
  {
    var new' := s'.tag.Keys - s.tag.Keys;
    forall f
      ensures f in new' <==> f in s.p.free - s'.p.free
    {
      assert f in s'.tag.Keys + s'.p.free <==> f in s.tag.Keys + s.p.free;
    }
    forall r
      ensures OwnedBy(s'.tag, r) == OwnedBy(s.tag, r) + if r == owner then new' else {}
    {
    }
  }

  lemma MapFrames(m: Mach, tag: map<nat, Pos>, r: nat, m': Mach, s': Tables)
    requires MachInv(m, tag) && r in m.frames
    requires m' == m.(p := s'.p, frames := m.frames[r := m.frames[r] + (m.p.free - s'.p.free)])
    requires s' == Tables(s'.p, s'.tag, m.k, m.frames.Keys) && Inv(s')
    requires Grown(TablesOf(m, tag), s', r)
    ensures Accounted(m', s'.tag)
    ensures AllFrames(m', s'.tag) == AllFrames(m, tag)
  {
    NewFrames(TablesOf(m, tag), s', r);
    assert m'.held !! s'.tag.Keys;
  }

  /** An update of existing leaf entries, at the level of the whole machine. */
  lemma EntryChanged(m: Mach, tag: map<nat, Pos>, w: View, op: Op, s': Tables, e: Option<Entry>)
    requires MachInv(m, tag) && Agrees(w, m.p, m.frames.Keys) && (op.Unmap? || op.Modify?)
    requires Inv(s') && s' == TablesOf(m, tag).(p := s'.p) && s'.p.free == m.p.free
    requires OthersKept(TablesOf(m, tag), s')
    requires FlatStep(w, m.k, op) == Put(w, op.r, op.v, e)
    requires forall r', v' :: r' in m.frames && CheckedVpn(v') ==>
      Lookup(s'.p.mem, r', v') == if Reaches(op.r, op.v, r', v') then e else Lookup(m.p.mem, r', v')
    ensures StepOk(m, tag, w, op, m.(p := s'.p), tag)
  {
    var m' := m.(p := s'.p);
    assert Accounted(m', tag);
    assert Agrees(Put(w, op.r, op.v, e), m'.p, m'.frames.Keys);
  }

  lemma UnmapStep(m: Mach, tag: map<nat, Pos>, w: View, op: Op)
    requires Ready(m, tag, w, op) && op.Unmap?
    ensures StepOk(m, tag, w, op, Step(m, op).value, tag)
  {
    var s' := UnmapCorrect(TablesOf(m, tag), op.r, op.v);
    EntryChanged(m, tag, w, op, s', None);
  }

  lemma ModifyStep(m: Mach, tag: map<nat, Pos>, w: View, op: Op)
    requires Ready(m, tag, w, op) && op.Modify?
    ensures StepOk(m, tag, w, op, Step(m, op).value, tag)
  {
    var s' := ModifyFlagsCorrect(TablesOf(m, tag), op.r, op.v, op.flags);
    EntryChanged(m, tag, w, op, s', Some(Remode(w(op.r, op.v).value, op.flags)));
  }

  lemma NewTableStep(m: Mach, tag: map<nat, Pos>, w: View, op: Op) returns (tag': map<nat, Pos>)
    requires Ready(m, tag, w, op) && op.NewTable?
    ensures StepOk(m, tag, w, op, Step(m, op).value, tag')
  {
    var s := TablesOf(m, tag);
    var s' := NewUserCorrect(s);
    tag' := s'.tag;
    var m' := Step(m, op).value;
    assert m'.frames.Keys == s'.roots;
    NewTableFrames(m, tag, op.r, m', s');
    NewTableAgrees(m, w, op, m'.p);
  }

  lemma NewTableAgrees(m: Mach, w: View, op: Op, p': Phys)
    requires Agrees(w, m.p, m.frames.Keys) && op.NewTable? && m.k in m.frames && op.r !in m.frames
    requires forall r, v :: r in m.frames ==> Lookup(p'.mem, r, v) == Lookup(m.p.mem, r, v)
    requires forall v :: Lookup(p'.mem, op.r, v) == if KernelVpn(v) then Lookup(m.p.mem, m.k, v) else None
    ensures Agrees(FlatStep(w, m.k, op), p', m.frames.Keys + {op.r})
  {
  }

  lemma NewTableFrames(m: Mach, tag: map<nat, Pos>, f: nat, m': Mach, s': Tables)
    requires Accounted(m, tag) && f in m.p.free && f !in tag && f !in m.frames
    requires m' == m.(p := s'.p, frames := m.frames[f := {f}])
    requires s'.tag == tag[f := RootAt(f)] && s'.p.free == m.p.free - {f}
    requires OthersKept(TablesOf(m, tag), s')
    ensures Accounted(m', s'.tag)
    ensures AllFrames(m', s'.tag) == AllFrames(m, tag)
  {
    NewOwner(tag, f);
    forall r | r in m.frames
      ensures m'.frames[r] == OwnedBy(s'.tag, r)
    {
      assert m.frames[r] == OwnedBy(tag, r);
    }
    assert s'.tag.Keys == tag.Keys + {f};
  }

  /** A new root adds a table of one frame and changes no other. */
  lemma NewOwner(tag: map<nat, Pos>, f: nat)
    requires f !in tag && forall g :: g in tag ==> tag[g].owner != f
    ensures OwnedBy(tag[f := RootAt(f)], f) == {f}
    ensures forall r :: r != f ==> OwnedBy(tag[f := RootAt(f)], r) == OwnedBy(tag, r)
  {
  }

  lemma DropTableStep(m: Mach, tag: map<nat, Pos>, w: View, op: Op) returns (tag': map<nat, Pos>)
    requires Ready(m, tag, w, op) && op.DropTable?
    ensures StepOk(m, tag, w, op, Step(m, op).value, tag')
  {
    tag' := map f | f in tag && tag[f].owner != op.r :: tag[f];
    DropTableInv(m, tag, op.r, Step(m, op).value, tag');
    DropTableFrames(m, tag, op.r, Step(m, op).value, tag');
  }

  lemma DropTableInv(m: Mach, tag: map<nat, Pos>, r: nat, m': Mach, tag': map<nat, Pos>)
    requires MachInv(m, tag) && r in m.frames && r != m.k
    requires m' == m.(p := m.p.(free := m.p.free + m.frames[r]), frames := m.frames - {r})
    requires tag' == map f | f in tag && tag[f].owner != r :: tag[f]
    ensures Inv(TablesOf(m', tag'))
  {
    var s, s' := TablesOf(m, tag), TablesOf(m', tag');
    assert Tagged(s');
    forall f, i | f in s'.tag && 0 <= i < 512 && IsValid(s'.p.mem[f][i])
      ensures ChildAt(s'.tag, s'.k, f, i, s'.p.mem[f][i])
    {
      assert ChildAt(s.tag, s.k, f, i, s.p.mem[f][i]);
    }
  }

  lemma DropTableFrames(m: Mach, tag: map<nat, Pos>, r: nat, m': Mach, tag': map<nat, Pos>)
    requires MachInv(m, tag) && r in m.frames && r != m.k
    requires m' == m.(p := m.p.(free := m.p.free + m.frames[r]), frames := m.frames - {r})
    requires tag' == map f | f in tag && tag[f].owner != r :: tag[f]
    ensures Accounted(m', tag')
    ensures AllFrames(m', tag') == AllFrames(m, tag)
  {
    assert tag'.Keys == tag.Keys - OwnedBy(tag, r);
    forall q | q in m'.frames
      ensures m'.frames[q] == OwnedBy(tag', q)
    {
      assert OwnedBy(tag', q) == OwnedBy(tag, q);
    }
  }

  lemma {:induction false} ZeroAllAt(mem: map<nat, Words>, base: nat, n: nat)
    ensures forall g :: g in ZeroAll(mem, base, n) <==> g in mem || base <= g < base + n
    ensures forall g :: g in mem && !(base <= g < base + n) ==> ZeroAll(mem, base, n)[g] == mem[g]
    ensures forall g :: base <= g < base + n ==> ZeroAll(mem, base, n)[g] == Zero()
  {
    if n > 0 {
      ZeroAllAt(mem, base, n - 1);
    }
  }

  /** A step that moves frames between `free` and `held` or writes a data page. */
  ghost predicate DataChange(m: Mach, tag: map<nat, Pos>, m': Mach) {
    && m' == m.(p := m'.p, held := m'.held)
    && m'.p.free + m'.held == m.p.free + m.held && m'.p.free !! m'.held
    && (forall f :: f in tag ==> f in m.p.mem && f in m'.p.mem && m'.p.mem[f] == m.p.mem[f])
    && (forall f :: f in m'.held ==> f in m'.p.mem)
  }

  lemma DataChangeFrames(m: Mach, tag: map<nat, Pos>, m': Mach)
    requires MachInv(m, tag) && DataChange(m, tag, m')
    ensures Accounted(m', tag) && AllFrames(m', tag) == AllFrames(m, tag)
    ensures forall f :: f in m'.p.free ==> Frame(f) && f !in tag
  {
    forall f
      ensures f in m'.p.free || f in m'.held <==> f in m.p.free || f in m.held
    {
      assert f in m'.p.free + m'.held <==> f in m.p.free + m.held;
    }
    assert AllFrames(m', tag) == (m'.p.free + m'.held) + tag.Keys;
  }

  lemma DataStep(m: Mach, tag: map<nat, Pos>, w: View, op: Op, m': Mach)
    requires MachInv(m, tag) && Agrees(w, m.p, m.frames.Keys)
    requires op.AllocPage? || op.AllocPages? || op.DropPage? || op.Store?
    requires DataChange(m, tag, m')
    ensures StepOk(m, tag, w, op, m', tag)
  {
    DataChangeFrames(m, tag, m');
    OutsideKeeps(TablesOf(m, tag), m'.p);
  }

  lemma PageStep(m: Mach, tag: map<nat, Pos>, w: View, op: Op)
    requires Ready(m, tag, w, op)
    requires op.AllocPage? || op.AllocPages? || op.DropPage? || op.Store?
    ensures StepOk(m, tag, w, op, Step(m, op).value, tag)
  {
    PageStepChanges(m, tag, op);
    DataStep(m, tag, w, op, Step(m, op).value);
  }

  lemma PageStepChanges(m: Mach, tag: map<nat, Pos>, op: Op)
    requires MachInv(m, tag) && Enabled(m, op)
    requires op.AllocPage? || op.AllocPages? || op.DropPage? || op.Store?
    ensures DataChange(m, tag, Step(m, op).value)
  {
    match op {
      case AllocPage(f) => AllocPageChanges(m, tag, f);
      case AllocPages(b, n) => AllocPagesChanges(m, tag, b, n);
      case DropPage(f) => DropPageChanges(m, tag, f);
      case Store(f, i, w) =>
    }
  }

  lemma AllocPageChanges(m: Mach, tag: map<nat, Pos>, f: nat)
    requires MachInv(m, tag) && Enabled(m, AllocPage(f))
    ensures DataChange(m, tag, Step(m, AllocPage(f)).value)
  {
    var m' := Step(m, AllocPage(f)).value;
    assert m'.p.free + m'.held == m.p.free + m.held;
  }

  lemma AllocPagesChanges(m: Mach, tag: map<nat, Pos>, b: nat, n: nat)
    requires MachInv(m, tag) && Enabled(m, AllocPages(b, n))
    ensures DataChange(m, tag, Step(m, AllocPages(b, n)).value)
  {
    var m' := Step(m, AllocPages(b, n)).value;
    ZeroAllAt(m.p.mem, b, n);
    assert Range(b, b + n) <= m.p.free;
    assert m'.p.free + m'.held == m.p.free + m.held;
  }

  lemma DropPageChanges(m: Mach, tag: map<nat, Pos>, f: nat)
    requires MachInv(m, tag) && Enabled(m, DropPage(f))
    ensures DataChange(m, tag, Step(m, DropPage(f)).value)
  {
    var m' := Step(m, DropPage(f)).value;
    assert m'.p.free + m'.held == m.p.free + m.held;
  }

  // ----- runs -----------------------------------------------------------------------

  ghost function Run(m: Mach, ops: seq<Op>): Option<Mach>
    decreases |ops|
  {
    if ops == [] then Some(m)
    else if !Enabled(m, ops[0]) || Step(m, ops[0]).None? then None
    else Run(Step(m, ops[0]).value, ops[1..])
  }

  function FlatRun(w: View, k: nat, ops: seq<Op>): View {
    if ops == [] then w else FlatRun(FlatStep(w, k, ops[0]), k, ops[1..])
  }

  /**
   Every run of the memory stack is the same run on one flat map: the tables
   stay free of aliases, all translations are what the flat map says, and each
   frame is free or has one owner, none gained and none lost.
   */
  lemma {:induction false} RunIsFlat(m: Mach, tag: map<nat, Pos>, w: View, ops: seq<Op>) returns (tag': map<nat, Pos>)
    requires MachInv(m, tag) && Agrees(w, m.p, m.frames.Keys) && Run(m, ops).Some?
    ensures MachInv(Run(m, ops).value, tag')
    ensures AllFrames(Run(m, ops).value, tag') == AllFrames(m, tag)
    ensures Agrees(FlatRun(w, m.k, ops), Run(m, ops).value.p, Run(m, ops).value.frames.Keys)
    decreases |ops|
  {
    if ops == [] {
      return tag;
    }
    var op := ops[0];
    var m1 := Step(m, op).value;
    var tag1 := AnyStep(m, tag, w, op);
    tag' := RunIsFlat(m1, tag1, FlatStep(w, m.k, op), ops[1..]);
  }

  lemma AnyStep(m: Mach, tag: map<nat, Pos>, w: View, op: Op) returns (tag': map<nat, Pos>)
    requires Ready(m, tag, w, op)
    ensures StepOk(m, tag, w, op, Step(m, op).value, tag')
  {
    match op
    case Map(_, _, _, _) => tag' := MapStep(m, tag, w, op);
    case Unmap(_, _) => UnmapStep(m, tag, w, op); tag' := tag;
    case Modify(_, _, _) => ModifyStep(m, tag, w, op); tag' := tag;
    case NewTable(_) => tag' := NewTableStep(m, tag, w, op);
    case DropTable(_) => tag' := DropTableStep(m, tag, w, op);
    case _ => PageStep(m, tag, w, op); tag' := tag;
  }

  /** After any run the hardware translates every page as the flat map has it. */
  lemma HardwareIsFlat(m: Mach, tag: map<nat, Pos>, w: View, ops: seq<Op>, r: nat, v: nat)
    requires MachInv(m, tag) && Agrees(w, m.p, m.frames.Keys) && Run(m, ops).Some?
    requires r in Run(m, ops).value.frames && CheckedVpn(v)
    ensures Translate(Run(m, ops).value.p.mem, r, v, 2) == Seen(FlatRun(w, m.k, ops)(r, v))
  {
    var tag' := RunIsFlat(m, tag, w, ops);
    HardwareWalk(TablesOf(Run(m, ops).value, tag'), r, v);
  }

  // ----- data pages -------------------------------------------------------------------

  /** The words of every data page, by frame and index. */
  type Data = (nat, nat) -> nat

  ghost predicate Holds(d: Data, m: Mach) {
    forall f, i: nat {:trigger d(f, i)} :: f in m.held && f in m.p.mem && i < 512 ==> d(f, i) == m.p.mem[f][i]
  }

  /** A store changes one word, and a new page is zero; no other call changes a data page. */
  function FlatData(d: Data, op: Op): Data {
    match op
    case Store(f, i, w) => (f': nat, i': nat) => if f' == f && i' == i then w else d(f', i')
    case AllocPage(f) => (f': nat, i: nat) => if f' == f then 0 else d(f', i)
    case AllocPages(b, n) => (f: nat, i: nat) => if b <= f < b + n then 0 else d(f, i)
    case _ => d
  }

  function FlatDataRun(d: Data, ops: seq<Op>): Data {
    if ops == [] then d else FlatDataRun(FlatData(d, ops[0]), ops[1..])
  }

  lemma HeldNotTable(s: Tables, s': Tables, owner: nat, f: nat)
    requires Grown(s, s', owner) && f in s.p.mem && f !in s.tag && f !in s.p.free
    ensures f in s'.p.mem && s'.p.mem[f] == s.p.mem[f]
  {
    assert f !in s.tag.Keys + s.p.free;
    assert f !in s'.tag;
  }

  ghost predicate PageKept(m: Mach, m': Mach, f: nat) {
    m'.held == m.held && f in m.p.mem && f in m'.p.mem && m'.p.mem[f] == m.p.mem[f]
  }

  lemma MapKeepsData(m: Mach, tag: map<nat, Pos>, w: View, op: Op, f: nat)
    requires Ready(m, tag, w, op) && op.Map? && f in m.held
    ensures PageKept(m, Step(m, op).value, f)
  {
    var s' := MapOneCorrect(TablesOf(m, tag), op.r, op.v, op.ppn, op.flags);
    HeldNotTable(TablesOf(m, tag), s', Owner(m.k, op.r, Split(op.v).top), f);
  }

  lemma EntryKeepsData(m: Mach, tag: map<nat, Pos>, w: View, op: Op, f: nat)
    requires Ready(m, tag, w, op) && (op.Unmap? || op.Modify?) && f in m.held
    ensures PageKept(m, Step(m, op).value, f)
  {
    if op.Unmap? {
      var s' := UnmapCorrect(TablesOf(m, tag), op.r, op.v);
    } else {
      var s' := ModifyFlagsCorrect(TablesOf(m, tag), op.r, op.v, op.flags);
    }
  }

  lemma RootKeepsData(m: Mach, tag: map<nat, Pos>, w: View, op: Op, f: nat)
    requires Ready(m, tag, w, op) && (op.NewTable? || op.DropTable?) && f in m.held
    ensures PageKept(m, Step(m, op).value, f)
  {
    if op.NewTable? {
      NewUserShape(TablesOf(m, tag));
    }
  }

  /** Calls on tables leave the data pages alone. */
  lemma TableCallKeepsData(m: Mach, tag: map<nat, Pos>, w: View, op: Op, f: nat)
    requires Ready(m, tag, w, op) && (op.Map? || op.Unmap? || op.Modify? || op.NewTable? || op.DropTable?) && f in m.held
    ensures PageKept(m, Step(m, op).value, f)
  {
    if op.Map? {
      MapKeepsData(m, tag, w, op, f);
    } else if op.NewTable? || op.DropTable? {
      RootKeepsData(m, tag, w, op, f);
    } else {
      EntryKeepsData(m, tag, w, op, f);
    }
  }

  lemma TableCallHeld(m: Mach, op: Op)
    requires Enabled(m, op) && Step(m, op).Some? && (op.Map? || op.Unmap? || op.Modify? || op.NewTable? || op.DropTable?)
    ensures Step(m, op).value.held == m.held
  {
  }

  lemma StepData(m: Mach, tag: map<nat, Pos>, w: View, d: Data, op: Op)
    requires Ready(m, tag, w, op) && Holds(d, m)
    ensures Holds(FlatData(d, op), Step(m, op).value)
  {
    var m', d' := Step(m, op).value, FlatData(d, op);
    forall f, i: nat | f in m'.held && f in m'.p.mem && i < 512 ensures d'(f, i) == m'.p.mem[f][i] {
      if op.Map? || op.Unmap? || op.Modify? || op.NewTable? || op.DropTable? {
        TableCallHeld(m, op);
        TableCallKeepsData(m, tag, w, op, f);
      } else if op.AllocPages? {
        ZeroAllAt(m.p.mem, op.base, op.n);
      }
      assert f in m.held && f in m.p.mem ==> d(f, i) == m.p.mem[f][i];
    }
  }

  /** After any run each data page has what was last stored in it, and zeros where nothing was. */
  lemma {:induction false} RunKeepsData(m: Mach, tag: map<nat, Pos>, w: View, d: Data, ops: seq<Op>)
    requires MachInv(m, tag) && Agrees(w, m.p, m.frames.Keys) && Holds(d, m) && Run(m, ops).Some?
    ensures Holds(FlatDataRun(d, ops), Run(m, ops).value)
    decreases |ops|
  {
    if ops != [] {
      StepData(m, tag, w, d, ops[0]);
      var tag1 := AnyStep(m, tag, w, ops[0]);
      RunKeepsData(Step(m, ops[0]).value, tag1, FlatStep(w, m.k, ops[0]), FlatData(d, ops[0]), ops[1..]);
    }
  }

  /** After any run, every kernel page translates in every table as in the kernel's. */
  lemma KernelIsolation(m: Mach, tag: map<nat, Pos>, w: View, ops: seq<Op>, r: nat, v: nat)
    requires MachInv(m, tag) && Agrees(w, m.p, m.frames.Keys) && Run(m, ops).Some?
    requires r in Run(m, ops).value.frames && KernelVpn(v)
    ensures Lookup(Run(m, ops).value.p.mem, r, v) == Lookup(Run(m, ops).value.p.mem, Run(m, ops).value.k, v)
  {
    var tag' := RunIsFlat(m, tag, w, ops);
    KernelWalk(TablesOf(Run(m, ops).value, tag'), r, v);
  }

  /** The machine after `PageTable::new` made the kernel's root in an empty memory. */
  ghost function Boot(p: Phys): Mach
    requires p.free != {}
  {
    var (q, f) := AllocFrame(p);
    Mach(q, f, map[f := {f}], {})
  }

  lemma BootInv(p: Phys, w: View)
    requires p.free != {} && forall f :: f in p.free ==> Frame(f)
    requires forall r, v :: w(r, v) == None
    ensures MachInv(Boot(p), map[Boot(p).k := RootAt(Boot(p).k)])
    ensures Agrees(w, Boot(p).p, Boot(p).frames.Keys)
  {
    var m := Boot(p);
    var tag := map[m.k := RootAt(m.k)];
    forall i | 0 <= i < 512
      ensures !IsValid(m.p.mem[m.k][i])
    {
      ZeroInvalid(i);
    }
    assert OwnedBy(tag, m.k) == {m.k};
  }

  /**
   Right after boot no kernel slot is filled, so a user table made then misses every
   page the kernel maps afterwards.
   */
  lemma TooEarly(p: Phys, v: nat, ppn: nat, flags: Flags)
    requires |p.free| >= 4 && (forall f :: f in p.free ==> Frame(f))
    requires CheckedVpn(v) && KernelVpn(v) && PteRange(ppn)
    ensures p.free != {} && Boot(p).p.free != {} && NewUser(Boot(p).p, Boot(p).k).Some?
    ensures MissedBy(Boot(p).k, NewUser(Boot(p).p, Boot(p).k).value, v, ppn, flags)
  {
    assert p.free != {};
    var m := Boot(p);
    BootInv(p, (r, v') => None);
    ZeroInvalid(Split(v).top);
    assert |m.p.free| >= 3;
    MissedByEarlyTable(TablesOf(m, map[m.k := RootAt(m.k)]), v, ppn, flags);
  }

  /** Four frames and the first page of the kernel are an example. */
  lemma TooEarlyHappens()
    ensures var p := Phys(map[], {0x80300, 0x80301, 0x80302, 0x80303});
      && p.free != {} && Boot(p).p.free != {} && NewUser(Boot(p).p, Boot(p).k).Some?
      && MissedBy(Boot(p).k, NewUser(Boot(p).p, Boot(p).k).value, 0xf_ffff_fff8_0200, 0x80200, TableFlags())
  {
    FrameInRange(0x80200);
    TooEarly(Phys(map[], {0x80300, 0x80301, 0x80302, 0x80303}), 0xf_ffff_fff8_0200, 0x80200, TableFlags());
  }
}
