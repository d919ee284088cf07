/**
 Spin locks whose no-interrupt form nests `push_off` and `push_on` on each hart
 (os/src/sync/spin_mutex.rs, os/src/sync/interrupt.rs).

 Every atomic access is one step, so the runs below are all interleavings of any
 number of acquisitions of any number of locks on any number of harts.
 */
module Locks {

  import opened Options

  /** The interrupt-enable bit of a hart, its nesting depth, and the bit it had outside. */
  datatype Hart = Hart(sie: bool, noff: nat, interruptEnable: bool)

  function Off(h: Hart): Hart {
    Hart(false, h.noff + 1, if h.noff == 0 then h.sie else h.interruptEnable)
  }

  /** `None` is the `todo!`. */
  function On(h: Hart): Option<Hart> {
    if h.sie || h.noff < 1 then None
    else Some(Hart(h.noff == 1 && h.interruptEnable, h.noff - 1, h.interruptEnable))
  }

  /** The value the bit has, or will have again once the nesting is undone. */
  function Outside(h: Hart): bool {
    if h.noff == 0 then h.sie else h.interruptEnable
  }

  class Cpu {
    var sie: bool
    var noff: nat
    var interruptEnable: bool

    function Value(): Hart
      reads this
    {
      Hart(sie, noff, interruptEnable)
    }

    method PushOff()
      modifies this
      ensures Value() == Off(old(Value())) && Outside(Value()) == old(Outside(Value()))
    {
      var oldSie := sie;
      sie := false;
      if noff == 0 {
        interruptEnable := oldSie;
      }
      noff := noff + 1;
    }

    method PushOn()
      requires !sie && noff >= 1
      modifies this
      ensures On(old(Value())) == Some(Value()) && Outside(Value()) == old(Outside(Value()))
    {
      noff := noff - 1;
      var shouldEnable := noff == 0 && interruptEnable;
      if shouldEnable {
        sie := true;
      }
    }
  }

  class SpinMutex {
    var lock: bool
    /** Whether acquiring it turns interrupts off. */
    const quiet: bool

    method CompareExchange() returns (ok: bool)
      modifies this
      ensures ok == !old(lock) && lock
    {
      ok := !lock;
      lock := true;
    }

    /** Without interference, a refusal leaves the interrupt bit and the depth as they were. */
    method TryLock(cpu: Cpu) returns (ok: bool)
      requires cpu.noff > 0 ==> !cpu.sie
      modifies this, cpu
      ensures ok == !old(lock) && lock
      ensures if ok && quiet then cpu.Value() == Off(old(cpu.Value()))
              else cpu.sie == old(cpu.sie) && cpu.noff == old(cpu.noff)
      ensures Outside(cpu.Value()) == old(Outside(cpu.Value()))
    {
      if quiet {
        cpu.PushOff();
      }
      ok := CompareExchange();
      if !ok && quiet {
        cpu.PushOn();
      }
    }

    /** Dropping the guard. */
    method Unlock(cpu: Cpu)
      requires quiet ==> !cpu.sie && cpu.noff >= 1
      modifies this, cpu
      ensures !lock && Outside(cpu.Value()) == old(Outside(cpu.Value()))
      ensures if quiet then On(old(cpu.Value())) == Some(cpu.Value()) else cpu.Value() == old(cpu.Value())
    {
      lock := false;
      if quiet {
        cpu.PushOn();
      }
    }
  }

  // ----- all interleavings --------------------------------------------------------

  /** `Leaving` has given the lock up, or been refused it, and has `after_lock` left to do. */
  datatype Stage = Waiting(once: bool) | Holding | Leaving

  /** One acquisition, by `lock` or by `try_lock`, from `before_lock` to `after_lock`. */
  datatype Op = Op(hart: nat, lock: nat, stage: Stage)

  datatype State = State(
    quiet: set<nat>, locked: set<nat>, data: map<nat, int>, harts: map<nat, Hart>, ops: map<nat, Op>)

  datatype Step =
    | Begin(id: nat, hart: nat, lock: nat, once: bool)
    | Exchange(id: nat)
    | Write(id: nat, value: int)
    | Release(id: nat)
    | Finish(id: nat)
    | SetSie(hart: nat, sie: bool)

  /** Code outside the locks may set the interrupt bit only while nothing is nested. */
  ghost predicate Enabled(s: State, step: Step) {
    match step
    case Begin(id, hart, _, _) => id !in s.ops && hart in s.harts
    case Exchange(id) => id in s.ops && s.ops[id].stage.Waiting?
    case Write(id, _) => id in s.ops && s.ops[id].stage.Holding?
    case Release(id) => id in s.ops && s.ops[id].stage.Holding?
    case Finish(id) => id in s.ops && s.ops[id].stage.Leaving? && s.ops[id].hart in s.harts
    case SetSie(hart, _) => hart in s.harts && s.harts[hart].noff == 0
  }

  /** `None` when the step runs into the `todo!` of `push_on`. */
  ghost function Apply(s: State, step: Step): Option<State>
    requires Enabled(s, step)
  {
    match step
    case Begin(id, hart, lock, once) =>
      Some(s.(ops := s.ops[id := Op(hart, lock, Waiting(once))],
              harts := if lock in s.quiet then s.harts[hart := Off(s.harts[hart])] else s.harts))
    case Exchange(id) =>
      var op := s.ops[id];
      if op.lock !in s.locked then
        Some(s.(locked := s.locked + {op.lock}, ops := s.ops[id := op.(stage := Holding)]))
      else if op.stage.once then Some(s.(ops := s.ops[id := op.(stage := Leaving)]))
      else Some(s)
    case Write(id, value) => Some(s.(data := s.data[s.ops[id].lock := value]))
    case Release(id) =>
      var op := s.ops[id];
      Some(s.(locked := s.locked - {op.lock}, ops := s.ops[id := op.(stage := Leaving)]))
    case Finish(id) =>
      var op := s.ops[id];
      var t := s.(ops := s.ops - {id});
      if op.lock !in s.quiet then Some(t)
      else if On(s.harts[op.hart]).None? then None
      else Some(t.(harts := s.harts[op.hart := On(s.harts[op.hart]).value]))
    case SetSie(hart, sie) => Some(s.(harts := s.harts[hart := s.harts[hart].(sie := sie)]))
  }

  ghost predicate Holds(s: State, id: nat, lock: nat) {
    id in s.ops && s.ops[id].lock == lock && s.ops[id].stage.Holding?
  }

  /** A lock is marked taken exactly while somebody holds it, and then one only. */
  ghost predicate Exclusive(s: State) {
    && (forall id :: id in s.ops && s.ops[id].stage.Holding? ==> s.ops[id].lock in s.locked)
    && (forall lock :: lock in s.locked ==> exists id :: Holds(s, id, lock))
    && (forall id, other, lock :: Holds(s, id, lock) && Holds(s, other, lock) ==> id == other)
  }

  /** The acquisitions of no-interrupt locks that hart `h` is in the middle of. */
  ghost function Nested(s: State, h: nat): set<nat> {
    set id | id in s.ops && s.ops[id].hart == h && s.ops[id].lock in s.quiet
  }

  ghost predicate HartOk(s: State, h: nat)
    requires h in s.harts
  {
    s.harts[h].noff == |Nested(s, h)| && (s.harts[h].noff > 0 ==> !s.harts[h].sie)
  }

  ghost predicate Counted(s: State) {
    && (forall id :: id in s.ops ==> s.ops[id].hart in s.harts)
    && (forall h :: h in s.harts ==> HartOk(s, h))
  }

  ghost predicate Inv(s: State) {
    Exclusive(s) && Counted(s)
  }

  ghost predicate IsRun(s: State, steps: seq<Step>, t: State)
    decreases |steps|
  {
    if steps == [] then s == t
    else
      && Enabled(s, steps[0])
      && match Apply(s, steps[0])
         case None => false
         case Some(u) => IsRun(u, steps[1..], t)
  }

  lemma StepExclusive(s: State, step: Step, t: State)
    requires Exclusive(s) && Enabled(s, step) && Apply(s, step) == Some(t)
    ensures Exclusive(t)
  {
    if step.Begin? || step.Exchange? || step.Release? || step.Finish? {
      forall id | id in t.ops && t.ops[id].stage.Holding? ensures t.ops[id].lock in t.locked {
        assert step.Release? ==> Holds(s, id, t.ops[id].lock) && Holds(s, step.id, s.ops[step.id].lock);
      }
      forall lock | lock in t.locked ensures exists id :: Holds(t, id, lock) {
        if lock in s.locked {
          var id :| Holds(s, id, lock);
          assert Holds(t, id, lock);
        } else {
          assert Holds(t, step.id, lock);
        }
      }
      forall id, other, lock | Holds(t, id, lock) && Holds(t, other, lock) ensures id == other {
        assert Holds(s, id, lock) || (step.Exchange? && id == step.id);
        assert Holds(s, other, lock) || (step.Exchange? && other == step.id);
      }
    } else {
      assert forall id, lock :: Holds(t, id, lock) == Holds(s, id, lock);
    }
  }

  lemma NestedAfter(s: State, step: Step, t: State, h: nat)
    requires Enabled(s, step) && Apply(s, step) == Some(t)
    ensures Nested(t, h) ==
      if step.Begin? && step.hart == h && step.lock in s.quiet then Nested(s, h) + {step.id}
      else if step.Finish? then Nested(s, h) - {step.id}
      else Nested(s, h)
  {
  }

  lemma NestedSize(s: State, step: Step, t: State, h: nat)
    requires Enabled(s, step) && Apply(s, step) == Some(t)
    ensures var counts := (step.Begin? && step.hart == h && step.lock in s.quiet) ||
                          (step.Finish? && s.ops[step.id].hart == h && s.ops[step.id].lock in s.quiet);
      |Nested(t, h)| == |Nested(s, h)| + if !counts then 0 else if step.Begin? then 1 else -1
  {
    NestedAfter(s, step, t, h);
    assert step.Begin? ==> step.id !in Nested(s, h);
    assert step.Finish? ==> (step.id in Nested(s, h) <==> s.ops[step.id].hart == h && s.ops[step.id].lock in s.quiet);
  }

  /** A step moves the depth of hart `h` as it moves the number of its acquisitions. */
  lemma HartAfter(s: State, step: Step, t: State, h: nat)
    requires Enabled(s, step) && Apply(s, step) == Some(t) && h in s.harts
    requires s.harts[h].noff > 0 ==> !s.harts[h].sie
    ensures h in t.harts
    ensures t.harts[h].noff - s.harts[h].noff ==
      if step.Begin? && step.hart == h && step.lock in s.quiet then 1
      else if step.Finish? && s.ops[step.id].hart == h && s.ops[step.id].lock in s.quiet then -1
      else 0
    ensures t.harts[h].noff > 0 ==> !t.harts[h].sie
    ensures !(step.SetSie? && step.hart == h) ==> Outside(t.harts[h]) == Outside(s.harts[h])
  {
  }

  lemma StepCounted(s: State, step: Step, t: State, h: nat)
    requires Enabled(s, step) && Apply(s, step) == Some(t) && h in s.harts && HartOk(s, h)
    ensures h in t.harts && HartOk(t, h)
    ensures !(step.SetSie? && step.hart == h) ==> Outside(t.harts[h]) == Outside(s.harts[h])
  {
    NestedSize(s, step, t, h);
    HartAfter(s, step, t, h);
  }

  /** The `todo!` of `push_on` is out of reach: the release of any acquisition, in any order, goes through. */
  lemma NoPanic(s: State, step: Step)
    requires Inv(s) && Enabled(s, step)
    ensures Apply(s, step).Some?
  {
    if step.Finish? {
      var h := s.ops[step.id].hart;
      assert HartOk(s, h);
      if s.ops[step.id].lock in s.quiet {
        assert step.id in Nested(s, h);
      }
    }
  }

  lemma SameHarts(s: State, step: Step, t: State)
    requires Enabled(s, step) && Apply(s, step) == Some(t)
    requires forall id :: id in s.ops ==> s.ops[id].hart in s.harts
    ensures forall h :: h in t.harts <==> h in s.harts
    ensures forall id :: id in t.ops ==> t.ops[id].hart in t.harts
  {
  }

  lemma StepKeeps(s: State, step: Step, t: State)
    requires Inv(s) && Enabled(s, step) && Apply(s, step) == Some(t)
    ensures Inv(t)
  {
    StepExclusive(s, step, t);
    SameHarts(s, step, t);
    forall h | h in t.harts ensures HartOk(t, h) {
      StepCounted(s, step, t, h);
    }
  }

  lemma {:induction false} RunKeeps(s: State, steps: seq<Step>, t: State)
    requires Inv(s) && IsRun(s, steps, t)
    ensures Inv(t)
    decreases |steps|
  {
    if steps != [] {
      var u := Apply(s, steps[0]).value;
      StepKeeps(s, steps[0], u);
      RunKeeps(u, steps[1..], t);
    }
  }

  ghost predicate Boot(s: State) {
    && s.locked == {} && s.ops == map[]
    && forall h :: h in s.harts ==> s.harts[h].noff == 0
  }

  /**
   In every run from boot: a lock's flag is set exactly while one acquisition holds it, no
   two hold it, each hart's depth is the number of its no-interrupt acquisitions that have
   begun and not finished, interrupts are off while the depth is not zero, and whatever
   step comes next, `push_on` does not give up.
   */
  lemma EveryRun(s: State, steps: seq<Step>, t: State)
    requires Boot(s) && IsRun(s, steps, t)
    ensures forall lock :: lock in t.locked <==> exists id :: Holds(t, id, lock)
    ensures forall id, other, lock :: Holds(t, id, lock) && Holds(t, other, lock) ==> id == other
    ensures forall h :: h in t.harts ==> t.harts[h].noff == |Nested(t, h)| && (t.harts[h].noff > 0 ==> !t.harts[h].sie)
    ensures forall step :: Enabled(t, step) ==> Apply(t, step).Some?
  {
    forall h | h in s.harts ensures HartOk(s, h) {
      assert Nested(s, h) == {};
    }
    RunKeeps(s, steps, t);
    forall h | h in t.harts ensures t.harts[h].noff == |Nested(t, h)| && (t.harts[h].noff > 0 ==> !t.harts[h].sie) {
      assert HartOk(t, h);
    }
    forall step | Enabled(t, step) ensures Apply(t, step).Some? {
      NoPanic(t, step);
    }
  }

  ghost predicate LeavesSie(steps: seq<Step>, h: nat) {
    forall i :: 0 <= i < |steps| ==> !(steps[i].SetSie? && steps[i].hart == h)
  }

  /**
   However acquisitions on a hart nest, overlap or fail, the interrupt bit is back at the
   value it had before the outermost of them once they are all finished.
   */
  lemma {:induction false} Restored(s: State, steps: seq<Step>, t: State, h: nat)
    requires Inv(s) && IsRun(s, steps, t) && h in s.harts && LeavesSie(steps, h)
    ensures h in t.harts && Outside(t.harts[h]) == Outside(s.harts[h])
    ensures Nested(s, h) == {} == Nested(t, h) ==> t.harts[h].sie == s.harts[h].sie
    decreases |steps|
  {
    if steps != [] {
      var u := Apply(s, steps[0]).value;
      StepKeeps(s, steps[0], u);
      StepCounted(s, steps[0], u, h);
      Restored(u, steps[1..], t, h);
      assert HartOk(s, h);
    }
    RunKeeps(s, steps, t);
    assert HartOk(t, h);
  }

  ghost predicate NotBy(steps: seq<Step>, id: nat) {
    forall i :: 0 <= i < |steps| ==> (steps[i].Write? || steps[i].Release?) ==> steps[i].id != id
  }

  ghost predicate SameData(s: State, t: State, lock: nat) {
    (lock in t.data <==> lock in s.data) && (lock in s.data ==> t.data[lock] == s.data[lock])
  }

  lemma HolderKept(s: State, step: Step, t: State, id: nat)
    requires Exclusive(s) && Enabled(s, step) && Apply(s, step) == Some(t) && id in s.ops && s.ops[id].stage.Holding?
    requires (step.Write? || step.Release?) ==> step.id != id
    ensures id in t.ops && t.ops[id] == s.ops[id] && SameData(s, t, s.ops[id].lock)
  {
    if step.Write? {
      assert Holds(s, id, s.ops[id].lock) && Holds(s, step.id, s.ops[step.id].lock);
    }
  }

  /** While a guard is held, nobody else takes the lock or changes what it protects. */
  lemma {:induction false} GuardOwns(s: State, steps: seq<Step>, t: State, id: nat)
    requires Inv(s) && IsRun(s, steps, t) && id in s.ops && s.ops[id].stage.Holding? && NotBy(steps, id)
    ensures id in t.ops && t.ops[id] == s.ops[id] && SameData(s, t, s.ops[id].lock)
    decreases |steps|
  {
    if steps != [] {
      var u := Apply(s, steps[0]).value;
      StepKeeps(s, steps[0], u);
      HolderKept(s, steps[0], u, id);
      GuardOwns(u, steps[1..], t, id);
    }
  }

  /** What the holder of a guard wrote last is there as long as it holds the guard. */
  lemma GuardKeeps(s: State, id: nat, value: int, rest: seq<Step>, t: State)
    requires Inv(s) && id in s.ops && s.ops[id].stage.Holding? && NotBy(rest, id)
    requires IsRun(s, [Write(id, value)] + rest, t)
    ensures s.ops[id].lock in t.data && t.data[s.ops[id].lock] == value
  {
    var steps := [Write(id, value)] + rest;
    assert steps[0] == Write(id, value) && steps[1..] == rest;
    var u := Apply(s, Write(id, value)).value;
    StepKeeps(s, Write(id, value), u);
    GuardOwns(u, rest, t, id);
  }

  /** The interrupt bit that was set is the one a hart has whenever nothing is nested on it. */
  lemma SieKept(s: State, h: nat, sie: bool, rest: seq<Step>, t: State)
    requires Inv(s) && h in s.harts && LeavesSie(rest, h) && IsRun(s, [SetSie(h, sie)] + rest, t)
    ensures h in t.harts && (Nested(t, h) == {} ==> t.harts[h].sie == sie)
  {
    var steps := [SetSie(h, sie)] + rest;
    assert steps[0] == SetSie(h, sie) && steps[1..] == rest;
    var u := Apply(s, SetSie(h, sie)).value;
    StepKeeps(s, SetSie(h, sie), u);
    Restored(u, rest, t, h);
    RunKeeps(u, rest, t);
    assert HartOk(u, h) && HartOk(t, h);
  }

  /** An exchange takes a free lock; refused, `try_lock` gives up at once and `lock` waits as before. */
  lemma ExchangeTakes(s: State, id: nat, t: State)
    requires Inv(s) && Enabled(s, Exchange(id)) && Apply(s, Exchange(id)) == Some(t)
    ensures (exists other :: Holds(s, other, s.ops[id].lock)) <==> !Holds(t, id, s.ops[id].lock)
    ensures Holds(t, id, s.ops[id].lock) || (if s.ops[id].stage.once then t.ops[id].stage.Leaving? else t == s)
  {
    if other :| Holds(s, other, s.ops[id].lock) {
      assert s.ops[id].lock in s.locked;
    }
  }

  /** Undoing the nesting on another hart than the one that began it. */
  ghost function FinishOn(s: State, id: nat, h: nat): Option<State>
    requires id in s.ops && h in s.harts
  {
    var op := s.ops[id];
    var t := s.(ops := s.ops - {id});
    if op.lock !in s.quiet then Some(t)
    else if On(s.harts[h]).None? then None
    else Some(t.(harts := s.harts[h := On(s.harts[h]).value]))
  }

  /** The counts survive the drop of a guard exactly when it is dropped on its own hart, or does not count. */
  lemma DropOnOwnHart(s: State, id: nat, h: nat)
    requires Inv(s) && id in s.ops && s.ops[id].stage.Leaving? && h in s.harts
    ensures (FinishOn(s, id, h).Some? && Inv(FinishOn(s, id, h).value)) <==>
      (h == s.ops[id].hart || s.ops[id].lock !in s.quiet)
  {
    var own := s.ops[id].hart;
    if h == own || s.ops[id].lock !in s.quiet {
      assert FinishOn(s, id, h) == Apply(s, Finish(id));
      NoPanic(s, Finish(id));
      StepKeeps(s, Finish(id), FinishOn(s, id, h).value);
    } else if FinishOn(s, id, h).Some? {
      var t := FinishOn(s, id, h).value;
      assert HartOk(s, own);
      assert id in Nested(s, own);
      assert Nested(t, own) == Nested(s, own) - {id};
      assert !HartOk(t, own);
    }
  }

  /** Hart 0 takes the lock after boot and gives it up on hart 1, where nothing was begun: `push_on` gives up. */
  lemma DroppedElsewhere() returns (s: State, t: State)
    ensures Boot(s) && IsRun(s, [Begin(7, 0, 0, false), Exchange(7), Release(7)], t)
    ensures 7 in t.ops && t.ops[7].stage.Leaving? && 1 in t.harts && FinishOn(t, 7, 1).None?
  {
    s := State({0}, {}, map[], map[0 := Hart(true, 0, false), 1 := Hart(true, 0, false)], map[]);
    var u := Apply(s, Begin(7, 0, 0, false)).value;
    var v := Apply(u, Exchange(7)).value;
    t := Apply(v, Release(7)).value;
    assert IsRun(t, [], t);
    assert IsRun(v, [Release(7)], t);
    assert [Exchange(7), Release(7)][1..] == [Release(7)];
    assert IsRun(u, [Exchange(7), Release(7)], t);
    assert [Begin(7, 0, 0, false), Exchange(7), Release(7)][1..] == [Exchange(7), Release(7)];
  }
}
