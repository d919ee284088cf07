/**
 Pipes: the ring buffer as an object, and readers and writers as a step system
 in which each round of a blocking loop, which runs under the lock, is one step.
 */
module Pipe {

  const MAX_PIPE_BUFFER: nat := 8192

  datatype Status = Full | Empty | HasSome

  /** The bytes between head and tail, oldest first. */
  function Queue(buf: seq<nat>, status: Status, head: nat, tail: nat): seq<nat>
    requires head < |buf| && tail < |buf|
  {
    if status == Empty then []
    else if head < tail then buf[head..tail]
    else buf[head..] + buf[..tail]
  }

  function Next(i: nat, n: nat): nat
    requires i < n
  {
    if i + 1 == n then 0 else i + 1
  }

  lemma NextIsMod(i: nat, n: nat)
    requires i < n
    ensures (i + 1) % n == Next(i, n)
  {
    if i + 1 == n {
      assert (i + 1) % n == 0;
    }
  }

  lemma Pop(buf: seq<nat>, status: Status, head: nat, tail: nat)
    requires head < |buf| && tail < |buf| && status != Empty && (status == HasSome <==> head != tail)
    ensures var h := Next(head, |buf|); var q := Queue(buf, status, head, tail);
      && q != [] && q[0] == buf[head]
      && Queue(buf, if h == tail then Empty else HasSome, h, tail) == q[1..]
  {
    var h := Next(head, |buf|);
    if head < tail {
      assert buf[head..tail][1..] == buf[head + 1..tail];
    } else if h == 0 {
      assert buf[head..] == [buf[head]];
      assert ([buf[head]] + buf[..tail])[1..] == buf[..tail];
    } else {
      assert (buf[head..] + buf[..tail])[1..] == buf[head + 1..] + buf[..tail];
    }
  }

  lemma Push(buf: seq<nat>, status: Status, head: nat, tail: nat, byte: nat)
    requires head < |buf| && tail < |buf| && status != Full && (status == HasSome <==> head != tail)
    ensures var t := Next(tail, |buf|); var q := Queue(buf, status, head, tail);
      && |q| < |buf|
      && Queue(buf[tail := byte], if t == head then Full else HasSome, head, t) == q + [byte]
  {
    var t, b := Next(tail, |buf|), buf[tail := byte];
    if status == Empty {
      if t == 0 {
        assert b[head..] + b[..t] == [byte];
      } else {
        assert b[head..t] == [byte];
      }
    } else if head < tail {
      if t == 0 {
        assert b[head..] + b[..t] == buf[head..tail] + [byte];
      } else {
        assert b[head..t] == buf[head..tail] + [byte];
      }
    } else {
      assert b[head..] + b[..t] == buf[head..] + buf[..tail] + [byte];
    }
  }

  lemma QueueSize(buf: seq<nat>, status: Status, head: nat, tail: nat)
    requires head < |buf| && tail < |buf| && (status == HasSome <==> head != tail)
    ensures |Queue(buf, status, head, tail)| ==
      if status == Empty then 0 else if head < tail then tail - head else tail + |buf| - head
    ensures |Queue(buf, status, head, tail)| == |buf| <==> status == Full
  {
  }

  class PipeRingBuffer {
    const buf: array<nat>
    var status: Status
    var head: nat
    var tail: nat
    /** The bytes in the pipe, oldest first. */
    ghost var queue: seq<nat>

    ghost predicate Valid()
      reads this, buf
    {
      && buf.Length == MAX_PIPE_BUFFER
      && head < MAX_PIPE_BUFFER && tail < MAX_PIPE_BUFFER
      && (status == HasSome <==> head != tail)
      && queue == Queue(buf[..], status, head, tail)
    }

    constructor ()
      ensures Valid() && fresh(buf) && queue == []
    {
      buf := new nat[MAX_PIPE_BUFFER](i => 0);
      status, head, tail := Empty, 0, 0;
      queue := [];
    }

    method AvailableRead() returns (n: nat)
      requires Valid()
      ensures n == |queue|
    {
      QueueSize(buf[..], status, head, tail);
      if status == Empty {
        n := 0;
      } else if tail > head {
        n := tail - head;
      } else {
        n := tail + MAX_PIPE_BUFFER - head;
      }
    }

    method AvailableWrite() returns (n: nat)
      requires Valid()
      ensures n == MAX_PIPE_BUFFER - |queue|
    {
      QueueSize(buf[..], status, head, tail);
      if status == Full {
        n := 0;
      } else {
        var r := AvailableRead();
        n := MAX_PIPE_BUFFER - r;
      }
    }

    method ReadByte() returns (ok: bool, c: nat)
      requires Valid()
      modifies this
      ensures Valid()
      ensures ok <==> old(queue) != []
      ensures ok ==> c == old(queue)[0] && queue == old(queue)[1..]
      ensures !ok ==> queue == old(queue)
    {
      if status == Empty {
        return false, 0;
      }
      Pop(buf[..], status, head, tail);
      NextIsMod(head, MAX_PIPE_BUFFER);
      status := HasSome;
      c := buf[head];
      head := (head + 1) % MAX_PIPE_BUFFER;
      if head == tail {
        status := Empty;
      }
      queue := queue[1..];
      ok := true;
    }

    method WriteByte(byte: nat) returns (ok: bool)
      requires Valid()
      modifies this, buf
      ensures Valid()
      ensures ok <==> |old(queue)| < MAX_PIPE_BUFFER
      ensures queue == if ok then old(queue) + [byte] else old(queue)
    {
      QueueSize(buf[..], status, head, tail);
      if status == Full {
        return false;
      }
      Push(buf[..], status, head, tail, byte);
      NextIsMod(tail, MAX_PIPE_BUFFER);
      status := HasSome;
      buf[tail] := byte;
      tail := (tail + 1) % MAX_PIPE_BUFFER;
      if tail == head {
        status := Full;
      }
      queue := queue + [byte];
      assert buf[..] == old(buf[..])[old(tail) := byte];
      ok := true;
    }

    /**
     One pass of `read` under the lock: at most `want` bytes in all, oldest first.
     It is over when the caller has them all, or finds the pipe empty with no writer left.
     */
    method ReadPass(want: nat, before: seq<nat>, writeOpen: bool) returns (got: seq<nat>, over: bool)
      requires Valid() && |before| < want
      modifies this
      ensures Valid()
      ensures Pass(old(queue), Reading(want, before, false), writeOpen) == Moved(queue, Reading(want, got, over))
    {
      var free := AvailableRead();
      got := before;
      if free == 0 {
        return before, !writeOpen;
      }
      ghost var q := queue;
      var n := 0;
      while n < free
        invariant 0 <= n <= free == |q| && |before| + n < want && Valid()
        invariant queue == q[n..] && got == before + q[..n]
      {
        var ok, c := ReadByte();
        MoveOne(before, q, n);
        got := got + [c];
        n := n + 1;
        if |got| == want {
          return got, true;
        }
      }
      return got, false;
    }

    /** One pass of `write` under the lock: as much of the rest of `data` as fits. */
    method WritePass(data: seq<nat>, before: nat, readOpen: bool) returns (sent: nat, over: bool)
      requires Valid() && before < |data|
      modifies this, buf
      ensures Valid() && sent <= |data|
      ensures Pass(old(queue), Writing(data, before, false), readOpen) == Moved(queue, Writing(data, sent, over))
    {
      QueueFits();
      var free := AvailableWrite();
      sent := before;
      if free == 0 {
        return before, !readOpen;
      }
      ghost var q := queue;
      while sent < before + free
        invariant before <= sent <= before + free && sent < |data| && Valid()
        invariant queue == q + data[before..sent]
        decreases before + free - sent
      {
        assert |queue| == |q| + sent - before;
        var ok := WriteByte(data[sent]);
        AppendOne(q, data, before, sent);
        sent := sent + 1;
        if sent == |data| {
          return sent, true;
        }
      }
      return sent, false;
    }

    lemma QueueFits()
      requires Valid()
      ensures |queue| <= MAX_PIPE_BUFFER
    {
      QueueSize(buf[..], status, head, tail);
    }
  }

  lemma MoveOne(before: seq<nat>, q: seq<nat>, n: nat)
    requires n < |q|
    ensures q[n..][0] == q[n] && q[n..][1..] == q[n + 1..]
    ensures before + q[..n] + [q[n]] == before + q[..n + 1]
  {
  }

  lemma AppendOne(q: seq<nat>, data: seq<nat>, from: nat, to: nat)
    requires from <= to < |data|
    ensures q + data[from..to] + [data[to]] == q + data[from..to + 1]
  {
  }

  // ----- readers and writers ------------------------------------------------------

  /** A `read` of `want` bytes or a `write` of `data`, in progress or returned. */
  datatype Call =
    | Reading(want: nat, got: seq<nat>, over: bool)
    | Writing(data: seq<nat>, sent: nat, over: bool)

  datatype Moved = Moved(queue: seq<nat>, call: Call)

  function Min(a: nat, b: nat): nat {
    if a < b then a else b
  }

  ghost predicate Going(c: Call) {
    !c.over && if c.Reading? then |c.got| < c.want else c.sent < |c.data|
  }

  /** What one pass does; `open` says whether the other end is still held by anyone. */
  function Pass(q: seq<nat>, c: Call, open: bool): Moved
    requires Going(c) && |q| <= MAX_PIPE_BUFFER
  {
    match c
    case Reading(want, got, _) =>
      var n := Min(|q|, want - |got|);
      if q == [] then Moved(q, Reading(want, got, !open))
      else Moved(q[n..], Reading(want, got + q[..n], |got| + n == want))
    case Writing(data, sent, _) =>
      var n := Min(MAX_PIPE_BUFFER - |q|, |data| - sent);
      if |q| == MAX_PIPE_BUFFER then Moved(q, Writing(data, sent, !open))
      else Moved(q + data[sent..sent + n], Writing(data, sent + n, sent + n == |data|))
  }

  datatype Byte = Byte(call: nat, value: nat)

  /**
   A pipe, every call made on it, and two logs: each byte accepted from a writer
   and each byte handed to a reader, in the order it happened.
   */
  datatype State = State(
    queue: seq<nat>, readOpen: bool, writeOpen: bool, calls: map<nat, Call>,
    accepted: seq<Byte>, delivered: seq<Byte>)

  const INIT := State([], true, true, map[], [], [])

  function Values(log: seq<Byte>): seq<nat> {
    if log == [] then [] else Values(log[..|log| - 1]) + [log[|log| - 1].value]
  }

  /** The bytes of one call, in order. */
  function OfCall(log: seq<Byte>, id: nat): seq<nat> {
    if log == [] then []
    else OfCall(log[..|log| - 1], id) + if log[|log| - 1].call == id then [log[|log| - 1].value] else []
  }

  /** The log after call `id` has added its bytes `s`. */
  function Stamp(log: seq<Byte>, id: nat, s: seq<nat>): seq<Byte> {
    if s == [] then log else Stamp(log, id, s[..|s| - 1]) + [Byte(id, s[|s| - 1])]
  }

  datatype Step =
    | Start(id: nat, call: Call)
    | Run(id: nat)
    | CloseRead
    | CloseWrite

  ghost predicate Idle(s: State, reading: bool) {
    forall id :: id in s.calls && !s.calls[id].over ==> s.calls[id].Reading? != reading
  }

  /** A call holds its end open, so an end goes away only between calls. */
  ghost predicate Enabled(s: State, step: Step) {
    match step
    case Start(id, c) =>
      && id !in s.calls && Going(c)
      && (if c.Reading? then s.readOpen && c.got == [] else s.writeOpen && c.sent == 0)
    case Run(id) => id in s.calls && Going(s.calls[id]) && |s.queue| <= MAX_PIPE_BUFFER
    case CloseRead => Idle(s, true)
    case CloseWrite => Idle(s, false)
  }

  ghost function Apply(s: State, step: Step): State
    requires Enabled(s, step)
  {
    match step
    case Start(id, c) => s.(calls := s.calls[id := c])
    case Run(id) =>
      var c := s.calls[id];
      if c.Reading? then
        var m := Pass(s.queue, c, s.writeOpen);
        s.(queue := m.queue, calls := s.calls[id := m.call],
           delivered := Stamp(s.delivered, id, m.call.got[|c.got|..]))
      else
        var m := Pass(s.queue, c, s.readOpen);
        s.(queue := m.queue, calls := s.calls[id := m.call],
           accepted := Stamp(s.accepted, id, c.data[c.sent..m.call.sent]))
    case CloseRead => s.(readOpen := false)
    case CloseWrite => s.(writeOpen := false)
  }

  ghost predicate IsRun(s: State, steps: seq<Step>, t: State)
    decreases |steps|
  {
    if steps == [] then s == t
    else Enabled(s, steps[0]) && IsRun(Apply(s, steps[0]), steps[1..], t)
  }

  ghost predicate Logged(log: seq<Byte>, calls: map<nat, Call>) {
    forall i :: 0 <= i < |log| ==> log[i].call in calls
  }

  /** What call `id` has to show for itself. */
  ghost predicate CallOk(s: State, id: nat)
    requires id in s.calls
  {
    match s.calls[id]
    case Reading(want, got, over) =>
      && OfCall(s.delivered, id) == got
      && if over then |got| == want || (|got| < want && !s.writeOpen && s.queue == []) else |got| < want && s.readOpen
    case Writing(data, sent, over) =>
      && sent <= |data| && OfCall(s.accepted, id) == data[..sent]
      && if over then sent == |data| || (!s.readOpen && |s.queue| == MAX_PIPE_BUFFER)
         else sent < |data| && s.writeOpen
  }

  ghost predicate Flow(s: State) {
    && |s.queue| <= MAX_PIPE_BUFFER
    && Values(s.accepted) == Values(s.delivered) + s.queue
    && Logged(s.accepted, s.calls) && Logged(s.delivered, s.calls)
  }

  ghost predicate Inv(s: State) {
    Flow(s) && forall id :: id in s.calls ==> CallOk(s, id)
  }

  lemma OneMore(log: seq<Byte>, b: Byte, id: nat)
    ensures Values(log + [b]) == Values(log) + [b.value]
    ensures OfCall(log + [b], id) == OfCall(log, id) + if b.call == id then [b.value] else []
  {
    assert (log + [b])[..|log|] == log;
  }

  lemma {:induction false} StampedValues(log: seq<Byte>, id: nat, s: seq<nat>)
    ensures Values(Stamp(log, id, s)) == Values(log) + s
  {
    if s != [] {
      var init, last := s[..|s| - 1], s[|s| - 1];
      StampedValues(log, id, init);
      OneMore(Stamp(log, id, init), Byte(id, last), id);
      assert Values(log) + init + [last] == Values(log) + (init + [last]);
    }
  }

  lemma {:induction false} StampedCall(log: seq<Byte>, id: nat, s: seq<nat>, other: nat)
    ensures OfCall(Stamp(log, id, s), other) == OfCall(log, other) + if other == id then s else []
  {
    if s != [] {
      var init, last := s[..|s| - 1], s[|s| - 1];
      StampedCall(log, id, init, other);
      OneMore(Stamp(log, id, init), Byte(id, last), other);
      assert OfCall(log, id) + init + [last] == OfCall(log, id) + (init + [last]);
    }
  }

  lemma {:induction false} StampedLog(log: seq<Byte>, id: nat, s: seq<nat>, calls: map<nat, Call>)
    requires Logged(log, calls) && id in calls
    ensures Logged(Stamp(log, id, s), calls)
  {
    if s != [] {
      StampedLog(log, id, s[..|s| - 1], calls);
    }
  }

  lemma {:induction false} NotYetLogged(log: seq<Byte>, calls: map<nat, Call>, id: nat)
    requires Logged(log, calls) && id !in calls
    ensures OfCall(log, id) == []
  {
    if log != [] {
      var init := log[..|log| - 1];
      assert forall i :: 0 <= i < |init| ==> init[i] == log[i];
      NotYetLogged(init, calls, id);
    }
  }

  /** A reading pass takes from the front of the ring exactly what it adds to its own bytes. */
  lemma ReadPassMoves(q: seq<nat>, c: Call, open: bool)
    requires Going(c) && c.Reading? && |q| <= MAX_PIPE_BUFFER
    ensures var m := Pass(q, c, open);
      && m.call.Reading? && c.got <= m.call.got && m.call.got[|c.got|..] + m.queue == q
      && c.got + m.call.got[|c.got|..] == m.call.got
  {
  }

  /** A writing pass adds to the back of the ring exactly what it takes from its own data. */
  lemma WritePassMoves(q: seq<nat>, c: Call, open: bool)
    requires Going(c) && c.Writing? && |q| <= MAX_PIPE_BUFFER
    ensures var m := Pass(q, c, open);
      && m.call.Writing? && m.call.data == c.data && c.sent <= m.call.sent <= |c.data|
      && m.queue == q + c.data[c.sent..m.call.sent] && |m.queue| <= MAX_PIPE_BUFFER
      && c.data[..m.call.sent] == c.data[..c.sent] + c.data[c.sent..m.call.sent]
  {
  }

  lemma Regroup(a: seq<nat>, b: seq<nat>, c: seq<nat>)
    ensures a + b + c == a + (b + c)
  {
  }

  lemma ReadFlow(s: State, id: nat)
    requires Flow(s) && Enabled(s, Run(id)) && s.calls[id].Reading?
    ensures Flow(Apply(s, Run(id)))
  {
    var c, t := s.calls[id], Apply(s, Run(id));
    ReadPassMoves(s.queue, c, s.writeOpen);
    var moved := t.calls[id].got[|c.got|..];
    StampedValues(s.delivered, id, moved);
    Regroup(Values(s.delivered), moved, t.queue);
    StampedLog(s.delivered, id, moved, t.calls);
  }

  lemma WriteFlow(s: State, id: nat)
    requires Flow(s) && Enabled(s, Run(id)) && s.calls[id].Writing?
    ensures Flow(Apply(s, Run(id)))
  {
    var c, t := s.calls[id], Apply(s, Run(id));
    WritePassMoves(s.queue, c, s.readOpen);
    var moved := c.data[c.sent..t.calls[id].sent];
    StampedValues(s.accepted, id, moved);
    Regroup(Values(s.delivered), s.queue, moved);
    StampedLog(s.accepted, id, moved, t.calls);
  }

  lemma ReadCall(s: State, id: nat, k: nat)
    requires Enabled(s, Run(id)) && s.calls[id].Reading? && k in s.calls && CallOk(s, k) && CallOk(s, id)
    ensures CallOk(Apply(s, Run(id)), k)
  {
    var c, t := s.calls[id], Apply(s, Run(id));
    ReadPassMoves(s.queue, c, s.writeOpen);
    StampedCall(s.delivered, id, t.calls[id].got[|c.got|..], k);
  }

  lemma WriteCall(s: State, id: nat, k: nat)
    requires Enabled(s, Run(id)) && s.calls[id].Writing? && k in s.calls && CallOk(s, k) && CallOk(s, id)
    ensures CallOk(Apply(s, Run(id)), k)
  {
    var c, t := s.calls[id], Apply(s, Run(id));
    WritePassMoves(s.queue, c, s.readOpen);
    StampedCall(s.accepted, id, c.data[c.sent..t.calls[id].sent], k);
  }

  lemma RunStep(s: State, id: nat)
    requires Inv(s) && Enabled(s, Run(id))
    ensures Inv(Apply(s, Run(id)))
  {
    var t := Apply(s, Run(id));
    if s.calls[id].Reading? {
      ReadFlow(s, id);
      forall k | k in t.calls ensures CallOk(t, k) {
        ReadCall(s, id, k);
      }
    } else {
      WriteFlow(s, id);
      forall k | k in t.calls ensures CallOk(t, k) {
        WriteCall(s, id, k);
      }
    }
  }

  lemma OtherStep(s: State, step: Step)
    requires Inv(s) && Enabled(s, step) && !step.Run?
    ensures Inv(Apply(s, step))
  {
    var t := Apply(s, step);
    if step.Start? {
      NotYetLogged(s.accepted, s.calls, step.id);
      NotYetLogged(s.delivered, s.calls, step.id);
    }
    forall k | k in t.calls ensures CallOk(t, k) {
      if k in s.calls {
        assert CallOk(s, k);
      }
    }
  }

  /** Every run keeps every call's bytes, in order, with none lost, repeated or invented. */
  lemma {:induction false} RunKeeps(s: State, steps: seq<Step>, t: State)
    requires Inv(s) && IsRun(s, steps, t)
    ensures Inv(t)
    decreases |steps|
  {
    if steps != [] {
      if steps[0].Run? {
        RunStep(s, steps[0].id);
      } else {
        OtherStep(s, steps[0]);
      }
      RunKeeps(Apply(s, steps[0]), steps[1..], t);
    }
  }

  /**
   In every run from a new pipe: what readers received, in order, followed by what is
   still in the ring, is what writers handed over, in order; a `read` that returned
   short leaves nothing undelivered; a `write` that returned short met a full ring
   that nobody will read.
   */
  lemma EveryRun(steps: seq<Step>, t: State)
    requires IsRun(INIT, steps, t)
    ensures Values(t.accepted) == Values(t.delivered) + t.queue && |t.queue| <= MAX_PIPE_BUFFER
    ensures forall id :: id in t.calls && t.calls[id].Reading? ==> OfCall(t.delivered, id) == t.calls[id].got
    ensures forall id :: id in t.calls && t.calls[id].Writing? ==>
      t.calls[id].sent <= |t.calls[id].data| && OfCall(t.accepted, id) == t.calls[id].data[..t.calls[id].sent]
    ensures forall id :: id in t.calls && t.calls[id].Reading? && t.calls[id].over && |t.calls[id].got| != t.calls[id].want ==>
      |t.calls[id].got| < t.calls[id].want && !t.writeOpen && Values(t.delivered) == Values(t.accepted)
    ensures forall id :: id in t.calls && t.calls[id].Writing? && t.calls[id].over && t.calls[id].sent != |t.calls[id].data| ==>
      !t.readOpen && |t.queue| == MAX_PIPE_BUFFER
  {
    RunKeeps(INIT, steps, t);
    assert Values(t.delivered) + [] == Values(t.delivered);
    assert forall id :: id in t.calls ==> CallOk(t, id);
  }

  /** Bytes still to be moved by a call. */
  function Left(c: Call): nat
    requires Going(c)
  {
    if c.Reading? then c.want - |c.got| else |c.data| - c.sent
  }

  /** A pass does nothing and does not return exactly when its caller must wait for the other end. */
  lemma PassWaits(q: seq<nat>, c: Call, open: bool)
    requires Going(c) && |q| <= MAX_PIPE_BUFFER
    ensures var m := Pass(q, c, open);
      if open && (if c.Reading? then q == [] else |q| == MAX_PIPE_BUFFER)
      then m == Moved(q, c)
      else m.call.over || (Going(m.call) && Left(m.call) < Left(c))
  {
  }

  /** A pass goes on until its call is served, or the ring is empty to a reader or full to a writer. */
  lemma PassTakesAll(q: seq<nat>, c: Call, open: bool)
    requires Going(c) && |q| <= MAX_PIPE_BUFFER
    ensures var m := Pass(q, c, open);
      if c.Reading? then |m.call.got| == c.want || m.queue == [] else m.call.sent == |c.data| || |m.queue| == MAX_PIPE_BUFFER
  {
  }

  // ----- histories ----------------------------------------------------------------

  /** The same bytes asked for or offered. */
  ghost predicate SameRequest(c: Call, d: Call) {
    if c.Reading? then d.Reading? && d.want == c.want else d.Writing? && d.data == c.data
  }

  /** A call stays in the pipe's history with its request, and as it returned once it has. */
  ghost predicate Follows(c: Call, d: Call) {
    SameRequest(c, d) && (c.over ==> d == c)
  }

  ghost predicate Starts(steps: seq<Step>, id: nat) {
    exists i :: 0 <= i < |steps| && steps[i].Start? && steps[i].id == id
  }

  lemma StepHistory(s: State, step: Step)
    requires Enabled(s, step)
    ensures var t := Apply(s, step);
      && (t.readOpen <==> s.readOpen && !step.CloseRead?) && (t.writeOpen <==> s.writeOpen && !step.CloseWrite?)
      && (forall id :: id in t.calls <==> id in s.calls || (step.Start? && step.id == id))
      && (forall id :: id in s.calls ==> Follows(s.calls[id], t.calls[id]))
      && (step.Start? ==> t.calls[step.id] == step.call)
  {
  }

  lemma StartsFirst(steps: seq<Step>, id: nat)
    requires steps != []
    ensures Starts(steps, id) <==> (steps[0].Start? && steps[0].id == id) || Starts(steps[1..], id)
  {
    if Starts(steps, id) && !(steps[0].Start? && steps[0].id == id) {
      var i :| 0 <= i < |steps| && steps[i].Start? && steps[i].id == id;
      assert steps[1..][i - 1] == steps[i];
    }
    if Starts(steps[1..], id) {
      var i :| 0 <= i < |steps[1..]| && steps[1..][i].Start? && steps[1..][i].id == id;
      assert steps[i + 1] == steps[1..][i];
    }
  }

  /**
   In every run: an end is open unless it was closed; the calls are those that were started,
   each with the request it was started with; and a call that returned stays as it returned.
   */
  lemma {:induction false} History(s: State, steps: seq<Step>, t: State)
    requires IsRun(s, steps, t)
    ensures t.readOpen <==> s.readOpen && CloseRead !in steps
    ensures t.writeOpen <==> s.writeOpen && CloseWrite !in steps
    ensures forall id :: id in t.calls <==> id in s.calls || Starts(steps, id)
    ensures forall id :: id in s.calls ==> Follows(s.calls[id], t.calls[id])
    ensures forall i :: 0 <= i < |steps| && steps[i].Start? ==>
      steps[i].id in t.calls && SameRequest(steps[i].call, t.calls[steps[i].id])
    decreases |steps|
  {
    if steps != [] {
      var u := Apply(s, steps[0]);
      StepHistory(s, steps[0]);
      History(u, steps[1..], t);
      forall id ensures id in t.calls <==> id in s.calls || Starts(steps, id) {
        StartsFirst(steps, id);
      }
      forall i | 0 <= i < |steps| && steps[i].Start?
        ensures steps[i].id in t.calls && SameRequest(steps[i].call, t.calls[steps[i].id])
      {
        if i == 0 {
          assert Follows(u.calls[steps[0].id], t.calls[steps[0].id]);
        } else {
          assert steps[1..][i - 1] == steps[i];
        }
      }
    }
  }

  /** A reader and a writer in progress on one pipe are never both made to wait. */
  lemma NeverBothWait(steps: seq<Step>, t: State, r: nat, w: nat)
    requires IsRun(INIT, steps, t)
    requires r in t.calls && w in t.calls && t.calls[r].Reading? && t.calls[w].Writing?
    requires !t.calls[r].over && !t.calls[w].over
    ensures Enabled(t, Run(r)) && Enabled(t, Run(w))
    ensures Apply(t, Run(r)).calls[r] != t.calls[r] || Apply(t, Run(w)).calls[w] != t.calls[w]
  {
    RunKeeps(INIT, steps, t);
    assert CallOk(t, r) && CallOk(t, w);
    PassWaits(t.queue, t.calls[r], t.writeOpen);
    PassWaits(t.queue, t.calls[w], t.readOpen);
  }
}
