/** Input buffering of the keyboard/mouse STREAMS driver (pckm.c), as steps of one port. */
module Pckm {
  import opened Common
  import opened Bytes

  type Buf = seq<byte>
  type Message = seq<Buf>

  /** The device codes of sys/pckm.h, and the port's buffer size. */
  datatype Config = Config(batOk: byte, batFail: byte, capsLock: byte, numLock: byte, bsize: nat, mouse: bool)

  /** `km_state`, `km_tid`, and whether a textport handler is set. */
  datatype Km = Km(isOpen: bool, sePending: bool, trPending: bool, tid: nat, hook: bool)

  /** `km_rmsg`, the chain of filled buffers, and `km_rbp`, the current one. */
  datatype Input = Input(rmsg: Message, rbp: Option<Buf>)

  /** What the STREAMS system knows: armed timers, whether the service procedure is due or between its two
      halves, whether the queue is disabled, and whether upstream will enable it again. */
  datatype Sys = Sys(timers: set<nat>, nextTid: nat, due: bool, serving: bool, disabled: bool, backEnable: bool)

  /** `sent` went upstream with putnext since the open; `accepted` are the bytes the driver has taken to send
      there, less those a close throws away. */
  datatype Port = Port(km: Km, input: Input, sys: Sys, sent: seq<Message>, accepted: Buf)

  /** How the next allocations go: whether allocb and str_allocb find a buffer. */
  datatype Memory = Memory(allocb: bool, strAllocb: bool)

  // ------------------------------------------------------------------------- the steps

  /** A buffer for `pckm_getbp`; at high priority it retries until there is one. */
  function Allocate(km: Km, high: bool, mem: Memory): (Km, Option<Buf>) {
    if high || mem.allocb then (km, Some([]))
    else if km.sePending then (km, None)
    else if mem.strAllocb then (km, Some([]))
    else (km.(sePending := true), None)
  }

  /** `pckm_getbp`: an empty current buffer stays, a filled one is chained when there is a new one or it is full. */
  function GetBp(c: Config, km: Km, i: Input, high: bool, mem: Memory): (Km, Input) {
    if i.rbp == Some([]) then (km, if c.bsize == 0 then Input(i.rmsg + [[]], None) else i)
    else
      var r := Allocate(km, high, mem);
      if i.rbp.None? then (r.0, i.(rbp := r.1))
      else if r.1.Some? || |i.rbp.value| >= c.bsize then (r.0, Input(i.rmsg + [i.rbp.value], r.1))
      else (r.0, i)
  }

  function Arm(p: Port): Port {
    p.(km := p.km.(tid := p.sys.nextTid),
       sys := p.sys.(timers := p.sys.timers + {p.sys.nextTid}, nextTid := p.sys.nextTid + 1))
  }

  /** `pckm_rsrv_timer_lock`. */
  function TimerLock(p: Port): Port {
    if !p.km.isOpen then p.(km := p.km.(trPending := false))
    else if !p.sys.disabled then p.(km := p.km.(trPending := false), sys := p.sys.(due := true))
    else Arm(p)
  }

  predicate Replugged(c: Config, data: byte) { data == c.batOk || (!c.mouse && data == c.batFail) }

  /** Whether `pckm_rx` buffers the byte; `taken` is the textport handler's answer. */
  predicate Accepts(c: Config, p: Port, data: byte, taken: bool) {
    !Replugged(c, data) && (p.km.isOpen || p.km.hook) && !(p.km.hook && taken)
  }

  /** The byte in the current buffer, a buffer being fetched before and after as needed. */
  function Store(c: Config, km: Km, i: Input, data: byte, before: Memory, after: Memory): (Km, Input) {
    var g := if i.rbp.Some? then (km, i) else GetBp(c, km, i, true, before);
    if g.1.rbp.None? then g
    else
      var j := g.1.(rbp := Some(g.1.rbp.value + [data]));
      if |j.rbp.value| >= c.bsize then GetBp(c, g.0, j, false, after) else (g.0, j)
  }

  function Cancel(p: Port): Port {
    if p.km.trPending then p.(sys := p.sys.(timers := p.sys.timers - {p.km.tid})) else p
  }

  /** Sees to it that the byte is sent: lock keys at once, others with the heartbeat. */
  function Prompt(c: Config, q: Port, data: byte): Port {
    if data == c.capsLock || data == c.numLock then TimerLock(Cancel(q))
    else if q.km.trPending then q
    else Arm(q.(km := q.km.(trPending := true)))
  }

  /** `pckm_rx`. */
  function Rx(c: Config, p: Port, data: byte, taken: bool, before: Memory, after: Memory): Port {
    if !Accepts(c, p, data, taken) then p
    else
      var s := Store(c, p.km, p.input, data, before, after);
      Prompt(c, p.(km := s.0, input := s.1, accepted := p.accepted + [data]), data)
  }

  /** `pckm_rsrv` up to putnext, which runs without the lock. */
  function Serve(p: Port, canPut: bool): Port {
    if !canPut then p.(sys := p.sys.(due := false, disabled := true, backEnable := true))
    else
      var i := p.input;
      var moves := i.rbp.Some? && i.rbp.value != [] && (i.rmsg == [] || !p.km.trPending);
      var msg := if moves then i.rmsg + [i.rbp.value] else i.rmsg;
      p.(km := p.km.(sePending := false),
         input := Input([], if moves then None else i.rbp),
         sys := p.sys.(due := false, disabled := false, serving := true),
         sent := if msg != [] then p.sent + [msg] else p.sent)
  }

  /** The rest of `pckm_rsrv`. */
  function Refill(c: Config, p: Port, mem: Memory): Port {
    var q := p.(sys := p.sys.(serving := false));
    if p.input.rbp.Some? then q
    else var g := GetBp(c, p.km, p.input, false, mem); q.(km := g.0, input := g.1)
  }

  /** The buffer part of `pckm_close`. */
  function Close(p: Port): Port {
    var q := Cancel(p);
    q.(km := p.km.(isOpen := false, sePending := false, trPending := false), input := Input([], None),
       sys := q.sys.(due := false, disabled := false, backEnable := false), accepted := FlattenAll(p.sent))
  }

  /** `pckm_open` of a port not open yet; the stream is a new one. */
  function Open(p: Port): Port {
    p.(km := p.km.(isOpen := true, hook := false), sys := p.sys.(due := false, disabled := false, backEnable := false),
       sent := [], accepted := Buffered(p.input))
  }

  function Flatten(m: Message): Buf { if m == [] then [] else Flatten(m[..|m| - 1]) + m[|m| - 1] }

  function FlattenAll(ms: seq<Message>): Buf {
    if ms == [] then [] else FlattenAll(ms[..|ms| - 1]) + Flatten(ms[|ms| - 1])
  }

  function Current(i: Input): Buf { if i.rbp.Some? then i.rbp.value else [] }

  /** The bytes that have not gone upstream yet, in order. */
  function Buffered(i: Input): Buf { Flatten(i.rmsg) + Current(i) }

  datatype Event =
    | Receive(data: byte, taken: bool, before: Memory, after: Memory)
    | Expire(t: nat)
    | Service(canPut: bool)
    | ServiceEnd(mem: Memory)
    | BackEnabled
    | BufferFound
    | CloseIt
    | OpenIt
    | SetHook(on: bool)

  /** What can happen when: timers expire while armed, the service procedure runs when due on an open stream
      and not twice at once, and a stream is not closed under its service procedure. */
  predicate Enabled(p: Port, e: Event) {
    match e
    case Receive(_, _, _, _) => true
    case Expire(t) => t in p.sys.timers
    case Service(_) => p.km.isOpen && p.sys.due && !p.sys.serving
    case ServiceEnd(_) => p.sys.serving
    case BackEnabled => p.km.isOpen && p.sys.backEnable
    case BufferFound => p.km.isOpen && p.km.sePending
    case CloseIt => p.km.isOpen && !p.sys.serving
    case OpenIt => !p.km.isOpen
    case SetHook(_) => true
  }

  function Step(c: Config, p: Port, e: Event): Port {
    match e
    case Receive(data, taken, before, after) => Rx(c, p, data, taken, before, after)
    case Expire(t) => TimerLock(p.(sys := p.sys.(timers := p.sys.timers - {t})))
    case Service(canPut) => Serve(p, canPut)
    case ServiceEnd(mem) => Refill(c, p, mem)
    case BackEnabled => p.(sys := p.sys.(backEnable := false, due := true))
    case BufferFound => p.(sys := p.sys.(due := true))
    case CloseIt => Close(p)
    case OpenIt => Open(p)
    case SetHook(on) => p.(km := p.km.(hook := on))
  }

  // ----------------------------------------------------------------------- the invariants

  predicate NoEmpty(m: Message) { forall i :: 0 <= i < |m| ==> m[i] != [] }

  /** Nothing lost, nothing reordered, nothing sent empty, and the current buffer never full. */
  ghost predicate Safe(c: Config, p: Port) {
    && FlattenAll(p.sent) + Buffered(p.input) == p.accepted
    && (p.input.rbp.Some? ==> |p.input.rbp.value| < c.bsize)
    && NoEmpty(p.input.rmsg)
    && (forall i :: 0 <= i < |p.sent| ==> p.sent[i] != [] && NoEmpty(p.sent[i]))
  }

  /** KM_TR_PENDING means that the timer of `km_tid` is armed; a disabled queue will be enabled again; and on
      an open port, bytes that wait have something to wait for. A closed port holds none. */
  ghost predicate Live(p: Port) {
    && (p.km.trPending ==> p.km.tid in p.sys.timers)
    && (forall t :: t in p.sys.timers ==> t < p.sys.nextTid)
    && (p.sys.disabled ==> p.sys.backEnable || p.sys.due)
    && (p.sys.serving ==> p.km.isOpen)
    && (Buffered(p.input) != [] ==> p.km.isOpen && (p.sys.timers != {} || p.sys.due || p.sys.disabled))
  }

  /** A byte that the textport handler declines is buffered even on a closed port. */
  predicate Leaks(c: Config, p: Port, e: Event) { e.Receive? && !p.km.isOpen && Accepts(c, p, e.data, e.taken) }

  lemma NothingFlattened()
    ensures Flatten([]) == [] && FlattenAll([]) == []
  {}

  lemma FlattenSnoc(m: Message, b: Buf)
    ensures Flatten(m + [b]) == Flatten(m) + b
  {
    assert (m + [b])[..|m|] == m;
  }

  lemma FlattenAllSnoc(ms: seq<Message>, m: Message)
    ensures FlattenAll(ms + [m]) == FlattenAll(ms) + Flatten(m)
  {
    assert (ms + [m])[..|ms|] == ms;
  }

  lemma GetBpKeeps(c: Config, km: Km, i: Input, high: bool, mem: Memory)
    requires c.bsize >= 1 && NoEmpty(i.rmsg)
    ensures var g := GetBp(c, km, i, high, mem);
            && Buffered(g.1) == Buffered(i) && NoEmpty(g.1.rmsg)
            && (g.1.rbp.Some? ==> |g.1.rbp.value| < c.bsize)
            && (high ==> g.1.rbp.Some?)
            && g.0 == km.(sePending := g.0.sePending)
  {
    hide Flatten, NoEmpty;
    var g := GetBp(c, km, i, high, mem);
    if i.rbp.Some? {
      FlattenSnoc(i.rmsg, i.rbp.value);
      if g.1.rmsg != i.rmsg { NoEmptySnoc(i.rmsg, i.rbp.value); }
      assert Flatten(i.rmsg) + i.rbp.value + [] == Flatten(i.rmsg) + i.rbp.value;
    } else {
      assert Flatten(i.rmsg) + [] == Flatten(i.rmsg);
    }
  }

  lemma NoEmptySnoc(m: Message, b: Buf)
    requires NoEmpty(m) && b != []
    ensures NoEmpty(m + [b])
  {}

  /** However memory runs short, the byte is stored: at interrupt level the driver waits for a buffer. */
  lemma StoreKeeps(c: Config, km: Km, i: Input, data: byte, before: Memory, after: Memory)
    requires c.bsize >= 1 && NoEmpty(i.rmsg)
    ensures var s := Store(c, km, i, data, before, after);
            && Buffered(s.1) == Buffered(i) + [data] && NoEmpty(s.1.rmsg)
            && (s.1.rbp.Some? ==> |s.1.rbp.value| < c.bsize)
            && s.0 == km.(sePending := s.0.sePending)
  {
    hide GetBp, Flatten, NoEmpty;
    GetBpKeeps(c, km, i, true, before);
    var g := if i.rbp.Some? then (km, i) else GetBp(c, km, i, true, before);
    var j := g.1.(rbp := Some(g.1.rbp.value + [data]));
    assert Buffered(j) == Buffered(i) + [data];
    GetBpKeeps(c, g.0, j, false, after);
  }

  lemma SafeReceive(c: Config, p: Port, data: byte, taken: bool, before: Memory, after: Memory)
    requires c.bsize >= 1 && Safe(c, p)
    ensures Safe(c, Rx(c, p, data, taken, before, after))
  {
    hide Store, Buffered, FlattenAll, NoEmpty;
    if Accepts(c, p, data, taken) {
      StoreKeeps(c, p.km, p.input, data, before, after);
      var s := Store(c, p.km, p.input, data, before, after);
      assert FlattenAll(p.sent) + (Buffered(p.input) + [data]) == p.accepted + [data];
    }
  }

  lemma SafeServe(c: Config, p: Port, canPut: bool)
    requires c.bsize >= 1 && Safe(c, p)
    ensures Safe(c, Serve(p, canPut))
    ensures canPut ==> Serve(p, canPut).input.rmsg == []
    ensures canPut && !p.km.trPending ==> Buffered(Serve(p, canPut).input) == []
  {
    hide FlattenAll, Flatten;
    var i := p.input;
    NothingFlattened();
    if canPut {
      if i.rbp.Some? { FlattenSnoc(i.rmsg, i.rbp.value); }
      var moves := i.rbp.Some? && i.rbp.value != [] && (i.rmsg == [] || !p.km.trPending);
      var msg := if moves then i.rmsg + [i.rbp.value] else i.rmsg;
      FlattenAllSnoc(p.sent, msg);
      assert NoEmpty(msg);
      assert FlattenAll(p.sent) + Buffered(i) == FlattenAll(p.sent) + Flatten(msg) + (if moves then [] else Current(i));
    }
  }

  lemma SafeRefill(c: Config, p: Port, mem: Memory)
    requires c.bsize >= 1 && Safe(c, p)
    ensures Safe(c, Refill(c, p, mem)) && Buffered(Refill(c, p, mem).input) == Buffered(p.input)
  {
    hide GetBp, Buffered, FlattenAll, NoEmpty;
    GetBpKeeps(c, p.km, p.input, false, mem);
  }

  lemma SafeOpenClose(c: Config, p: Port)
    requires c.bsize >= 1 && Safe(c, p)
    ensures Safe(c, Close(p)) && Buffered(Close(p).input) == []
    ensures Safe(c, Open(p)) && Buffered(Open(p).input) == Buffered(p.input)
  {
    assert Flatten([]) == [] && FlattenAll([]) == [];
  }

  lemma SafeStep(c: Config, p: Port, e: Event)
    requires c.bsize >= 1 && Safe(c, p) && Enabled(p, e)
    ensures Safe(c, Step(c, p, e))
  {
    hide Rx, Serve, Refill, Close, Open, FlattenAll, Buffered, NoEmpty;
    match e
    case Receive(data, taken, before, after) => SafeReceive(c, p, data, taken, before, after);
    case Service(canPut) => SafeServe(c, p, canPut);
    case ServiceEnd(mem) => SafeRefill(c, p, mem);
    case CloseIt => SafeOpenClose(c, p);
    case OpenIt => SafeOpenClose(c, p);
    case Expire(t) =>
    case BackEnabled =>
    case BufferFound =>
    case SetHook(on) =>
  }

  lemma LiveReceive(c: Config, p: Port, data: byte, taken: bool, before: Memory, after: Memory)
    requires c.bsize >= 1 && Safe(c, p) && Live(p)
    requires !Leaks(c, p, Receive(data, taken, before, after))
    ensures Live(Rx(c, p, data, taken, before, after))
  {
    hide Store, Buffered, FlattenAll, NoEmpty;
    if Accepts(c, p, data, taken) {
      StoreKeeps(c, p.km, p.input, data, before, after);
      var s := Store(c, p.km, p.input, data, before, after);
      var q := p.(km := s.0, input := s.1, accepted := p.accepted + [data]);
      var r := Rx(c, p, data, taken, before, after);
      assert r.input == s.1;
      if data == c.capsLock || data == c.numLock {
        var q2 := Cancel(q);
        if q2.sys.disabled { assert q2.sys.nextTid in r.sys.timers; }
      } else if !q.km.trPending {
        assert q.sys.nextTid in r.sys.timers;
      }
    }
  }

  lemma LiveOther(c: Config, p: Port, e: Event)
    requires c.bsize >= 1 && Safe(c, p) && Live(p) && Enabled(p, e) && !e.Receive?
    ensures Live(Step(c, p, e))
  {
    hide Buffered, FlattenAll, NoEmpty, GetBp;
    match e
    case Service(canPut) =>
      SafeServe(c, p, canPut);
    case ServiceEnd(mem) =>
      SafeRefill(c, p, mem);
      GetBpKeeps(c, p.km, p.input, false, mem);
    case CloseIt => SafeOpenClose(c, p);
    case OpenIt => SafeOpenClose(c, p);
    case Expire(t) =>
      var q := Step(c, p, e);
      if p.km.isOpen && p.sys.disabled { assert p.sys.nextTid in q.sys.timers; }
    case BackEnabled =>
    case BufferFound =>
    case SetHook(on) =>
  }

  lemma LiveStep(c: Config, p: Port, e: Event)
    requires c.bsize >= 1 && Safe(c, p) && Live(p) && Enabled(p, e) && !Leaks(c, p, e)
    ensures Live(Step(c, p, e))
  {
    hide Safe, Live, Leaks, Rx, Serve, Refill, Close, Open, TimerLock;
    match e
    case Receive(data, taken, before, after) => LiveReceive(c, p, data, taken, before, after);
    case _ => LiveOther(c, p, e);
  }

  // ---------------------------------------------------------------------------- whole runs

  predicate Possible(c: Config, p: Port, es: seq<Event>)
    decreases |es|
  {
    es == [] || (Enabled(p, es[0]) && Possible(c, Step(c, p, es[0]), es[1..]))
  }

  function Run(c: Config, p: Port, es: seq<Event>): Port
    decreases |es|
  {
    if es == [] then p else Run(c, Step(c, p, es[0]), es[1..])
  }

  /** No byte declined by a textport handler is buffered on a closed port. */
  predicate NoLeak(c: Config, p: Port, es: seq<Event>)
    decreases |es|
  {
    es == [] || (!Leaks(c, p, es[0]) && NoLeak(c, Step(c, p, es[0]), es[1..]))
  }

  const BOOTED := Port(Km(false, false, false, 0, false), Input([], None), Sys({}, 0, false, false, false, false), [], [])

  /** Over every interleaving of interrupts, timers, service runs, opens and closes: the bytes sent, chained and
      in the current buffer are the accepted ones in order, and the current buffer is never left full. */
  lemma {:induction false} RunIsSafe(c: Config, p: Port, es: seq<Event>)
    requires c.bsize >= 1 && Safe(c, p) && Possible(c, p, es)
    ensures Safe(c, Run(c, p, es))
    decreases |es|
  {
    hide Safe, Enabled, Step;
    if es != [] {
      SafeStep(c, p, es[0]);
      RunIsSafe(c, Step(c, p, es[0]), es[1..]);
    }
  }

  /** And nothing is stranded: whatever waits on an open port waits for an armed timer, a service run that is
      due, or a congested upstream. */
  lemma {:induction false} RunIsLive(c: Config, p: Port, es: seq<Event>)
    requires c.bsize >= 1 && Safe(c, p) && Live(p) && Possible(c, p, es) && NoLeak(c, p, es)
    ensures Live(Run(c, p, es))
    decreases |es|
  {
    hide Safe, Live, Enabled, Step, Leaks;
    if es != [] {
      SafeStep(c, p, es[0]);
      LiveStep(c, p, es[0]);
      RunIsLive(c, Step(c, p, es[0]), es[1..]);
    }
  }

  lemma BootedIsFine(c: Config)
    requires c.bsize >= 1
    ensures Safe(c, BOOTED) && Live(BOOTED)
  {
    assert Flatten([]) == [] && FlattenAll([]) == [];
  }

  /** From power-on: no possible run loses, repeats or reorders a byte, and none strands one, unless a textport handler
      declined it on a closed port. */
  lemma FromPowerOn(c: Config, es: seq<Event>)
    requires c.bsize >= 1 && Possible(c, BOOTED, es)
    ensures Safe(c, Run(c, BOOTED, es))
    ensures NoLeak(c, BOOTED, es) ==> Live(Run(c, BOOTED, es))
  {
    hide Safe, Live, Run, Possible, NoLeak;
    BootedIsFine(c);
    RunIsSafe(c, BOOTED, es);
    if NoLeak(c, BOOTED, es) { RunIsLive(c, BOOTED, es); }
  }

  // ------------------------------------------------------------------ where liveness ends

  /** A byte that a textport handler declines before the port is opened can be left behind with nothing to
      send it: the timer it armed expires on the closed port, and opening does not look at the buffer. */
  lemma DeclinedByteIsStranded(c: Config, data: byte, mem: Memory)
    requires c.bsize >= 2 && !Replugged(c, data) && data != c.capsLock && data != c.numLock
    ensures var es := [SetHook(true), Receive(data, false, mem, mem), Expire(0), OpenIt];
            && Possible(c, BOOTED, es) && Run(c, BOOTED, es).km.isOpen
            && Buffered(Run(c, BOOTED, es).input) == [data] && !Live(Run(c, BOOTED, es))
  {
    var p1 := Step(c, BOOTED, SetHook(true));
    var p2 := Step(c, p1, Receive(data, false, mem, mem));
    var p3 := Step(c, p2, Expire(0));
    var p4 := Step(c, p3, OpenIt);
    assert [] + [data] == [data];
    assert p2.input == Input([], Some([data])) && p2.sys.timers == {0};
    assert Flatten([]) == [];
    RunOne(c, p3, OpenIt, []);
    RunOne(c, p2, Expire(0), [OpenIt]);
    RunOne(c, p1, Receive(data, false, mem, mem), [Expire(0), OpenIt]);
    RunOne(c, BOOTED, SetHook(true), [Receive(data, false, mem, mem), Expire(0), OpenIt]);
  }

  lemma RunOne(c: Config, p: Port, e: Event, es: seq<Event>)
    ensures Run(c, p, [e] + es) == Run(c, Step(c, p, e), es)
    ensures Possible(c, p, [e] + es) <==> Enabled(p, e) && Possible(c, Step(c, p, e), es)
  {
    assert ([e] + es)[1..] == es;
  }

  /** Opening strands nothing exactly when nothing was buffered on the closed port or a timer is still armed. */
  lemma OpenStrandsNothingIff(c: Config, p: Port)
    requires !p.km.isOpen && !p.sys.serving && (p.km.trPending ==> p.km.tid in p.sys.timers)
    requires forall t :: t in p.sys.timers ==> t < p.sys.nextTid
    ensures Live(Open(p)) <==> Buffered(p.input) == [] || p.sys.timers != {}
  {
    hide Buffered;
  }

  // -------------------------------------------------------------- everything gets upstream

  /** A lock key never waits for the heartbeat timer unless upstream is congested. */
  lemma LockKeysHurry(c: Config, p: Port, data: byte, taken: bool, before: Memory, after: Memory)
    requires p.km.isOpen && Accepts(c, p, data, taken) && (data == c.capsLock || data == c.numLock)
    ensures var q := Rx(c, p, data, taken, before, after);
            if p.sys.disabled then q.km.tid in q.sys.timers else q.sys.due && !q.km.trPending
  {
    hide GetBp;
    StoreKeepsKm(c, p.km, p.input, data, before, after);
  }

  lemma StoreKeepsKm(c: Config, km: Km, i: Input, data: byte, before: Memory, after: Memory)
    ensures var k := Store(c, km, i, data, before, after).0; k == km.(sePending := k.sePending)
  {}

  /** The service procedure, run with upstream ready. */
  function Serviced(c: Config, p: Port, mem: Memory): Port { Refill(c, Serve(p, true), mem) }

  lemma ServicedIs(c: Config, p: Port, mem: Memory)
    requires c.bsize >= 1 && Safe(c, p) && Live(p) && p.km.isOpen && p.sys.due && !p.sys.serving
    ensures var q := Serviced(c, p, mem);
            && Possible(c, p, [Service(true), ServiceEnd(mem)]) && Run(c, p, [Service(true), ServiceEnd(mem)]) == q
            && Safe(c, q) && Live(q) && q.km.isOpen && !q.sys.serving && !q.sys.disabled
            && q.accepted == p.accepted && q.km.trPending == p.km.trPending
            && (!p.km.trPending ==> Buffered(q.input) == [])
  {
    hide Safe, Live, Serve, Refill, Buffered, GetBp;
    var e1, e2 := Service(true), ServiceEnd(mem);
    var p1 := Serve(p, true);
    SafeStep(c, p, e1);
    LiveOther(c, p, e1);
    ServeKeeps(c, p, mem);
    SafeStep(c, p1, e2);
    LiveOther(c, p1, e2);
    RunOne(c, p1, e2, []);
    RunOne(c, p, e1, [e2]);
  }

  lemma ServeKeeps(c: Config, p: Port, mem: Memory)
    requires c.bsize >= 1 && Safe(c, p)
    ensures var p1, q := Serve(p, true), Serviced(c, p, mem);
            && p1.sys.serving && q.km.isOpen == p.km.isOpen && !q.sys.serving && !q.sys.disabled
            && q.accepted == p.accepted && q.km.trPending == p.km.trPending
            && (!p.km.trPending ==> Buffered(q.input) == [])
  {
    hide Buffered, GetBp, FlattenAll, NoEmpty;
    var p1 := Serve(p, true);
    SafeServe(c, p, true);
    SafeRefill(c, p1, mem);
    GetBpKeeps(c, p1.km, p1.input, false, mem);
  }

  /** From any state reached on an open port, with upstream ready, a few steps of the timer and the service
      procedure send every accepted byte. */
  lemma EverythingGetsUpstream(c: Config, p: Port, mem: Memory) returns (es: seq<Event>)
    requires c.bsize >= 1 && Safe(c, p) && Live(p) && p.km.isOpen && !p.sys.serving
    ensures Possible(c, p, es) && |es| <= 6
    ensures var q := Run(c, p, es); Buffered(q.input) == [] && FlattenAll(q.sent) == p.accepted
  {
    hide Safe, Live, Serviced, Buffered, FlattenAll;
    if Buffered(p.input) == [] {
      es := [];
      SentAll(c, p);
    } else {
      var ds := MakeDue(c, p);
      var d := Run(c, p, ds);
      ServicedIs(c, d, mem);
      var s := [Service(true), ServiceEnd(mem)];
      var q := Serviced(c, d, mem);
      RunConcat(c, p, ds, s);
      if Buffered(q.input) == [] {
        es := ds + s;
        SentAll(c, q);
      } else {
        var t := TimerDue(c, q);
        var r := Step(c, q, Expire(t));
        ServicedIs(c, r, mem);
        RunOne(c, q, Expire(t), s);
        RunConcat(c, p, ds + s, [Expire(t)] + s);
        es := (ds + s) + ([Expire(t)] + s);
        SentAll(c, Serviced(c, r, mem));
      }
    }
  }

  lemma SentAll(c: Config, q: Port)
    requires Safe(c, q) && Buffered(q.input) == []
    ensures FlattenAll(q.sent) == q.accepted
  {}

  lemma {:induction false} RunConcat(c: Config, p: Port, a: seq<Event>, b: seq<Event>)
    ensures Run(c, p, a + b) == Run(c, Run(c, p, a), b)
    ensures Possible(c, p, a + b) <==> Possible(c, p, a) && Possible(c, Run(c, p, a), b)
    decreases |a|
  {
    hide Enabled, Step;
    if a == [] {
      assert a + b == b;
    } else {
      assert (a + b)[1..] == a[1..] + b;
      RunConcat(c, Step(c, p, a[0]), a[1..], b);
    }
  }

  /** What waits can be made due: by upstream enabling the queue again, or by a timer. */
  lemma MakeDue(c: Config, p: Port) returns (es: seq<Event>)
    requires c.bsize >= 1 && Safe(c, p) && Live(p) && p.km.isOpen && !p.sys.serving && Buffered(p.input) != []
    ensures |es| <= 1 && Possible(c, p, es)
    ensures var q := Run(c, p, es);
            Safe(c, q) && Live(q) && q.km.isOpen && q.sys.due && !q.sys.serving && q.accepted == p.accepted
  {
    hide Safe, Buffered;
    if p.sys.due {
      es := [];
    } else {
      var e: Event;
      if p.sys.disabled {
        e := BackEnabled;
      } else {
        var t :| t in p.sys.timers;
        e := Expire(t);
      }
      SafeStep(c, p, e);
      LiveOther(c, p, e);
      RunOne(c, p, e, []);
      es := [e];
    }
  }

  /** The timer that KM_TR_PENDING stands for, when bytes are left after a service run. */
  lemma TimerDue(c: Config, q: Port) returns (t: nat)
    requires c.bsize >= 1 && Safe(c, q) && Live(q) && q.km.isOpen && !q.sys.serving && !q.sys.disabled && q.km.trPending
    ensures t in q.sys.timers
    ensures var r := Step(c, q, Expire(t));
            && Safe(c, r) && Live(r) && r.km.isOpen && !r.sys.serving && r.sys.due && !r.km.trPending
            && r.accepted == q.accepted
  {
    hide Safe;
    t := q.km.tid;
    SafeStep(c, q, Expire(t));
    LiveOther(c, q, Expire(t));
  }
}
