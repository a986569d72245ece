/** What a run of the keyboard/mouse driver must deliver, read off the list of events alone. */
module PckmHistory {
  import opened Bytes
  import opened Pckm

  function Front(es: seq<Event>): seq<Event>
    requires es != []
  {
    es[..|es| - 1]
  }

  predicate IsOpened(es: seq<Event>) {
    if es == [] then false
    else
      match es[|es| - 1]
      case OpenIt => true
      case CloseIt => false
      case _ => IsOpened(Front(es))
  }

  /** Whether a textport handler is set; opening the port takes it away. */
  predicate Hooked(es: seq<Event>) {
    if es == [] then false
    else
      match es[|es| - 1]
      case SetHook(on) => on
      case OpenIt => false
      case _ => Hooked(Front(es))
  }

  /** Whether a byte that comes in after `es` is for the stream. BAT codes announce a device that was plugged in,
      but the failure code is also good mouse data; a textport handler takes what it wants; and without one the
      port must be open. */
  predicate ForStream(c: Config, es: seq<Event>, data: byte, taken: bool) {
    && data != c.batOk && (data == c.batFail ==> c.mouse)
    && if Hooked(es) then !taken else IsOpened(es)
  }

  /** The bytes for the stream since it was last closed, in the order in which they came. */
  function Heard(c: Config, es: seq<Event>): Buf {
    if es == [] then []
    else
      match es[|es| - 1]
      case CloseIt => []
      case Receive(data, taken, _, _) =>
        Heard(c, Front(es)) + if ForStream(c, Front(es), data, taken) then [data] else []
      case _ => Heard(c, Front(es))
  }

  ghost predicate Agrees(c: Config, es: seq<Event>, q: Port) {
    && Safe(c, q) && q.km.isOpen == IsOpened(es) && q.km.hook == Hooked(es)
    && if IsOpened(es) then q.accepted == Heard(c, es) else Buffered(q.input) == Heard(c, es)
  }

  lemma FrontOf(es: seq<Event>, e: Event)
    ensures Front(es + [e]) == es && (es + [e])[|es + [e]| - 1] == e
  {}

  lemma AgreesReceive(c: Config, es: seq<Event>, q: Port, e: Event)
    requires c.bsize >= 1 && Agrees(c, es, q) && e.Receive?
    ensures Agrees(c, es + [e], Step(c, q, e))
  {
    hide Store, Buffered, FlattenAll, NoEmpty, Safe;
    FrontOf(es, e);
    SafeStep(c, q, e);
    assert Accepts(c, q, e.data, e.taken) <==> ForStream(c, es, e.data, e.taken);
    RxKeepsKm(c, q, e.data, e.taken, e.before, e.after);
    assert Heard(c, es) + [] == Heard(c, es);
  }

  lemma RxKeepsKm(c: Config, p: Port, data: byte, taken: bool, before: Memory, after: Memory)
    requires c.bsize >= 1 && Safe(c, p)
    ensures var q, yes := Rx(c, p, data, taken, before, after), Accepts(c, p, data, taken);
            && q.km.isOpen == p.km.isOpen && q.km.hook == p.km.hook
            && q.accepted == p.accepted + (if yes then [data] else [])
            && Buffered(q.input) == Buffered(p.input) + (if yes then [data] else [])
  {
    hide Store, Buffered, FlattenAll;
    if Accepts(c, p, data, taken) {
      StoreKeeps(c, p.km, p.input, data, before, after);
    } else {
      assert Buffered(p.input) + [] == Buffered(p.input) && p.accepted + [] == p.accepted;
    }
  }

  lemma AgreesOther(c: Config, es: seq<Event>, q: Port, e: Event)
    requires c.bsize >= 1 && Agrees(c, es, q) && Enabled(q, e) && !e.Receive?
    ensures Agrees(c, es + [e], Step(c, q, e))
  {
    hide Buffered, FlattenAll, Flatten, NoEmpty, GetBp, Safe;
    FrontOf(es, e);
    SafeStep(c, q, e);
    match e
    case ServiceEnd(mem) =>
      SafeRefill(c, q, mem);
      RefillKeepsKm(c, q, mem);
    case CloseIt => SafeOpenClose(c, q);
    case OpenIt => SafeOpenClose(c, q);
    case _ =>
  }

  lemma RefillKeepsKm(c: Config, p: Port, mem: Memory)
    ensures var q := Refill(c, p, mem);
            q.km.isOpen == p.km.isOpen && q.km.hook == p.km.hook && q.accepted == p.accepted
  {}

  lemma {:induction false} RunAgrees(c: Config, es: seq<Event>)
    requires c.bsize >= 1 && Possible(c, BOOTED, es)
    ensures Agrees(c, es, Run(c, BOOTED, es))
  {
    hide Agrees, Enabled, Step;
    if es == [] {
      BootedAgrees(c);
    } else {
      var e, front := es[|es| - 1], Front(es);
      assert es == front + [e];
      RunConcat(c, BOOTED, front, [e]);
      RunAgrees(c, front);
      var q := Run(c, BOOTED, front);
      RunOne(c, q, e, []);
      assert [e] + [] == [e];
      if e.Receive? { AgreesReceive(c, front, q, e); } else { AgreesOther(c, front, q, e); }
    }
  }

  lemma BootedAgrees(c: Config)
    requires c.bsize >= 1
    ensures Agrees(c, [], BOOTED)
  {
    BootedIsFine(c);
    NothingFlattened();
  }

  /** From power-on, over every interleaving: on an open port the bytes sent since the open, chained and in the
      current buffer are exactly those for the stream since it was last closed, in order; on a closed port they
      are all still buffered. */
  lemma RunDelivers(c: Config, es: seq<Event>)
    requires c.bsize >= 1 && Possible(c, BOOTED, es)
    ensures var q := Run(c, BOOTED, es);
            && q.km.isOpen == IsOpened(es)
            && (if IsOpened(es) then FlattenAll(q.sent) + Buffered(q.input) else Buffered(q.input)) == Heard(c, es)
  {
    hide FlattenAll, Buffered, Run, Possible, Heard, IsOpened, Hooked;
    RunAgrees(c, es);
  }

  /** No byte that a textport handler declined came in on a closed port. */
  predicate QuietWhileClosed(c: Config, es: seq<Event>) {
    es == []
    || (&& QuietWhileClosed(c, Front(es))
        && var e := es[|es| - 1];
           !(e.Receive? && !IsOpened(Front(es)) && ForStream(c, Front(es), e.data, e.taken)))
  }

  lemma {:induction false} NoLeakConcat(c: Config, p: Port, a: seq<Event>, e: Event)
    ensures NoLeak(c, p, a + [e]) <==> NoLeak(c, p, a) && !Leaks(c, Run(c, p, a), e)
    decreases |a|
  {
    hide Leaks, Step;
    if a == [] {
      assert a + [e] == [e];
      assert [e][1..] == [];
    } else {
      assert (a + [e])[1..] == a[1..] + [e];
      NoLeakConcat(c, Step(c, p, a[0]), a[1..], e);
    }
  }

  lemma {:induction false} QuietIsNoLeak(c: Config, es: seq<Event>)
    requires c.bsize >= 1 && Possible(c, BOOTED, es)
    ensures NoLeak(c, BOOTED, es) <==> QuietWhileClosed(c, es)
  {
    hide Enabled, Step, Run, Possible, Heard, Safe;
    if es != [] {
      var e, front := es[|es| - 1], Front(es);
      assert es == front + [e];
      RunConcat(c, BOOTED, front, [e]);
      QuietIsNoLeak(c, front);
      NoLeakConcat(c, BOOTED, front, e);
      RunAgrees(c, front);
      if e.Receive? {
        assert Accepts(c, Run(c, BOOTED, front), e.data, e.taken) <==> ForStream(c, front, e.data, e.taken);
      }
    }
  }

  /** And with upstream ready, a few steps of the timer and the service procedure send all of it: after them the
      stream has got exactly the bytes that were for it. */
  lemma {:induction false} StreamGetsEverything(c: Config, es: seq<Event>, mem: Memory) returns (more: seq<Event>)
    requires c.bsize >= 1 && Possible(c, BOOTED, es) && QuietWhileClosed(c, es)
    requires IsOpened(es) && !Run(c, BOOTED, es).sys.serving
    ensures |more| <= 6 && Possible(c, BOOTED, es + more)
    ensures FlattenAll(Run(c, BOOTED, es + more).sent) == Heard(c, es)
  {
    hide Run, Possible, Heard, Safe, Live, NoLeak, IsOpened, Hooked, QuietWhileClosed, FlattenAll, Buffered;
    QuietIsNoLeak(c, es);
    FromPowerOn(c, es);
    RunAgrees(c, es);
    more := EverythingGetsUpstream(c, Run(c, BOOTED, es), mem);
    RunConcat(c, BOOTED, es, more);
  }

  /** A lock key for the stream never waits for the heartbeat timer unless upstream is congested. */
  lemma {:induction false} LockKeyIsPrompt(c: Config, es: seq<Event>, data: byte, taken: bool, before: Memory,
                                           after: Memory)
    requires c.bsize >= 1 && Possible(c, BOOTED, es) && IsOpened(es)
    requires ForStream(c, es, data, taken) && (data == c.capsLock || data == c.numLock)
    ensures var q := Run(c, BOOTED, es + [Receive(data, taken, before, after)]);
            if Run(c, BOOTED, es).sys.disabled then q.km.tid in q.sys.timers else q.sys.due && !q.km.trPending
  {
    hide Run, Possible, Heard, Safe, IsOpened, Hooked, Rx;
    var p, e := Run(c, BOOTED, es), Receive(data, taken, before, after);
    RunAgrees(c, es);
    LockKeysHurry(c, p, data, taken, before, after);
    RunConcat(c, BOOTED, es, [e]);
    RunOne(c, p, e, []);
    assert [e] + [] == [e];
    RunNone(c, Step(c, p, e));
  }

  lemma RunNone(c: Config, p: Port)
    ensures Run(c, p, []) == p
  {}
}
