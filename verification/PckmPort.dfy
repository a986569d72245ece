/** The port structure of pckm.c and the functions that update it in place. */
module PckmPort {
  import opened Common
  import opened Bytes
  import opened Pckm

  class KmPort {
    const config: Config
    var isOpen: bool
    var sePending: bool
    var trPending: bool
    var tid: nat
    var hook: bool
    var rmsg: Message
    var rbp: Option<Buf>
    var sys: Sys
    var sent: seq<Message>
    ghost var accepted: Buf

    constructor (config: Config)
      ensures this.config == config && State() == BOOTED
    {
      this.config := config;
      isOpen, sePending, trPending, tid, hook, rmsg, rbp := false, false, false, 0, false, [], None;
      sys, sent, accepted := Sys({}, 0, false, false, false, false), [], [];
    }

    ghost function State(): Port
      reads this
    {
      Port(Km(isOpen, sePending, trPending, tid, hook), Input(rmsg, rbp), sys, sent, accepted)
    }

    /** `pckm_getbp`; `retries` is how often a high-priority allocation fails before it succeeds. */
    method GetBuffer(high: bool, mem: Memory, retries: nat) returns (bp: Option<Buf>)
      modifies `sePending, `rmsg, `rbp
      ensures var g := GetBp(config, old(State()).km, old(State()).input, high, mem);
              State() == old(State()).(km := g.0, input := g.1)
    {
      var old_rbp := rbp;
      bp := None;
      if !(old_rbp.Some? && old_rbp.value == []) {
        var failures := retries;
        while true
          invariant bp == None && sePending == old(sePending)
          decreases failures
          modifies {}
        {
          if (if high then failures == 0 else mem.allocb) {
            bp := Some([]);
            break;
          }
          if high {
            failures := failures - 1;
          } else {
            break;
          }
        }
        if bp.None? && !sePending {
          if mem.strAllocb { bp := Some([]); } else { sePending := true; }
        }
      }
      if old_rbp.None? {
        rbp := bp;
      } else if bp.Some? || |old_rbp.value| >= config.bsize {
        rmsg := rmsg + [old_rbp.value];
        rbp := bp;
      }
    }

    method StartTimer()
      modifies `tid, `sys
      ensures State() == Arm(old(State()))
    {
      tid := sys.nextTid;
      sys := sys.(timers := sys.timers + {sys.nextTid}, nextTid := sys.nextTid + 1);
    }

    method StopTimer()
      modifies `sys
      ensures State() == old(State()).(sys := old(sys).(timers := old(sys).timers - {old(tid)}))
    {
      sys := sys.(timers := sys.timers - {tid});
    }

    /** `pckm_rsrv_timer_lock`. */
    method RsrvTimerLock()
      modifies `trPending, `tid, `sys
      ensures State() == TimerLock(old(State()))
    {
      if !isOpen {
        trPending := false;
        return;
      }
      if !sys.disabled {
        trPending := false;
        sys := sys.(due := true);
        return;
      }
      StartTimer();
    }

    /** `pckm_rx`. */
    method Receive(data: byte, taken: bool, before: Memory, after: Memory, retries: nat)
      modifies this
      ensures State() == Rx(config, old(State()), data, taken, before, after)
    {
      hide Store, Prompt;
      if data == config.batOk || data == config.batFail {
        if config.mouse {
          if data == config.batOk { return; }
        } else {
          return;
        }
      }
      if !isOpen && !hook { return; }
      if hook && taken { return; }
      accepted := accepted + [data];
      StoreByte(data, before, after, retries);
      Hurry(data);
    }

    /** The end of `pckm_rx`. */
    method Hurry(data: byte)
      modifies `trPending, `tid, `sys
      ensures State() == Prompt(config, old(State()), data)
    {
      hide TimerLock, Arm;
      if data == config.capsLock || data == config.numLock {
        if trPending { StopTimer(); }
        RsrvTimerLock();
      } else if !trPending {
        trPending := true;
        StartTimer();
      }
    }

    /** The byte into the current buffer; without a buffer it would be dropped and counted. */
    method StoreByte(data: byte, before: Memory, after: Memory, retries: nat)
      modifies `sePending, `rmsg, `rbp
      ensures var s := Store(config, old(State()).km, old(State()).input, data, before, after);
              State() == old(State()).(km := s.0, input := s.1)
    {
      hide GetBp;
      if rbp.None? { var _ := GetBuffer(true, before, retries); }
      if rbp.Some? {
        rbp := Some(rbp.value + [data]);
        if |rbp.value| >= config.bsize { var _ := GetBuffer(false, after, 0); }
      }
    }

    /** `pckm_rsrv` up to putnext. */
    method Rsrv(canPut: bool)
      modifies this
      ensures State() == Serve(old(State()), canPut)
    {
      if !canPut {
        sys := sys.(due := false, disabled := true, backEnable := true);
        return;
      }
      sys := sys.(due := false, disabled := false, serving := true);
      if sePending { sePending := false; }
      if rbp.Some? && |rbp.value| > 0 && (rmsg == [] || !trPending) {
        rmsg := rmsg + [rbp.value];
        rbp := None;
      }
      if rmsg != [] {
        sent := sent + [rmsg];
        rmsg := [];
      }
    }

    /** `pckm_rsrv` after putnext. */
    method RsrvEnd(mem: Memory)
      modifies this
      ensures State() == Refill(config, old(State()), mem)
    {
      hide GetBp;
      sys := sys.(serving := false);
      if rbp.None? { var _ := GetBuffer(false, mem, 0); }
    }

    /** The buffer part of `pckm_close`. */
    method CloseBuffers()
      modifies this
      ensures State() == Close(old(State()))
    {
      hide FlattenAll;
      if trPending { StopTimer(); }
      if sePending { sePending := false; }
      rmsg, rbp := [], None;
      isOpen, trPending := false, false;
      sys := sys.(due := false, disabled := false, backEnable := false);
      accepted := FlattenAll(sent);
    }
  }
}
