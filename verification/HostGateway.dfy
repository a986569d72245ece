/** The `Gateway` class of host_channel.py at work on a running guest. */
module HostGateway {
  import opened Common
  import opened Mailbox
  import opened HostChannel
  import opened HostExchange
  import opened HostFiles

  /** The guest, which runs on between two accesses of the host. */
  class Guest {
    var m: Machine
    var plan: seq<Slice>

    constructor (m: Machine, plan: seq<Slice>)
      ensures Now() == Env(m, plan)
    { this.m, this.plan := m, plan; }

    function Now(): Env
      reads this
    {
      Env(m, plan)
    }

    /** The agent steps until the host's next access; whether its address space is the current one then. */
    method Elapse() returns (current: bool)
      modifies this
      ensures Now() == Elapsed(old(Now())) && current == SliceAt(old(plan), 0).current
    {
      hide AgentStep;
      if plan == [] { return false; }
      var s := plan[0];
      for i := 0 to |s.answers|
        invariant m == Run(old(m), s.answers[..i]) && plan == old(plan)
      {
        RunSnoc(old(m), s.answers[..i], s.answers[i]);
        assert s.answers[..i + 1] == s.answers[..i] + [s.answers[i]];
        m := AgentStep(m, s.answers[i]);
      }
      assert s.answers[..|s.answers|] == s.answers;
      plan := plan[1..];
      return s.current;
    }

    method WritePath(path: Text)
      requires Quiet(m) && Shaped(m.world)
      modifies `m
      ensures Now() == WithPath(old(Now()), path)
    { m := m.(world := m.world.(path := PathField(m.world.path, path))); }

    method WriteData(chunk: Text)
      requires Quiet(m) && Shaped(m.world) && |chunk| <= DATA_SZ
      modifies `m
      ensures m == old(m).(world := old(m).world.(data := Over(old(m).world.data, chunk)))
    { m := m.(world := m.world.(data := Over(m.world.data, chunk))); }

    method WriteArg(n: int)
      requires Quiet(m)
      modifies `m
      ensures m == old(m).(world := old(m).world.(arg := n))
    { m := m.(world := m.world.(arg := n)); }

    method WriteCmd(c: int)
      modifies `m
      ensures m == Post(old(m), c)
    { m := Post(m, c); }
  }

  class Gateway {
    const guest: Guest

    constructor (guest: Guest)
      ensures this.guest == guest
    { this.guest := guest; }

    /** `_exec`: posts `c` and polls until the agent clears `cmd`; None is a timeout. */
    method Exec(c: int, polls: nat) returns (st: Option<int>)
      modifies guest
      ensures (guest.Now(), st) == Issue(old(guest.Now()), c, polls)
    {
      hide Elapsed, Run;
      var _ := guest.Elapse();
      guest.WriteCmd(c);
      for i := 0 to polls
        invariant Polled(guest.Now(), polls - i) == Issue(old(guest.Now()), c, polls)
      {
        var current := guest.Elapse();
        if current {
          var _ := guest.Elapse();
          if guest.m.cmd == 0 {
            var _ := guest.Elapse();
            return Some(guest.m.world.status);
          }
        }
      }
      return None;
    }

    /** `_setpath`. */
    method SetPath(path: Text)
      requires Idle(guest.m) && Shaped(guest.m.world)
      modifies guest
      ensures guest.Now() == WithPath(Elapsed(old(guest.Now())), path)
    {
      hide PathField, Run;
      ElapsedQuiet(guest.Now());
      var _ := guest.Elapse();
      guest.WritePath(path);
    }

    /** The two writes that come before each WRITE. */
    method PlaceChunk(chunk: Text)
      requires Idle(guest.m) && Shaped(guest.m.world) && |chunk| <= DATA_SZ
      modifies guest
      ensures guest.Now() == WithChunk(old(guest.Now()), chunk)
    {
      hide Run;
      ElapsedQuiet(guest.Now());
      var _ := guest.Elapse();
      guest.WriteData(chunk);
      ElapsedQuiet(guest.Now());
      var _ := guest.Elapse();
      guest.WriteArg(|chunk|);
    }

    /** `push_file`. */
    method PushFile(content: Text, path: Text, polls: nat) returns (ok: bool, ghost log: seq<Reply>)
      requires Idle(guest.m) && Shaped(guest.m.world)
      modifies guest
      ensures (guest.Now(), ok, log) == Push(old(guest.Now()), content, path, polls)
    {
      hide Issue, Idle, Shaped, WithPath, WithChunk, Elapsed, Target, CStr, DoneAs, Posted, InFlight, Pushing;
      ghost var e, p, files := guest.Now(), Target(path), guest.m.world.files;
      PathPlaced(e, path);
      SetPath(path);
      ghost var f := guest.Now();
      IssueIsSafe(f, C_OPEN_W, polls);
      var st := Exec(C_OPEN_W, polls);
      log := [Reply(C_OPEN_W, st, 0)];
      if st != Some(1) { return false, log; }
      PushOpened(f.m, guest.m, content, files);
      ghost var start := guest.Now();
      var i := 0;
      while i < |content|
        invariant 0 <= i && Pushing(guest.m, p, content, Min(i, |content|), files)
        invariant var r, t := PushFrom(start, content, 0, polls), PushFrom(guest.Now(), content, i, polls);
                  r.0 == t.0 && r.1 == t.1 && [Reply(C_OPEN_W, Some(1), 0)] + r.2 == log + t.2
      {
        ghost var before := guest.Now();
        var chunk := content[i..Min(i + DATA_SZ, |content|)];
        PushingIdle(guest.m, p, content, i, files);
        ChunkPlaced(before, chunk, p, content, i, files);
        PlaceChunk(chunk);
        PushingIdle(guest.m, p, content, i, files);
        ghost var placed := guest.Now();
        IssueIsSafe(placed, C_WRITE, polls);
        st := Exec(C_WRITE, polls);
        ghost var first := Reply(C_WRITE, st, 0);
        if st != Some(1) {
          var closed := Exec(C_CLOSE, polls);
          log := log + [first, Reply(C_CLOSE, closed, 0)];
          return false, log;
        }
        PushWrote(placed.m, guest.m, p, content, i, chunk, files);
        i := i + DATA_SZ;
        assert log + ([first] + PushFrom(guest.Now(), content, i, polls).2)
            == log + [first] + PushFrom(guest.Now(), content, i, polls).2;
        log := log + [first];
      }
      st := Exec(C_CLOSE, polls);
      log := log + [Reply(C_CLOSE, st, 0)];
      return st == Some(1), log;
    }

    /** `pull_file`. */
    method PullFile(path: Text, polls: nat, maxBytes: nat) returns (out: Option<Text>, ghost log: seq<Reply>)
      requires Idle(guest.m) && Shaped(guest.m.world)
      modifies guest
      ensures (guest.Now(), out, log) == Pull(old(guest.Now()), path, polls, maxBytes)
    {
      hide Issue, Idle, Shaped, WithPath, Elapsed, Target, CStr, DoneAs, Posted, InFlight, Pulling;
      ghost var e, p, files := guest.Now(), Target(path), guest.m.world.files;
      PathPlaced(e, path);
      SetPath(path);
      ghost var f := guest.Now();
      IssueIsSafe(f, C_OPEN_R, polls);
      var st := Exec(C_OPEN_R, polls);
      log := [Reply(C_OPEN_R, st, 0)];
      if st != Some(1) { return None, log; }
      PullOpened(f.m, guest.m, files);
      ghost var start := guest.Now();
      var got: Text := [];
      ghost var whole := PullFrom(start, [], polls, maxBytes);
      ghost var first := log;
      while |got| < maxBytes
        invariant p in files && Pulling(guest.m, p, |got|, files)
        invariant var t := PullFrom(guest.Now(), got, polls, maxBytes);
                  whole.0 == t.0 && whole.1 == t.1 && first + whole.2 == log + t.2
        decreases maxBytes - |got|
      {
        ghost var before := guest.Now();
        PullingLooksOnly(guest.m, p, |got|, files);
        IssueIsSafe(before, C_READ, polls);
        st := Exec(C_READ, polls);
        if st.Some? { PullRead(before.m, guest.m, p, |got|, files); }
        if st != Some(1) {
          log := log + [Reply(C_READ, st, 0)];
          break;
        }
        ElapsedPulling(guest.Now(), p, |got| + guest.m.world.arg, files);
        var _ := guest.Elapse();
        var n := guest.m.world.arg;
        if n == 0 {
          log := log + [Reply(C_READ, st, 0)];
          break;
        }
        ElapsedPulling(guest.Now(), p, |got| + n, files);
        var _ := guest.Elapse();
        PullingLooksOnly(guest.m, p, |got| + n, files);
        assert FirstBytes(guest.m.world.data, n) == guest.m.world.data[..n];
        got := got + guest.m.world.data[..n];
        ghost var rest := PullFrom(guest.Now(), got, polls, maxBytes).2;
        assert log + ([Reply(C_READ, st, n)] + rest) == log + [Reply(C_READ, st, n)] + rest;
        log := log + [Reply(C_READ, st, n)];
      }
      assert first + whole.2 == log by { assert log + [] == log; }
      st := Exec(C_CLOSE, polls);
      log := log + [Reply(C_CLOSE, st, 0)];
      return Some(got), log;
    }
  }
}
