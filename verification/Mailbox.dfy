/** The guest side of the mailbox: the agent loop of gwagent.c as a step machine over the shared page. */
module Mailbox {
  import opened Common
  import opened Bytes
  import opened Disk

  const C_PING := 1
  const C_RUN := 2
  const C_OPEN_W := 3
  const C_WRITE := 4
  const C_CLOSE := 5
  const C_OPEN_R := 6
  const C_READ := 7
  const DATA_SZ := 2048
  const PATH_SZ := 256

  type Text = seq<byte>

  datatype OpenFile = OpenFile(path: Text, pos: nat, writing: bool)

  /** Everything a command may change: the page's parameter fields, the agent's `fd` and the guest's files. */
  datatype World = World(arg: int, status: int, path: Text, data: Text, fd: Option<OpenFile>, files: map<Text, Text>)

  /** Where the agent stands in its loop; `c` is the command it fetched, `n` what the system call returned. */
  datatype Pc = Spin | Fetched(c: int) | Busy(c: int) | Did(c: int, n: int) | ArgSet(c: int, n: int) | Final

  /** The whole system. `issued` and `executed` log what the host posted and what the agent carried out. */
  datatype Machine = Machine(
    heartbeat: nat, cmd: int, pc: Pc, world: World, issued: seq<int>, executed: seq<int>)

  /** What the guest's system answers: whether an open succeeds, how much a read or write moves; what a shell command
      prints, and what it makes of the guest's files. */
  datatype Answer = Answer(ok: bool, n: int, out: Text, files: map<Text, Text>)

  function Clamp(n: int, lo: int, hi: int): int { if n < lo then lo else if n > hi then hi else n }

  /** A C string: the bytes before the first NUL. */
  function CStr(b: Text): Text {
    if b == [] || b[0] == 0 then [] else [b[0]] + CStr(b[1..])
  }

  // ------------------------------------------------------------- system calls

  function OpenWrite(w: World, a: Answer): (World, int) {
    var p := CStr(w.path);
    if a.ok then (w.(fd := Some(OpenFile(p, 0, true)), files := w.files[p := []]), 1) else (w.(fd := None), -1)
  }

  function OpenRead(w: World, a: Answer): (World, int) {
    var p := CStr(w.path);
    if a.ok && p in w.files then (w.(fd := Some(OpenFile(p, 0, false))), 1) else (w.(fd := None), -1)
  }

  /** `write` may fail, or write fewer bytes than asked. */
  function Write(w: World, a: Answer): (World, int) {
    if w.fd.None? || !w.fd.value.writing || w.fd.value.path !in w.files || a.n < 0 then (w, -1)
    else
      var f, n := w.fd.value, Clamp(a.n, 0, Clamp(w.arg, 0, |w.data|));
      (w.(fd := Some(f.(pos := f.pos + n)), files := w.files[f.path := WriteAt(w.files[f.path], f.pos, w.data[..n])]), n)
  }

  /** `read` may fail, or return fewer bytes than are there; only the end of the file gives 0. */
  function Read(w: World, a: Answer): (World, int) {
    if w.fd.None? || w.fd.value.writing || w.fd.value.path !in w.files || a.n < 0 || |w.data| == 0 then (w, -1)
    else
      var f, content := w.fd.value, w.files[w.fd.value.path];
      if f.pos >= |content| then (w, 0)
      else
        var n := Clamp(a.n, 1, Min(|content| - f.pos, |w.data|));
        (w.(fd := Some(f.(pos := f.pos + n)), data := content[f.pos..f.pos + n] + w.data[n..]), n)
  }

  /** A shell command: it is ended by a NUL in the data field, which then takes the beginning of what it prints. */
  function Popen(w: World, a: Answer): (World, int) {
    var at := if 0 <= w.arg < DATA_SZ then w.arg else DATA_SZ - 1;
    var data := if at < |w.data| then w.data[at := 0] else w.data;
    if !a.ok then (w.(data := data), -1)
    else
      var out := a.out[..Clamp(|a.out|, 0, Clamp(|data| - 1, 0, DATA_SZ - 1))];
      (w.(data := if |out| < |data| then out + [0] + data[|out| + 1..] else data, files := a.files), |out|)
  }

  function Syscall(w: World, c: int, a: Answer): (World, int) {
    if c == C_OPEN_W then OpenWrite(w, a)
    else if c == C_WRITE then Write(w, a)
    else if c == C_OPEN_R then OpenRead(w, a)
    else if c == C_READ then Read(w, a)
    else if c == C_CLOSE then (w.(fd := None), 1)
    else if c == C_PING then (w, 1)
    else if c == C_RUN then Popen(w, a)
    else (w, -1)
  }

  function ArgOf(c: int, n: int, w: World, heartbeat: nat): int {
    if c == C_PING then heartbeat
    else if c == C_READ then (if n > 0 then n else 0)
    else if c == C_RUN && n >= 0 then n
    else w.arg
  }

  function StatusOf(c: int, n: int, w: World): int {
    if c == C_WRITE then (if n == w.arg then 1 else -1)
    else if c == C_READ || c == C_RUN then (if n >= 0 then 1 else -1)
    else n
  }

  /** One step of the agent; `a` answers the system call if this step makes one. */
  function AgentStep(m: Machine, a: Answer): Machine {
    match m.pc
    case Spin =>
      if m.cmd == 0 then m.(heartbeat := m.heartbeat + 1)
      else m.(heartbeat := m.heartbeat + 1, pc := Fetched(m.cmd))
    case Fetched(c) => m.(world := m.world.(status := 0), pc := Busy(c))
    case Busy(c) =>
      var r := Syscall(m.world, c, a);
      m.(world := r.0, pc := Did(c, r.1), executed := m.executed + [c])
    case Did(c, n) => m.(world := m.world.(arg := ArgOf(c, n, m.world, m.heartbeat)), pc := ArgSet(c, n))
    case ArgSet(c, n) => m.(world := m.world.(status := StatusOf(c, n, m.world)), pc := Final)
    case Final => m.(cmd := 0, pc := Spin)
  }

  function Run(m: Machine, answers: seq<Answer>): Machine
    decreases |answers|
  {
    if answers == [] then m else Run(AgentStep(m, answers[0]), answers[1..])
  }

  lemma {:induction false} RunSnoc(m: Machine, answers: seq<Answer>, a: Answer)
    ensures Run(m, answers + [a]) == AgentStep(Run(m, answers), a)
    decreases |answers|
  {
    if answers == [] {
      assert Run(AgentStep(m, a), []) == AgentStep(m, a);
      assert ([a])[1..] == [];
    } else {
      RunSnoc(AgentStep(m, answers[0]), answers[1..], a);
      assert (answers + [a])[1..] == answers[1..] + [a];
    }
  }

  // --------------------------------------------------------- one command at a time

  /** Nothing is posted and nothing is being carried out. */
  predicate Quiet(m: Machine) { m.cmd == 0 && m.pc == Spin }

  /** Quiet, and every command ever posted has been carried out, once and in order. */
  predicate Idle(m: Machine) { Quiet(m) && m.executed == m.issued }

  /** The host posts a command. */
  function Post(m: Machine, c: int): Machine { m.(cmd := c, issued := m.issued + [c]) }

  /** The world once `c` has been carried out on `w` at heartbeat `q`, the system answering `a`. */
  function Outcome(w: World, c: int, q: nat, a: Answer): World {
    var r := Syscall(w.(status := 0), c, a);
    var v := r.0.(arg := ArgOf(c, r.1, r.0, q));
    v.(status := StatusOf(c, r.1, v))
  }

  /** A state the agent can be in after `c` was posted to the idle machine `m`. */
  ghost predicate At(m: Machine, c: int, q: nat, a: Answer, s: Machine) {
    var r := Syscall(m.world.(status := 0), c, a);
    && s.issued == m.issued + [c]
    && match s.pc
       case Spin => if s.cmd == 0 then s.executed == m.executed + [c] && s.world == Outcome(m.world, c, q, a)
                    else s.cmd == c && s.executed == m.executed && s.world == m.world
       case Fetched(k) => k == c == s.cmd && s.executed == m.executed && s.world == m.world && s.heartbeat == q
       case Busy(k) =>
         k == c == s.cmd && s.executed == m.executed && s.world == m.world.(status := 0) && s.heartbeat == q
       case Did(k, n) =>
         k == c == s.cmd && n == r.1 && s.executed == m.executed + [c] && s.world == r.0 && s.heartbeat == q
       case ArgSet(k, n) =>
         k == c == s.cmd && n == r.1 && s.executed == m.executed + [c] && s.world == r.0.(arg := ArgOf(c, n, r.0, q))
       case Final => s.cmd == c && s.executed == m.executed + [c] && s.world == Outcome(m.world, c, q, a)
  }

  ghost predicate InFlight(m: Machine, c: int, s: Machine) { exists q: nat, a :: At(m, c, q, a, s) }

  lemma StepAt(m: Machine, c: int, s: Machine, a: Answer, q: nat, b: Answer)
    requires Idle(m) && c != 0 && At(m, c, q, b, s)
    ensures At(m, c, if s.pc.Spin? && s.cmd != 0 then s.heartbeat + 1 else q, if s.pc.Busy? then a else b, AgentStep(s, a))
  {
    hide Syscall, ArgOf, StatusOf;
  }

  /** Whatever the agent does and whatever the system answers, a posted command stays in flight until it is
      done, and it is carried out exactly once. */
  lemma {:induction false} RunStaysInFlight(m: Machine, c: int, s: Machine, answers: seq<Answer>)
    requires Idle(m) && c != 0 && InFlight(m, c, s)
    ensures InFlight(m, c, Run(s, answers))
    decreases |answers|
  {
    hide At;
    if answers != [] {
      var q: nat, b :| At(m, c, q, b, s);
      StepAt(m, c, s, answers[0], q, b);
      RunStaysInFlight(m, c, AgentStep(s, answers[0]), answers[1..]);
    }
  }

  lemma PostedIsInFlight(m: Machine, c: int)
    requires Idle(m) && c != 0
    ensures InFlight(m, c, Post(m, c))
  {
    assert At(m, c, 0, Answer(true, 0, [], map[]), Post(m, c));
  }

  /** Only the heartbeat moves while nothing is posted. */
  lemma {:induction false} RunQuiet(m: Machine, answers: seq<Answer>)
    requires Quiet(m)
    ensures Run(m, answers) == m.(heartbeat := m.heartbeat + |answers|)
    decreases |answers|
  {
    if answers != [] { RunQuiet(AgentStep(m, answers[0]), answers[1..]); }
  }

  /** `s` is idle again, the one more command carried out since `m` is `c`, and the world is its outcome. */
  ghost predicate DoneAs(m: Machine, c: int, s: Machine) {
    && Idle(s) && s.executed == m.executed + [c]
    && exists q: nat, a :: s.world == Outcome(m.world, c, q, a)
  }

  /** The host sees `cmd` cleared only once the command is completely done. */
  lemma ClearedMeansDone(m: Machine, c: int, s: Machine)
    requires Idle(m) && c != 0 && InFlight(m, c, s) && s.cmd == 0
    ensures DoneAs(m, c, s)
  {
    hide Syscall;
    var q: nat, a :| At(m, c, q, a, s);
  }

  /** Steps of the agent until it is quiet again. */
  function StepsLeft(m: Machine): nat {
    match m.pc
    case Spin => if m.cmd == 0 then 0 else 6
    case Fetched(_) => 5
    case Busy(_) => 4
    case Did(_, _) => 3
    case ArgSet(_, _) => 2
    case Final => 1
  }

  lemma {:induction false} RunsDown(m: Machine, answers: seq<Answer>)
    requires |answers| >= StepsLeft(m)
    ensures Quiet(Run(m, answers))
    decreases |answers|
  {
    hide Syscall;
    if answers != [] { RunsDown(AgentStep(m, answers[0]), answers[1..]); }
  }

  /** Once the agent has made six steps the host finds the command done, whatever the system answered. */
  lemma SixStepsSuffice(m: Machine, c: int, answers: seq<Answer>)
    requires Idle(m) && c != 0 && |answers| >= 6
    ensures DoneAs(m, c, Run(Post(m, c), answers))
  {
    hide DoneAs, InFlight;
    PostedIsInFlight(m, c);
    RunStaysInFlight(m, c, Post(m, c), answers);
    RunsDown(Post(m, c), answers);
    ClearedMeansDone(m, c, Run(Post(m, c), answers));
  }

  /** The agent touches the parameter fields, its file or the guest's files only while a command is posted. */
  lemma AgentOwnsOnlyWhilePosted(m: Machine, c: int, answers: seq<Answer>, a: Answer)
    requires Idle(m) && c != 0
    ensures var s := Run(Post(m, c), answers); AgentStep(s, a).world != s.world ==> s.cmd == c
  {
    PostedIsInFlight(m, c);
    RunStaysInFlight(m, c, Post(m, c), answers);
    var q: nat, b :| At(m, c, q, b, Run(Post(m, c), answers));
  }

  // ------------------------------------------------- posting at any moment whatever

  datatype Event = Agent(answer: Answer) | Host(cmd: int)

  function Happen(m: Machine, e: Event): Machine {
    match e case Agent(a) => AgentStep(m, a) case Host(c) => Post(m, c)
  }

  function HappenAll(m: Machine, events: seq<Event>): Machine
    decreases |events|
  {
    if events == [] then m else HappenAll(Happen(m, events[0]), events[1..])
  }

  /** How many of the posts came while an earlier command was still posted or being carried out. */
  function Hasty(m: Machine, events: seq<Event>): nat
    decreases |events|
  {
    if events == [] then 0
    else (if events[0].Host? && !Quiet(m) then 1 else 0) + Hasty(Happen(m, events[0]), events[1..])
  }

  /** Commands posted, less those carried out, less the one the agent is about to carry out. */
  function Debt(m: Machine): int {
    |m.issued| - |m.executed|
    - (if (m.pc.Spin? && m.cmd != 0) || m.pc.Fetched? || m.pc.Busy? then 1 else 0)
  }

  /** Over every interleaving, each hasty post costs exactly one command, and nothing else does. */
  lemma {:induction false} HastyPostsAreLost(m: Machine, events: seq<Event>)
    requires forall e :: e in events && e.Host? ==> e.cmd != 0
    ensures Debt(HappenAll(m, events)) == Debt(m) + Hasty(m, events)
    decreases |events|
  {
    if events != [] {
      HastyPostsAreLost(Happen(m, events[0]), events[1..]);
      assert events[0] in events;
      StepDebt(m, events[0]);
    }
  }

  lemma StepDebt(m: Machine, e: Event)
    requires e.Host? ==> e.cmd != 0
    ensures Debt(Happen(m, e)) == Debt(m) + if e.Host? && !Quiet(m) then 1 else 0
  {
    hide Syscall;
  }

  /** From an idle start, and whenever the agent is quiet again: every posted command was carried out if and
      only if the host never posted before the agent was quiet. */
  lemma NothingLostIff(m: Machine, events: seq<Event>)
    requires Idle(m) && forall e :: e in events && e.Host? ==> e.cmd != 0
    requires Quiet(HappenAll(m, events))
    ensures var s := HappenAll(m, events);
            && |s.issued| - |s.executed| == Hasty(m, events)
            && (Hasty(m, events) == 0 <==> s.executed == s.issued)
  {
    HastyPostsAreLost(m, events);
    if Hasty(m, events) == 0 { PatientInOrder(m, events); }
  }

  /** What has been carried out, followed by the command under way. */
  function Followed(m: Machine): seq<int> {
    match m.pc
    case Spin => if m.cmd != 0 then m.executed + [m.cmd] else m.executed
    case Fetched(c) => m.executed + [c]
    case Busy(c) => m.executed + [c]
    case _ => m.executed
  }

  /** A host that always waits has its commands carried out in the order it posted them. */
  lemma {:induction false} PatientInOrder(m: Machine, events: seq<Event>)
    requires Followed(m) == m.issued && Hasty(m, events) == 0
    requires forall e :: e in events && e.Host? ==> e.cmd != 0
    ensures var s := HappenAll(m, events); Followed(s) == s.issued
    decreases |events|
  {
    if events != [] {
      assert events[0] in events;
      PatientInOrder(Happen(m, events[0]), events[1..]);
    }
  }

  /** A host that posts CLOSE while the agent is still idle over a WRITE loses the WRITE: the agent finds only the
      CLOSE. `push_file` and `pull_file` post like this when they close after a timeout. */
  lemma CloseOverWrite(m: Machine, answers: seq<Answer>)
    requires Idle(m) && |answers| >= 6
    ensures var s := Run(Post(Post(m, C_WRITE), C_CLOSE), answers);
            && Quiet(s) && s.issued == m.issued + [C_WRITE, C_CLOSE] && s.executed == m.executed + [C_CLOSE]
            && s.world.files == m.world.files && s.world.fd.None?
  {
    // The agent never sees the first command: it is as if the CLOSE had been posted to a machine that is idle.
    var issued := m.issued + [C_WRITE];
    var idle := m.(issued := issued, executed := issued);
    SixStepsSuffice(idle, C_CLOSE, answers);
    assert issued + [C_CLOSE] == m.issued + [C_WRITE, C_CLOSE];
    var did := LogsAside(Post(idle, C_CLOSE), Post(Post(m, C_WRITE), C_CLOSE), answers);
    hide Run;
    assert issued + did == issued + [C_CLOSE];
    assert did == (issued + did)[|issued|..];
  }

  lemma LogsAsideStep(m: Machine, n: Machine, a: Answer) returns (did: seq<int>)
    requires n == m.(issued := n.issued, executed := n.executed)
    ensures var s, r := AgentStep(m, a), AgentStep(n, a);
            && r == s.(issued := n.issued, executed := n.executed + did)
            && s.executed == m.executed + did && s.issued == m.issued
  {
    hide Syscall, ArgOf, StatusOf;
    did := if m.pc.Busy? then [m.pc.c] else [];
  }

  /** What the agent does depends on neither log. */
  lemma {:induction false} LogsAside(m: Machine, n: Machine, answers: seq<Answer>) returns (did: seq<int>)
    requires n == m.(issued := n.issued, executed := n.executed)
    ensures var s, r := Run(m, answers), Run(n, answers);
            && r == s.(issued := n.issued, executed := n.executed + did)
            && s.executed == m.executed + did && s.issued == m.issued
    decreases |answers|
  {
    hide AgentStep;
    if answers == [] {
      did := [];
    } else {
      var first := LogsAsideStep(m, n, answers[0]);
      var rest := LogsAside(AgentStep(m, answers[0]), AgentStep(n, answers[0]), answers[1..]);
      did := first + rest;
      assert m.executed + did == m.executed + first + rest && n.executed + did == n.executed + first + rest;
    }
  }
}
