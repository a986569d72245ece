/** `push_file` and `pull_file` of host_channel.py in a given environment: what they leave in the guest's files, what
    they report, and when they succeed. */
module HostFiles {
  import opened Common
  import opened Mailbox
  import opened HostChannel
  import opened HostExchange

  /** A command as the host saw it: its status, or None when it timed out, and the argument read after a READ. */
  datatype Reply = Reply(c: int, status: Option<int>, arg: int)

  predicate Fine(r: Reply) { r.status == Some(1) }

  predicate AllFine(log: seq<Reply>) { forall i :: 0 <= i < |log| ==> Fine(log[i]) }

  function WithPath(e: Env, path: Text): Env { e.(m := e.m.(world := e.m.world.(path := PathField(e.m.world.path, path)))) }

  function WithChunk(e: Env, chunk: Text): Env {
    var f := Elapsed(e);
    var g := Elapsed(f.(m := f.m.(world := f.m.world.(data := Over(f.m.world.data, chunk)))));
    g.(m := g.m.(world := g.m.world.(arg := |chunk|)))
  }

  function ChunkAt(content: Text, i: nat): Text
    requires i <= |content|
  {
    content[i..Min(i + DATA_SZ, |content|)]
  }

  /** The WRITEs of `push_file` from offset `i` on, and the CLOSE. */
  function PushFrom(e: Env, content: Text, i: nat, polls: nat): (Env, bool, seq<Reply>)
    decreases |content| - i
  {
    if i >= |content| then
      var r := Issue(e, C_CLOSE, polls);
      (r.0, r.1 == Some(1), [Reply(C_CLOSE, r.1, 0)])
    else
      var w := Issue(WithChunk(e, ChunkAt(content, i)), C_WRITE, polls);
      if w.1 != Some(1) then
        var r := Issue(w.0, C_CLOSE, polls);
        (r.0, false, [Reply(C_WRITE, w.1, 0), Reply(C_CLOSE, r.1, 0)])
      else
        var r := PushFrom(w.0, content, i + DATA_SZ, polls);
        (r.0, r.1, [Reply(C_WRITE, w.1, 0)] + r.2)
  }

  /** `push_file`. */
  function Push(e: Env, content: Text, path: Text, polls: nat): (Env, bool, seq<Reply>) {
    var o := Issue(WithPath(Elapsed(e), path), C_OPEN_W, polls);
    if o.1 != Some(1) then (o.0, false, [Reply(C_OPEN_W, o.1, 0)])
    else
      var r := PushFrom(o.0, content, 0, polls);
      (r.0, r.1, [Reply(C_OPEN_W, o.1, 0)] + r.2)
  }

  function FirstBytes(data: Text, n: int): Text { data[..Clamp(n, 0, |data|)] }

  /** The READs of `pull_file` once `got` has been read; a data field of no bytes, which the page does not have, would
      end it too. */
  function PullFrom(e: Env, got: Text, polls: nat, maxBytes: nat): (Env, Text, seq<Reply>)
    decreases maxBytes - |got|
  {
    if |got| >= maxBytes then (e, got, [])
    else
      var r := Issue(e, C_READ, polls);
      if r.1 != Some(1) then (r.0, got, [Reply(C_READ, r.1, 0)])
      else
        var f := Elapsed(r.0);
        var n := f.m.world.arg;
        if n == 0 then (f, got, [Reply(C_READ, r.1, 0)])
        else
          var g := Elapsed(f);
          var more := FirstBytes(g.m.world.data, n);
          if more == [] then (g, got, [Reply(C_READ, r.1, n)])
          else
            var t := PullFrom(g, got + more, polls, maxBytes);
            (t.0, t.1, [Reply(C_READ, r.1, n)] + t.2)
  }

  /** `pull_file`. */
  function Pull(e: Env, path: Text, polls: nat, maxBytes: nat): (Env, Option<Text>, seq<Reply>) {
    var o := Issue(WithPath(Elapsed(e), path), C_OPEN_R, polls);
    if o.1 != Some(1) then (o.0, None, [Reply(C_OPEN_R, o.1, 0)])
    else
      var r := PullFrom(o.0, [], polls, maxBytes);
      var k := Issue(r.0, C_CLOSE, polls);
      (k.0, Some(r.1), [Reply(C_OPEN_R, o.1, 0)] + r.2 + [Reply(C_CLOSE, k.1, 0)])
  }

  // ------------------------------------------------------------------ an environment that serves

  /** The system carries out what it is asked, and moves as much as it can. */
  predicate Good(a: Answer) { a.ok && a.n >= DATA_SZ }

  predicate Serves(s: Slice) { s.current && |s.answers| >= 6 && forall i :: 0 <= i < |s.answers| ==> Good(s.answers[i]) }

  /** The next `n` slices each find the agent's address space current and let it make six steps. */
  ghost predicate Serving(e: Env, n: nat) {
    |e.plan| >= n && forall i :: 0 <= i < |e.plan| ==> Serves(e.plan[i])
  }

  lemma ServingOn(e: Env, n: nat)
    requires n >= 1 && Serving(e, n)
    ensures Serving(Elapsed(e), n - 1)
  {}

  lemma ServingLess(e: Env, n: nat, k: nat)
    requires k <= n && Serving(e, n)
    ensures Serving(e, k)
  {}

  /** `c` is in flight or done, and the system's answer to it is a good one. */
  ghost predicate WellOnItsWay(m: Machine, c: int, s: Machine) { exists q: nat, a :: Good(a) && At(m, c, q, a, s) }

  ghost predicate DoneWell(m: Machine, c: int, s: Machine) {
    && DoneAs(m, c, s)
    && exists q: nat, a :: Good(a) && s.world == Outcome(m.world, c, q, a)
  }

  lemma {:induction false} RunStaysWell(m: Machine, c: int, s: Machine, answers: seq<Answer>)
    requires Idle(m) && c != 0 && WellOnItsWay(m, c, s)
    requires forall i :: 0 <= i < |answers| ==> Good(answers[i])
    ensures WellOnItsWay(m, c, Run(s, answers))
    decreases |answers|
  {
    hide At, Good;
    if answers != [] {
      var q: nat, b :| Good(b) && At(m, c, q, b, s);
      StepAt(m, c, s, answers[0], q, b);
      RunStaysWell(m, c, AgentStep(s, answers[0]), answers[1..]);
    }
  }

  lemma ClearedMeansDoneWell(m: Machine, c: int, s: Machine)
    requires Idle(m) && c != 0 && WellOnItsWay(m, c, s) && s.cmd == 0
    ensures DoneWell(m, c, s)
  {
    hide Syscall, Outcome, Good;
    var q: nat, a :| Good(a) && At(m, c, q, a, s);
    assert s.pc.Spin?;
    assert s.world == Outcome(m.world, c, q, a);
  }

  lemma PostedWell(m: Machine, c: int)
    requires Idle(m) && c != 0
    ensures WellOnItsWay(m, c, Post(m, c))
  {
    var a := Answer(true, DATA_SZ, [], map[]);
    assert Good(a) && At(m, c, 0, a, Post(m, c));
  }

  /** In an environment that serves, a command is answered at the first poll. */
  lemma {:induction false} IssueServed(e: Env, c: int, polls: nat, n: nat)
    requires Idle(e.m) && c != 0 && polls >= 1 && n >= 4 && Serving(e, n)
    ensures var r := Issue(e, c, polls);
            && r.1 == Some(r.0.m.world.status) && DoneWell(e.m, c, r.0.m) && Serving(r.0, n - 4)
  {
    hide Run, DoneWell, Post, Good, DoneAs;
    var f := Elapsed(e);
    ElapsedQuiet(e);
    ServingOn(e, n);
    assert Idle(f.m);
    var p := f.(m := Post(f.m, c));
    PostedWell(f.m, c);
    var s := Elapsed(p);
    ServingOn(p, n - 1);
    RunStaysWell(f.m, c, p.m, p.plan[0].answers);
    var l := Elapsed(s);
    ServingOn(s, n - 2);
    RunStaysWell(f.m, c, s.m, s.plan[0].answers);
    RunConcat(p.m, p.plan[0].answers, s.plan[0].answers);
    RunsDown(p.m, p.plan[0].answers + s.plan[0].answers);
    assert l.m.cmd == 0;
    ClearedMeansDoneWell(f.m, c, l.m);
    var d := Elapsed(l);
    ServingOn(l, n - 3);
    ElapsedQuiet(l);
    DoneWellLater(f.m, c, l.m, e.m, d.m);
  }

  lemma DoneWellLater(m: Machine, c: int, s: Machine, n: Machine, t: Machine)
    requires DoneWell(m, c, s) && n == m.(heartbeat := n.heartbeat) && t == s.(heartbeat := t.heartbeat)
    ensures DoneWell(n, c, t)
  {
    hide Outcome, Good;
  }

  lemma GoodOutcomes(w: World, c: int, q: nat, a: Answer)
    requires Good(a) && |w.data| == DATA_SZ
    ensures c == C_OPEN_W || c == C_CLOSE || (c == C_OPEN_R && CStr(w.path) in w.files) ==> Outcome(w, c, q, a).status == 1
  {
    hide CStr;
    if c == C_OPEN_W { OpenWriteOutcome(w, q, a); }
    if c == C_OPEN_R { OpenReadOutcome(w, q, a); }
    if c == C_CLOSE { CloseOutcome(w, q, a); }
  }

  lemma ServedStatus(m: Machine, c: int, s: Machine)
    requires DoneWell(m, c, s) && Shaped(m.world)
    requires c == C_OPEN_W || c == C_CLOSE || (c == C_OPEN_R && CStr(m.world.path) in m.world.files)
    ensures s.world.status == 1
  {
    hide CStr, Outcome, Good, DoneAs;
    var q: nat, a :| Good(a) && s.world == Outcome(m.world, c, q, a);
    GoodOutcomes(m.world, c, q, a);
  }

  lemma ServedWrite(m: Machine, s: Machine, p: Text, content: Text, i: nat, chunk: Text, files: map<Text, Text>)
    requires DoneWell(m, C_WRITE, s) && Pushing(m, p, content, i, files)
    requires chunk <= m.world.data && m.world.arg == |chunk|
    ensures s.world.status == 1
  {
    hide CStr, Outcome, DoneAs;
    var q: nat, a :| Good(a) && s.world == Outcome(m.world, C_WRITE, q, a);
    WriteOutcome(m.world, q, a, p, content[..i], chunk);
  }

  lemma ServedRead(m: Machine, s: Machine, p: Text, pos: nat, files: map<Text, Text>)
    requires DoneWell(m, C_READ, s) && Pulling(m, p, pos, files)
    ensures s.world.status == 1
  {
    hide CStr, Outcome, DoneAs;
    var q: nat, a :| Good(a) && s.world == Outcome(m.world, C_READ, q, a);
    ReadOutcome(m.world, q, a, p, pos);
  }

  // ---------------------------------------------------------------------------- push_file

  function Commands(log: seq<Reply>): seq<int> { seq(|log|, i requires 0 <= i < |log| => log[i].c) }

  predicate Answered(log: seq<Reply>) { forall i :: 0 <= i < |log| ==> log[i].status.Some? }

  lemma PathPlaced(e: Env, path: Text)
    requires Idle(e.m) && Shaped(e.m.world)
    ensures var f := WithPath(Elapsed(e), path);
            && Idle(f.m) && Shaped(f.m.world) && CStr(f.m.world.path) == Target(path)
            && f.m.world.files == e.m.world.files && f.m.issued == e.m.issued
            && forall n: nat :: n >= 1 && Serving(e, n) ==> Serving(f, n - 1)
  {
    hide CStr, Target, Run;
    ElapsedQuiet(e);
    PathArrives(e.m.world.path, path);
  }

  lemma ChunkPlaced(e: Env, chunk: Text, p: Text, content: Text, i: nat, files: map<Text, Text>)
    requires Pushing(e.m, p, content, i, files) && |chunk| <= DATA_SZ
    ensures var f := WithChunk(e, chunk);
            && Pushing(f.m, p, content, i, files) && chunk <= f.m.world.data && f.m.world.arg == |chunk|
            && f.m.issued == e.m.issued && forall n: nat :: n >= 2 && Serving(e, n) ==> Serving(f, n - 2)
  {
    hide CStr, SameBut, Run;
    var f := Elapsed(e);
    ElapsedQuiet(e);
    var h := f.(m := f.m.(world := f.m.world.(data := Over(f.m.world.data, chunk))));
    ElapsedQuiet(h);
  }

  /** What `push_file` posts after the OPEN: WRITEs, and a CLOSE. */
  predicate WritesThenClose(log: seq<Reply>) {
    |log| >= 1 && log[|log| - 1].c == C_CLOSE && forall i :: 0 <= i < |log| - 1 ==> log[i].c == C_WRITE
  }

  /** The slices that the WRITEs from offset `i` on and the CLOSE take. */
  function PushSlices(content: Text, i: nat): nat { if i >= |content| then 4 else 6 * (|content| - i) + 4 }

  /** What holds after `push_file`, the guest's other files being `files`. */
  ghost predicate Pushed(r: (Env, bool, seq<Reply>), p: Text, content: Text, files: map<Text, Text>) {
    && SameBut(r.0.m.world.files, files, p)
    && (r.1 <==> AllFine(r.2))
    && (r.1 ==> Idle(r.0.m) && Shaped(r.0.m.world) && r.0.m.world.files == files[p := content])
    && (!r.1 && Answered(r.2) ==> Idle(r.0.m) && PartlyPushed(r.0.m, p, content, files))
  }

  lemma PushEnds(e: Env, content: Text, i: nat, polls: nat, p: Text, files: map<Text, Text>, n: nat)
    requires i >= |content| && Pushing(e.m, p, content, |content|, files)
    ensures var r := PushFrom(e, content, i, polls);
            && Pushed(r, p, content, files) && WritesThenClose(r.2) && r.0.m.issued == e.m.issued + Commands(r.2)
            && (polls >= 1 && n >= 4 && Serving(e, n) ==> r.1 && Serving(r.0, n - 4))
  {
    hide CStr, DoneAs, Posted, InFlight, Issue, SameBut, PartlyPushed, Pushing, Serving, DoneWell;
    PushingIdle(e.m, p, content, |content|, files);
    IssueIsSafe(e, C_CLOSE, polls);
    IssuePosts(e, C_CLOSE, polls);
    var k := Issue(e, C_CLOSE, polls);
    PushClosed(e.m, k.0.m, k.1.None?, p, content, files);
    var log := PushFrom(e, content, i, polls).2;
    assert log == [Reply(C_CLOSE, k.1, 0)] && Commands(log) == [C_CLOSE];
    assert log[0].status == k.1;
    if polls >= 1 && n >= 4 && Serving(e, n) { IssueServed(e, C_CLOSE, polls, n); }
  }

  lemma PushGivesUp(e: Env, content: Text, i: nat, polls: nat, p: Text, files: map<Text, Text>)
    requires i < |content| && Pushing(e.m, p, content, i, files)
    requires Issue(WithChunk(e, ChunkAt(content, i)), C_WRITE, polls).1 != Some(1)
    ensures var r := PushFrom(e, content, i, polls);
            Pushed(r, p, content, files) && WritesThenClose(r.2) && r.0.m.issued == e.m.issued + Commands(r.2)
  {
    hide CStr, DoneAs, Posted, InFlight, Issue, SameBut, PartlyPushed, Pushing, WithChunk;
    var chunk := ChunkAt(content, i);
    var f := WithChunk(e, chunk);
    ChunkPlaced(e, chunk, p, content, i, files);
    PushingIdle(f.m, p, content, i, files);
    IssueIsSafe(f, C_WRITE, polls);
    IssuePosts(f, C_WRITE, polls);
    var w := Issue(f, C_WRITE, polls);
    IssueIsSafe(w.0, C_CLOSE, polls);
    IssuePosts(w.0, C_CLOSE, polls);
    var k := Issue(w.0, C_CLOSE, polls);
    if w.1.Some? { DoneIdle(f.m, C_WRITE, w.0.m); }
    GaveUp(f.m, w.0.m, k.0.m, w.1.Some?, k.1.Some?, p, content, i, chunk, files);
    var log := PushFrom(e, content, i, polls).2;
    assert log == [Reply(C_WRITE, w.1, 0), Reply(C_CLOSE, k.1, 0)] && Commands(log) == [C_WRITE, C_CLOSE];
    assert log[0].status == w.1 && log[1].status == k.1;
    assert e.m.issued + [C_WRITE, C_CLOSE] == e.m.issued + [C_WRITE] + [C_CLOSE];
  }

  lemma LogGrows(first: Reply, rest: seq<Reply>)
    ensures Commands([first] + rest) == [first.c] + Commands(rest)
    ensures AllFine([first] + rest) <==> Fine(first) && AllFine(rest)
    ensures Answered([first] + rest) <==> first.status.Some? && Answered(rest)
    ensures first.c == C_WRITE && WritesThenClose(rest) ==> WritesThenClose([first] + rest)
  {
    var log := [first] + rest;
    assert forall i :: 0 <= i < |rest| ==> log[i + 1] == rest[i];
    assert log[0] == first;
  }

  lemma {:induction false} PushWrites(e: Env, content: Text, i: nat, polls: nat, p: Text, files: map<Text, Text>, n: nat)
    requires Pushing(e.m, p, content, Min(i, |content|), files)
    ensures var r := PushFrom(e, content, i, polls);
            && Pushed(r, p, content, files) && WritesThenClose(r.2) && r.0.m.issued == e.m.issued + Commands(r.2)
            && (polls >= 1 && n >= PushSlices(content, i) && Serving(e, n) ==>
                  r.1 && Serving(r.0, n - PushSlices(content, i)))
    decreases |content| - i
  {
    hide CStr, DoneAs, Posted, InFlight, Issue, SameBut, PartlyPushed, Pushing, WithChunk, Serving, DoneWell, AllFine,
         Answered, WritesThenClose, Commands;
    if i >= |content| {
      PushEnds(e, content, i, polls, p, files, n);
    } else {
      var chunk := ChunkAt(content, i);
      var f := WithChunk(e, chunk);
      ChunkPlaced(e, chunk, p, content, i, files);
      PushingIdle(f.m, p, content, i, files);
      IssueIsSafe(f, C_WRITE, polls);
      IssuePosts(f, C_WRITE, polls);
      var w := Issue(f, C_WRITE, polls);
      var served := polls >= 1 && n >= PushSlices(content, i) && Serving(e, n);
      if served {
        IssueServed(f, C_WRITE, polls, n - 2);
        ServedWrite(f.m, w.0.m, p, content, i, chunk, files);
      }
      if w.1 != Some(1) {
        PushGivesUp(e, content, i, polls, p, files);
      } else {
        PushWrote(f.m, w.0.m, p, content, i, chunk, files);
        PushWrites(w.0, content, i + DATA_SZ, polls, p, files, if served then n - 6 else 0);
        var t := PushFrom(w.0, content, i + DATA_SZ, polls);
        LogGrows(Reply(C_WRITE, w.1, 0), t.2);
        assert e.m.issued + [C_WRITE] + Commands(t.2) == e.m.issued + ([C_WRITE] + Commands(t.2));
        if served {
          var k := PushSlices(content, i + DATA_SZ);
          ServingLess(t.0, n - 6 - k, n - PushSlices(content, i));
        }
      }
    }
  }

  /** `push_file` in any environment. It reports success exactly when every command it posted did; then the guest
      file holds the content, and no other file has changed. Without a timeout a failed push leaves the guest's files
      alone or the target with a beginning of the content; with one it still leaves the others alone. */
  lemma {:induction false} PushIsSafe(e: Env, content: Text, path: Text, polls: nat)
    requires Idle(e.m) && Shaped(e.m.world)
    ensures var r := Push(e, content, path, polls); var p, files, log := Target(path), e.m.world.files, r.2;
            && SameBut(r.0.m.world.files, files, p)
            && (r.1 <==> AllFine(log))
            && (r.1 ==> Idle(r.0.m) && Shaped(r.0.m.world) && r.0.m.world.files == files[p := content])
            && (!r.1 && Answered(log) ==>
                  && Idle(r.0.m)
                  && if |log| == 1 then r.0.m.world.files == files else PartlyPushed(r.0.m, p, content, files))
            && r.0.m.issued == e.m.issued + Commands(log) && |log| >= 1 && log[0].c == C_OPEN_W
            && (if Fine(log[0]) then WritesThenClose(log[1..]) else |log| == 1)
  {
    hide CStr, DoneAs, Posted, InFlight, Issue, SameBut, PartlyPushed, Pushing, WithPath, Target, AllFine, Answered,
         WritesThenClose, Commands;
    var f, p, files := WithPath(Elapsed(e), path), Target(path), e.m.world.files;
    PathPlaced(e, path);
    IssueIsSafe(f, C_OPEN_W, polls);
    IssuePosts(f, C_OPEN_W, polls);
    var o := Issue(f, C_OPEN_W, polls);
    var first := Reply(C_OPEN_W, o.1, 0);
    if o.1 != Some(1) {
      if o.1.None? {
        OpeningConfined(f.m, o.0.m);
      } else {
        PushOpened(f.m, o.0.m, content, files);
        NothingChanged(files, p);
      }
      LogGrows(first, []);
      NoCommands();
      assert [first] + [] == [first] && [C_OPEN_W] + [] == [C_OPEN_W];
    } else {
      PushOpened(f.m, o.0.m, content, files);
      PushWrites(o.0, content, 0, polls, p, files, 0);
      var t := PushFrom(o.0, content, 0, polls);
      LogGrows(first, t.2);
      SomeWrites(t.2);
      assert ([first] + t.2)[1..] == t.2;
      assert e.m.issued + [C_OPEN_W] + Commands(t.2) == e.m.issued + ([C_OPEN_W] + Commands(t.2));
    }
  }

  lemma NoCommands()
    ensures Commands([]) == [] && AllFine([]) && Answered([])
  {}

  lemma SomeWrites(log: seq<Reply>)
    requires WritesThenClose(log)
    ensures |log| >= 1
  {}

  /** In an environment that serves, `push_file` reports success, and so the guest file holds the content. */
  lemma {:induction false} PushSucceeds(e: Env, content: Text, path: Text, polls: nat, n: nat)
    requires Idle(e.m) && Shaped(e.m.world) && polls >= 1
    requires n >= 9 + 6 * |content| && Serving(e, n)
    ensures var r := Push(e, content, path, polls);
            && r.1 && Idle(r.0.m) && Shaped(r.0.m.world) && Serving(r.0, n - 9 - 6 * |content|)
            && r.0.m.world.files == e.m.world.files[Target(path) := content]
  {
    hide CStr, DoneAs, Posted, InFlight, Issue, SameBut, PartlyPushed, Pushing, WithPath, Target, AllFine, Answered,
         WritesThenClose, Commands, Serving, DoneWell;
    var f := WithPath(Elapsed(e), path);
    PathPlaced(e, path);
    IssueServed(f, C_OPEN_W, polls, n - 1);
    var o := Issue(f, C_OPEN_W, polls);
    ServedStatus(f.m, C_OPEN_W, o.0.m);
    IssueIsSafe(f, C_OPEN_W, polls);
    PushOpened(f.m, o.0.m, content, e.m.world.files);
    PushWrites(o.0, content, 0, polls, Target(path), e.m.world.files, n - 5);
    var k := PushSlices(content, 0);
    ServingLess(Push(e, content, path, polls).0, n - 5 - k, n - 9 - 6 * |content|);
  }

  // ---------------------------------------------------------------------------- pull_file

  /** The bytes that the READs of a log handed over. */
  function Moved(log: seq<Reply>): int {
    if log == [] then 0 else (if log[0].c == C_READ && Fine(log[0]) then log[0].arg else 0) + Moved(log[1..])
  }

  /** READs, all of them successful but perhaps the last. */
  predicate ReadsUntil(log: seq<Reply>) {
    && (forall i :: 0 <= i < |log| ==> log[i].c == C_READ)
    && (forall i :: 0 <= i < |log| - 1 ==> Fine(log[i]))
  }

  /** What holds after the READs of `pull_file` that follow `had` bytes. */
  ghost predicate Pulled(r: (Env, Text, seq<Reply>), p: Text, files: map<Text, Text>, had: nat, maxBytes: nat) {
    && LooksOnly(r.0.m, files) && p in files && r.1 <= files[p] && |r.1| == had + Moved(r.2)
    && (AllFine(r.2) ==> r.1 == files[p] || |r.1| >= maxBytes)
    && (Answered(r.2) ==> Idle(r.0.m) && Shaped(r.0.m.world))
  }

  lemma ElapsedPulling(e: Env, p: Text, n: int, files: map<Text, Text>)
    requires Pulling(e.m, p, n, files)
    ensures var f := Elapsed(e); Pulling(f.m, p, n, files) && f.m.world == e.m.world && f.m.issued == e.m.issued
  {
    hide Run;
    ElapsedQuiet(e);
  }

  lemma ReadLogGrows(first: Reply, rest: seq<Reply>)
    requires first.c == C_READ && Fine(first)
    ensures Moved([first] + rest) == first.arg + Moved(rest)
    ensures ReadsUntil(rest) ==> ReadsUntil([first] + rest)
  {
    var log := [first] + rest;
    assert log[1..] == rest;
    assert forall i :: 0 <= i < |rest| ==> log[i + 1] == rest[i];
    assert log[0] == first;
  }

  lemma OneRead(r: Reply)
    requires r.c == C_READ
    ensures Moved([r]) == (if Fine(r) then r.arg else 0) && ReadsUntil([r]) && Commands([r]) == [C_READ]
    ensures AllFine([r]) <==> Fine(r)
    ensures Answered([r]) <==> r.status.Some?
  {
    assert [r][1..] == [];
    assert [r][0] == r;
  }

  lemma NoReads()
    ensures Moved([]) == 0 && ReadsUntil([]) && Commands([]) == [] && AllFine([]) && Answered([])
  {}

  lemma PullingLooksOnly(m: Machine, p: Text, n: int, files: map<Text, Text>)
    requires Pulling(m, p, n, files)
    ensures Idle(m) && Shaped(m.world) && LooksOnly(m, files) && n >= 0 && p in files && n <= |files[p]|
  {}

  lemma {:induction false} PullReads(e: Env, got: Text, polls: nat, maxBytes: nat, p: Text, files: map<Text, Text>, n: nat)
    requires p in files && got <= files[p] && Pulling(e.m, p, |got|, files)
    ensures var r := PullFrom(e, got, polls, maxBytes); var most := 6 * (|files[p]| - |got| + 1);
            && Pulled(r, p, files, |got|, maxBytes) && ReadsUntil(r.2) && r.0.m.issued == e.m.issued + Commands(r.2)
            && (polls >= 1 && n >= most && Serving(e, n) ==> AllFine(r.2) && Serving(r.0, n - most))
    decreases maxBytes - |got|
  {
    hide CStr, DoneAs, Posted, InFlight, Issue, Pulling, LooksOnly, Serving, DoneWell, AllFine, Answered, Commands,
         ReadsUntil, Moved, Elapsed;
    var most := 6 * (|files[p]| - |got| + 1);
    PullingLooksOnly(e.m, p, |got|, files);
    NoReads();
    if |got| >= maxBytes {
      assert e.m.issued + [] == e.m.issued;
      if n >= most && Serving(e, n) { ServingLess(e, n, n - most); }
    } else {
      IssueIsSafe(e, C_READ, polls);
      IssuePosts(e, C_READ, polls);
      PostedLooksOnly(e.m, C_READ, Issue(e, C_READ, polls).0.m, files);
      var served := polls >= 1 && n >= most && Serving(e, n);
      if served {
        IssueServed(e, C_READ, polls, n);
        ServedRead(e.m, Issue(e, C_READ, polls).0.m, p, |got|, files);
      }
      var w := Issue(e, C_READ, polls);
      if w.1.Some? { PullRead(e.m, w.0.m, p, |got|, files); }
      if w.1 != Some(1) {
        OneRead(Reply(C_READ, w.1, 0));
        assert PullFrom(e, got, polls, maxBytes) == (w.0, got, [Reply(C_READ, w.1, 0)]);
      } else {
        PullGoesOn(e, w, got, polls, maxBytes, p, files, n, served);
      }
    }
  }

  /** After a READ that succeeded. */
  lemma {:induction false} PullGoesOn(e: Env, w: (Env, Option<int>), got: Text, polls: nat, maxBytes: nat, p: Text,
                                      files: map<Text, Text>, n: nat, served: bool)
    requires p in files && got <= files[p] && |got| < maxBytes && w == Issue(e, C_READ, polls) && w.1 == Some(1)
    requires w.0.m.issued == e.m.issued + [C_READ] && LooksOnly(w.0.m, files)
    requires var k := w.0.m.world.arg;
             && 0 <= k <= DATA_SZ && |got| + k <= |files[p]| && Pulling(w.0.m, p, |got| + k, files)
             && files[p][..|got|] + w.0.m.world.data[..k] == files[p][..|got| + k] && (k == 0 <==> |got| == |files[p]|)
    requires served ==> polls >= 1 && n >= 6 * (|files[p]| - |got| + 1) && Serving(w.0, n - 4)
    ensures var r := PullFrom(e, got, polls, maxBytes); var most := 6 * (|files[p]| - |got| + 1);
            && Pulled(r, p, files, |got|, maxBytes) && ReadsUntil(r.2) && r.0.m.issued == e.m.issued + Commands(r.2)
            && (served ==> AllFine(r.2) && Serving(r.0, n - most))
    decreases maxBytes - |got|, 0
  {
    hide CStr, DoneAs, Posted, InFlight, Issue, Pulling, LooksOnly, Serving, DoneWell, AllFine, Answered, Commands,
         ReadsUntil, Moved, Elapsed;
    var most := 6 * (|files[p]| - |got| + 1);
    var f := Elapsed(w.0);
    ElapsedPulling(w.0, p, |got| + w.0.m.world.arg, files);
    PullingLooksOnly(f.m, p, |got| + w.0.m.world.arg, files);
    if served { ServingOn(w.0, n - 4); }
    var k := f.m.world.arg;
    if k == 0 {
      OneRead(Reply(C_READ, w.1, 0));
      assert PullFrom(e, got, polls, maxBytes) == (f, got, [Reply(C_READ, w.1, 0)]);
      assert got == files[p];
      if served { ServingLess(f, n - 5, n - most); }
    } else {
      var g := Elapsed(f);
      ElapsedPulling(f, p, |got| + k, files);
      if served { ServingOn(f, n - 5); }
      var more := FirstBytes(g.m.world.data, k);
      PullingLooksOnly(g.m, p, |got| + k, files);
      assert got == files[p][..|got|] && |more| == k;
      assert got + more == files[p][..|got| + k];
      PullReads(g, got + more, polls, maxBytes, p, files, if served then n - 6 else 0);
      var t := PullFrom(g, got + more, polls, maxBytes);
      var first := Reply(C_READ, w.1, k);
      LogGrows(first, t.2);
      ReadLogGrows(first, t.2);
      assert e.m.issued + [C_READ] + Commands(t.2) == e.m.issued + ([C_READ] + Commands(t.2));
      if served { ServingLess(t.0, n - 6 - 6 * (|files[p]| - |got + more| + 1), n - most); }
    }
  }

  /** `pull_file` in any environment. No file changes. It gives None exactly when the OPEN did not succeed, and
      otherwise the first bytes of the file, as many as its READs handed over: the whole file, or at least the limit,
      unless the last READ failed. */
  lemma {:induction false} PullIsSafe(e: Env, path: Text, polls: nat, maxBytes: nat)
    requires Idle(e.m) && Shaped(e.m.world)
    ensures var r := Pull(e, path, polls, maxBytes); var p, files, log := Target(path), e.m.world.files, r.2;
            && r.0.m.world.files == files
            && r.0.m.issued == e.m.issued + Commands(log) && |log| >= 1 && log[0].c == C_OPEN_R
            && (r.1.Some? <==> Fine(log[0]))
            && (r.1.None? ==> |log| == 1)
            && (r.1.Some? ==>
                  && |log| >= 2 && log[|log| - 1].c == C_CLOSE && ReadsUntil(log[1..|log| - 1])
                  && p in files && r.1.value <= files[p] && |r.1.value| == Moved(log[1..|log| - 1])
                  && (AllFine(log[1..|log| - 1]) ==> r.1.value == files[p] || |r.1.value| >= maxBytes))
            && (Answered(log) ==> Idle(r.0.m) && Shaped(r.0.m.world))
  {
    hide CStr, DoneAs, Posted, InFlight, Issue, Pulling, LooksOnly, WithPath, Target, AllFine, Answered, Commands,
         ReadsUntil, Moved, Elapsed;
    var f, p, files := WithPath(Elapsed(e), path), Target(path), e.m.world.files;
    PathPlaced(e, path);
    IssueIsSafe(f, C_OPEN_R, polls);
    IssuePosts(f, C_OPEN_R, polls);
    var o := Issue(f, C_OPEN_R, polls);
    IdleLooksOnly(f.m);
    PostedLooksOnly(f.m, C_OPEN_R, o.0.m, files);
    if o.1.Some? { PullOpened(f.m, o.0.m, files); }
    var first := Reply(C_OPEN_R, o.1, 0);
    NoCommands();
    if o.1 != Some(1) {
      LogGrows(first, []);
      assert [first] + [] == [first] && [C_OPEN_R] + [] == [C_OPEN_R];
    } else {
      NoReads();
      PullReads(o.0, [], polls, maxBytes, p, files, 0);
      PullCloses(e, o, path, polls, maxBytes);
    }
  }

  lemma {:induction false} PullCloses(e: Env, o: (Env, Option<int>), path: Text, polls: nat, maxBytes: nat)
    requires o == Issue(WithPath(Elapsed(e), path), C_OPEN_R, polls) && o.1 == Some(1)
    requires var r := PullFrom(o.0, [], polls, maxBytes);
             && Pulled(r, Target(path), e.m.world.files, 0, maxBytes) && ReadsUntil(r.2)
             && r.0.m.issued == e.m.issued + [C_OPEN_R] + Commands(r.2)
    ensures var r, t := Pull(e, path, polls, maxBytes), PullFrom(o.0, [], polls, maxBytes); var log := r.2;
            && r.0.m.world.files == e.m.world.files && r.1 == Some(t.1)
            && r.0.m.issued == e.m.issued + Commands(log) && |log| == |t.2| + 2 && log[0] == Reply(C_OPEN_R, o.1, 0)
            && log[|log| - 1].c == C_CLOSE && log[1..|log| - 1] == t.2
            && (Answered(log) ==> Idle(r.0.m) && Shaped(r.0.m.world))
  {
    hide CStr, DoneAs, Posted, InFlight, Issue, LooksOnly, WithPath, Target, AllFine, Commands, ReadsUntil, Moved,
         Elapsed;
    var t := PullFrom(o.0, [], polls, maxBytes);
    IssueIsSafe(t.0, C_CLOSE, polls);
    IssuePosts(t.0, C_CLOSE, polls);
    var k := Issue(t.0, C_CLOSE, polls);
    PostedLooksOnly(t.0.m, C_CLOSE, k.0.m, e.m.world.files);
    var first, last := Reply(C_OPEN_R, o.1, 0), Reply(C_CLOSE, k.1, 0);
    var log := [first] + t.2 + [last];
    CommandsOf(first, t.2, last);
    assert log[1..|log| - 1] == t.2;
    assert e.m.issued + [C_OPEN_R] + Commands(t.2) + [C_CLOSE] == e.m.issued + ([C_OPEN_R] + Commands(t.2) + [C_CLOSE]);
    if Answered(log) {
      assert log[|log| - 1].status.Some?;
      forall i | 0 <= i < |t.2| ensures t.2[i].status.Some? { assert log[i + 1] == t.2[i]; }
      CloseKeepsFiles(t.0.m, k.0.m);
    }
  }

  lemma CommandsOf(first: Reply, log: seq<Reply>, last: Reply)
    ensures Commands([first] + log + [last]) == [first.c] + Commands(log) + [last.c]
  {}

  /** In an environment that serves, pulling a file that is there gives the whole of it, or at least the limit. */
  lemma {:induction false} PullSucceeds(e: Env, path: Text, polls: nat, maxBytes: nat, n: nat)
    requires Idle(e.m) && Shaped(e.m.world) && polls >= 1 && Target(path) in e.m.world.files
    requires n >= 15 + 6 * |e.m.world.files[Target(path)]| && Serving(e, n)
    ensures var out := Pull(e, path, polls, maxBytes).1; var content := e.m.world.files[Target(path)];
            out.Some? && out.value <= content && (|content| <= maxBytes ==> out.value == content)
  {
    hide CStr, DoneAs, Posted, InFlight, Issue, Pulling, LooksOnly, WithPath, Target, AllFine, Answered, Commands,
         ReadsUntil, Moved, Elapsed, Serving, DoneWell;
    var f, p, files := WithPath(Elapsed(e), path), Target(path), e.m.world.files;
    PathPlaced(e, path);
    IssueServed(f, C_OPEN_R, polls, n - 1);
    var o := Issue(f, C_OPEN_R, polls);
    ServedStatus(f.m, C_OPEN_R, o.0.m);
    IssueIsSafe(f, C_OPEN_R, polls);
    PullOpened(f.m, o.0.m, files);
    PullReads(o.0, [], polls, maxBytes, p, files, n - 5);
  }

  /** What was pushed is what is pulled: in an environment that serves, for every content and path. */
  lemma {:induction false} PushThenPull(e: Env, content: Text, path: Text, polls: nat, maxBytes: nat, n: nat)
    requires Idle(e.m) && Shaped(e.m.world) && polls >= 1 && |content| <= maxBytes
    requires n >= 24 + 12 * |content| && Serving(e, n)
    ensures Pull(Push(e, content, path, polls).0, path, polls, maxBytes).1 == Some(content)
  {
    hide Push, Pull, Serving, Target, Idle, Shaped;
    PushSucceeds(e, content, path, polls, n);
    PullSucceeds(Push(e, content, path, polls).0, path, polls, maxBytes, n - 9 - 6 * |content|);
  }
}
