/** The host side of the mailbox: the `Gateway` class of host_channel.py driving the guest agent. */
module HostChannel {
  import opened Common
  import opened Bytes
  import opened Disk
  import opened Mailbox

  predicate Shaped(w: World) { |w.data| == DATA_SZ && |w.path| == PATH_SZ }

  /** `field` written over the start of `buffer`. */
  function Over(buffer: Text, field: Text): (r: Text)
    ensures |field| <= |buffer| ==> |r| == |buffer|
  {
    field + if |field| <= |buffer| then buffer[|field|..] else []
  }

  /** The path field as `_setpath` leaves it. */
  function PathField(buffer: Text, path: Text): Text {
    Over(buffer, path[..Min(|path|, PATH_SZ - 1)] + [0])
  }

  /** The file the agent opens for a path given to `_setpath`. */
  function Target(path: Text): Text { CStr(path[..Min(|path|, PATH_SZ - 1)]) }

  lemma {:induction false} CStrOver(a: Text, rest: Text)
    ensures CStr(a + [0] + rest) == CStr(a)
    ensures CStr(a) <= a
    ensures CStr(a) == a <==> 0 !in a
  {
    if a == [] {
      assert (a + [0] + rest)[0] == 0;
    } else {
      assert (a + [0] + rest)[1..] == a[1..] + [0] + rest;
      CStrOver(a[1..], rest);
      assert a == [a[0]] + a[1..];
    }
  }

  lemma PathArrives(buffer: Text, path: Text)
    requires |buffer| == PATH_SZ
    ensures CStr(PathField(buffer, path)) == Target(path)
  {
    var p := path[..Min(|path|, PATH_SZ - 1)];
    CStrOver(p, buffer[|p| + 1..]);
    assert PathField(buffer, path) == p + [0] + buffer[|p| + 1..];
  }

  /** The agent opens the very path it was given exactly when that is at most 255 bytes without a NUL. */
  lemma TargetIsThePathIff(path: Text)
    ensures Target(path) == path <==> |path| <= PATH_SZ - 1 && 0 !in path
  {
    var p := path[..Min(|path|, PATH_SZ - 1)];
    CStrOver(p, []);
    if |path| <= PATH_SZ - 1 { assert p == path; }
  }

  // ------------------------------------------------------- what each command does

  lemma OpenWriteOutcome(w: World, q: nat, a: Answer)
    ensures var v := Outcome(w, C_OPEN_W, q, a); var p := CStr(w.path);
            && v.path == w.path && v.data == w.data && (v.status == 1 <==> a.ok)
            && (v.status == 1 ==> v.fd == Some(OpenFile(p, 0, true)) && v.files == w.files[p := []])
            && (v.status != 1 ==> v.fd.None? && v.files == w.files)
  {}

  lemma OpenReadOutcome(w: World, q: nat, a: Answer)
    ensures var v := Outcome(w, C_OPEN_R, q, a); var p := CStr(w.path);
            && v.path == w.path && |v.data| == |w.data| && v.files == w.files && (v.status == 1 <==> a.ok && p in w.files)
            && (v.status == 1 ==> v.fd == Some(OpenFile(p, 0, false)))
            && (v.status != 1 ==> v.fd.None?)
  {}

  lemma CloseOutcome(w: World, q: nat, a: Answer)
    ensures var v := Outcome(w, C_CLOSE, q, a);
            v.status == 1 && v.path == w.path && |v.data| == |w.data| && v.files == w.files
  {}

  /** PING answers with the heartbeat and changes nothing; a command the agent does not know fails and changes nothing
      but the status. */
  lemma PingOutcome(w: World, q: nat, a: Answer, c: int)
    ensures Outcome(w, C_PING, q, a) == w.(arg := q, status := 1)
    ensures !(1 <= c <= 7) ==> Outcome(w, c, q, a) == w.(status := -1)
  {}

  /** RUN hands over the beginning of what the command prints, as much as fits before a closing NUL. */
  lemma RunOutcome(w: World, q: nat, a: Answer)
    requires |w.data| == DATA_SZ
    ensures var v := Outcome(w, C_RUN, q, a);
            && v.path == w.path && |v.data| == DATA_SZ && v.fd == w.fd && (v.status == 1 <==> a.ok)
            && (a.ok ==>
                  && v.files == a.files && v.arg == Min(|a.out|, 2047)
                  && v.data[..v.arg] == a.out[..v.arg] && v.data[v.arg] == 0)
            && (!a.ok ==> v.files == w.files && v.arg == w.arg && v.status == -1)
  {}

  /** The guest file `p` is open for writing at its end, and holds `sofar`. */
  predicate WritingAt(w: World, p: Text, sofar: Text) {
    p in w.files && w.files[p] == sofar && w.fd == Some(OpenFile(p, |sofar|, true))
  }

  lemma WriteAtEnd(d: seq<byte>, b: seq<byte>)
    ensures WriteAt(d, |d|, b) == d + b
  {}

  /** A WRITE adds the chunk if it reports success, and otherwise no more than a beginning of it. */
  lemma WriteOutcome(w: World, q: nat, a: Answer, p: Text, sofar: Text, chunk: Text)
    requires WritingAt(w, p, sofar) && chunk <= w.data && w.arg == |chunk|
    ensures var v := Outcome(w, C_WRITE, q, a);
            && v.path == w.path && v.data == w.data
            && p in v.files && (forall f :: f in v.files && f != p <==> f in w.files && f != p)
            && (forall f :: f in v.files && f != p ==> v.files[f] == w.files[f])
            && (v.status == 1 <==> a.n >= |chunk|)
            && (v.status == 1 ==> WritingAt(v, p, sofar + chunk))
            && exists k :: 0 <= k <= |chunk| && v.files[p] == sofar + chunk[..k]
  {
    var n := Clamp(a.n, 0, Clamp(w.arg, 0, |w.data|));
    WriteAtEnd(sofar, w.data[..n]);
    assert w.data[..n] == chunk[..n];
    assert chunk[..|chunk|] == chunk;
    var v := Outcome(w, C_WRITE, q, a);
    if a.n < 0 {
      assert v.files[p] == sofar + chunk[..0];
    } else {
      assert v.files[p] == sofar + chunk[..n];
    }
  }

  /** The guest file `p` is open for reading after its first `pos` bytes. */
  predicate ReadingAt(w: World, p: Text, pos: nat) {
    p in w.files && pos <= |w.files[p]| && w.fd == Some(OpenFile(p, pos, false))
  }

  /** A READ that reports success hands over the file's next bytes, none only at the end of the file. */
  lemma ReadOutcome(w: World, q: nat, a: Answer, p: Text, pos: nat)
    requires ReadingAt(w, p, pos) && |w.data| == DATA_SZ
    ensures var v := Outcome(w, C_READ, q, a);
            && v.path == w.path && |v.data| == DATA_SZ && v.files == w.files && (v.status == 1 <==> a.n >= 0)
            && (v.status == 1 ==>
                  && 0 <= v.arg <= DATA_SZ && ReadingAt(v, p, pos + v.arg)
                  && v.data[..v.arg] == w.files[p][pos..pos + v.arg]
                  && (v.arg == 0 <==> pos == |w.files[p]|))
  {
    var content := w.files[p];
    if pos < |content| && a.n >= 0 {
      var n := Clamp(a.n, 1, Min(|content| - pos, |w.data|));
      assert (content[pos..pos + n] + w.data[n..])[..n] == content[pos..pos + n];
    }
  }

  // ------------------------------------------------------------------ a command posted to an idle mailbox

  /** `after` is reached from `before` with the host posting `c` once in between. */
  ghost predicate Posted(before: Machine, c: int, after: Machine) {
    exists s, t :: after == Run(Post(Run(before, s), c), t)
  }

  lemma PostedFromIdle(before: Machine, c: int, after: Machine)
    requires Idle(before) && c != 0 && Posted(before, c, after)
    ensures InFlight(before, c, after)
    ensures after.cmd == 0 ==> DoneAs(before, c, after)
  {
    hide Run, InFlight, DoneAs;
    var s, t :| after == Run(Post(Run(before, s), c), t);
    var m := Run(before, s);
    RunQuiet(before, s);
    PostedIsInFlight(m, c);
    RunStaysInFlight(m, c, Post(m, c), t);
    SameInFlight(m, before, c, after);
    if after.cmd == 0 { ClearedMeansDone(before, c, after); }
  }

  lemma SameInFlight(m: Machine, n: Machine, c: int, s: Machine)
    requires InFlight(m, c, s) && n == m.(heartbeat := n.heartbeat)
    ensures InFlight(n, c, s)
  {
    var q: nat, a :| At(m, c, q, a, s);
    assert At(n, c, q, a, s);
  }

  // ------------------------------------------- what even an unfinished command cannot do

  /** Outside the file `p` the guest's files are `files`, and whatever the agent goes on to do keeps it so. */
  ghost predicate Confined(s: Machine, p: Text, files: map<Text, Text>) {
    && CStr(s.world.path) == p && SameBut(s.world.files, files, p) && NoShell(s)
    && (s.world.fd.Some? && s.world.fd.value.writing ==> s.world.fd.value.path == p)
  }

  /** No shell command is posted or under way. */
  predicate NoShell(s: Machine) { s.cmd != C_RUN && (s.pc.Fetched? || s.pc.Busy? ==> s.pc.c != C_RUN) }

  ghost predicate SameBut(now: map<Text, Text>, was: map<Text, Text>, p: Text) {
    && (forall f :: f in now && f != p <==> f in was && f != p)
    && (forall f :: f in now && f != p ==> now[f] == was[f])
  }

  lemma {:induction false} RunConfined(s: Machine, p: Text, files: map<Text, Text>, t: seq<Answer>)
    requires Confined(s, p, files)
    ensures Confined(Run(s, t), p, files)
    decreases |t|
  {
    hide Confined;
    if t != [] {
      StepConfined(s, p, files, t[0]);
      RunConfined(AgentStep(s, t[0]), p, files, t[1..]);
    }
  }

  lemma StepConfined(s: Machine, p: Text, files: map<Text, Text>, a: Answer)
    requires Confined(s, p, files)
    ensures Confined(AgentStep(s, a), p, files)
  {
    hide CStr, WriteAt;
  }

  lemma PostConfined(s: Machine, c: int, p: Text, files: map<Text, Text>)
    requires Confined(s, p, files) && c != C_RUN
    ensures Confined(Post(s, c), p, files)
    ensures CStr(s.world.path) == p && SameBut(s.world.files, files, p)
  {
    hide CStr, SameBut;
  }

  lemma PostedConfined(before: Machine, c: int, after: Machine, p: Text, files: map<Text, Text>)
    requires Posted(before, c, after) && Confined(before, p, files) && c != C_RUN
    ensures Confined(after, p, files)
  {
    hide Confined, Run;
    var s, t :| after == Run(Post(Run(before, s), c), t);
    RunConfined(before, p, files, s);
    PostConfined(Run(before, s), c, p, files);
    RunConfined(Post(Run(before, s), c), p, files, t);
  }

  /** Opening for writing changes the target alone, even when the host gave up waiting. */
  lemma OpeningConfined(before: Machine, after: Machine)
    requires Idle(before) && InFlight(before, C_OPEN_W, after)
    ensures SameBut(after.world.files, before.world.files, CStr(before.world.path))
  {
    hide CStr;
    var q: nat, a :| At(before, C_OPEN_W, q, a, after);
  }

  predicate Harmless(c: int) { c != C_OPEN_W && c != C_WRITE && c != C_RUN }

  /** The agent is neither writing nor about to. */
  ghost predicate LooksOnly(s: Machine, files: map<Text, Text>) {
    && s.world.files == files && Harmless(s.cmd)
    && (s.pc.Fetched? || s.pc.Busy? ==> Harmless(s.pc.c))
  }

  lemma {:induction false} RunLooksOnly(s: Machine, files: map<Text, Text>, t: seq<Answer>)
    requires LooksOnly(s, files)
    ensures LooksOnly(Run(s, t), files)
    decreases |t|
  {
    if t != [] { RunLooksOnly(AgentStep(s, t[0]), files, t[1..]); }
  }

  lemma IdleLooksOnly(s: Machine)
    requires Idle(s)
    ensures LooksOnly(s, s.world.files)
  {}

  lemma PostedLooksOnly(before: Machine, c: int, after: Machine, files: map<Text, Text>)
    requires Posted(before, c, after) && LooksOnly(before, files) && Harmless(c)
    ensures LooksOnly(after, files) && after.world.files == files
  {
    hide Run;
    var s, t :| after == Run(Post(Run(before, s), c), t);
    RunLooksOnly(before, files, s);
    RunLooksOnly(Post(Run(before, s), c), files, t);
  }

  /** Between two WRITEs of `push_file`: the first `i` bytes are in the guest file, the mailbox is idle. */
  ghost predicate Pushing(s: Machine, p: Text, content: Text, i: int, files: map<Text, Text>) {
    && Idle(s) && Shaped(s.world) && 0 <= i <= |content| && CStr(s.world.path) == p
    && WritingAt(s.world, p, content[..i]) && SameBut(s.world.files, files, p)
  }

  lemma PushingIdle(s: Machine, p: Text, content: Text, i: int, files: map<Text, Text>)
    requires Pushing(s, p, content, i, files)
    ensures Idle(s) && Shaped(s.world)
  {}

  lemma DoneIdle(before: Machine, c: int, after: Machine)
    requires DoneAs(before, c, after)
    ensures Idle(after)
  {}

  lemma NothingChanged(files: map<Text, Text>, p: Text)
    ensures SameBut(files, files, p)
  {}

  lemma PushOpened(before: Machine, after: Machine, content: Text, files: map<Text, Text>)
    requires Idle(before) && Shaped(before.world) && before.world.files == files
    requires DoneAs(before, C_OPEN_W, after)
    ensures var p := CStr(before.world.path);
            if after.world.status == 1 then Pushing(after, p, content, 0, files)
            else after.world.files == files && Idle(after)
  {
    hide CStr, Outcome, Quiet;
    var q: nat, a :| after.world == Outcome(before.world, C_OPEN_W, q, a);
    OpenWriteOutcome(before.world, q, a);
  }

  lemma PushWrote(before: Machine, after: Machine, p: Text, content: Text, i: int, chunk: Text, files: map<Text, Text>)
    requires Pushing(before, p, content, i, files) && chunk <= before.world.data && before.world.arg == |chunk|
    requires i + |chunk| <= |content| && chunk == content[i..i + |chunk|]
    requires DoneAs(before, C_WRITE, after)
    ensures after.world.status == 1 ==> Pushing(after, p, content, i + |chunk|, files)
    ensures Idle(after) && PartlyPushed(after, p, content, files)
  {
    hide CStr, Outcome, Quiet;
    var q: nat, a :| after.world == Outcome(before.world, C_WRITE, q, a);
    WriteOutcome(before.world, q, a, p, content[..i], chunk);
    TakeMore(content, i, |chunk|);
    var k :| 0 <= k <= |chunk| && after.world.files[p] == content[..i] + chunk[..k];
    TakeMore(content, i, k);
    assert chunk[..k] == content[i..i + k];
  }

  lemma TakeMore(content: Text, i: nat, n: nat)
    requires i + n <= |content|
    ensures content[..i] + content[i..i + n] == content[..i + n]
  {}

  /** The guest file holds a beginning of the content, and no other file has changed. */
  ghost predicate PartlyPushed(s: Machine, p: Text, content: Text, files: map<Text, Text>) {
    && CStr(s.world.path) == p && SameBut(s.world.files, files, p)
    && p in s.world.files && s.world.files[p] <= content
  }

  lemma CloseKeepsFiles(before: Machine, after: Machine)
    requires DoneAs(before, C_CLOSE, after)
    ensures after.world.files == before.world.files && after.world.status == 1 && Idle(after)
    ensures Shaped(before.world) ==> Shaped(after.world)
  {
    hide Outcome;
    var q: nat, a :| after.world == Outcome(before.world, C_CLOSE, q, a);
    CloseOutcome(before.world, q, a);
  }

  lemma PushingConfined(s: Machine, p: Text, content: Text, i: int, files: map<Text, Text>)
    requires Pushing(s, p, content, i, files)
    ensures Confined(s, p, files)
  {}

  lemma PushClosed(before: Machine, after: Machine, late: bool, p: Text, content: Text, files: map<Text, Text>)
    requires Pushing(before, p, content, |content|, files) && Posted(before, C_CLOSE, after)
    requires !late ==> DoneAs(before, C_CLOSE, after)
    ensures SameBut(after.world.files, files, p)
    ensures !late ==> && Idle(after) && Shaped(after.world) && after.world.status == 1
                      && after.world.files == files[p := content]
  {
    hide Posted, CStr;
    PushingConfined(before, p, content, |content|, files);
    PostedConfined(before, C_CLOSE, after, p, files);
    assert content[..|content|] == content;
    if !late { CloseKeepsFiles(before, after); }
  }

  /** Where a WRITE that did not succeed leaves the guest's files once CLOSE has been posted too. */
  lemma GaveUp(before: Machine, failed: Machine, after: Machine, wrote: bool, closed: bool,
               p: Text, content: Text, i: int, chunk: Text, files: map<Text, Text>)
    requires Pushing(before, p, content, i, files) && chunk <= before.world.data && before.world.arg == |chunk|
    requires i + |chunk| <= |content| && chunk == content[i..i + |chunk|]
    requires Posted(before, C_WRITE, failed) && Posted(failed, C_CLOSE, after)
    requires wrote ==> DoneAs(before, C_WRITE, failed)
    requires wrote && closed ==> DoneAs(failed, C_CLOSE, after)
    ensures SameBut(after.world.files, files, p)
    ensures wrote && closed ==> Idle(after) && PartlyPushed(after, p, content, files)
  {
    hide Posted, CStr, Pushing, SameBut, Confined, DoneAs;
    PushingConfined(before, p, content, i, files);
    PostedConfined(before, C_WRITE, failed, p, files);
    PostedConfined(failed, C_CLOSE, after, p, files);
    PostConfined(after, C_CLOSE, p, files);
    if wrote && closed {
      PushWrote(before, failed, p, content, i, chunk, files);
      CloseKeepsFiles(failed, after);
    }
  }

  /** Between two READs of `pull_file`: the file's first `n` bytes have been handed over. */
  ghost predicate Pulling(s: Machine, p: Text, n: int, files: map<Text, Text>) {
    Idle(s) && Shaped(s.world) && n >= 0 && ReadingAt(s.world, p, n) && s.world.files == files
  }

  lemma PullOpened(before: Machine, after: Machine, files: map<Text, Text>)
    requires Idle(before) && Shaped(before.world) && before.world.files == files
    requires DoneAs(before, C_OPEN_R, after)
    ensures Idle(after) && Shaped(after.world) && after.world.files == files
    ensures after.world.status == 1 ==> CStr(before.world.path) in files && Pulling(after, CStr(before.world.path), 0, files)
  {
    hide CStr, Outcome;
    var q: nat, a :| after.world == Outcome(before.world, C_OPEN_R, q, a);
    OpenReadOutcome(before.world, q, a);
  }

  lemma PullRead(before: Machine, after: Machine, p: Text, pos: int, files: map<Text, Text>)
    requires Pulling(before, p, pos, files) && DoneAs(before, C_READ, after)
    ensures Idle(after) && Shaped(after.world) && after.world.files == files
    ensures var n := after.world.arg;
            after.world.status == 1 ==>
              && 0 <= n <= DATA_SZ && pos + n <= |files[p]| && Pulling(after, p, pos + n, files)
              && files[p][..pos] + after.world.data[..n] == files[p][..pos + n]
              && (n == 0 <==> pos == |files[p]|)
  {
    hide Outcome;
    var q: nat, a :| after.world == Outcome(before.world, C_READ, q, a);
    ReadOutcome(before.world, q, a, p, pos);
  }
}
