/** A framed session seen from the client: what it puts on the wire, and the bytes that answer it. */
module DglSession {
  import opened Common
  import opened Bytes
  import opened DglWire
  import opened DglFramed

  /** A client's frame: commands, and whether it ends in a reply-sync, which has one more word behind it. */
  datatype ClientFrame = ClientFrame(cmds: seq<Wire>, sync: Option<Word>)

  predicate AllWell(t: Tables, cmds: seq<Wire>) { forall w :: w in cmds ==> WellFormed(t.cmdWords, w) }

  function CmdWords(t: Tables, cmds: seq<Wire>): seq<Word>
    requires AllWell(t, cmds)
  {
    Concat(AllOnWire(t.cmdWords, cmds))
  }

  function Opcode(w: Wire): Word { if w.Texdef2d? then 0x1e7 else w.op }

  /** What a client may send once it is logged in. A frame without a reply-sync must not look as if it had one. */
  predicate MaySend(t: Tables, m: ClientFrame) {
    && m.cmds != [] && AllWell(t, m.cmds)
    && Opcode(m.cmds[0]) !in {0x1, 0x10003, 0x10010, 0x10007, 0x10013, 0x143}
    && |CmdWords(t, m.cmds)| + 2 < 0x40_0000
    && (m.sync.None? ==> var ws := CmdWords(t, m.cmds); |ws| < 2 || ws[|ws| - 2] != 0x10004)
  }

  function Sync(m: ClientFrame): seq<Word> { if m.sync.Some? then [0x10004, m.sync.value] else [] }

  function AsMessage(t: Tables, m: ClientFrame): Message
    requires AllWell(t, m.cmds)
  {
    Message(AllOnWire(t.cmdWords, m.cmds), [], Sync(m))
  }

  lemma FirstOpcode(t: Tables, cmds: seq<Wire>)
    requires AllWell(t, cmds) && cmds != []
    ensures var c := AllOnWire(t.cmdWords, cmds)[0]; c != [] && c[0] == Opcode(cmds[0])
  {
    assert cmds[0] in cmds;
  }

  lemma FrameIsGl(t: Tables, m: ClientFrame)
    requires MaySend(t, m)
    ensures GlFrame(t, AllOnWire(t.cmdWords, m.cmds), [], Sync(m)) && Sendable(t, AsMessage(t, m))
  {
    hide SelfDelimiting, Incomplete, WellFormed, OnWire, Concat;
    var cmds := AllOnWire(t.cmdWords, m.cmds);
    forall i | 0 <= i < |cmds| ensures SelfDelimiting(t.cmdWords, cmds[i]) {
      assert m.cmds[i] in m.cmds;
      OnWireDelimits(t.cmdWords, m.cmds[i]);
    }
    NothingIncomplete(t.cmdWords);
    FirstOpcode(t, m.cmds);
    assert Concat(cmds) + [] == Concat(cmds);
  }

  lemma NothingIncomplete(table: map<int, nat>)
    ensures Incomplete(table, [])
  {}

  /** The bytes a client writes: its probe, and its frames. */
  function Frames(t: Tables, ms: seq<ClientFrame>): seq<byte>
    requires forall i :: 0 <= i < |ms| ==> MaySend(t, ms[i])
  {
    if ms == [] then []
    else
      assert MaySend(t, ms[0]);
      var ws := CmdWords(t, ms[0].cmds) + Sync(ms[0]);
      Frame(ws) + Frames(t, ms[1..])
  }

  /** The commands of all the frames, one after the other. */
  function AllCmds(t: Tables, ms: seq<ClientFrame>): seq<Command>
    requires forall i :: 0 <= i < |ms| ==> MaySend(t, ms[i])
  {
    if ms == [] then []
    else
      assert MaySend(t, ms[0]);
      AllOnWire(t.cmdWords, ms[0].cmds) + AllCmds(t, ms[1..])
  }

  function AsMessages(t: Tables, ms: seq<ClientFrame>): (r: seq<Message>)
    requires forall i :: 0 <= i < |ms| ==> MaySend(t, ms[i])
    ensures |r| == |ms|
  {
    if ms == [] then []
    else
      assert MaySend(t, ms[0]);
      [AsMessage(t, ms[0])] + AsMessages(t, ms[1..])
  }

  lemma {:induction false} SameBytes(t: Tables, ms: seq<ClientFrame>)
    requires forall i :: 0 <= i < |ms| ==> MaySend(t, ms[i])
    ensures var s := AsMessages(t, ms);
            && (forall i :: 0 <= i < |s| ==> Sendable(t, s[i]))
            && Stream(t, s) == Frames(t, ms) && AllCommands(s) == AllCmds(t, ms)
  {
    hide Sendable, MaySend, Frame, Concat, OnWire, WellFormed;
    if ms != [] {
      assert MaySend(t, ms[0]);
      MayIsWell(t, ms[0]);
      FrameIsGl(t, ms[0]);
      SameBytes(t, ms[1..]);
      var s := AsMessages(t, ms);
      assert s[0] == AsMessage(t, ms[0]) && s[1..] == AsMessages(t, ms[1..]);
      BodyIs(t, ms[0]);
      forall i | 0 <= i < |s| ensures Sendable(t, s[i]) {
        if i > 0 { assert s[i] == s[1..][i - 1]; }
      }
    }
  }

  lemma MayIsWell(t: Tables, m: ClientFrame)
    requires MaySend(t, m)
    ensures AllWell(t, m.cmds)
  {}

  lemma BodyIs(t: Tables, m: ClientFrame)
    requires AllWell(t, m.cmds)
    ensures Body(AsMessage(t, m)) == CmdWords(t, m.cmds) + Sync(m)
  {
    hide Concat, AllOnWire;
  }

  /** What a client writes arrives: its probe and frames, cut into chunks anywhere, are called back as exactly the
      commands it put on the wire, in order, and nothing is left in the buffer. */
  lemma {:induction false} ClientIsHeard(t: Tables, probe: seq<byte>, ms: seq<ClientFrame>, chunks: seq<seq<byte>>)
    requires |probe| == 4 && forall i :: 0 <= i < |ms| ==> MaySend(t, ms[i])
    requires Concat(chunks) == probe + Frames(t, ms)
    ensures var f := FeedEach(t, START, chunks);
            !f.raised && f.conn.called == AllCmds(t, ms) && f.conn.buf == []
  {
    hide MaySend, Frames, AllCmds, AsMessages, Stream, AllCommands, Sendable, FeedEach, Concat;
    SameBytes(t, ms);
    SessionArrives(t, probe, AsMessages(t, ms), chunks);
  }

  // ---------------------------------------------------------------------------- the answers

  /** The answer to a probe, whatever it is. */
  lemma ProbeAnswer(t: Tables, data: seq<byte>)
    requires |data| >= 4
    ensures var r := Feed(t, START, data).replies; |r| >= 1 && r[0] == [0xff, 0xff, 0xed, 0xcc]
  {
    hide Drain;
    FeedFromStart(t, data);
  }

  /** The answer to a login message or a version query, recognised by its first word alone. */
  lemma LoginAnswers(t: Tables, s: Conn, payload: seq<byte>)
    requires Request(Words(payload)) != []
    ensures var op, r := Request(Words(payload))[0], Handle(t, s, payload).1;
            && (op in {0x10003, 0x10007, 0x10013} ==> r == Frame([0]))
            && (op == 0x10010 ==> r == Frame([0, 0, 0]))
            && (op == 0x143 ==> r == Frame([1]))
            && (op == 0x1 ==> r == Frame([1, 12, 0x474c_342e, 0x3000_0000, 0]))
    ensures Request(Words(payload))[0] in {0x1, 0x10003, 0x10010, 0x10007, 0x10013, 0x143} ==>
              Handle(t, s, payload).0 == s.(called := s.called + [Request(Words(payload))])
  {
    hide Words, Frame, Split, Request;
    VersionWords();
  }

  lemma VersionWords()
    ensures GversionReply() == [1, 12, 0x474c_342e, 0x3000_0000, 0]
  {
    var v := GVERSION_STRING;
    assert v[4..] == [0x30, 0, 0, 0, 0, 0, 0, 0] && v[4..][4..] == [0, 0, 0, 0];
    assert Words(v[4..][4..]) == [0] + Words(v[4..][4..][4..]);
    assert v[4..][4..][4..] == [];
    assert Words(v) == [Get32(v, 0)] + ([Get32(v[4..], 0)] + ([0] + []));
  }

  /** The connection once the commands of a frame have been called back, and the last of them. */
  function Called(t: Tables, s: Conn, m: ClientFrame): Conn
    requires AllWell(t, m.cmds)
  {
    s.(called := s.called + AllOnWire(t.cmdWords, m.cmds))
  }

  /** A frame that ends in a reply-sync is answered for its last command, another is not answered. */
  lemma FrameAnswer(t: Tables, s: Conn, m: ClientFrame)
    requires MaySend(t, m)
    ensures var cmds := AllOnWire(t.cmdWords, m.cmds); var h := Handle(t, s, Pack(CmdWords(t, m.cmds) + Sync(m)));
            && cmds[|cmds| - 1] != [] && h.0.called == s.called + cmds
            && h.1 == if m.sync.None? then [] else Frame(Reply(t, Called(t, s, m), cmds[|cmds| - 1]).1)
  {
    hide GlFrame, Reply, Frame, Pack, Concat, OnWire, WellFormed, Handle;
    FrameIsGl(t, m);
    var cmds := AllOnWire(t.cmdWords, m.cmds);
    CommandsAreCalledBack(t, s, cmds, [], Sync(m));
    assert Concat(cmds) + [] + Sync(m) == Concat(cmds) + Sync(m);
  }

  /** A window that is opened in a frame's last command gets the next id in the reply, whatever its name and
      whatever the commands before it. */
  lemma WindowAnswer(t: Tables, s: Conn, m: ClientFrame)
    requires MaySend(t, m) && m.sync.Some? && Opcode(m.cmds[|m.cmds| - 1]) in {0x132, 0x1a3}
    ensures var h := Handle(t, s, Pack(CmdWords(t, m.cmds) + Sync(m)));
            h.1 == Frame([s.nextWid]) && h.0.nextWid == s.nextWid + 1 && h.0.wids == s.wids + [s.nextWid]
  {
    hide Frame, Pack, Concat, Handle, SelfDelimiting, WellFormed, Words, Split;
    FrameAnswer(t, s, m);
    LastOpcode(t, m);
    var p := Pack(CmdWords(t, m.cmds) + Sync(m));
    FrameOpens(t, m);
    HandleWids(t, s, p);
  }

  lemma LastOpcode(t: Tables, m: ClientFrame)
    requires m.cmds != [] && AllWell(t, m.cmds)
    ensures var cmds := AllOnWire(t.cmdWords, m.cmds);
            cmds[|cmds| - 1] != [] && cmds[|cmds| - 1][0] == Opcode(m.cmds[|m.cmds| - 1])
  {
    assert m.cmds[|m.cmds| - 1] in m.cmds;
  }

  lemma FrameOpens(t: Tables, m: ClientFrame)
    requires MaySend(t, m) && m.sync.Some? && Opcode(m.cmds[|m.cmds| - 1]) in {0x132, 0x1a3}
    ensures Opens(t, Pack(CmdWords(t, m.cmds) + Sync(m)))
  {
    hide Pack, OnWire, WellFormed, Words, SelfDelimiting, Incomplete;
    FrameIsGl(t, m);
    LastOpcode(t, m);
    var cmds := AllOnWire(t.cmdWords, m.cmds);
    var ws := CmdWords(t, m.cmds);
    RequestOfPack(ws, Sync(m));
    forall c | c in cmds ensures SelfDelimiting(t.cmdWords, c) {
      var i :| 0 <= i < |cmds| && cmds[i] == c;
    }
    SplitUndoesConcat(t.cmdWords, cmds, []);
    assert ws + [] == ws;
    assert ws == cmds[0] + Concat(cmds[1..]);
  }

  /** The answer to a state query. A matrix comes with its length in bytes in front, and is the identity unless the
      renderer has one; another query gets what the renderer says, or a single zero, and is noted as not handled
      unless zero is its usual answer. */
  lemma QueryAnswers(t: Tables, s: Conn, cmd: Command)
    requires cmd != [] && cmd[0] !in {0x1, 0x132, 0x1a3, 0x1be, 0x216}
    ensures var r := Reply(t, s, cmd);
            var answer := if t.query.Some? then t.query.value(s.called, cmd[0], cmd) else None;
            && (cmd[0] == 0x3f ==>
                  && r.0 == s && |r.1| >= 1 && r.1[0] == 4 * (|r.1| - 1)
                  && if answer.Some? && answer.value != [] then r.1[1..] == answer.value
                     else |r.1| == 17 && forall i :: 0 <= i < 16 ==> r.1[1 + i] == if i % 5 == 0 then 0x3f80_0000 else 0)
            && (cmd[0] != 0x3f ==>
                  && r.1 == (if answer.Some? then answer.value else [0])
                  && r.0 == if answer.Some? || cmd[0] in {0x32, 0x7a, 0x33} then s
                            else s.(unhandled := s.unhandled + [cmd[0]]))
  {
    hide GversionReply;
  }

  /** The queries that are answered without the renderer. */
  lemma FixedAnswers(t: Tables, s: Conn, cmd: Command)
    requires cmd != []
    ensures cmd[0] == 0x216 ==> Reply(t, s, cmd) == (s, [0])
    ensures cmd[0] == 0x1be && |cmd| == 2 && cmd[1] in t.gdesc ==> Reply(t, s, cmd) == (s, [t.gdesc[cmd[1]]])
    ensures cmd[0] == 0x1be && |cmd| == 2 && cmd[1] !in t.gdesc ==> Reply(t, s, cmd) == (s, [1])
    ensures cmd[0] == 0x1 ==> Reply(t, s, cmd) == (s, [1, 12, 0x474c_342e, 0x3000_0000, 0])
  {
    VersionWords();
    hide GversionReply;
  }

  // -------------------------------------------------------------------- what is not a message

  /** A header without the marker stops the connection: what follows stays in the buffer, unanswered. */
  lemma ForeignHeaderStops(t: Tables, s: Conn)
    requires |s.buf| >= 4 && s.buf[0] != 0x10
    ensures Drain(t, s) == Fed(s, [], false)
  {
    assert Get32(s.buf, 0) / 0x100_0000 == s.buf[0] as int;
    DrainNone(t, s);
  }

  /** A frame of which only a beginning is there waits for the rest. */
  lemma CutOffWaits(t: Tables, s: Conn, ws: FrameWords, k: nat)
    requires k < |Frame(ws)| && s.buf == Frame(ws)[..k]
    ensures Drain(t, s) == Fed(s, [], false)
  {
    hide Pack, Be32, Get32;
    if k >= 4 {
      FrameHead(ws, []);
      assert Frame(ws) + [] == Frame(ws);
      FirstWord(s.buf, Frame(ws));
    }
    DrainNone(t, s);
  }

  lemma FirstWord(a: seq<byte>, b: seq<byte>)
    requires |a| >= 4 && a <= b
    ensures Get32(a, 0) == Get32(b, 0)
  {}

  /** Handling the buffer raises exactly when some message in it has a payload of at least one word that is not whole
      words. */
  lemma {:induction false} RaisesIff(t: Tables, s: Conn)
    ensures Drain(t, s).raised <==> exists p :: p in Payloads(s.buf) && |p| >= 4 && |p| % 4 != 0
    decreases |s.buf|
  {
    hide Handle, HasMessage, MessageLen;
    if HasMessage(s.buf) {
      var p, rest := Payload(s), Taken(s).buf;
      assert Payloads(s.buf) == [p] + Payloads(rest);
      assert p in Payloads(s.buf);
      if !Ragged(|p|) {
        HandleKeepsBuf(t, Taken(s), p);
        RaisesIff(t, Handle(t, Taken(s), p).0);
      }
    }
  }
}
