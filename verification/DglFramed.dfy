/** The framed DGL connection (dgl_framed.py): what one message does, and what a whole stream does. */
module DglFramed {
  import opened Common
  import opened Bytes
  import opened DglWire

  /** What a state query can answer without overflowing the 24-bit length of the reply's frame. */
  type QueryWords = ws: seq<int> | |ws| < 0x3f_ffff witness []

  /** The renderer's query hook may look at every command called back so far. */
  type Hook = (seq<Command>, int, Command) -> Option<QueryWords>

  datatype Tables = Tables(cmdWords: map<int, nat>, gdesc: map<int, int>, query: Option<Hook>)

  /** The connection's fields; `called` is what `on_payload` has been called with. */
  datatype Conn = Conn(
    buf: seq<byte>, gotProbe: bool, nextWid: int, wids: seq<int>, unhandled: seq<int>, called: seq<Command>)

  const IDENTITY_MATRIX: seq<int> :=
    [0x3f80_0000, 0, 0, 0, 0, 0x3f80_0000, 0, 0, 0, 0, 0x3f80_0000, 0, 0, 0, 0, 0x3f80_0000]

  /** "GL4.0", padded with NULs to 12 bytes. */
  const GVERSION_STRING: seq<byte> := [0x47, 0x4c, 0x34, 0x2e, 0x30, 0, 0, 0, 0, 0, 0, 0]

  function GversionReply(): FrameWords { [1, |GVERSION_STRING|] + Words(GVERSION_STRING) }

  function HandshakeReply(op: int): Option<FrameWords> {
    if op == OP_DGLXDRFORMAT then Some([0])
    else if op == OP_DGLLOGINX then Some([0, 0, 0])
    else if op == OP_DGLVERSION then Some([0])
    else if op == OP_DGLXAUTHORITY then Some([0])
    else if op == OP_GVERSION then Some([1])
    else None
  }

  /** Single-word answers given when the renderer has none. */
  predicate HasDefault(op: int) { op == 0x32 || op == 0x7a || op == 0x33 }

  predicate OpensWindow(op: int) { op == OP_WINOPEN || op == OP_SWINOPEN }

  /** `_reply_for`: the connection afterwards and the reply's words. */
  function Reply(t: Tables, s: Conn, cmd: Command): (Conn, FrameWords)
    requires cmd != []
  {
    var op := cmd[0];
    if op == OP_GVERSION_STR then (s, GversionReply())
    else if OpensWindow(op) then (s.(nextWid := s.nextWid + 1, wids := s.wids + [s.nextWid]), [s.nextWid])
    else if op == OP_GETGDESC then
      var token := if |cmd| > 1 then cmd[1] else 0;
      (s, [if token in t.gdesc then t.gdesc[token] else 1])
    else if op == OP_GETGCONFIG then (s, [0])
    else
      var answer := if t.query.Some? then t.query.value(s.called, op, cmd) else None;
      if op == OP_GETMATRIX then
        var mat := if answer.None? || answer.value == [] then IDENTITY_MATRIX else answer.value;
        (s, [4 * |mat|] + mat)
      else if answer.Some? then (s, answer.value)
      else (if HasDefault(op) then s else s.(unhandled := s.unhandled + [op]), [0])
  }

  predicate HasReplySync(ws: seq<Word>) { |ws| >= 2 && ws[|ws| - 2] == OP_REPLYSYNC }

  function Request(ws: seq<Word>): seq<Word> { if HasReplySync(ws) then ws[..|ws| - 2] else ws }

  /** `_handle_payload`: the connection afterwards and the bytes to send back. */
  function Handle(t: Tables, s: Conn, payload: seq<byte>): (Conn, seq<byte>) {
    var ws, sync := Request(Words(payload)), HasReplySync(Words(payload));
    if ws == [] then (s, if sync then Frame([0]) else [])
    else if ws[0] == OP_GVERSION_STR then (s.(called := s.called + [ws]), Frame(GversionReply()))
    else if HandshakeReply(ws[0]).Some? then (s.(called := s.called + [ws]), Frame(HandshakeReply(ws[0]).value))
    else
      var cmds := Split(t.cmdWords, ws);
      var s := s.(called := s.called + cmds);
      if sync && cmds != [] then
        SplitParts(t.cmdWords, ws);
        var r := Reply(t, s, cmds[|cmds| - 1]);
        (r.0, Frame(r.1))
      else (s, [])
  }

  lemma {:induction false} SplitParts(table: map<int, nat>, ws: seq<Word>)
    ensures forall i :: 0 <= i < |Split(table, ws)| ==> Split(table, ws)[i] != []
  {
    if ws != [] {
      var n := CmdLen(table, ws);
      if 0 < n <= |ws| { SplitParts(table, ws[n..]); }
    }
  }

  lemma HandleKeepsBuf(t: Tables, s: Conn, payload: seq<byte>)
    ensures var r := Handle(t, s, payload).0; r.buf == s.buf && r.gotProbe == s.gotProbe
  {
    hide Split, Words, Frame, GversionReply;
  }

  /** Unpacking a payload of 5, 6, 7, 9, ... bytes as words raises an error. */
  predicate Ragged(n: nat) { n >= 4 && n % 4 != 0 }

  /** What a call of `feed` did: the reply to each message (often none), and whether it raised. */
  datatype Fed = Fed(conn: Conn, replies: seq<seq<byte>>, raised: bool)

  function Payload(s: Conn): seq<byte>
    requires HasMessage(s.buf)
  {
    s.buf[4..4 + MessageLen(s.buf)]
  }

  /** The connection once the first message has left the buffer. */
  function Taken(s: Conn): (r: Conn)
    requires HasMessage(s.buf)
    ensures |r.buf| < |s.buf| && r.gotProbe == s.gotProbe
  {
    s.(buf := s.buf[4 + MessageLen(s.buf)..])
  }

  /** The messages in the buffer, one after the other. */
  function Drain(t: Tables, s: Conn): Fed
    decreases |s.buf|
  {
    if !HasMessage(s.buf) then Fed(s, [], false)
    else if Ragged(|Payload(s)|) then Fed(Taken(s), [], true)
    else
      HandleKeepsBuf(t, Taken(s), Payload(s));
      var h := Handle(t, Taken(s), Payload(s));
      var f := Drain(t, h.0);
      f.(replies := [h.1] + f.replies)
  }

  /** One message off the front. */
  lemma DrainOne(t: Tables, s: Conn)
    requires HasMessage(s.buf) && !Ragged(|Payload(s)|)
    ensures var h := Handle(t, Taken(s), Payload(s)); var f := Drain(t, h.0);
            Drain(t, s) == f.(replies := [h.1] + f.replies)
  {
    hide Handle, HasMessage;
  }

  lemma NoMessage()
    ensures !HasMessage([])
  {}

  lemma DrainNone(t: Tables, s: Conn)
    requires !HasMessage(s.buf)
    ensures Drain(t, s) == Fed(s, [], false)
  {}

  lemma DrainRagged(t: Tables, s: Conn)
    requires HasMessage(s.buf) && Ragged(|Payload(s)|)
    ensures Drain(t, s) == Fed(Taken(s), [], true)
  {
    hide HasMessage, Handle;
  }

  /** `feed`: the answer to the byte-order probe first, then the messages. */
  function Feed(t: Tables, s: Conn, data: seq<byte>): Fed {
    var s := s.(buf := s.buf + data);
    if s.gotProbe then Drain(t, s)
    else if |s.buf| < 4 then Fed(s, [], false)
    else
      var f := Drain(t, s.(buf := s.buf[4..], gotProbe := true));
      f.(replies := [Be32(XDR_REPLY)] + f.replies)
  }

  // ------------------------------------------------------- chunking does not matter

  /** `f`, and then `g` on what it left. */
  function Then(f: Fed, g: Fed): Fed { Fed(g.conn, f.replies + g.replies, g.raised) }

  function More(s: Conn, more: seq<byte>): Conn { s.(buf := s.buf + more) }

  /** The messages there already are handled alike whether or not more bytes have arrived. */
  lemma {:induction false} DrainMore(t: Tables, s: Conn, more: seq<byte>)
    ensures var f := Drain(t, s);
            if f.raised then Drain(t, More(s, more)).raised && Drain(t, More(s, more)).replies == f.replies
            else Drain(t, More(s, more)) == Then(f, Drain(t, More(f.conn, more)))
    decreases |s.buf|
  {
    hide Handle, HasMessage, MessageLen, Payload, Taken;
    if HasMessage(s.buf) {
      TakenMore(s, more);
      if !Ragged(|Payload(s)|) {
        HandleKeepsBuf(t, Taken(s), Payload(s));
        HandleIgnoresBuf(t, Taken(s), Payload(s), Taken(s).buf + more);
        var h := Handle(t, Taken(s), Payload(s));
        DrainMore(t, h.0, more);
        assert [h.1] + (Drain(t, h.0).replies + Drain(t, More(Drain(t, h.0).conn, more)).replies)
            == Drain(t, s).replies + Drain(t, More(Drain(t, h.0).conn, more)).replies;
      }
    } else {
      assert Drain(t, s) == Fed(s, [], false);
    }
  }

  lemma TakenMore(s: Conn, more: seq<byte>)
    requires HasMessage(s.buf)
    ensures HasMessage(More(s, more).buf) && Payload(More(s, more)) == Payload(s)
    ensures Taken(More(s, more)) == More(Taken(s), more)
  {
    hide HasMessage, MessageLen;
    MessageStays(s.buf, more);
  }

  lemma HandleIgnoresBuf(t: Tables, s: Conn, payload: seq<byte>, buf: seq<byte>)
    ensures var a, b := Handle(t, s, payload), Handle(t, s.(buf := buf), payload);
            b.0 == a.0.(buf := buf) && b.1 == a.1
  {
    hide Split, Words, Frame, GversionReply, HandshakeReply, Request, HasReplySync;
  }

  lemma FeedInTwo(t: Tables, s: Conn, a: seq<byte>, b: seq<byte>)
    ensures var f := Feed(t, s, a);
            if f.raised then Feed(t, s, a + b).raised else Feed(t, s, a + b) == Then(f, Feed(t, f.conn, b))
  {
    hide Handle, HasMessage, MessageLen, Drain;
    assert s.buf + (a + b) == (s.buf + a) + b;
    var sa := s.(buf := s.buf + a);
    if s.gotProbe {
      DrainMore(t, sa, b);
      DrainKeepsProbe(t, sa);
    } else if |sa.buf| >= 4 {
      var sp := sa.(buf := sa.buf[4..], gotProbe := true);
      assert (sa.buf + b)[4..] == sp.buf + b;
      DrainMore(t, sp, b);
      DrainKeepsProbe(t, sp);
    }
  }

  lemma {:induction false} DrainKeepsProbe(t: Tables, s: Conn)
    ensures Drain(t, s).conn.gotProbe == s.gotProbe
    decreases |s.buf|
  {
    hide Handle, HasMessage, MessageLen;
    if HasMessage(s.buf) {
      HandleKeepsBuf(t, Taken(s), Payload(s));
      if !Ragged(|Payload(s)|) { DrainKeepsProbe(t, Handle(t, Taken(s), Payload(s)).0); }
    }
  }

  /** Feeding the chunks in turn, up to the first call that raises. */
  function FeedEach(t: Tables, s: Conn, chunks: seq<seq<byte>>): Fed
    decreases |chunks|
  {
    if chunks == [] then Fed(s, [], false)
    else
      var f := Feed(t, s, chunks[0]);
      if f.raised then f else Then(f, FeedEach(t, f.conn, chunks[1..]))
  }

  /** A connection with no message left to handle, as every call that does not raise leaves it. */
  predicate Settled(s: Conn) { if s.gotProbe then !HasMessage(s.buf) else |s.buf| < 4 }

  lemma {:induction false} DrainSettles(t: Tables, s: Conn)
    requires s.gotProbe && !Drain(t, s).raised
    ensures Settled(Drain(t, s).conn)
    decreases |s.buf|
  {
    hide Handle, HasMessage, MessageLen;
    if HasMessage(s.buf) {
      HandleKeepsBuf(t, Taken(s), Payload(s));
      DrainSettles(t, Handle(t, Taken(s), Payload(s)).0);
    }
  }

  /** However a stream is cut into chunks, the connection ends in the same state, having called back the
      same commands and sent the same replies, as if it had been fed whole; and if one way raises, both do. */
  lemma {:induction false} ChunkingDoesNotMatter(t: Tables, s: Conn, chunks: seq<seq<byte>>)
    requires Settled(s)
    ensures var whole, each := Feed(t, s, Concat(chunks)), FeedEach(t, s, chunks);
            whole.raised == each.raised && (!whole.raised ==> whole == each)
    decreases |chunks|
  {
    hide Drain, HasMessage;
    if chunks == [] {
      assert s.buf + [] == s.buf;
      if s.gotProbe { DrainNone(t, s); }
    } else {
      FeedInTwo(t, s, chunks[0], Concat(chunks[1..]));
      var f := Feed(t, s, chunks[0]);
      if !f.raised {
        FeedSettles(t, s, chunks[0]);
        ChunkingDoesNotMatter(t, f.conn, chunks[1..]);
      }
    }
  }

  lemma FeedSettles(t: Tables, s: Conn, data: seq<byte>)
    requires !Feed(t, s, data).raised
    ensures Settled(Feed(t, s, data).conn)
  {
    hide Drain, HasMessage;
    var s := s.(buf := s.buf + data);
    if s.gotProbe { DrainSettles(t, s); }
    else if |s.buf| >= 4 { DrainSettles(t, s.(buf := s.buf[4..], gotProbe := true)); }
  }

  // --------------------------------------------------- what is called back and answered

  predicate IsHandshake(op: int) { op == OP_GVERSION_STR || HandshakeReply(op).Some? }

  /** A client's frame of GL commands: self-delimiting commands, perhaps one cut off behind them, and perhaps
      a reply-sync; without one the frame must not happen to look as if it ended in one. */
  predicate GlFrame(t: Tables, cmds: seq<Command>, tail: seq<Word>, sync: seq<Word>) {
    && cmds != [] && (forall i :: 0 <= i < |cmds| ==> SelfDelimiting(t.cmdWords, cmds[i]))
    && Incomplete(t.cmdWords, tail)
    && cmds[0] != [] && !IsHandshake(cmds[0][0])
    && (if sync == [] then !HasReplySync(Concat(cmds) + tail) else |sync| == 2 && sync[0] == OP_REPLYSYNC)
  }

  lemma RequestOfPack(ws: seq<Word>, sync: seq<Word>)
    requires if sync == [] then !HasReplySync(ws) else |sync| == 2 && sync[0] == OP_REPLYSYNC
    ensures Request(Words(Pack(ws + sync))) == ws && HasReplySync(Words(Pack(ws + sync))) == (sync != [])
  {
    hide Words, Pack, Masked;
    WordsOfPack(ws + sync);
    MaskedSame(ws + sync);
    if sync != [] { assert (ws + sync)[..|ws|] == ws; } else { assert ws + sync == ws; }
  }

  lemma HandleCommands(t: Tables, s: Conn, payload: seq<byte>, cmds: seq<Command>)
    requires var ws := Request(Words(payload));
             ws != [] && !IsHandshake(ws[0]) && Split(t.cmdWords, ws) == cmds && cmds != [] && cmds[|cmds| - 1] != []
    ensures var h, s1 := Handle(t, s, payload), s.(called := s.called + cmds);
            && h.0.called == s1.called
            && h.1 == if HasReplySync(Words(payload)) then Frame(Reply(t, s1, cmds[|cmds| - 1]).1) else []
  {
    hide Reply, Frame, Words, Split, HasReplySync, Request;
    ReplyKeepsCalled(t, s.(called := s.called + cmds), cmds[|cmds| - 1]);
  }

  /** Every command of a frame is called back, in order and each exactly once, whether or not the frame ends in
      a reply-sync; a command cut off at the end is not. The reply, if one is due, is for the last command. */
  lemma CommandsAreCalledBack(t: Tables, s: Conn, cmds: seq<Command>, tail: seq<Word>, sync: seq<Word>)
    requires GlFrame(t, cmds, tail, sync)
    ensures cmds[|cmds| - 1] != []
    ensures var h, s1 := Handle(t, s, Pack(Concat(cmds) + tail + sync)), s.(called := s.called + cmds);
            && h.0.called == s1.called
            && h.1 == if sync == [] then [] else Frame(Reply(t, s1, cmds[|cmds| - 1]).1)
  {
    hide CmdLen, Reply, Frame, Words, Pack, Masked, Split, Incomplete, Handle, HandshakeReply;
    var ws := Concat(cmds) + tail;
    assert SelfDelimiting(t.cmdWords, cmds[|cmds| - 1]);
    RequestOfPack(ws, sync);
    SplitUndoesConcat(t.cmdWords, cmds, tail);
    assert Concat(cmds) == cmds[0] + Concat(cmds[1..]);
    assert ws[0] == cmds[0][0];
    HandleCommands(t, s, Pack(ws + sync), cmds);
  }

  lemma ReplyKeepsCalled(t: Tables, s: Conn, cmd: Command)
    requires cmd != []
    ensures Reply(t, s, cmd).0.called == s.called
  {
    hide GversionReply;
  }

  /** Whether a message is answered: the handshake always is, another message only when it ends in a
      reply-sync and has either nothing else in it or at least one whole command. */
  predicate Answered(t: Tables, payload: seq<byte>) {
    var ws, sync := Request(Words(payload)), HasReplySync(Words(payload));
    if ws == [] then sync else IsHandshake(ws[0]) || (sync && Split(t.cmdWords, ws) != [])
  }

  /** A message is answered by one frame, or not at all. */
  lemma ReplyIsAFrameIff(t: Tables, s: Conn, payload: seq<byte>)
    ensures var r := Handle(t, s, payload).1;
            if Answered(t, payload) then exists ws: FrameWords :: r == Frame(ws) else r == []
  {
    hide Frame, GversionReply, Split, Words, Reply;
    var ws, sync := Request(Words(payload)), HasReplySync(Words(payload));
    if Answered(t, payload) && ws != [] && !IsHandshake(ws[0]) {
      var cmds := Split(t.cmdWords, ws);
      SplitParts(t.cmdWords, ws);
      assert Handle(t, s, payload).1 == Frame(Reply(t, s.(called := s.called + cmds), cmds[|cmds| - 1]).1);
    }
  }

  /** The payloads of the messages in the buffer. */
  function Payloads(buf: seq<byte>): seq<seq<byte>> {
    if !HasMessage(buf) then []
    else [buf[4..4 + MessageLen(buf)]] + Payloads(buf[4 + MessageLen(buf)..])
  }

  function Handled(t: Tables, s: Conn, payloads: seq<seq<byte>>): (Conn, seq<seq<byte>>)
    decreases |payloads|
  {
    if payloads == [] then (s, [])
    else
      var h := Handle(t, s, payloads[0]);
      var r := Handled(t, h.0, payloads[1..]);
      (r.0, [h.1] + r.1)
  }

  /** Those before the first one that raises. */
  function Sound(buf: seq<byte>): seq<seq<byte>> {
    if !HasMessage(buf) || Ragged(MessageLen(buf)) then []
    else [buf[4..4 + MessageLen(buf)]] + Sound(buf[4 + MessageLen(buf)..])
  }

  /** Handling the messages in the buffer is handling their payloads in turn, up to one that raises. */
  lemma {:induction false} DrainHandlesPayloads(t: Tables, s: Conn)
    ensures var f := Drain(t, s); var h := Handled(t, s, Sound(s.buf));
            h.1 == f.replies && h.0.(buf := f.conn.buf) == f.conn && (!f.raised ==> Sound(s.buf) == Payloads(s.buf))
    decreases |s.buf|
  {
    hide Handle, HasMessage, MessageLen;
    if HasMessage(s.buf) && !Ragged(|Payload(s)|) {
      HandleKeepsBuf(t, Taken(s), Payload(s));
      var h := Handle(t, Taken(s), Payload(s));
      DrainHandlesPayloads(t, h.0);
      HandleIgnoresBuf(t, Taken(s), Payload(s), s.buf);
      HandledIgnoresBuf(t, h.0, Sound(h.0.buf), s.buf);
      assert Sound(s.buf)[0] == Payload(s) && Sound(s.buf)[1..] == Sound(Taken(s).buf);
    }
  }

  lemma {:induction false} HandledIgnoresBuf(t: Tables, s: Conn, payloads: seq<seq<byte>>, buf: seq<byte>)
    ensures var a, b := Handled(t, s, payloads), Handled(t, s.(buf := buf), payloads);
            b.0 == a.0.(buf := buf) && b.1 == a.1
    decreases |payloads|
  {
    hide Handle;
    if payloads != [] {
      HandleIgnoresBuf(t, s, payloads[0], buf);
      HandledIgnoresBuf(t, Handle(t, s, payloads[0]).0, payloads[1..], buf);
    }
  }

  // --------------------------------------------------------------------- window ids

  /** Whether a message asks for a window: its last whole command is a winopen and it ends in a reply-sync. */
  predicate Opens(t: Tables, payload: seq<byte>) {
    var ws := Request(Words(payload));
    && HasReplySync(Words(payload)) && ws != [] && !IsHandshake(ws[0])
    && var cmds := Split(t.cmdWords, ws);
       cmds != [] && cmds[|cmds| - 1] != [] && OpensWindow(cmds[|cmds| - 1][0])
  }

  function Openings(t: Tables, payloads: seq<seq<byte>>): nat {
    if payloads == [] then 0 else (if Opens(t, payloads[0]) then 1 else 0) + Openings(t, payloads[1..])
  }

  /** n, n + 1, ..., n + k - 1. */
  function From(n: int, k: nat): seq<int>
    decreases k
  {
    if k == 0 then [] else [n] + From(n + 1, k - 1)
  }

  lemma ReplyWids(t: Tables, s: Conn, cmd: Command)
    requires cmd != []
    ensures var r := Reply(t, s, cmd);
            if OpensWindow(cmd[0]) then
              r.1 == [s.nextWid] && r.0.nextWid == s.nextWid + 1 && r.0.wids == s.wids + [s.nextWid]
            else r.0.nextWid == s.nextWid && r.0.wids == s.wids
  {
    hide GversionReply;
  }

  lemma HandleWids(t: Tables, s: Conn, payload: seq<byte>)
    ensures var h := Handle(t, s, payload);
            if Opens(t, payload) then
              h.1 == Frame([s.nextWid]) && h.0.nextWid == s.nextWid + 1 && h.0.wids == s.wids + [s.nextWid]
            else h.0.nextWid == s.nextWid && h.0.wids == s.wids
  {
    hide Frame, GversionReply, Split, Words, Reply, HandshakeReply, HasReplySync, Request;
    var ws, sync := Request(Words(payload)), HasReplySync(Words(payload));
    if sync && ws != [] && !IsHandshake(ws[0]) {
      var cmds := Split(t.cmdWords, ws);
      SplitParts(t.cmdWords, ws);
      if cmds != [] { ReplyWids(t, s.(called := s.called + cmds), cmds[|cmds| - 1]); }
    }
  }

  /** Over a whole run, the k-th window opened gets the k-th id in turn, in the reply to the message that
      asked for it, and `wids` lists exactly the ids handed out. */
  lemma {:induction false} WindowIdsInTurn(t: Tables, s: Conn, payloads: seq<seq<byte>>)
    ensures var r, k := Handled(t, s, payloads), Openings(t, payloads);
            && r.0.nextWid == s.nextWid + k && r.0.wids == s.wids + From(s.nextWid, k)
            && |r.1| == |payloads|
            && forall j :: 0 <= j < |payloads| && Opens(t, payloads[j]) ==>
                 r.1[j] == Frame([s.nextWid + Openings(t, payloads[..j])])
    decreases |payloads|
  {
    hide Handle, Opens, Frame;
    if payloads != [] {
      var p, h := payloads[0], Handle(t, s, payloads[0]);
      var r := Handled(t, s, payloads);
      HandleWids(t, s, p);
      WindowIdsInTurn(t, h.0, payloads[1..]);
      forall j | 0 <= j < |payloads| && Opens(t, payloads[j])
        ensures r.1[j] == Frame([s.nextWid + Openings(t, payloads[..j])])
      {
        if j > 0 { assert payloads[..j][1..] == payloads[1..][..j - 1]; }
      }
    }
  }

  const START := Conn([], false, 1, [], [], [])

  lemma FeedFromStart(t: Tables, data: seq<byte>)
    requires |data| >= 4
    ensures var f, d := Feed(t, START, data), Drain(t, START.(buf := data[4..], gotProbe := true));
            f == d.(replies := [Be32(XDR_REPLY)] + d.replies)
  {
    hide Drain;
    assert START.buf + data == data;
  }

  /** From the start of a connection, whatever bytes the client sends: `wids` is 1, 2, 3, ... up to the id
      before the next one, and has one id for every message that opened a window. */
  lemma WindowIdsFromTheStart(t: Tables, data: seq<byte>)
    ensures var s := Feed(t, START, data).conn;
            && s.wids == From(1, |s.wids|) && s.nextWid == |s.wids| + 1
            && |s.wids| == if |data| >= 4 then Openings(t, Sound(data[4..])) else 0
  {
    hide Drain, Handled, Openings, Sound;
    if |data| >= 4 {
      var s := START.(buf := data[4..], gotProbe := true);
      FeedFromStart(t, data);
      DrainHandlesPayloads(t, s);
      WindowIdsInTurn(t, s, Sound(s.buf));
      FromLength(1, Openings(t, Sound(s.buf)));
    }
  }

  lemma {:induction false} FromLength(n: int, k: nat)
    ensures |From(n, k)| == k
    decreases k
  {
    if k > 0 { FromLength(n + 1, k - 1); }
  }

  // --------------------------------------------------------------- framing both ways

  function Frames(bodies: seq<FrameWords>): seq<byte> {
    if bodies == [] then [] else Frame(bodies[0]) + Frames(bodies[1..])
  }

  function Packed(bodies: seq<FrameWords>): seq<seq<byte>> {
    if bodies == [] then [] else [Pack(bodies[0])] + Packed(bodies[1..])
  }

  /** Frames put one after the other are taken apart again into just those payloads. The same rule is what
      a client uses on the replies. */
  lemma {:induction false} FramesComeApart(bodies: seq<FrameWords>)
    ensures Payloads(Frames(bodies)) == Packed(bodies)
  {
    hide HasMessage, Frame, MessageLen, Pack;
    if bodies == [] {
      NoMessage();
    } else {
      var b, rest := Frames(bodies), Frames(bodies[1..]);
      FrameHead(bodies[0], rest);
      FrameBody(bodies[0], rest);
      FramesComeApart(bodies[1..]);
      assert b[4..4 + MessageLen(b)] == Pack(bodies[0]) && b[4 + MessageLen(b)..] == rest;
    }
  }

  /** The replies to a run of messages are one frame for each answered message and nothing else, and come apart
      again into just those. */
  lemma {:induction false} RepliesComeApart(t: Tables, s: Conn, payloads: seq<seq<byte>>) returns (bodies: seq<FrameWords>)
    ensures |bodies| == Answers(t, payloads) && Concat(Handled(t, s, payloads).1) == Frames(bodies)
    ensures Payloads(Frames(bodies)) == Packed(bodies)
    ensures |Handled(t, s, payloads).1| == |payloads|
    ensures forall i :: 0 <= i < |payloads| ==> (Handled(t, s, payloads).1[i] == [] <==> !Answered(t, payloads[i]))
    decreases |payloads|
  {
    hide Handle, HasMessage, Frame, MessageLen, Pack, Answered, Payloads;
    if payloads == [] {
      bodies := [];
    } else {
      var h := Handle(t, s, payloads[0]);
      var rest := RepliesComeApart(t, h.0, payloads[1..]);
      ReplyIsAFrameIff(t, s, payloads[0]);
      if Answered(t, payloads[0]) {
        var ws: FrameWords :| h.1 == Frame(ws);
        bodies := [ws] + rest;
        FrameNotEmpty(ws);
      } else {
        bodies := rest;
      }
    }
    FramesComeApart(bodies);
  }

  lemma FrameNotEmpty(ws: FrameWords)
    ensures Frame(ws) != []
  {}

  /** From the start of a connection, whatever bytes the client sends: what goes back to it is the answer to its probe,
      and then one frame for each answered message. */
  lemma RepliesFromTheStart(t: Tables, data: seq<byte>) returns (bodies: seq<FrameWords>)
    requires |data| >= 4
    ensures Concat(Feed(t, START, data).replies) == Be32(XDR_REPLY) + Frames(bodies)
    ensures |bodies| == Answers(t, Sound(data[4..])) && Payloads(Frames(bodies)) == Packed(bodies)
  {
    hide Drain, Handled, Sound, Payloads, Frames, Be32;
    var s := START.(buf := data[4..], gotProbe := true);
    FeedFromStart(t, data);
    DrainHandlesPayloads(t, s);
    bodies := RepliesComeApart(t, s, Sound(s.buf));
    var replies := Drain(t, s).replies;
    assert ([Be32(XDR_REPLY)] + replies)[1..] == replies;
  }

  function Answers(t: Tables, payloads: seq<seq<byte>>): nat {
    if payloads == [] then 0 else (if Answered(t, payloads[0]) then 1 else 0) + Answers(t, payloads[1..])
  }

  // ------------------------------------------------------------------ whole sessions

  /** A client's message: commands, perhaps one cut off behind them, perhaps a reply-sync. */
  datatype Message = Message(cmds: seq<Command>, tail: seq<Word>, sync: seq<Word>)

  function Body(m: Message): seq<Word> { Concat(m.cmds) + m.tail + m.sync }

  predicate Sendable(t: Tables, m: Message) { GlFrame(t, m.cmds, m.tail, m.sync) && |Body(m)| < 0x40_0000 }

  /** What the client writes. */
  function Stream(t: Tables, ms: seq<Message>): seq<byte>
    requires forall i :: 0 <= i < |ms| ==> Sendable(t, ms[i])
  {
    if ms == [] then []
    else
      assert Sendable(t, ms[0]);
      Frame(Body(ms[0])) + Stream(t, ms[1..])
  }

  function AllCommands(ms: seq<Message>): seq<Command> {
    if ms == [] then [] else ms[0].cmds + AllCommands(ms[1..])
  }

  /** The message at the front of the buffer, handled. */
  lemma DrainMessage(t: Tables, s: Conn, m: Message, rest: seq<byte>)
    requires Sendable(t, m) && s.gotProbe && s.buf == Frame(Body(m)) + rest
    ensures HasMessage(s.buf) && !Ragged(|Payload(s)|)
    ensures var h := Handle(t, Taken(s), Payload(s)).0;
            h.called == s.called + m.cmds && h.gotProbe && h.buf == rest
  {
    hide Handle, HasMessage, Frame, MessageLen, Pack, GlFrame;
    FrameHead(Body(m), rest);
    FrameBody(Body(m), rest);
    assert Payload(s) == Pack(Body(m)) && Taken(s) == s.(buf := rest);
    HandleKeepsBuf(t, Taken(s), Payload(s));
    CommandsAreCalledBack(t, Taken(s), m.cmds, m.tail, m.sync);
  }

  lemma {:induction false} DrainSession(t: Tables, s: Conn, ms: seq<Message>)
    requires forall i :: 0 <= i < |ms| ==> Sendable(t, ms[i])
    requires s.gotProbe && s.buf == Stream(t, ms)
    ensures var f := Drain(t, s); !f.raised && f.conn.called == s.called + AllCommands(ms) && f.conn.buf == []
    decreases |ms|
  {
    hide Handle, HasMessage, Frame, Sendable, Payload, Taken, Ragged, Drain;
    if ms == [] {
      NoMessage();
      DrainNone(t, s);
    } else {
      assert Sendable(t, ms[0]);
      DrainOne(t, s) by { DrainMessage(t, s, ms[0], Stream(t, ms[1..])); }
      DrainMessage(t, s, ms[0], Stream(t, ms[1..]));
      DrainSession(t, Handle(t, Taken(s), Payload(s)).0, ms[1..]);
    }
  }

  /** The whole path: a client's probe and messages, cut into chunks anywhere, are called back as exactly the
      commands the client sent, in order, and nothing is left in the buffer. */
  lemma SessionArrives(t: Tables, probe: seq<byte>, ms: seq<Message>, chunks: seq<seq<byte>>)
    requires |probe| == 4 && forall i :: 0 <= i < |ms| ==> Sendable(t, ms[i])
    requires Concat(chunks) == probe + Stream(t, ms)
    ensures var f := FeedEach(t, START, chunks);
            !f.raised && f.conn.called == AllCommands(ms) && f.conn.buf == []
  {
    hide Drain, Stream, AllCommands, Sendable;
    var data := Concat(chunks);
    assert START.buf + data == data && data[4..] == Stream(t, ms);
    DrainSession(t, START.(buf := data[4..], gotProbe := true), ms);
    ChunkingDoesNotMatter(t, START, chunks);
  }
}
