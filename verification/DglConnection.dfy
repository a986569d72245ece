/** The connection object of dgl_framed.py, whose methods update its fields, against the specification. */
module DglConnection {
  import opened Common
  import opened Bytes
  import opened DglWire
  import opened DglFramed

  /** The commands of `words` before index `i` are `cmds`, and the last of them is `last`. */
  ghost predicate CalledUpTo(table: map<int, nat>, words: seq<Word>, i: nat, cmds: seq<Command>, last: Command) {
    && i <= |words|
    && cmds + Split(table, words[i..]) == Split(table, words)
    && if cmds == [] then last == [] else last != [] && last == cmds[|cmds| - 1]
  }

  lemma NoneCalled(table: map<int, nat>, words: seq<Word>)
    ensures CalledUpTo(table, words, 0, [], [])
  {
    hide Split;
    assert words[0..] == words;
  }

  lemma CallNext(table: map<int, nat>, words: seq<Word>, i: nat, n: nat, cmds: seq<Command>, last: Command)
    requires CalledUpTo(table, words, i, cmds, last)
    requires i < |words| && CmdLen(table, words[i..]) == n && 0 < n <= |words| - i
    ensures CalledUpTo(table, words, i + n, cmds + [words[i..i + n]], words[i..i + n])
  {
    hide CmdLen;
    var c, rest := words[i..i + n], Split(table, words[i + n..]);
    assert words[i..][..n] == c && words[i..][n..] == words[i + n..];
    assert Split(table, words[i..]) == [c] + rest;
    assert cmds + ([c] + rest) == (cmds + [c]) + rest;
  }

  lemma CallsDone(table: map<int, nat>, words: seq<Word>, i: nat, cmds: seq<Command>, last: Command)
    requires CalledUpTo(table, words, i, cmds, last) && Incomplete(table, words[i..])
    ensures cmds == Split(table, words)
    ensures if cmds == [] then last == [] else last != [] && last == cmds[|cmds| - 1]
  {
    hide CmdLen;
    assert cmds + [] == cmds;
  }

  lemma TakenIs(before: Conn, after: Conn)
    requires HasMessage(before.buf) && after == before.(buf := before.buf[4 + MessageLen(before.buf)..])
    ensures after == Taken(before) && Payload(before) == before.buf[4..4 + MessageLen(before.buf)]
  {
    hide MessageLen, HasMessage;
  }

  class DglFramedConnection {
    const tables: Tables
    var buf: seq<byte>
    var gotProbe: bool
    var nextWid: int
    var wids: seq<int>
    var unhandled: seq<int>
    var called: seq<Command>

    constructor (tables: Tables)
      ensures this.tables == tables && State() == START
    {
      this.tables := tables;
      buf, gotProbe, nextWid, wids, unhandled, called := [], false, 1, [], [], [];
    }

    function State(): Conn
      reads this
    {
      Conn(buf, gotProbe, nextWid, wids, unhandled, called)
    }

    method Ask(op: int, cmd: Command) returns (answer: Option<QueryWords>)
      ensures answer == if tables.query.Some? then tables.query.value(called, op, cmd) else None
    {
      if tables.query.None? { return None; }
      answer := tables.query.value(called, op, cmd);
    }

    /** `_reply_for`. */
    method ReplyFor(cmd: Command) returns (reply: seq<byte>)
      requires cmd != []
      modifies `nextWid, `wids, `unhandled
      ensures State() == Reply(tables, old(State()), cmd).0
      ensures reply == Frame(Reply(tables, old(State()), cmd).1)
    {
      hide Frame, GversionReply;
      var op := cmd[0];
      if op == OP_GVERSION_STR { return Frame(GversionReply()); }
      if op == OP_WINOPEN || op == OP_SWINOPEN {
        var wid := nextWid;
        nextWid := nextWid + 1;
        wids := wids + [wid];
        return Frame([wid]);
      }
      if op == OP_GETGDESC {
        var token := if |cmd| > 1 then cmd[1] else 0;
        return Frame([if token in tables.gdesc then tables.gdesc[token] else 1]);
      }
      if op == OP_GETGCONFIG { return Frame([0]); }
      var answer := Ask(op, cmd);
      if op == OP_GETMATRIX {
        var mat: seq<int> := IDENTITY_MATRIX;
        if answer.Some? && answer.value != [] { mat := answer.value; }
        return Frame([4 * |mat|] + mat);
      }
      if answer.Some? { return Frame(answer.value); }
      if !HasDefault(op) { unhandled := unhandled + [op]; }
      return Frame([0]);
    }

    /** The commands of a frame, each called back; the last one is returned, [] if there is none. */
    method CallBack(words: seq<Word>) returns (lastCmd: Command)
      modifies `called
      ensures var cmds := Split(tables.cmdWords, words);
              && called == old(called) + cmds
              && if cmds == [] then lastCmd == [] else lastCmd != [] && lastCmd == cmds[|cmds| - 1]
    {
      hide CmdLen, Split, CalledUpTo;
      var i := 0;
      lastCmd := [];
      ghost var cmds: seq<Command> := [];
      NoneCalled(tables.cmdWords, words);
      while i < |words|
        invariant 0 <= i <= |words|
        invariant CalledUpTo(tables.cmdWords, words, i, cmds, lastCmd) && called == old(called) + cmds
      {
        var n := CmdLen(tables.cmdWords, words[i..]);
        if n <= 0 || i + n > |words| { break; }
        var cmd := words[i..i + n];
        CallNext(tables.cmdWords, words, i, n, cmds, lastCmd);
        i := i + n;
        called := called + [cmd];
        cmds := cmds + [cmd];
        lastCmd := cmd;
      }
      CallsDone(tables.cmdWords, words, i, cmds, lastCmd);
    }

    /** `_handle_payload`. */
    method HandlePayload(payload: seq<byte>) returns (reply: seq<byte>)
      modifies `nextWid, `wids, `unhandled, `called
      ensures State() == Handle(tables, old(State()), payload).0
      ensures reply == Handle(tables, old(State()), payload).1
    {
      hide Frame, GversionReply, Words, HandshakeReply, Reply, Split;
      var words := Words(payload);
      var hadReplySync := |words| >= 2 && words[|words| - 2] == OP_REPLYSYNC;
      if hadReplySync { words := words[..|words| - 2]; }
      if words == [] { return if hadReplySync then Frame([0]) else []; }
      if words[0] == OP_GVERSION_STR {
        called := called + [words];
        return Frame(GversionReply());
      }
      if HandshakeReply(words[0]).Some? {
        called := called + [words];
        return Frame(HandshakeReply(words[0]).value);
      }
      var lastCmd := CallBack(words);
      if hadReplySync && lastCmd != [] {
        reply := ReplyFor(lastCmd);
      } else {
        reply := [];
      }
    }

    /** `feed`. A payload that is not whole words raises; what was to be sent back is lost then. */
    method Feed(data: seq<byte>) returns (out: seq<byte>, raised: bool)
      modifies this
      ensures var f := DglFramed.Feed(tables, old(State()), data);
              && State() == f.conn && raised == f.raised
              && (!raised ==> out == Concat(f.replies))
    {
      hide Handle, HasMessage, MessageLen, Payload, Taken;
      buf := buf + data;
      out := [];
      ghost var replies: seq<seq<byte>> := [];
      if !gotProbe {
        if |buf| < 4 { return out, false; }
        buf := buf[4..];
        gotProbe := true;
        out := out + Be32(XDR_REPLY);
        replies := [Be32(XDR_REPLY)];
        assert Concat(replies) == out;
      }
      ghost var f := Drain(tables, State());
      ghost var sent := out;
      out, raised := SendReplies(out);
      ConcatPlus(replies, f.replies);

    }

    /** The message loop of `feed`; the replies are appended to `out`. */
    method SendReplies(sent: seq<byte>) returns (out: seq<byte>, raised: bool)
      modifies this
      ensures var f := Drain(tables, old(State()));
              && State() == f.conn && raised == f.raised
              && (!raised ==> out == sent + Concat(f.replies))
    {
      hide Handle, Payload, Taken, Drain;
      out := sent;
      ghost var f := Drain(tables, State());
      ghost var replies: seq<seq<byte>> := [];
      while HasMessage(buf)
        invariant f == Drain(tables, State()).(replies := replies + Drain(tables, State()).replies)
        invariant out == sent + Concat(replies)
        decreases |buf|
      {
        ghost var before := State();
        var n := MessageLen(buf);
        var payload := buf[4..4 + n];
        buf := buf[4 + n..];
        TakenIs(before, State());
        if Ragged(|payload|) {
          DrainRagged(tables, before);
          return [], true;
        }
        DrainOne(tables, before);
        HandleKeepsBuf(tables, State(), payload);
        var reply := HandlePayload(payload);
        out := out + reply;
        AddReply(sent, replies, reply);
        replies := replies + [reply];
      }
      DrainNone(tables, State());
      assert replies + [] == replies;
      return out, false;
    }
  }

  lemma AddReply(sent: seq<byte>, replies: seq<seq<byte>>, reply: seq<byte>)
    ensures sent + Concat(replies + [reply]) == sent + Concat(replies) + reply
  {
    ConcatPlus(replies, [reply]);
    assert Concat([reply]) == reply;
  }
}
