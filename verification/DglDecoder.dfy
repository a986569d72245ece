/** The unframed decoder of dgl.py: a stream of commands whose lengths the opcode table knows. */
module DglDecoder {
  import opened Common
  import opened Bytes
  import opened DglWire

  datatype Info = Info(name: string, cmdWords: Option<nat>)
  type Table = map<int, Info>

  /** How a variable-length command says its length; None is an opcode name without a rule. */
  datatype Rule = StringCmd | Poly(coords: nat)

  function VarRule(name: string): Option<Rule> {
    if name == "winopen" || name == "charstr" || name == "objreplace" then Some(StringCmd)
    else if name == "poly" || name == "polf" || name == "polyi" || name == "polfi" then Some(Poly(3))
    else if name == "poly2" || name == "polf2" || name == "poly2i" || name == "polf2i" then Some(Poly(2))
    else None
  }

  /** `_len_stringcmd` and `_len_poly`; None while the length word is missing. */
  function RuleLen(rule: Rule, words: seq<Word>): Option<nat> {
    if |words| < 2 then None
    else
      var n: int := words[1];
      match rule
      case StringCmd => Some(2 + (n + 3) / 4)
      case Poly(coords) => Some(2 + n * coords)
  }

  /** What the decoder knows of the length of the command at the start of `words`. */
  datatype Length = Known(total: nat) | Waiting | LostSync

  function LengthOf(table: Table, words: seq<Word>): Length
    requires words != []
  {
    var op := words[0];
    if op in table && table[op].cmdWords.Some? then Known(table[op].cmdWords.value)
    else
      var rule := if op in table then VarRule(table[op].name) else None;
      if rule.None? then LostSync
      else
        match RuleLen(rule.value, words)
        case None => Waiting
        case Some(total) => Known(total)
  }

  /** Every fixed length is at least 1; with a length of 0 the decoder would take nothing for ever. */
  predicate Progresses(table: Table) {
    forall op :: op in table && table[op].cmdWords.Some? ==> table[op].cmdWords.value >= 1
  }

  lemma KnownIsPositive(table: Table, words: seq<Word>)
    requires Progresses(table) && words != []
    ensures LengthOf(table, words).Known? ==> LengthOf(table, words).total >= 1
  {
    var op := words[0];
    if op in table && table[op].cmdWords.Some? { assert table[op].cmdWords.value >= 1; }
    else if op in table && VarRule(table[op].name).Some? && |words| >= 2 {
      RuleIsPositive(VarRule(table[op].name).value, words);
    }
  }

  lemma RuleIsPositive(rule: Rule, words: seq<Word>)
    requires |words| >= 2
    ensures RuleLen(rule, words).Some? && RuleLen(rule, words).value >= 2
  {}

  /** What is left in the buffer, the commands taken, and whether the stream lost sync. */
  datatype Decoded = Decoded(buf: seq<byte>, cmds: seq<Command>, lost: bool)

  /** The length of the first command, if it is there in full. */
  predicate HasCommand(table: Table, buf: seq<byte>) {
    var words := Words(buf);
    words != [] && LengthOf(table, words).Known? && LengthOf(table, words).total <= |words|
  }

  predicate Loses(table: Table, buf: seq<byte>) { Words(buf) != [] && LengthOf(table, Words(buf)).LostSync? }

  function FirstLen(table: Table, buf: seq<byte>): (n: nat)
    requires HasCommand(table, buf)
    ensures 4 * n <= |buf|
  {
    LengthOf(table, Words(buf)).total
  }

  function Decode(table: Table, buf: seq<byte>): Decoded
    requires Progresses(table)
    decreases |buf|
  {
    if Loses(table, buf) then Decoded(buf, [], true)
    else if !HasCommand(table, buf) then Decoded(buf, [], false)
    else
      KnownIsPositive(table, Words(buf));
      var n := FirstLen(table, buf);
      var d := Decode(table, buf[4 * n..]);
      d.(cmds := [Words(buf)[..n]] + d.cmds)
  }

  lemma {:induction false} WordsMore(a: seq<byte>, b: seq<byte>)
    ensures Words(a) <= Words(a + b)
  {
    if |a| >= 4 {
      WordsMore(a[4..], b);
      assert (a + b)[4..] == a[4..] + b;
      assert Get32(a + b, 0) == Get32(a, 0);
    }
  }

  /** A command that is there in full, or an unknown opcode, stays so when more bytes arrive. */
  lemma MoreChangesNothing(table: Table, buf: seq<byte>, more: seq<byte>)
    ensures Loses(table, buf) ==> Loses(table, buf + more)
    ensures HasCommand(table, buf) ==>
              && HasCommand(table, buf + more) && FirstLen(table, buf + more) == FirstLen(table, buf)
              && Words(buf + more)[..FirstLen(table, buf)] == Words(buf)[..FirstLen(table, buf)]
  {
    hide Words, VarRule;
    WordsMore(buf, more);
    var a, b := Words(buf), Words(buf + more);
    if a != [] {
      assert a[0] == b[0];
      if |a| >= 2 { assert a[1] == b[1]; }
    }
  }

  /** One command off the front. */
  lemma DecodeOne(table: Table, buf: seq<byte>)
    requires Progresses(table) && HasCommand(table, buf) && !Loses(table, buf)
    ensures var n := FirstLen(table, buf); var d := Decode(table, buf[4 * n..]);
            n >= 1 && n <= |Words(buf)| && Decode(table, buf) == d.(cmds := [Words(buf)[..n]] + d.cmds)
  {
    hide Words;
    KnownIsPositive(table, Words(buf));
  }

  lemma DecodeEnd(table: Table, buf: seq<byte>)
    requires Progresses(table) && (Loses(table, buf) || !HasCommand(table, buf))
    ensures Decode(table, buf) == Decoded(buf, [], Loses(table, buf))
  {
    hide Loses, HasCommand;
  }

  lemma ConsPlus<T>(c: T, a: seq<T>, b: seq<T>)
    ensures [c] + (a + b) == ([c] + a) + b
  {}

  lemma DecodeMore1(table: Table, buf: seq<byte>, more: seq<byte>)
    requires Progresses(table) && HasCommand(table, buf) && !Loses(table, buf)
    ensures var n := FirstLen(table, buf);
            n >= 1 && n <= |Words(buf)| && 4 * n <= |buf|
            && HasCommand(table, buf + more) && !Loses(table, buf + more) && FirstLen(table, buf + more) == n
            && Words(buf + more)[..n] == Words(buf)[..n] && (buf + more)[4 * n..] == buf[4 * n..] + more
  {
    hide Words, VarRule, LengthOf;
    MoreChangesNothing(table, buf, more);
    DecodePositive(table, buf);
  }

  lemma {:induction false} DecodeMore(table: Table, buf: seq<byte>, more: seq<byte>)
    requires Progresses(table)
    ensures var d := Decode(table, buf); var whole := Decode(table, buf + more);
            if d.lost then whole.lost && whole.cmds == d.cmds
            else var e := Decode(table, d.buf + more); whole == e.(cmds := d.cmds + e.cmds)
    decreases |buf|
  {
    hide Words, HasCommand, Loses, FirstLen, Progresses, Decode;
    if Loses(table, buf) {
      MoreChangesNothing(table, buf, more);
      DecodeEnd(table, buf);
      DecodeEnd(table, buf + more);
    } else if HasCommand(table, buf) {
      DecodeMore1(table, buf, more);
      DecodeOne(table, buf);
      DecodeOne(table, buf + more);
      var n := FirstLen(table, buf);
      DecodeMore(table, buf[4 * n..], more);
      var d := Decode(table, buf[4 * n..]);
      if !d.lost { ConsPlus(Words(buf)[..n], d.cmds, Decode(table, d.buf + more).cmds); }
    } else {
      DecodeEnd(table, buf);
      var e := Decode(table, buf + more);
      assert [] + e.cmds == e.cmds;
    }
  }

  lemma DecodePositive(table: Table, buf: seq<byte>)
    requires Progresses(table) && HasCommand(table, buf)
    ensures FirstLen(table, buf) >= 1
  {
    KnownIsPositive(table, Words(buf));
  }

  /** Feeding the chunks in turn, up to the first call that loses sync. */
  function DecodeEach(table: Table, buf: seq<byte>, chunks: seq<seq<byte>>): Decoded
    requires Progresses(table)
    decreases |chunks|
  {
    if chunks == [] then Decoded(buf, [], false)
    else
      var d := Decode(table, buf + chunks[0]);
      if d.lost then d
      else var e := DecodeEach(table, d.buf, chunks[1..]); e.(cmds := d.cmds + e.cmds)
  }

  predicate Settled(table: Table, buf: seq<byte>) { !Loses(table, buf) && !HasCommand(table, buf) }

  lemma {:induction false} DecodeSettles(table: Table, buf: seq<byte>)
    requires Progresses(table) && !Decode(table, buf).lost
    ensures Settled(table, Decode(table, buf).buf)
    decreases |buf|
  {
    hide Words, HasCommand, Loses, FirstLen;
    if !Loses(table, buf) && HasCommand(table, buf) {
      DecodePositive(table, buf);
      DecodeSettles(table, buf[4 * FirstLen(table, buf)..]);
    }
  }

  /** Cutting the stream into chunks changes neither the commands decoded nor what is left over, nor whether
      the decoder loses sync. */
  lemma {:induction false} ChunkingDoesNotMatter(table: Table, buf: seq<byte>, chunks: seq<seq<byte>>)
    requires Progresses(table) && Settled(table, buf)
    ensures var whole, each := Decode(table, buf + Concat(chunks)), DecodeEach(table, buf, chunks);
            whole.lost == each.lost && (!whole.lost ==> whole == each)
    decreases |chunks|
  {
    hide Words, HasCommand, Loses, FirstLen;
    if chunks == [] {
      assert buf + Concat(chunks) == buf;
    } else {
      var c, rest := chunks[0], Concat(chunks[1..]);
      assert buf + Concat(chunks) == (buf + c) + rest;
      DecodeMore(table, buf + c, rest);
      var d := Decode(table, buf + c);
      if !d.lost {
        DecodeSettles(table, buf + c);
        ChunkingDoesNotMatter(table, d.buf, chunks[1..]);
      }
    }
  }

  /** A command whose length the table, or the rule for its name, gives. */
  predicate Decodable(table: Table, c: Command) {
    c != [] && LengthOf(table, c) == Known(|c|)
  }

  function Encoded(cmds: seq<Command>): seq<byte> {
    if cmds == [] then [] else Pack(cmds[0]) + Encoded(cmds[1..])
  }

  lemma {:induction false} WordsAppend(ws: seq<Word>, rest: seq<byte>)
    ensures Words(Pack(ws) + rest) == ws + Words(rest)
  {
    hide Get32, Be32, Words, Pack;
    if ws == [] {
      NothingPacked();
      assert [] + rest == rest;
    } else {
      var tail := Pack(ws[1..]) + rest;
      PackCons(ws);
      assert Pack(ws) + rest == Be32(ws[0]) + tail;
      WordsAppend(ws[1..], rest);
      WordThen(ws[0], tail);
      assert ws == [ws[0]] + ws[1..];
    }
  }

  lemma NothingPacked()
    ensures Pack([]) == []
  {}

  lemma PackCons(ws: seq<Word>)
    requires ws != []
    ensures Pack(ws) == Be32(ws[0]) + Pack(ws[1..])
  {
    hide Be32;
  }

  lemma WordThen(w: Word, tail: seq<byte>)
    ensures Words(Be32(w) + tail) == [w] + Words(tail)
  {
    hide Get32, Be32;
    HeadWord(w, tail);
  }

  lemma RestOfPack(ws: seq<Word>, rest: seq<byte>)
    ensures (Pack(ws) + rest)[4 * |ws|..] == rest
  {
    hide Pack;
  }

  lemma NothingToDecode(table: Table)
    requires Progresses(table)
    ensures Decode(table, []) == Decoded([], [], false) && Settled(table, [])
  {}

  /** Decoding undoes encoding, whatever the chunks the bytes come in. */
  lemma {:induction false} DecodeUndoesEncode(table: Table, cmds: seq<Command>)
    requires Progresses(table) && forall i :: 0 <= i < |cmds| ==> Decodable(table, cmds[i])
    ensures Decode(table, Encoded(cmds)) == Decoded([], cmds, false)
  {
    hide Words, Pack, HasCommand, Loses, FirstLen, Decodable, Decode, Progresses;
    if cmds == [] {
      NothingToDecode(table);
    } else {
      var c, rest := cmds[0], Encoded(cmds[1..]);
      assert Decodable(table, c);
      CommandAtFront(table, c, rest);
      DecodeOne(table, Pack(c) + rest);
      DecodeUndoesEncode(table, cmds[1..]);
      assert cmds == [c] + cmds[1..];
    }
  }

  lemma CommandAtFront(table: Table, c: Command, rest: seq<byte>)
    requires Decodable(table, c)
    ensures var b := Pack(c) + rest;
            && HasCommand(table, b) && !Loses(table, b) && FirstLen(table, b) == |c|
            && Words(b)[..|c|] == c && b[4 * |c|..] == rest
  {
    hide Words, Pack, VarRule;
    WordsAppend(c, rest);
    RestOfPack(c, rest);
    var ws := Words(Pack(c) + rest);
    assert ws == c + Words(rest) && ws[0] == c[0];
    if |c| >= 2 { assert ws[1] == c[1]; }
    if LengthOf(table, c).Known? && !(c[0] in table && table[c[0]].cmdWords.Some?) {
      RuleIsPositive(VarRule(table[c[0]].name).value, c);
    }
  }

  /** The whole path: the commands a client wrote, cut into chunks anywhere, are decoded again one for one. */
  lemma CommandsArrive(table: Table, cmds: seq<Command>, chunks: seq<seq<byte>>)
    requires Progresses(table) && forall i :: 0 <= i < |cmds| ==> Decodable(table, cmds[i])
    requires Concat(chunks) == Encoded(cmds)
    ensures DecodeEach(table, [], chunks) == Decoded([], cmds, false)
  {
    hide Encoded, Decode, Decodable;
    assert [] + Concat(chunks) == Encoded(cmds);
    ChunkingDoesNotMatter(table, [], chunks);
    DecodeUndoesEncode(table, cmds);
  }

  // ------------------------------------------------------------ what stands on the wire

  /** A command as its parts: a string with its length in bytes, a polygon with its number of vertices, or a command of
      the length the table gives. */
  datatype Sent =
    | String(op: Word, text: seq<byte>)
    | Polygon(op: Word, vertices: seq<seq<Word>>)
    | Plain(op: Word, args: seq<Word>)

  predicate Named(table: Table, op: Word, names: set<string>) {
    op in table && table[op].cmdWords.None? && table[op].name in names
  }

  /** What a client may send of the commands the decoder knows. */
  predicate MayWrite(table: Table, s: Sent) {
    match s
    case String(op, text) => Named(table, op, {"winopen", "charstr", "objreplace"}) && |text| < 0x1_0000_0000
    case Polygon(op, vertices) =>
      && |vertices| < 0x1_0000_0000
      && (|| (Named(table, op, {"poly", "polf", "polyi", "polfi"}) && forall v :: v in vertices ==> |v| == 3)
          || (Named(table, op, {"poly2", "polf2", "poly2i", "polf2i"}) && forall v :: v in vertices ==> |v| == 2))
    case Plain(op, args) => op in table && table[op].cmdWords == Some(1 + |args|)
  }

  function Written(s: Sent): Command
    requires s.String? ==> |s.text| < 0x1_0000_0000
    requires s.Polygon? ==> |s.vertices| < 0x1_0000_0000
  {
    match s
    case String(op, text) => [op, |text|] + PaddedWords(text)
    case Polygon(op, vertices) => [op, |vertices|] + Concat(vertices)
    case Plain(op, args) => [op] + args
  }

  lemma {:induction false} ConcatLength(parts: seq<seq<Word>>, n: nat)
    requires forall p :: p in parts ==> |p| == n
    ensures |Concat(parts)| == |parts| * n
  {
    if parts != [] {
      assert parts[0] in parts;
      ConcatLength(parts[1..], n);
      Distribute(|parts| - 1, n);
    }
  }

  lemma Distribute(k: nat, n: nat)
    ensures n + k * n == (k + 1) * n
  {}

  lemma StringDecodes(table: Table, s: Sent)
    requires s.String? && MayWrite(table, s)
    ensures Decodable(table, Written(s))
  {
    hide PaddedWords;
    PaddedLength(s.text);
    CeilOf(|s.text|, |PaddedWords(s.text)|);
    assert Written(s)[0] == s.op && Written(s)[1] == |s.text|;
  }

  lemma PolygonDecodes(table: Table, s: Sent, coords: nat)
    requires s.Polygon? && |s.vertices| < 0x1_0000_0000 && forall v :: v in s.vertices ==> |v| == coords
    requires s.op in table && table[s.op].cmdWords.None? && VarRule(table[s.op].name) == Some(Poly(coords))
    ensures Decodable(table, Written(s))
  {
    hide VarRule, Concat;
    ConcatLength(s.vertices, coords);
    assert Written(s)[0] == s.op && Written(s)[1] == |s.vertices|;
  }

  lemma WrittenDecodes(table: Table, s: Sent)
    requires MayWrite(table, s)
    ensures Decodable(table, Written(s))
  {
    hide Concat, PaddedWords;
    if s.String? {
      StringDecodes(table, s);
    } else if s.Polygon? {
      PolygonDecodes(table, s, if table[s.op].name in {"poly", "polf", "polyi", "polfi"} then 3 else 2);
    }
  }

  function AllWritten(table: Table, sent: seq<Sent>): seq<Command>
    requires forall i :: 0 <= i < |sent| ==> MayWrite(table, sent[i])
  {
    seq(|sent|, i requires 0 <= i < |sent| && MayWrite(table, sent[i]) => Written(sent[i]))
  }

  /** What a client writes, cut into chunks anywhere, is decoded as just those commands. */
  lemma {:induction false} ClientIsDecoded(table: Table, sent: seq<Sent>, chunks: seq<seq<byte>>)
    requires Progresses(table) && forall i :: 0 <= i < |sent| ==> MayWrite(table, sent[i])
    requires Concat(chunks) == Encoded(AllWritten(table, sent))
    ensures DecodeEach(table, [], chunks) == Decoded([], AllWritten(table, sent), false)
  {
    hide Decodable, DecodeEach, Encoded;
    forall i | 0 <= i < |sent| ensures Decodable(table, Written(sent[i])) { WrittenDecodes(table, sent[i]); }
    CommandsArrive(table, AllWritten(table, sent), chunks);
  }

  /** The decoder loses sync exactly at an opcode that is not in the table, or that has neither a length there nor one of
      the eleven names. */
  lemma LosesSyncIff(table: Table, buf: seq<byte>)
    requires |buf| >= 4
    ensures Loses(table, buf) <==>
            var op := Get32(buf, 0);
            op !in table
            || (&& table[op].cmdWords.None?
                && table[op].name !in {"winopen", "charstr", "objreplace", "poly", "polf", "polyi", "polfi",
                                       "poly2", "polf2", "poly2i", "polf2i"})
  {
    hide Get32;
    assert Words(buf)[0] == Get32(buf, 0);
  }

  /** A command of which only a beginning is there waits for the rest. */
  lemma {:induction false} PartWaits(table: Table, s: Sent, k: nat)
    requires Progresses(table) && MayWrite(table, s) && k < |Pack(Written(s))|
    ensures var part := Pack(Written(s))[..k]; Decode(table, part) == Decoded(part, [], false)
  {
    hide Words, Pack, Decode, Written, VarRule;
    var c := Written(s);
    var part, rest := Pack(c)[..k], Pack(c)[k..];
    WrittenDecodes(table, s);
    assert part + rest == Pack(c) && Pack(c) + [] == Pack(c);
    WordsAppend(c, []);
    NoWords();
    assert c + [] == c;
    WordsMore(part, rest);
    var ws := Words(part);
    assert ws == c[..|ws|];
    if ws != [] {
      assert ws[0] == c[0];
      if |ws| >= 2 { assert ws[1] == c[1]; }
    }
    DecodeEnd(table, part);
  }

  lemma NoWords()
    ensures Words([]) == []
  {}

  /** `DglDecoder`. */
  class Decoder {
    const table: Table
    var buf: seq<byte>

    constructor (table: Table)
      ensures this.table == table && buf == []
    { this.table, buf := table, []; }

    /** `_try_one`: takes the first command from the buffer, if it is there in full. */
    method TryOne() returns (cmd: Option<Command>, lost: bool)
      requires Progresses(table)
      modifies this
      ensures lost == Loses(table, old(buf))
      ensures cmd.Some? == (!lost && HasCommand(table, old(buf)))
      ensures cmd.None? ==> buf == old(buf)
      ensures cmd.Some? ==> var n := FirstLen(table, old(buf));
                            cmd.value == Words(old(buf))[..n] && buf == old(buf)[4 * n..] && n >= 1
    {
      hide Words, VarRule;
      var words := Words(buf);
      if words == [] { return None, false; }
      match LengthOf(table, words) {
        case LostSync => return None, true;
        case Waiting => return None, false;
        case Known(total) =>
          if |words| < total { return None, false; }
          KnownIsPositive(table, words);
          var c := words[..total];
          buf := buf[4 * total..];
          return Some(c), false;
      }
    }

    /** `feed`. When the stream loses sync the commands taken so far are lost with the exception. */
    method Feed(data: seq<byte>) returns (out: seq<Command>, lost: bool)
      requires Progresses(table)
      modifies this
      ensures var d := Decode(table, old(buf) + data);
              lost == d.lost && buf == d.buf && (!lost ==> out == d.cmds)
    {
      hide Words, HasCommand, Loses, FirstLen, Decode;
      buf := buf + data;
      out := [];
      ghost var d := Decode(table, buf);
      while true
        invariant d == Decode(table, buf).(cmds := out + Decode(table, buf).cmds)
        decreases |buf|
      {
        ghost var before := buf;
        var cmd, raised := TryOne();
        if raised {
          DecodeEnd(table, before);
          return [], true;
        }
        if cmd.None? { break; }
        DecodeOne(table, before);
        assert out + ([cmd.value] + Decode(table, buf).cmds) == (out + [cmd.value]) + Decode(table, buf).cmds;
        out := out + [cmd.value];
      }
      DecodeEnd(table, buf);
      assert out + [] == out;
      return out, false;
    }
  }
}
