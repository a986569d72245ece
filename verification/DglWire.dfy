/** Big-endian words, message frames and the lengths of DGL commands (dgl_framed.py, the pure part). */
module DglWire {
  import opened Bytes

  type Word = w: int | 0 <= w < 0x1_0000_0000
  type Command = seq<Word>

  const FRAME_MARKER := 0x1000_0000
  const XDR_REPLY := 0xffff_edcc
  const OP_REPLYSYNC := 0x10004
  const OP_DGLXDRFORMAT := 0x10003
  const OP_DGLLOGINX := 0x10010
  const OP_DGLVERSION := 0x10007
  const OP_DGLXAUTHORITY := 0x10013
  const OP_GVERSION := 0x143
  const OP_GVERSION_STR := 0x1
  const OP_WINOPEN := 0x132
  const OP_SWINOPEN := 0x1a3
  const OP_GETGDESC := 0x1be
  const OP_GETGCONFIG := 0x216
  const OP_GETMATRIX := 0x3f
  const OP_TEXDEF2D := 0x1e7

  function Mask(w: int): Word { w % 0x1_0000_0000 }

  function Pack(ws: seq<int>): (b: seq<byte>)
    ensures |b| == 4 * |ws|
  {
    if ws == [] then [] else Be32(Mask(ws[0])) + Pack(ws[1..])
  }

  /** The whole words at the start of `b`; up to three bytes at the end are ignored. */
  function Words(b: seq<byte>): (ws: seq<Word>)
    ensures |ws| == |b| / 4
  {
    if |b| < 4 then [] else [Get32(b, 0)] + Words(b[4..])
  }

  function Masked(ws: seq<int>): (m: seq<Word>)
    ensures |m| == |ws|
  {
    if ws == [] then [] else [Mask(ws[0])] + Masked(ws[1..])
  }

  lemma HeadWord(n: int, rest: seq<byte>)
    requires 0 <= n < 0x1_0000_0000
    ensures Get32(Be32(n) + rest, 0) == n && (Be32(n) + rest)[4..] == rest
  {
    assert HasField(Be32(n) + rest, 0, Be32(n));
    Get32Be32(Be32(n) + rest, 0, n);
  }

  lemma {:induction false} WordsOfPack(ws: seq<int>)
    ensures Words(Pack(ws)) == Masked(ws)
  {
    if ws != [] {
      HeadWord(Mask(ws[0]), Pack(ws[1..]));
      WordsOfPack(ws[1..]);
      var b := Pack(ws);
      assert Words(b) == [Get32(b, 0)] + Words(b[4..]);
    }
  }

  lemma {:induction false} MaskedSame(ws: seq<Word>)
    ensures Masked(ws) == ws
  {
    if ws != [] {
      MaskedSame(ws[1..]);
      assert ws == [ws[0]] + ws[1..];
    }
  }

  /** Words fit a frame when their byte count fits the header's low 24 bits. */
  type FrameWords = ws: seq<int> | |ws| < 0x40_0000 witness []

  function Frame(ws: FrameWords): (b: seq<byte>)
    ensures |b| == 4 + 4 * |ws|
  {
    Be32(FRAME_MARKER + 4 * |ws|) + Pack(ws)
  }

  function Concat<T>(parts: seq<seq<T>>): seq<T> {
    if parts == [] then [] else parts[0] + Concat(parts[1..])
  }

  lemma {:induction false} ConcatPlus<T>(a: seq<seq<T>>, b: seq<seq<T>>)
    ensures Concat(a + b) == Concat(a) + Concat(b)
  {
    if a == [] {
      assert a + b == b;
    } else {
      assert (a + b)[1..] == a[1..] + b;
      ConcatPlus(a[1..], b);
    }
  }

  /** The first message in `buf`, if it is there in full: its payload, as long as the header says. */
  predicate HasMessage(buf: seq<byte>) {
    && |buf| >= 4
    && Get32(buf, 0) / 0x100_0000 == 0x10
    && |buf| >= 4 + Get32(buf, 0) % 0x100_0000
  }

  function MessageLen(buf: seq<byte>): (n: nat)
    requires HasMessage(buf)
    ensures 4 + n <= |buf|
  {
    Get32(buf, 0) % 0x100_0000
  }

  lemma HeaderParts(n: nat)
    requires n < 0x100_0000
    ensures (FRAME_MARKER + n) / 0x100_0000 == 0x10 && (FRAME_MARKER + n) % 0x100_0000 == n
  {}

  lemma FrameHead(ws: FrameWords, rest: seq<byte>)
    ensures HasMessage(Frame(ws) + rest) && MessageLen(Frame(ws) + rest) == 4 * |ws|
  {
    hide Get32, Be32, Pack;
    var h := FRAME_MARKER + 4 * |ws|;
    assert Frame(ws) + rest == Be32(h) + (Pack(ws) + rest);
    HeadWord(h, Pack(ws) + rest);
    HeaderParts(4 * |ws|);
  }

  lemma FrameBody(ws: FrameWords, rest: seq<byte>)
    ensures (Frame(ws) + rest)[4..4 + 4 * |ws|] == Pack(ws) && (Frame(ws) + rest)[4 + 4 * |ws|..] == rest
  {
    hide Be32, Pack;
  }

  /** More bytes behind it change nothing about a message that is there in full. */
  lemma MessageStays(buf: seq<byte>, more: seq<byte>)
    requires HasMessage(buf)
    ensures HasMessage(buf + more) && MessageLen(buf + more) == MessageLen(buf)
    ensures var n := MessageLen(buf);
            (buf + more)[4..4 + n] == buf[4..4 + n] && (buf + more)[4 + n..] == buf[4 + n..] + more
  {
    assert Get32(buf + more, 0) == Get32(buf, 0);
  }

  // ------------------------------------------------------------ command lengths

  /** Opcodes whose last header word counts the data bytes that follow; 0 for the others. */
  function HeaderWords(op: int): nat {
    if op == OP_WINOPEN || op == OP_SWINOPEN || op == 0x4f || op == 0x5c then 2
    else if op == 0x1e5 then 3
    else if op == 0x1e6 || op == 0x1e8 || op == 0x16b then 4
    else 0
  }

  /** texdef2d carries two arrays; the length of the second stands behind the first. */
  function Texdef2dLen(words: seq<Word>): int {
    if |words| < 8 then 0
    else
      var len1: int := words[5];
      var idx2 := (len1 + 0x1c) / 4;
      if idx2 >= |words| then 0
      else
        var len2: int := words[idx2];
        (len1 + len2 + 0x20 + 3) / 4
  }

  function CeilWords(bytes: int): int { (bytes + 3) / 4 }

  /** Length of the command at the start of `words`, 0 when it is incomplete. `table` gives the fixed
      lengths; an opcode it does not list takes the rest. */
  function CmdLen(table: map<int, nat>, words: seq<Word>): int
    requires words != []
  {
    var op := words[0];
    if op == OP_TEXDEF2D then Texdef2dLen(words)
    else if HeaderWords(op) > 0 then
      if |words| < HeaderWords(op) then 0 else HeaderWords(op) + CeilWords(words[HeaderWords(op) - 1])
    else if op in table && table[op] != 0 then table[op]
    else |words|
  }

  /** The commands at the start of `words`, up to the first that is not there in full. */
  function Split(table: map<int, nat>, words: seq<Word>): seq<Command> {
    if words == [] then []
    else
      var n := CmdLen(table, words);
      if n <= 0 || n > |words| then [] else [words[..n]] + Split(table, words[n..])
  }

  /** A command whose opcode says where it ends. */
  predicate SelfDelimiting(table: map<int, nat>, c: Command) {
    && c != []
    && (c[0] == OP_TEXDEF2D || HeaderWords(c[0]) > 0 || (c[0] in table && table[c[0]] != 0))
    && CmdLen(table, c) == |c|
  }

  /** What follows a self-delimiting command does not change its length: in particular texdef2d's second
      length word always lies inside the command. */
  lemma LengthIgnoresTail(table: map<int, nat>, c: Command, tail: seq<Word>)
    requires SelfDelimiting(table, c)
    ensures CmdLen(table, c + tail) == |c|
  {
    if c[0] == OP_TEXDEF2D {
      var len1: int := c[5];
      var idx2 := (len1 + 0x1c) / 4;
      assert (c + tail)[idx2] == c[idx2];
    } else if HeaderWords(c[0]) > 0 {
      var k := HeaderWords(c[0]) - 1;
      if k < |c| { assert (c + tail)[k] == c[k]; }
    }
  }

  /** Whether nothing can be called back from `tail` yet. */
  predicate Incomplete(table: map<int, nat>, tail: seq<Word>) {
    tail == [] || CmdLen(table, tail) <= 0 || CmdLen(table, tail) > |tail|
  }

  lemma NotEmpty(table: map<int, nat>, c: Command)
    requires SelfDelimiting(table, c)
    ensures c != []
  {}

  /** Splitting undoes concatenation, and a command cut off at the end is not called back. */
  lemma {:induction false} SplitUndoesConcat(table: map<int, nat>, cmds: seq<Command>, tail: seq<Word>)
    requires forall c :: c in cmds ==> SelfDelimiting(table, c)
    requires Incomplete(table, tail)
    ensures Split(table, Concat(cmds) + tail) == cmds
  {
    hide SelfDelimiting;
    if cmds == [] {
      assert Concat(cmds) + tail == tail;
    } else {
      var c, rest := cmds[0], Concat(cmds[1..]) + tail;
      assert SelfDelimiting(table, c) by { assert c in cmds; }
      NotEmpty(table, c);
      assert Concat(cmds) + tail == c + rest;
      LengthIgnoresTail(table, c, rest);
      assert (c + rest)[..|c|] == c && (c + rest)[|c|..] == rest;
      SplitUndoesConcat(table, cmds[1..], tail);
    }
  }

  lemma TakeDrop<T>(s: seq<T>, n: nat, k: nat)
    requires n + k <= |s|
    ensures s[n..][k..] == s[n + k..] && s[..n] + s[n..][..k] == s[..n + k]
  {}

  /** Whatever the words are, the commands called back are their beginning, and the rest is one command
      that is not there in full. */
  lemma {:induction false} SplitLosesOnlyTheTail(table: map<int, nat>, words: seq<Word>)
    ensures var n := |Concat(Split(table, words))|;
            n <= |words| && Concat(Split(table, words)) == words[..n] && Incomplete(table, words[n..])
  {
    hide CmdLen;
    if words != [] {
      var n := CmdLen(table, words);
      if n <= 0 || n > |words| {
        assert words[0..] == words;
      } else {
        hide Incomplete;
        SplitLosesOnlyTheTail(table, words[n..]);
        var k := |Concat(Split(table, words[n..]))|;
        TakeDrop(words, n, k);
      }
    }
  }

  // ------------------------------------------------------------ what stands on the wire

  /** Bytes as words, the last one filled up with zeros. */
  function PaddedWords(b: seq<byte>): seq<Word> {
    if b == [] then []
    else if |b| < 4 then [Get32(b + Zeros(4 - |b|), 0)]
    else [Get32(b, 0)] + PaddedWords(b[4..])
  }

  /** As many words as the bytes need, and no more. */
  lemma {:induction false} PaddedLength(b: seq<byte>)
    ensures 4 * |PaddedWords(b)| - 4 < |b| <= 4 * |PaddedWords(b)|
  {
    if |b| >= 4 { PaddedLength(b[4..]); }
  }

  /** A command as its parts: one whose last header word counts the bytes of an array (winopen's name among them),
      texdef2d with its two arrays, or one of fixed length. */
  datatype Wire =
    | Counted(op: Word, args: seq<Word>, data: seq<byte>)
    | Texdef2d(args: seq<Word>, last: Word, first: seq<Word>, second: seq<byte>)
    | Fixed(op: Word, args: seq<Word>)

  /** What a client may send: the number of header words goes with the opcode, and lengths fit a word. */
  predicate WellFormed(table: map<int, nat>, w: Wire) {
    match w
    case Counted(op, args, data) =>
      && |data| < 0x1_0000_0000
      && (|| (op in {0x132, 0x1a3, 0x4f, 0x5c} && |args| == 0)
          || (op == 0x1e5 && |args| == 1)
          || (op in {0x1e6, 0x1e8, 0x16b} && |args| == 2))
    case Texdef2d(args, _, first, second) => |args| == 4 && |first| < 0x4000_0000 && |second| < 0x1_0000_0000
    case Fixed(op, args) =>
      && op !in {0x132, 0x1a3, 0x4f, 0x5c, 0x1e5, 0x1e6, 0x1e8, 0x16b, 0x1e7}
      && op in table && table[op] == 1 + |args|
  }

  /** The command's words: texdef2d has the first array's length in word 5, and the second's behind the first. */
  function OnWire(table: map<int, nat>, w: Wire): Command
    requires WellFormed(table, w)
  {
    match w
    case Counted(op, args, data) => [op] + args + [|data|] + PaddedWords(data)
    case Texdef2d(args, last, first, second) =>
      [0x1e7] + args + [4 * |first|, last] + first + [|second|] + PaddedWords(second)
    case Fixed(op, args) => [op] + args
  }

  lemma CeilOf(bytes: nat, words: nat)
    requires 4 * words - 4 < bytes <= 4 * words
    ensures CeilWords(bytes) == words
  {}

  lemma CountedLen(table: map<int, nat>, w: Wire, k: nat)
    requires WellFormed(table, w) && w.Counted? && 0 < k <= |OnWire(table, w)|
    ensures var c := OnWire(table, w);
            && c[0] == w.op && HeaderWords(w.op) > 0 && w.op != OP_TEXDEF2D
            && CmdLen(table, c[..k]) == if k < |w.args| + 2 then 0 else |c|
  {
    hide PaddedWords;
    var c := OnWire(table, w);
    PaddedLength(w.data);
    CeilOf(|w.data|, |PaddedWords(w.data)|);
    assert HeaderWords(w.op) == |w.args| + 2;
    assert c[..k][0] == w.op;
    assert c[|w.args| + 1] == |w.data|;
  }

  lemma TexdefLen(table: map<int, nat>, w: Wire, k: nat)
    requires WellFormed(table, w) && w.Texdef2d? && 0 < k <= |OnWire(table, w)|
    ensures var c := OnWire(table, w);
            c[0] == OP_TEXDEF2D && CmdLen(table, c[..k]) == if k < |w.first| + 8 then 0 else |c|
  {
    hide PaddedWords;
    var c := OnWire(table, w);
    var p := c[..k];
    PaddedLength(w.second);
    assert p[0] == c[0] == 0x1e7;
    if k >= 8 {
      assert p[5] == c[5] == 4 * |w.first|;
      TexdefArithmetic(|w.first|, |w.second|, |PaddedWords(w.second)|);
      assert c[7 + |w.first|] == |w.second|;
    }
  }

  lemma TexdefArithmetic(first: nat, second: nat, words: nat)
    requires 4 * words - 4 < second <= 4 * words
    ensures (4 * first + 0x1c) / 4 == 7 + first && (4 * first + second + 0x20 + 3) / 4 == 8 + first + words
  {}

  /** Every command says where it ends, and one of which only a beginning is there is not taken for whole. */
  lemma OnWireDelimits(table: map<int, nat>, w: Wire)
    requires WellFormed(table, w)
    ensures SelfDelimiting(table, OnWire(table, w))
    ensures forall k :: 0 <= k < |OnWire(table, w)| ==> Incomplete(table, OnWire(table, w)[..k])
  {
    hide PaddedWords, CmdLen;
    var c := OnWire(table, w);
    assert c[..|c|] == c;
    if !w.Fixed? {
      if w.Counted? { CountedLen(table, w, |c|); } else { TexdefLen(table, w, |c|); }
    } else {
      FixedLen(table, w, |c|);
    }
    forall k | 0 < k < |c| ensures Incomplete(table, c[..k]) {
      if w.Counted? { CountedLen(table, w, k); } else if w.Texdef2d? { TexdefLen(table, w, k); } else { FixedLen(table, w, k); }
    }
  }

  lemma FixedLen(table: map<int, nat>, w: Wire, k: nat)
    requires WellFormed(table, w) && w.Fixed? && 0 < k <= |OnWire(table, w)|
    ensures OnWire(table, w)[0] == w.op && CmdLen(table, OnWire(table, w)[..k]) == |OnWire(table, w)|
  {
    assert OnWire(table, w)[..k][0] == w.op;
  }

  function AllOnWire(table: map<int, nat>, ws: seq<Wire>): (cmds: seq<Command>)
    requires forall w :: w in ws ==> WellFormed(table, w)
    ensures |cmds| == |ws|
  {
    seq(|ws|, i requires 0 <= i < |ws| => OnWire(table, ws[i]))
  }

  /** Whatever the commands, put one after the other on the wire they are split into just those; and so are they with
      a beginning of one more behind them. */
  lemma SplitUndoesOnWire(table: map<int, nat>, ws: seq<Wire>, w: Wire, k: nat)
    requires WellFormed(table, w) && forall v :: v in ws ==> WellFormed(table, v)
    requires k < |OnWire(table, w)|
    ensures Split(table, Concat(AllOnWire(table, ws)) + OnWire(table, w)[..k]) == AllOnWire(table, ws)
  {
    hide OnWire, SelfDelimiting, Incomplete, Split, Concat, WellFormed;
    var cmds := AllOnWire(table, ws);
    forall c | c in cmds ensures SelfDelimiting(table, c) {
      var i :| 0 <= i < |cmds| && cmds[i] == c;
      assert ws[i] in ws;
      OnWireDelimits(table, ws[i]);
    }
    OnWireDelimits(table, w);
    SplitUndoesConcat(table, cmds, OnWire(table, w)[..k]);
  }

  /** The bytes of a frame: 0x10, the number of bytes that follow in three more, and the words. */
  lemma FrameOnWire(ws: FrameWords)
    ensures Frame(ws)[0] == 0x10
    ensures Frame(ws)[1] as int * 0x1_0000 + Frame(ws)[2] as int * 0x100 + Frame(ws)[3] as int == 4 * |ws|
    ensures forall i :: 0 <= i < |ws| ==> Get32(Frame(ws), 4 + 4 * i) == ws[i] % 0x1_0000_0000
  {
    hide Pack;
    HeaderDigits(4 * |ws|);
    forall i | 0 <= i < |ws| ensures Get32(Frame(ws), 4 + 4 * i) == ws[i] % 0x1_0000_0000 {
      PackedWord(Be32(FRAME_MARKER + 4 * |ws|), ws, i);
    }
  }

  lemma HeaderDigits(n: nat)
    requires n < 0x100_0000
    ensures var b := Be32(0x1000_0000 + n);
            b[0] == 0x10 && b[1] as int * 0x1_0000 + b[2] as int * 0x100 + b[3] as int == n
  {}

  lemma {:induction false} PackedWord(front: seq<byte>, ws: seq<int>, i: nat)
    requires |front| == 4 && i < |ws|
    ensures Get32(front + Pack(ws), 4 + 4 * i) == ws[i] % 0x1_0000_0000
    decreases |ws|
  {
    hide Be32, Get32, Get16;
    var b := Be32(Mask(ws[0]));
    assert Pack(ws) == b + Pack(ws[1..]);
    if i == 0 {
      assert (front + Pack(ws))[4..8] == b;
      Get32Be32(front + Pack(ws), 4, Mask(ws[0]));
    } else {
      PackedWord(b, ws[1..], i - 1);
      Get32Shifted(front, b + Pack(ws[1..]), 4 * i);
    }
  }

  lemma Get32Shifted(front: seq<byte>, b: seq<byte>, at: nat)
    requires at + 4 <= |b|
    ensures Get32(front + b, |front| + at) == Get32(b, at)
  {}
}
