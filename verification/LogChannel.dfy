/** Log messages cut into chunks by the sender and put together again by init's log thread. */
module LogChannel {
  import opened Bytes
  import opened IpcWords

  const LOG_LABEL_BASE: nat := 10
  const CHUNK: nat := MSG_DATA_WORDS_MAX * 8
  const MAX_ASSEMBLED: nat := 256

  // ── Labels ────────────────────────────────────────────────────────────────

  /** `10 | len << 16`, with bit 32 set for all chunks but the last. Bit 32 is bit 16 of the length field. */
  function Label(len: nat, more: bool): nat {
    LOG_LABEL_BASE + TWO16 * (if more && len / TWO16 % 2 == 0 then len + TWO16 else len)
  }

  function LabelId(tag: nat): nat { tag % TWO16 }

  function LabelLength(tag: nat): nat { tag / TWO16 % TWO16 }

  predicate LabelMore(tag: nat) { tag / TWO16 / TWO16 % 2 == 1 }

  /** The receiver reads back what the sender meant exactly for lengths below 65536. */
  lemma LabelFaithfulIff(len: nat, more: bool)
    ensures LabelId(Label(len, more)) == LOG_LABEL_BASE
    ensures LabelLength(Label(len, more)) == len && LabelMore(Label(len, more)) == more <==> len < TWO16
  {
    var high := if more && len / TWO16 % 2 == 0 then len + TWO16 else len;
    assert Label(len, more) / TWO16 == high && Label(len, more) % TWO16 == LOG_LABEL_BASE;
    assert high % TWO16 == len % TWO16;
  }

  // ── Sender ────────────────────────────────────────────────────────────────

  datatype Msg = Msg(tag: nat, words: seq<u64>)

  function Chunk(bytes: seq<byte>, offset: nat): Msg
    requires offset <= |bytes|
  {
    var n := Min(|bytes| - offset, CHUNK);
    Msg(Label(|bytes|, offset + n < |bytes|), Pack(bytes[offset..offset + n]))
  }

  /** The messages for the text from `offset` on; an empty text is one empty message. */
  function Chunks(bytes: seq<byte>, offset: nat): (msgs: seq<Msg>)
    requires offset <= |bytes|
    decreases |bytes| - offset
  {
    if |bytes| - offset <= CHUNK then [Chunk(bytes, offset)]
    else [Chunk(bytes, offset)] + Chunks(bytes, offset + CHUNK)
  }

  lemma ChunksStep(bytes: seq<byte>, offset: nat)
    requires offset <= |bytes|
    ensures var n := Min(|bytes| - offset, CHUNK);
            Chunks(bytes, offset)
            == [Chunk(bytes, offset)] + if offset + n >= |bytes| then [] else Chunks(bytes, offset + n)
  {
  }

  /** The messages whose call succeeded. */
  function Arrived(msgs: seq<Msg>, ok: seq<bool>): (r: seq<Msg>)
    requires |msgs| == |ok|
    ensures (forall i :: 0 <= i < |ok| ==> ok[i]) ==> r == msgs
    decreases |msgs|
  {
    var n := |msgs| - 1;
    if msgs == [] then [] else Arrived(msgs[..n], ok[..n]) + if ok[n] then [msgs[n]] else []
  }

  lemma ArrivedMore(msgs: seq<Msg>, ok: seq<bool>, m: Msg, sent: bool)
    requires |msgs| == |ok|
    ensures Arrived(msgs + [m], ok + [sent]) == if sent then Arrived(msgs, ok) + [m] else Arrived(msgs, ok)
  {
    assert (msgs + [m])[..|msgs|] == msgs && (ok + [sent])[..|ok|] == ok;
  }

  /** Sends every chunk, whether or not the ones before it got through; `ok` says which calls succeeded. */
  method IpcLog(bytes: seq<byte>, ipc: array<u64>) returns (msgs: seq<Msg>, ok: seq<bool>)
    requires ipc.Length >= MSG_DATA_WORDS_MAX
    modifies ipc
    ensures |ok| == |Chunks(bytes, 0)| && msgs == Arrived(Chunks(bytes, 0), ok)
    ensures (forall i :: 0 <= i < |ok| ==> ok[i]) ==> msgs == Chunks(bytes, 0)
  {
    hide Chunks;
    hide Label;
    hide Pack;
    hide Arrived;
    ArrivedNone();
    msgs, ok := [], [];
    ghost var sent: seq<Msg> := [];
    var offset := 0;
    while offset < |bytes| || |bytes| == 0
      invariant offset <= |bytes| && |ok| == |sent| && msgs == Arrived(sent, ok)
      invariant offset < |bytes| || |bytes| == 0 ==> sent + Chunks(bytes, offset) == Chunks(bytes, 0)
      invariant offset == |bytes| > 0 ==> sent == Chunks(bytes, 0)
      decreases |bytes| - offset
    {
      ChunksStep(bytes, offset);
      var chunkLen := Min(|bytes| - offset, CHUNK);
      var isLast := offset + chunkLen >= |bytes|;
      var words := WriteWords(bytes[offset..offset + chunkLen], ipc, 0);
      var msg := Msg(Label(|bytes|, !isLast), ipc[..words]);
      assert msg == Chunk(bytes, offset);
      var called: bool := *;
      ArrivedMore(sent, ok, msg, called);
      msgs, ok, sent := if called then msgs + [msg] else msgs, ok + [called], sent + [msg];
      offset := offset + chunkLen;
      if |bytes| == 0 {
        break;
      }
    }
    assert sent == Chunks(bytes, 0);
  }

  lemma ArrivedNone()
    ensures Arrived([], []) == []
  {
  }

  // ── Receiver ──────────────────────────────────────────────────────────────

  /** What the log thread keeps between messages: its word buffer, the text so far and everything printed. */
  datatype Log = Log(words: seq<u64>, buf: seq<byte>, len: nat, printed: seq<seq<byte>>) {
    predicate Valid() { |words| == MSG_DATA_WORDS_MAX && |buf| == MAX_ASSEMBLED }
  }

  /** `chunk` written over `buf` from `at` on, as far as it fits. */
  function Overlay(buf: seq<byte>, at: nat, chunk: seq<byte>): (r: seq<byte>)
    ensures |r| == |buf|
    ensures forall i :: 0 <= i < |buf| ==> r[i] == if at <= i < at + |chunk| then chunk[i - at] else buf[i]
  {
    if at >= |buf| then buf
    else
      var n := Min(|chunk|, |buf| - at);
      buf[..at] + chunk[..n] + buf[at + n..]
  }

  function Receive(s: Log, m: Msg): (r: Log)
    requires s.Valid() && |m.words| <= MSG_DATA_WORDS_MAX
    ensures r.Valid()
  {
    var words := m.words + s.words[|m.words|..];
    if LabelId(m.tag) != LOG_LABEL_BASE then s.(words := words)
    else
      var total := LabelLength(m.tag);
      var n := Min(CHUNK, Wrap64(total - s.len));
      var buf := Overlay(s.buf, s.len, Unpack(words)[..n]);
      if LabelMore(m.tag) then Log(words, buf, s.len + n, s.printed)
      else Log(words, buf, 0, s.printed + [buf[..Min(Min(s.len + n, total), MAX_ASSEMBLED)]])
  }

  function ReceiveAll(s: Log, msgs: seq<Msg>): (r: Log)
    requires s.Valid() && forall i :: 0 <= i < |msgs| ==> |msgs[i].words| <= MSG_DATA_WORDS_MAX
    ensures r.Valid()
    decreases |msgs|
  {
    if msgs == [] then s else ReceiveAll(Receive(s, msgs[0]), msgs[1..])
  }

  /** One turn of the receive loop, on the thread's own buffer. */
  class LogThread {
    var words: seq<u64>
    const buf: array<byte>
    var len: nat
    var printed: seq<seq<byte>>

    constructor ()
      ensures fresh(buf) && Now().Valid() && len == 0 && printed == []
    {
      words, len, printed := seq<u64>(MSG_DATA_WORDS_MAX, _ => 0), 0, [];
      buf := new byte[MAX_ASSEMBLED];
    }

    ghost function Now(): Log
      reads this, buf
    {
      Log(words, buf[..], len, printed)
    }

    method Handle(m: Msg)
      requires Now().Valid() && |m.words| <= MSG_DATA_WORDS_MAX
      modifies this, buf
      ensures Now() == Receive(old(Now()), m)
    {
      hide Overlay;
      words := m.words + words[|m.words|..];
      if LabelId(m.tag) != LOG_LABEL_BASE {
        return;
      }
      var total := LabelLength(m.tag);
      var chunkBytes := Min(CHUNK, Wrap64(total - len));
      CopyChunk(Unpack(words)[..chunkBytes]);
      len := len + chunkBytes;
      if !LabelMore(m.tag) {
        var n := Min(Min(len, total), MAX_ASSEMBLED);
        printed := printed + [buf[..n]];
        assert buf[..][..n] == buf[..n];
        len := 0;
      }
    }

    method CopyChunk(chunk: seq<byte>)
      requires buf.Length == MAX_ASSEMBLED
      modifies buf
      ensures buf[..] == Overlay(old(buf[..]), len, chunk)
    {
      ghost var was := buf[..];
      for k := 0 to |chunk|
        invariant forall i :: 0 <= i < MAX_ASSEMBLED ==> buf[i] == if len <= i < len + k then chunk[i - len] else was[i]
      {
        if len + k < MAX_ASSEMBLED {
          buf[len + k] := chunk[k];
        }
      }
    }
  }

  // ── Reassembly ────────────────────────────────────────────────────────────

  /** What of a text appears on the console. */
  function Line(text: seq<byte>): seq<byte> { text[..Min(|text|, 256)] }

  lemma OverlayExtends(buf: seq<byte>, text: seq<byte>, at: nat, n: nat)
    requires |buf| == MAX_ASSEMBLED && at + n <= |text|
    requires buf[..Min(at, MAX_ASSEMBLED)] == text[..Min(at, MAX_ASSEMBLED)]
    ensures var r, k := Overlay(buf, at, text[at..at + n]), Min(at + n, MAX_ASSEMBLED); r[..k] == text[..k]
  {
    var r, k := Overlay(buf, at, text[at..at + n]), Min(at + n, MAX_ASSEMBLED);
    forall i | 0 <= i < k ensures r[i] == text[i] {
      if i < at {
        assert buf[..Min(at, MAX_ASSEMBLED)][i] == text[i];
      }
    }
  }

  /** A chunk that arrives when exactly the text before it has been collected extends the collected text by itself. */
  lemma ChunkArrives(s: Log, text: seq<byte>, offset: nat)
    requires s.Valid() && |text| < TWO16 && offset <= |text| && s.len == offset
    requires s.buf[..Min(offset, MAX_ASSEMBLED)] == text[..Min(offset, MAX_ASSEMBLED)]
    ensures var m, n := Chunk(text, offset), Min(|text| - offset, CHUNK);
            && |m.words| <= MSG_DATA_WORDS_MAX
            && (offset + n < |text| ==>
                  && Receive(s, m).len == offset + n && Receive(s, m).printed == s.printed
                  && Receive(s, m).buf[..Min(offset + n, MAX_ASSEMBLED)] == text[..Min(offset + n, MAX_ASSEMBLED)])
            && (offset + n == |text| ==> Receive(s, m).len == 0 && Receive(s, m).printed == s.printed + [Line(text)])
  {
    hide Overlay;
    hide Pack;
    hide Unpack;
    hide Label;
    hide LabelId;
    hide LabelLength;
    hide LabelMore;
    var m, n := Chunk(text, offset), Min(|text| - offset, CHUNK);
    var part := text[offset..offset + n];
    var words := m.words + s.words[|m.words|..];
    LabelFaithfulIff(|text|, offset + n < |text|);
    assert words[..|Pack(part)|] == Pack(part);
    PrefixRoundTrip(words, part);
    Wrap64Same(|text| - offset);
    OverlayExtends(s.buf, text, offset, n);
  }

  lemma {:induction false} ChunksFit(text: seq<byte>, offset: nat)
    requires offset <= |text|
    ensures forall i :: 0 <= i < |Chunks(text, offset)| ==> |Chunks(text, offset)[i].words| <= MSG_DATA_WORDS_MAX
    decreases |text| - offset
  {
    hide Pack;
    hide Label;
    if |text| - offset > CHUNK {
      ChunksFit(text, offset + CHUNK);
    }
  }

  lemma {:induction false} RestArrives(s: Log, text: seq<byte>, offset: nat) returns (r: Log)
    requires s.Valid() && |text| < TWO16 && offset <= |text| && s.len == offset
    requires s.buf[..Min(offset, MAX_ASSEMBLED)] == text[..Min(offset, MAX_ASSEMBLED)]
    ensures (forall i :: 0 <= i < |Chunks(text, offset)| ==> |Chunks(text, offset)[i].words| <= MSG_DATA_WORDS_MAX)
    ensures r == ReceiveAll(s, Chunks(text, offset)) && r.len == 0 && r.printed == s.printed + [Line(text)]
    decreases |text| - offset
  {
    hide Receive;
    hide Chunk;
    ChunksFit(text, offset);
    ChunkArrives(s, text, offset);
    var next := Receive(s, Chunk(text, offset));
    if |text| - offset > CHUNK {
      r := RestArrives(next, text, offset + CHUNK);
      assert Chunks(text, offset)[1..] == Chunks(text, offset + CHUNK);
    } else {
      r := next;
      assert Chunks(text, offset)[1..] == [];
    }
  }

  /** The chunks of several texts, one text after the other. */
  function Stream(texts: seq<seq<byte>>): (msgs: seq<Msg>)
  {
    if texts == [] then [] else Chunks(texts[0], 0) + Stream(texts[1..])
  }

  function Lines(texts: seq<seq<byte>>): seq<seq<byte>> {
    if texts == [] then [] else [Line(texts[0])] + Lines(texts[1..])
  }

  lemma {:induction false} ReceiveConcat(s: Log, a: seq<Msg>, b: seq<Msg>)
    requires s.Valid() && (forall i :: 0 <= i < |a| ==> |a[i].words| <= MSG_DATA_WORDS_MAX)
    requires forall i :: 0 <= i < |b| ==> |b[i].words| <= MSG_DATA_WORDS_MAX
    ensures ReceiveAll(s, a + b) == ReceiveAll(ReceiveAll(s, a), b)
    decreases |a|
  {
    hide Receive;
    if a == [] {
      assert a + b == b;
    } else {
      assert (a + b)[1..] == a[1..] + b;
      ReceiveConcat(Receive(s, a[0]), a[1..], b);
    }
  }

  /** Texts below 65536 bytes sent one after the other are each printed as their first 256 bytes, in order. */
  lemma {:induction false} TextsArePrinted(s: Log, texts: seq<seq<byte>>) returns (r: Log)
    requires s.Valid() && s.len == 0 && forall i :: 0 <= i < |texts| ==> |texts[i]| < TWO16
    ensures forall i :: 0 <= i < |Stream(texts)| ==> |Stream(texts)[i].words| <= MSG_DATA_WORDS_MAX
    ensures r == ReceiveAll(s, Stream(texts)) && r.len == 0 && r.printed == s.printed + Lines(texts)
    decreases |texts|
  {
    hide Receive;
    hide Chunks;
    if texts == [] {
      r := s;
    } else {
      assert s.buf[..0] == texts[0][..0];
      var next := RestArrives(s, texts[0], 0);
      r := TextsArePrinted(next, texts[1..]);
      ReceiveConcat(s, Chunks(texts[0], 0), Stream(texts[1..]));
    }
  }
}
