/** Log messages of several senders: when texts survive every arrival order of their chunks, and when they do not. */
module LogInterleaving {
  import opened Bytes
  import opened IpcWords
  import opened LogChannel

  // ── Several senders ───────────────────────────────────────────────────────

  /** `all` holds the elements of every stream, each stream in its own order. */
  ghost predicate IsInterleaving<T>(all: seq<T>, streams: seq<seq<T>>)
    decreases |all|
  {
    if all == [] then forall i :: 0 <= i < |streams| ==> streams[i] == []
    else exists i :: Leads(all, streams, i) && IsInterleaving(all[1..], streams[i := streams[i][1..]])
  }

  predicate Leads<T(==)>(all: seq<T>, streams: seq<seq<T>>, i: int) {
    all != [] && 0 <= i < |streams| && streams[i] != [] && streams[i][0] == all[0]
  }

  ghost predicate Fit(msgs: seq<Msg>) { forall i :: 0 <= i < |msgs| ==> |msgs[i].words| <= MSG_DATA_WORDS_MAX }

  /** The message streams and the printed lines of senders that each send some texts. */
  function Streams(senders: seq<seq<seq<byte>>>): (r: seq<seq<Msg>>)
    ensures |r| == |senders| && forall i :: 0 <= i < |senders| ==> r[i] == Stream(senders[i])
  {
    if senders == [] then [] else Streams(senders[..|senders| - 1]) + [Stream(senders[|senders| - 1])]
  }

  function AllLines(senders: seq<seq<seq<byte>>>): (r: seq<seq<seq<byte>>>)
    ensures |r| == |senders| && forall i :: 0 <= i < |senders| ==> r[i] == Lines(senders[i])
  {
    if senders == [] then [] else AllLines(senders[..|senders| - 1]) + [Lines(senders[|senders| - 1])]
  }

  predicate SingleChunks(senders: seq<seq<seq<byte>>>) {
    forall i, j :: 0 <= i < |senders| && 0 <= j < |senders[i]| ==> |senders[i][j]| <= CHUNK
  }

  /** The sender of the first message that arrives, when every text is one chunk; the rest is still to come. */
  lemma FirstSender(all: seq<Msg>, senders: seq<seq<seq<byte>>>) returns (i: nat)
    requires SingleChunks(senders) && IsInterleaving(all, Streams(senders)) && all != []
    ensures i < |senders| && senders[i] != [] && all[0] == Chunk(senders[i][0], 0) && |senders[i][0]| <= CHUNK
    ensures var rest := senders[i := senders[i][1..]]; SingleChunks(rest) && IsInterleaving(all[1..], Streams(rest))
  {
    hide Chunk;
    i :| Leads(all, Streams(senders), i) && IsInterleaving(all[1..], Streams(senders)[i := Streams(senders)[i][1..]]);
    var rest := senders[i := senders[i][1..]];
    assert Streams(senders)[i] == Stream(senders[i]);
    assert |senders[i][0]| <= CHUNK;
    assert Chunks(senders[i][0], 0) == [Chunk(senders[i][0], 0)];
    assert Stream(senders[i])[1..] == Stream(senders[i][1..]);
    assert Streams(rest) == Streams(senders)[i := Streams(senders)[i][1..]];
  }

  lemma NothingSent(senders: seq<seq<seq<byte>>>)
    requires IsInterleaving([], Streams(senders))
    ensures IsInterleaving([], AllLines(senders))
  {
    forall i | 0 <= i < |senders| ensures AllLines(senders)[i] == [] {
      assert Streams(senders)[i] == [];
      NoMessages(senders[i]);
    }
  }

  /** In every interleaving of senders whose texts fit one chunk each, every text is printed, in its sender's order. */
  lemma {:induction false} SingleChunksIntact(s: Log, all: seq<Msg>, senders: seq<seq<seq<byte>>>)
    returns (r: Log, lines: seq<seq<byte>>)
    requires s.Valid() && s.len == 0 && SingleChunks(senders) && IsInterleaving(all, Streams(senders))
    ensures Fit(all) && r == ReceiveAll(s, all) && r.len == 0 && r.printed == s.printed + lines
    ensures IsInterleaving(lines, AllLines(senders))
    decreases |all|
  {
    hide Receive;
    hide Chunk;
    hide IsInterleaving;
    hide SingleChunks;
    hide Streams;
    hide AllLines;
    hide Line;
    if all == [] {
      r, lines := s, [];
      NothingSent(senders);
    } else {
      var i := FirstSender(all, senders);
      var text, rest := senders[i][0], senders[i := senders[i][1..]];
      assert s.buf[..0] == text[..0];
      ChunkArrives(s, text, 0);
      var more;
      r, more := SingleChunksIntact(Receive(s, all[0]), all[1..], rest);
      lines := [Line(text)] + more;
      LineFirst(senders, i, lines, more);
      assert forall k :: 1 <= k < |all| ==> all[k] == all[1..][k - 1];
    }
  }

  lemma LineFirst(senders: seq<seq<seq<byte>>>, i: nat, lines: seq<seq<byte>>, more: seq<seq<byte>>)
    requires i < |senders| && senders[i] != [] && lines == [Line(senders[i][0])] + more
    requires IsInterleaving(more, AllLines(senders[i := senders[i][1..]]))
    ensures IsInterleaving(lines, AllLines(senders))
  {
    var rest := senders[i := senders[i][1..]];
    assert Lines(senders[i])[1..] == Lines(senders[i][1..]);
    assert AllLines(rest) == AllLines(senders)[i := AllLines(senders)[i][1..]];
    assert lines[1..] == more && Leads(lines, AllLines(senders), i);
  }

  lemma NoMessages(texts: seq<seq<byte>>)
    requires Stream(texts) == []
    ensures texts == []
  {
  }

  // ── Two senders with a longer text ────────────────────────────────────────

  /** Once 256 bytes are collected the buffer is closed: a whole text that arrives then prints what is in it. */
  lemma {:induction false} LateChunks(s: Log, text: seq<byte>, offset: nat) returns (r: Log)
    requires s.Valid() && |text| < TWO16 && offset <= |text| && s.len >= MAX_ASSEMBLED
    ensures Fit(Chunks(text, offset)) && r == ReceiveAll(s, Chunks(text, offset))
    ensures r.len == 0 && r.buf == s.buf && r.printed == s.printed + [s.buf[..Min(|text|, MAX_ASSEMBLED)]]
    decreases |text| - offset
  {
    hide Receive;
    hide Chunk;
    ChunksFit(text, offset);
    LateChunk(s, text, offset);
    var next := Receive(s, Chunk(text, offset));
    if |text| - offset > CHUNK {
      r := LateChunks(next, text, offset + CHUNK);
      assert Chunks(text, offset)[1..] == Chunks(text, offset + CHUNK);
    } else {
      r := next;
      assert Chunks(text, offset)[1..] == [];
    }
  }

  lemma LateChunk(s: Log, text: seq<byte>, offset: nat)
    requires s.Valid() && |text| < TWO16 && offset <= |text| && s.len >= MAX_ASSEMBLED
    ensures var m, more := Chunk(text, offset), |text| - offset > CHUNK;
            && |m.words| <= MSG_DATA_WORDS_MAX && Receive(s, m).buf == s.buf
            && (more ==> Receive(s, m).len >= MAX_ASSEMBLED && Receive(s, m).printed == s.printed)
            && (!more ==>
                  && Receive(s, m).len == 0
                  && Receive(s, m).printed == s.printed + [s.buf[..Min(|text|, MAX_ASSEMBLED)]])
  {
    hide Pack;
    hide Unpack;
    hide Label;
    hide LabelId;
    hide LabelLength;
    hide LabelMore;
    hide Wrap64;
    LabelFaithfulIff(|text|, |text| - offset > CHUNK);
  }

  /** The rest of a text whose first chunk was taken for another's: its line begins with the second chunk. */
  lemma RestMisread(s: Log, text: seq<byte>) returns (r: Log, line: seq<byte>)
    requires s.Valid() && s.len == 0 && CHUNK < |text| < TWO16
    ensures Fit(Chunks(text, CHUNK)) && r == ReceiveAll(s, Chunks(text, CHUNK)) && r.printed == s.printed + [line]
    ensures |line| == MAX_ASSEMBLED && line[0] == text[CHUNK]
  {
    hide Receive;
    hide Chunk;
    ChunksFit(text, CHUNK);
    SecondChunk(s, text);
    var next := Receive(s, Chunk(text, CHUNK));
    line := next.buf;
    if |text| - CHUNK > CHUNK {
      r := LateChunks(next, text, 2 * CHUNK);
      assert Chunks(text, CHUNK)[1..] == Chunks(text, 2 * CHUNK);
    } else {
      r := next;
      assert Chunks(text, CHUNK)[1..] == [];
    }
    assert next.buf[..MAX_ASSEMBLED] == next.buf;
  }

  lemma SecondChunk(s: Log, text: seq<byte>)
    requires s.Valid() && s.len == 0 && CHUNK < |text| < TWO16
    ensures var m, more := Chunk(text, CHUNK), |text| - CHUNK > CHUNK;
            && |m.words| <= MSG_DATA_WORDS_MAX && Receive(s, m).buf[0] == text[CHUNK]
            && (more ==> Receive(s, m).len == CHUNK && Receive(s, m).printed == s.printed)
            && (!more ==>
                  && Receive(s, m).len == 0
                  && Receive(s, m).printed == s.printed + [Receive(s, m).buf[..MAX_ASSEMBLED]])
  {
    hide Pack;
    hide Unpack;
    hide Label;
    hide LabelId;
    hide LabelLength;
    hide LabelMore;
    hide Wrap64;
    var m, n := Chunk(text, CHUNK), Min(|text| - CHUNK, CHUNK);
    var part := text[CHUNK..CHUNK + n];
    var words := m.words + s.words[|m.words|..];
    LabelFaithfulIff(|text|, |text| - CHUNK > CHUNK);
    assert words[..|Pack(part)|] == Pack(part);
    PrefixRoundTrip(words, part);
    Wrap64Same(|text|);
    assert Unpack(words)[0] == Unpack(words)[..|part|][0] == part[0];
  }

  /** The first chunk of `a`, then all of `b`, then the rest of `a`. */
  ghost function Crossed(a: seq<byte>, b: seq<byte>): seq<Msg>
    requires |a| > CHUNK
  {
    [Chunk(a, 0)] + (Chunks(b, 0) + Chunks(a, CHUNK))
  }

  /** Then `b` is printed as the beginning of `a`, and `a` as something that begins with its second chunk. */
  lemma CrossedPrints(s: Log, a: seq<byte>, b: seq<byte>) returns (line: seq<byte>)
    requires s.Valid() && s.len == 0 && CHUNK < |a| < TWO16 && |b| < TWO16
    ensures Fit(Crossed(a, b)) && |line| == MAX_ASSEMBLED && line[0] == a[CHUNK]
    ensures ReceiveAll(s, Crossed(a, b)).printed == s.printed + [a[..Min(|b|, MAX_ASSEMBLED)], line]
  {
    hide Receive;
    hide Chunk;
    hide Chunks;
    assert s.buf[..0] == a[..0];
    ChunkArrives(s, a, 0);
    var first := Receive(s, Chunk(a, 0));
    var k := Min(|b|, MAX_ASSEMBLED);
    assert first.buf[..k] == first.buf[..MAX_ASSEMBLED][..k] == a[..MAX_ASSEMBLED][..k] == a[..k];
    var second := LateChunks(first, b, 0);
    var third;
    third, line := RestMisread(second, a);
    ReceiveConcat(first, Chunks(b, 0), Chunks(a, CHUNK));
    assert Crossed(a, b)[1..] == Chunks(b, 0) + Chunks(a, CHUNK);
    assert third.printed == s.printed + [a[..k]] + [line];
  }

  lemma {:induction false} TwoInterleave<T>(x: seq<T>, y: seq<T>)
    ensures IsInterleaving(y + x, [x, y])
    decreases |x| + |y|
  {
    var all := y + x;
    if y != [] {
      assert all[1..] == y[1..] + x && [x, y][1 := y[1..]] == [x, y[1..]];
      TwoInterleave(x, y[1..]);
      assert Leads(all, [x, y], 1);
    } else if x != [] {
      assert all[1..] == y + x[1..] && [x, y][0 := x[1..]] == [x[1..], y];
      TwoInterleave(x[1..], y);
      assert Leads(all, [x, y], 0);
    }
  }

  lemma CrossedInterleaves(a: seq<byte>, b: seq<byte>)
    requires |a| > CHUNK
    ensures IsInterleaving(Crossed(a, b), [Chunks(a, 0), Chunks(b, 0)])
  {
    var x, y, all := Chunks(a, 0), Chunks(b, 0), Crossed(a, b);
    assert x[0] == Chunk(a, 0) && x[1..] == Chunks(a, CHUNK);
    assert all[1..] == y + x[1..] && [x, y][0 := x[1..]] == [x[1..], y];
    TwoInterleave(x[1..], y);
    assert Leads(all, [x, y], 0);
  }

  /** `msgs` is some arrival order of the chunks of two texts of the given lengths at an idle log thread. */
  ghost predicate Arrival(s: Log, a: seq<byte>, b: seq<byte>, msgs: seq<Msg>, m: nat, n: nat) {
    s.Valid() && s.len == 0 && |a| == m && |b| == n && IsInterleaving(msgs, [Chunks(a, 0), Chunks(b, 0)])
  }

  /** The two lines are printed, in some order. */
  ghost predicate Intact(s: Log, a: seq<byte>, b: seq<byte>, msgs: seq<Msg>)
    requires s.Valid()
  {
    Fit(msgs) && var printed := ReceiveAll(s, msgs).printed;
    printed == s.printed + [Line(a), Line(b)] || printed == s.printed + [Line(b), Line(a)]
  }

  lemma TwoIntact(s: Log, a: seq<byte>, b: seq<byte>, msgs: seq<Msg>)
    requires Arrival(s, a, b, msgs, |a|, |b|) && |a| <= CHUNK && |b| <= CHUNK
    ensures Intact(s, a, b, msgs)
  {
    var senders := [[a], [b]];
    assert Stream([a]) == Chunks(a, 0) + Stream([]) && Stream([b]) == Chunks(b, 0) + Stream([]);
    assert Stream([a]) == Chunks(a, 0) && Stream([b]) == Chunks(b, 0);
    assert Streams(senders) == [Chunks(a, 0), Chunks(b, 0)];
    var r, lines := SingleChunksIntact(s, msgs, senders);
    assert Lines([a]) == [Line(a)] && Lines([b]) == [Line(b)];
    assert AllLines(senders) == [[Line(a)], [Line(b)]];
    TwoOrders(lines, Line(a), Line(b));
  }

  /** One element is left in stream `i`. */
  lemma LastOne<T>(all: seq<T>, streams: seq<seq<T>>, i: int)
    requires IsInterleaving(all, streams) && 0 <= i < |streams| && |streams[i]| == 1
    requires forall j :: 0 <= j < |streams| && j != i ==> streams[j] == []
    ensures all == streams[i]
  {
    assert all != [];
    var k :| Leads(all, streams, k) && IsInterleaving(all[1..], streams[k := streams[k][1..]]);
    var rest := streams[k := streams[k][1..]];
    assert forall j :: 0 <= j < |rest| ==> rest[j] == [];
    assert forall j :: !Leads(all[1..], rest, j);
  }

  lemma TwoOrders<T>(all: seq<T>, x: T, y: T)
    requires IsInterleaving(all, [[x], [y]])
    ensures all == [x, y] || all == [y, x]
  {
    var streams := [[x], [y]];
    assert streams[0] != [];
    var i :| Leads(all, streams, i) && IsInterleaving(all[1..], streams[i := streams[i][1..]]);
    LastOne(all[1..], streams[i := streams[i][1..]], 1 - i);
    assert all == [all[0]] + all[1..];
  }

  lemma Mixed(m: nat, n: nat) returns (s: Log, a: seq<byte>, b: seq<byte>)
    requires CHUNK < m < TWO16 && n < TWO16
    ensures |a| > CHUNK && Arrival(s, a, b, Crossed(a, b), m, n) && !Intact(s, a, b, Crossed(a, b))
  {
    s := Log(seq<u64>(MSG_DATA_WORDS_MAX, _ => 0), Zeros(MAX_ASSEMBLED), 0, []);
    a, b := Fill(1, CHUNK) + Fill(2, m - CHUNK), Fill(3, n);
    CrossedInterleaves(a, b);
    var line := CrossedPrints(s, a, b);
    var printed := ReceiveAll(s, Crossed(a, b)).printed;
    assert printed[0] == a[..Min(n, MAX_ASSEMBLED)] && printed[1] == line;
    assert n > 0 ==> printed[0][0] == 1 && printed[1][0] == 2 && Line(b)[0] == 3;
    assert n == 0 ==> printed[0] == [] && printed[1][0] == 2 && Line(a)[0] == 1;
  }

  function Fill(v: byte, n: nat): (r: seq<byte>)
    ensures |r| == n && forall i :: 0 <= i < n ==> r[i] == v
  {
    if n == 0 then [] else Fill(v, n - 1) + [v]
  }

  /** Both texts are printed intact in every arrival order, whatever they say, exactly when both fit one chunk. */
  lemma IntactIff(m: nat, n: nat)
    requires m < TWO16 && n < TWO16
    ensures (forall s, a, b, msgs :: Arrival(s, a, b, msgs, m, n) ==> Intact(s, a, b, msgs))
            <==> m <= 512 && n <= 512
  {
    if m <= CHUNK && n <= CHUNK {
      forall s, a, b, msgs | Arrival(s, a, b, msgs, m, n) ensures Intact(s, a, b, msgs) {
        TwoIntact(s, a, b, msgs);
      }
    } else if m > CHUNK {
      var s, a, b := Mixed(m, n);
    } else {
      var s, b, a := Mixed(n, m);
      SwapInterleaving(Crossed(b, a), Chunks(b, 0), Chunks(a, 0));
      assert Arrival(s, a, b, Crossed(b, a), m, n) && !Intact(s, a, b, Crossed(b, a));
    }
  }

  lemma {:induction false} SwapInterleaving<T>(all: seq<T>, x: seq<T>, y: seq<T>)
    requires IsInterleaving(all, [x, y])
    ensures IsInterleaving(all, [y, x])
    decreases |all|
  {
    if all == [] {
      assert [x, y][0] == [] && [x, y][1] == [];
    } else {
      var i :| Leads(all, [x, y], i) && IsInterleaving(all[1..], [x, y][i := [x, y][i][1..]]);
      if i == 0 {
        assert [x, y][0 := x[1..]] == [x[1..], y] && [y, x][1 := x[1..]] == [y, x[1..]];
        SwapInterleaving(all[1..], x[1..], y);
      } else {
        assert [x, y][1 := y[1..]] == [x, y[1..]] && [y, x][0 := y[1..]] == [y[1..], x];
        SwapInterleaving(all[1..], x, y[1..]);
      }
      assert Leads(all, [y, x], 1 - i);
    }
  }
}
