/** Bytes packed into 64-bit IPC words and the 64-word limit of a message (abi/syscall, fs/fat/src/main.rs). */
module IpcWords {
  import opened Bytes

  const MSG_DATA_WORDS_MAX: nat := 64

  /** Bytes as little-endian words, eight to a word, the last one zero-filled. */
  function Pack(bs: seq<byte>): (ws: seq<u64>)
    ensures |ws| == DivCeil(|bs|, 8)
    decreases |bs|
  {
    if bs == [] then [] else
      var k := Min(8, |bs|);
      WordBound(bs[..k]);
      [LeValue(bs[..k])] + Pack(bs[k..])
  }

  function Unpack(ws: seq<u64>): (bs: seq<byte>)
    ensures |bs| == 8 * |ws|
  {
    if ws == [] then [] else LeBytes(ws[0], 8) + Unpack(ws[1..])
  }

  lemma WordBound(bs: seq<byte>)
    requires |bs| <= 8
    ensures LeValue(bs) < TWO64
  {
    LeBound(bs);
    FieldSizes();
    PowMono(|bs|, 8);
  }

  /** What is packed comes back, followed by the zero fill of the last word. */
  lemma {:induction false} PackRoundTrip(bs: seq<byte>)
    ensures Unpack(Pack(bs))[..|bs|] == bs
    decreases |bs|
  {
    if bs != [] {
      var k := Min(8, |bs|);
      var head := bs[..k];
      LePadded(head, 8 - k);
      LeRoundTrip(head + Zeros(8 - k));
      assert LeBytes(LeValue(head), 8) == head + Zeros(8 - k);
      PackRoundTrip(bs[k..]);
      assert bs == head + bs[k..];
      if k < 8 {
        assert bs[k..] == [];
      }
    }
  }

  /** Word `i` holds bytes `8 i` to `8 i + 7`. */
  lemma {:induction false} UnpackConcat(a: seq<u64>, b: seq<u64>)
    ensures Unpack(a + b) == Unpack(a) + Unpack(b)
    decreases |a|
  {
    if a == [] {
      assert a + b == b;
    } else {
      assert (a + b)[1..] == a[1..] + b;
      UnpackConcat(a[1..], b);
    }
  }

  /** Bytes packed into the front of a longer buffer can be taken out again. */
  lemma PrefixRoundTrip(ws: seq<u64>, bs: seq<byte>)
    requires |ws| >= |Pack(bs)| && ws[..|Pack(bs)|] == Pack(bs)
    ensures |Unpack(ws)| >= |bs| && Unpack(ws)[..|bs|] == bs
  {
    var n := |Pack(bs)|;
    assert ws == ws[..n] + ws[n..];
    UnpackConcat(ws[..n], ws[n..]);
    PackRoundTrip(bs);
    assert Unpack(ws)[..|bs|] == Unpack(Pack(bs))[..|bs|];
  }

  lemma {:induction false} PackAt(bs: seq<byte>, i: nat)
    requires 8 * i < |bs|
    ensures i < |Pack(bs)| && Pack(bs)[i] == LeValue(bs[8 * i..Min(8 * i + 8, |bs|)])
    decreases i
  {
    if i > 0 {
      hide LeValue;
      PackAt(bs[8..], i - 1);
      SliceOfRest(bs, 8, 8 * (i - 1), Min(8 * (i - 1) + 8, |bs| - 8));
    }
  }

  lemma SliceOfRest(bs: seq<byte>, n: nat, lo: nat, hi: nat)
    requires n <= |bs| && lo <= hi <= |bs| - n
    ensures bs[n..][lo..hi] == bs[n + lo..n + hi]
  {
  }

  /** Packs bytes into `ipc[from..]` word by word, each word byte by byte. */
  method WriteWords(bs: seq<byte>, ipc: array<u64>, from: nat) returns (count: nat)
    requires from + DivCeil(|bs|, 8) <= ipc.Length
    modifies ipc
    ensures count == DivCeil(|bs|, 8) && ipc[from..from + count] == Pack(bs)
    ensures ipc[..from] == old(ipc[..from]) && ipc[from + count..] == old(ipc[from + count..])
  {
    count := DivCeil(|bs|, 8);
    ghost var goal := Pack(bs);
    for i := 0 to count
      invariant forall k :: from <= k < from + i ==> ipc[k] == goal[k - from]
      invariant ipc[..from] == old(ipc[..from]) && ipc[from + count..] == old(ipc[from + count..])
    {
      var word := PackWord(bs, 8 * i);
      PackAt(bs, i);
      ipc[from + i] := word;
    }
  }

  /** The inner loop: or-ing shifted bytes into a zero word adds them, since their bits are disjoint. */
  method PackWord(bs: seq<byte>, base: nat) returns (word: u64)
    requires base <= |bs|
    ensures word == LeValue(bs[base..Min(base + 8, |bs|)])
  {
    var acc := 0;
    for j := 0 to 8
      invariant acc == LeValue(bs[base..Min(base + j, |bs|)])
    {
      if base + j < |bs| {
        LeSnoc(bs[base..base + j], bs[base + j]);
        assert bs[base..base + j] + [bs[base + j]] == bs[base..base + j + 1];
        acc := acc + bs[base + j] * Pow256(j);
      }
    }
    WordBound(bs[base..Min(base + 8, |bs|)]);
    word := acc;
  }
}
