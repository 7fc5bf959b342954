/** Machine words, byte strings and the few sequence facts the other modules share. */
module Bytes {
  import Arith

  datatype Option<+T> = None | Some(value: T)

  const TWO16: int := 0x1_0000
  const TWO32: int := 0x1_0000_0000
  const TWO64: int := 0x1_0000_0000_0000_0000

  type byte = b: int | 0 <= b < 0x100
  type u16 = x: int | 0 <= x < TWO16
  type u32 = x: int | 0 <= x < TWO32
  type u64 = x: int | 0 <= x < TWO64

  /** Release builds of the Rust code wrap: every `u32` operation that may leave the range goes through here. */
  function Wrap32(x: int): u32 { x % TWO32 }

  lemma Wrap32Same(x: int)
    requires 0 <= x < TWO32
    ensures Wrap32(x) == x
  {
  }

  /** The same for `u64` and `usize`. */
  function Wrap64(x: int): u64 { x % TWO64 }

  lemma Wrap64Same(x: int)
    requires 0 <= x < TWO64
    ensures Wrap64(x) == x
  {
  }

  function Min(a: int, b: int): int { if a <= b then a else b }

  function Max(a: int, b: int): int { if a <= b then b else a }

  /** Quotient rounded up, the source's `div_ceil`. */
  function DivCeil(n: nat, d: nat): nat
    requires d > 0
  {
    (n + d - 1) / d
  }

  /** The first `n` elements, or all of a shorter sequence. */
  function FirstOf<T>(s: seq<T>, n: nat): (r: seq<T>)
    ensures |r| <= n
  {
    if |s| <= n then s else s[..n]
  }

  function Zeros(n: nat): seq<byte> { seq(n, _ => 0) }

  /** ASCII text as bytes. */
  function Text(s: string): (bs: seq<byte>)
    ensures |bs| == |s|
  {
    seq(|s|, i requires 0 <= i < |s| => s[i] as int % 0x100)
  }

  // ── Little- and big-endian numbers ────────────────────────────────────────

  function LeValue(bs: seq<byte>): nat {
    if bs == [] then 0 else bs[0] + 0x100 * LeValue(bs[1..])
  }

  function LeBytes(w: nat, n: nat): (bs: seq<byte>)
    ensures |bs| == n
  {
    if n == 0 then [] else [w % 0x100] + LeBytes(w / 0x100, n - 1)
  }

  /** Packing bytes into a word and taking them out again gives the same bytes. */
  lemma {:induction false} LeRoundTrip(bs: seq<byte>)
    ensures LeBytes(LeValue(bs), |bs|) == bs
  {
    if bs != [] {
      LeRoundTrip(bs[1..]);
      assert LeValue(bs) / 0x100 == LeValue(bs[1..]);
    }
  }

  /** Zero padding above a word's bytes does not change the word. */
  lemma {:induction false} LePadded(bs: seq<byte>, k: nat)
    ensures LeValue(bs + Zeros(k)) == LeValue(bs)
    decreases |bs| + k
  {
    if bs == [] {
      assert bs + Zeros(k) == Zeros(k);
      if k > 0 {
        assert Zeros(k)[1..] == Zeros(k - 1);
        LePadded([], k - 1);
        assert [] + Zeros(k - 1) == Zeros(k - 1);
      }
    } else {
      assert (bs + Zeros(k))[1..] == bs[1..] + Zeros(k);
      LePadded(bs[1..], k);
    }
  }

  function Pow256(n: nat): nat { if n == 0 then 1 else 0x100 * Pow256(n - 1) }

  lemma {:induction false} LeBound(bs: seq<byte>)
    ensures LeValue(bs) < Pow256(|bs|)
  {
    if bs != [] {
      LeBound(bs[1..]);
    }
  }

  lemma {:induction false} PowMono(a: nat, b: nat)
    requires a <= b
    ensures Pow256(a) <= Pow256(b)
    decreases b - a
  {
    if a < b {
      PowMono(a, b - 1);
    }
  }

  lemma {:induction false} LeSnoc(bs: seq<byte>, b: byte)
    ensures LeValue(bs + [b]) == LeValue(bs) + b * Pow256(|bs|)
  {
    if bs == [] {
      assert bs + [b] == [b];
    } else {
      LeSnoc(bs[1..], b);
      assert (bs + [b])[1..] == bs[1..] + [b];
      assert b * Pow256(|bs|) == 0x100 * (b * Pow256(|bs| - 1));
    }
  }

  /** A number that fits is read back from its bytes. */
  lemma {:induction false} LeReadsBack(w: nat, n: nat)
    requires w < Pow256(n)
    ensures LeValue(LeBytes(w, n)) == w
  {
    if n > 0 {
      LeReadsBack(w / 0x100, n - 1);
    }
  }

  /** A field of bytes holds a number exactly when it is that number's bytes. */
  lemma LeField(bs: seq<byte>, w: nat)
    requires w < Pow256(|bs|)
    ensures LeValue(bs) == w <==> bs == LeBytes(w, |bs|)
  {
    LeRoundTrip(bs);
    LeReadsBack(w, |bs|);
  }

  function BeValue(bs: seq<byte>): nat {
    if bs == [] then 0 else 0x100 * BeValue(bs[..|bs| - 1]) + bs[|bs| - 1]
  }

  function BeBytes(w: nat, n: nat): (bs: seq<byte>)
    ensures |bs| == n
  {
    if n == 0 then [] else BeBytes(w / 0x100, n - 1) + [w % 0x100]
  }

  lemma {:induction false} BeReadsBack(w: nat, n: nat)
    requires w < Pow256(n)
    ensures BeValue(BeBytes(w, n)) == w
  {
    if n > 0 {
      BeReadsBack(w / 0x100, n - 1);
      assert BeBytes(w, n)[..n - 1] == BeBytes(w / 0x100, n - 1);
    }
  }

  lemma LeFirst(b: byte, bs: seq<byte>)
    ensures LeValue([]) == 0 && LeValue([b] + bs) == b + 0x100 * LeValue(bs)
  {
    assert ([b] + bs)[1..] == bs;
  }

  lemma BeLast(bs: seq<byte>, b: byte)
    ensures BeValue([]) == 0 && BeValue(bs + [b]) == 0x100 * BeValue(bs) + b
  {
    assert (bs + [b])[..|bs|] == bs;
  }

  /** The byte order, spelled out: the least significant byte comes first, or last. */
  lemma ByteOrder(a: byte, b: byte, c: byte, d: byte)
    ensures LeValue([a, b]) == a + 0x100 * b
    ensures LeValue([a, b, c, d]) == a + 0x100 * b + 0x1_0000 * c + 0x100_0000 * d
    ensures BeValue([a, b, c, d]) == 0x100_0000 * a + 0x1_0000 * b + 0x100 * c + d
  {
    hide LeValue;
    hide BeValue;
    var none: seq<byte> := [];
    assert [b] + none == [b] && [d] + none == [d] && none + [a] == [a];
    assert [a, b] == [a] + [b] && [a, b, c] == [a, b] + [c] && [a, b, c, d] == [a, b, c] + [d];
    assert [c, d] == [c] + [d] && [b, c, d] == [b] + [c, d] && [a, b, c, d] == [a] + [b, c, d];
    LeFirst(b, none);
    LeFirst(a, [b]);
    LeFirst(d, none);
    LeFirst(c, [d]);
    LeFirst(b, [c, d]);
    LeFirst(a, [b, c, d]);
    BeLast(none, a);
    BeLast([a], b);
    BeLast([a, b], c);
    BeLast([a, b, c], d);
  }

  /** Sizes of the fields that occur. */
  lemma FieldSizes()
    ensures Pow256(1) == 0x100 && Pow256(2) == TWO16 && Pow256(4) == TWO32 && Pow256(8) == TWO64
  {
    assert Pow256(3) == 0x100_0000;
    assert Pow256(5) == 0x100_0000_0000;
    assert Pow256(6) == 0x1_0000_0000_0000;
    assert Pow256(7) == 0x100_0000_0000_0000;
  }

  // ── Concatenation of equal-length blocks ──────────────────────────────────

  function Flatten<T>(blocks: seq<seq<T>>): seq<T> {
    if blocks == [] then [] else blocks[0] + Flatten(blocks[1..])
  }

  /** Block `k` of a concatenation of blocks of length `len` sits at `k * len`. */
  lemma {:induction false} FlattenBlock<T>(blocks: seq<seq<T>>, len: nat, k: nat)
    requires forall i :: 0 <= i < |blocks| ==> |blocks[i]| == len
    requires k < |blocks|
    ensures |Flatten(blocks)| == |blocks| * len
    ensures 0 <= k * len <= (k + 1) * len <= |Flatten(blocks)|
    ensures Flatten(blocks)[k * len..(k + 1) * len] == blocks[k]
  {
    FlattenLength(blocks, len);
    BlockBounds(|blocks|, len, k);
    if k > 0 {
      var rest := blocks[1..];
      FlattenBlock(rest, len, k - 1);
      BlockBounds(|blocks|, len, k - 1);
      assert k * len == len + (k - 1) * len && (k + 1) * len == len + k * len;
      assert Flatten(blocks)[k * len..(k + 1) * len] == Flatten(rest)[(k - 1) * len..k * len];
    }
  }

  lemma {:induction false} FlattenLength<T>(blocks: seq<seq<T>>, len: nat)
    requires forall i :: 0 <= i < |blocks| ==> |blocks[i]| == len
    ensures |Flatten(blocks)| == |blocks| * len
  {
    if blocks != [] {
      FlattenLength(blocks[1..], len);
      assert |blocks| * len == len + (|blocks| - 1) * len;
    }
  }

  lemma BlockBounds(n: nat, len: nat, k: nat)
    requires k < n
    ensures 0 <= k * len <= (k + 1) * len <= n * len
  {
    Arith.MulMono(k, k + 1, len);
    Arith.MulMono(k + 1, n, len);
  }
}
