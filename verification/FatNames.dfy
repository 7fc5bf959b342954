/** File names in FAT directories: long-name assembly, padded 8.3 names and their printed form (fs/fat/src/dir.rs). */
module FatNames {
  import opened Bytes

  const LFN_CAP: nat := 255
  const LFN_CHARS: nat := 13
  const SPACE: byte := 0x20
  const DOT: byte := 0x2E

  /** One 32-byte directory slot. */
  type Slot = s: seq<byte> | |s| == 32 witness Zeros(32)

  /** A space-padded 8.3 name. */
  type ShortName = s: seq<byte> | |s| == 11 witness Zeros(11)

  predicate Lowercase(b: byte) { 0x61 <= b <= 0x7A }

  function ToUpper(b: byte): byte { if Lowercase(b) then b - 32 else b }

  /** Equality up to ASCII case. */
  predicate EqualFold(a: seq<byte>, b: seq<byte>) {
    |a| == |b| && forall i :: 0 <= i < |a| ==> ToUpper(a[i]) == ToUpper(b[i])
  }

  // ── Long names ────────────────────────────────────────────────────────────

  /** Where the 13 UCS-2 characters of a long-name slot lie: bytes 1-10, 14-25 and 28-31. */
  function CharOffset(i: nat): (off: nat)
    requires i < LFN_CHARS
    ensures off <= 30
  {
    if i < 5 then 1 + 2 * i else if i < 11 then 14 + 2 * (i - 5) else 28 + 2 * (i - 11)
  }

  function CharAt(raw: Slot, i: nat): u16
    requires i < LFN_CHARS
  {
    var low: int, high: int := raw[CharOffset(i)], raw[CharOffset(i) + 1];
    low + 0x100 * high
  }

  /** The accumulator's value: `buf` keeps old bytes across a reset, as the source's buffer does. */
  datatype Lfn = Lfn(buf: seq<byte>, len: nat, active: bool) {
    predicate Wf() { |buf| == LFN_CAP && len <= LFN_CAP }

    predicate Idle() { Wf() && len == 0 && !active }

    function Reset(): Lfn { this.(len := 0, active := false) }

    function Grow(n: nat): Lfn { this.(len := Max(len, n)) }
  }

  const EMPTY_LFN: Lfn := Lfn(Zeros(LFN_CAP), 0, false)

  function Chars(raw: Slot): (cs: seq<u16>)
    ensures |cs| == LFN_CHARS
  {
    seq(LFN_CHARS, i requires 0 <= i < LFN_CHARS => CharAt(raw, i))
  }

  /** The accumulator after storing one character; its high byte is discarded. */
  function Put(l: Lfn, pos: nat, ch: u16): (r: Lfn)
    requires l.Wf() && pos < LFN_CAP
    ensures r.Wf()
  {
    l.(buf := l.buf[pos := ch % 0x100]).Grow(pos + 1)
  }

  /** Stores characters from `pos` on; a zero or 0xFFFF ends the name, position 255 ends the buffer. */
  function Fill(l: Lfn, cs: seq<u16>, pos: nat): (r: Lfn)
    requires l.Wf()
    ensures r.Wf() && r.active == l.active
    decreases |cs|
  {
    if cs == [] || pos >= LFN_CAP then l
    else if cs[0] == 0 || cs[0] == 0xFFFF then l.Grow(pos)
    else Fill(Put(l, pos, cs[0]), cs[1..], pos + 1)
  }

  function AddEntry(l: Lfn, raw: Slot): (r: Lfn)
    requires l.Wf()
    ensures r.Wf()
  {
    var ordinal := raw[0] % 0x40;
    if ordinal == 0 then l.Reset() else Fill(l.(active := true), Chars(raw), (ordinal - 1) * LFN_CHARS)
  }

  predicate LfnMatches(l: Lfn, name: seq<byte>)
    requires l.Wf()
  {
    l.active && EqualFold(l.buf[..l.len], name)
  }

  /** The source's `LfnAccum`, with the value above as its abstraction. */
  class LfnAccum {
    const buf: array<byte>
    var len: nat
    var active: bool

    ghost predicate Valid()
      reads this
    {
      buf.Length == LFN_CAP && len <= LFN_CAP
    }

    ghost function Value(): (l: Lfn)
      reads this, buf
      requires Valid()
      ensures l.Wf()
    {
      Lfn(buf[..], len, active)
    }

    constructor ()
      ensures Valid() && fresh(buf) && Value() == EMPTY_LFN
    {
      buf := new byte[LFN_CAP](_ => 0);
      len, active := 0, false;
      new;
      assert buf[..] == Zeros(LFN_CAP);
    }

    method Reset()
      requires Valid()
      modifies this
      ensures Valid() && Value() == old(Value()).Reset()
    {
      len, active := 0, false;
    }

    method AddLfnEntry(raw: Slot)
      requires Valid()
      modifies this, buf
      ensures Valid() && Value() == AddEntry(old(Value()), raw)
    {
      var ordinal := raw[0] % 0x40;
      if ordinal == 0 {
        Reset();
        return;
      }
      active := true;
      var base := (ordinal - 1) * LFN_CHARS;
      ghost var goal := AddEntry(old(Value()), raw);
      for i := 0 to LFN_CHARS
        invariant Valid() && Fill(Value(), Chars(raw)[i..], base + i) == goal
      {
        var pos := base + i;
        if pos >= LFN_CAP {
          break;
        }
        var ch := CharAt(raw, i);
        if ch == 0 || ch == 0xFFFF {
          if pos > len {
            len := pos;
          }
          return;
        }
        ghost var before := Value();
        buf[pos] := ch % 0x100;
        if pos + 1 > len {
          len := pos + 1;
        }
        assert Value() == Put(before, pos, ch);
      }
    }

    method Matches(name: seq<byte>) returns (yes: bool)
      requires Valid()
      ensures yes == LfnMatches(Value(), name)
    {
      if !active || len != |name| {
        return false;
      }
      for i := 0 to len
        invariant forall j :: 0 <= j < i ==> ToUpper(buf[j]) == ToUpper(name[j])
      {
        if ToUpper(buf[i]) != ToUpper(name[i]) {
          return false;
        }
      }
      yes := true;
    }
  }

  /** Character `p` of a long name as stored: a zero ends it, 0xFFFF pads the rest of the last slot. */
  function StoredChar(name: seq<byte>, p: nat): u16 {
    if p < |name| then name[p] else if p == |name| then 0 else 0xFFFF
  }

  predicate LongName(name: seq<byte>) {
    1 <= |name| <= LFN_CAP && forall i :: 0 <= i < |name| ==> name[i] != 0
  }

  /** `raw` is a long-name slot holding piece `ordinal` (from 1) of `name`; checksum and flag bits are free. */
  predicate IsLongSlot(raw: Slot, name: seq<byte>, ordinal: nat) {
    && raw[0] != 0xE5 && raw[11] == 0x0F
    && 1 <= ordinal == raw[0] % 0x40
    && forall i :: 0 <= i < LFN_CHARS ==> Chars(raw)[i] == StoredChar(name, (ordinal - 1) * LFN_CHARS + i)
  }

  /** `slots` hold pieces `ordinal, ordinal - 1, …, 1` of `name`, in that order. */
  predicate LongRun(slots: seq<Slot>, name: seq<byte>, ordinal: nat) {
    && |slots| == ordinal
    && (slots != [] ==> IsLongSlot(slots[0], name, ordinal) && LongRun(slots[1..], name, ordinal - 1))
  }

  /** All pieces of `name`, last piece first, as section 7 of the Microsoft FAT specification stores them. */
  predicate StoresLongName(slots: seq<Slot>, name: seq<byte>) {
    LongName(name) && LongRun(slots, name, DivCeil(|name|, LFN_CHARS))
  }

  function AddAll(l: Lfn, slots: seq<Slot>): (r: Lfn)
    requires l.Wf()
    ensures r.Wf()
    decreases |slots|
  {
    if slots == [] then l else AddAll(AddEntry(l, slots[0]), slots[1..])
  }

  /** Stored characters end up where they belong, up to the end of the name, and nothing else changes. */
  lemma {:induction false} FillPlaces(l: Lfn, cs: seq<u16>, name: seq<byte>, pos: nat)
    requires l.Wf() && LongName(name) && pos <= |name|
    requires l.len <= |name| && (pos == |name| || cs == [] ==> pos <= l.len)
    requires forall k :: 0 <= k < |cs| ==> cs[k] == StoredChar(name, pos + k)
    ensures var r, end := Fill(l, cs, pos), Min(pos + |cs|, |name|);
            && r.len == Max(l.len, end)
            && forall p :: 0 <= p < LFN_CAP ==> r.buf[p] == if pos <= p < end then name[p] else l.buf[p]
    decreases |cs|
  {
    if cs != [] && pos < |name| {
      assert cs[0] == name[pos];
      FillPlaces(Put(l, pos, cs[0]), cs[1..], name, pos + 1);
    }
  }

  /** Pieces above `ordinal` are in place; adding the rest completes the name. */
  lemma {:induction false} RunCompletes(l: Lfn, slots: seq<Slot>, name: seq<byte>, ordinal: nat)
    requires l.Wf() && LongName(name) && LongRun(slots, name, ordinal)
    requires ordinal > 0 ==> (ordinal - 1) * LFN_CHARS < |name|
    requires if l.len == 0 then |name| <= ordinal * LFN_CHARS else l.active && l.len == |name|
    requires l.len != 0 ==> forall p :: ordinal * LFN_CHARS <= p < |name| ==> l.buf[p] == name[p]
    ensures var r := AddAll(l, slots); r.active && r.len == |name| && r.buf[..r.len] == name
    decreases ordinal
  {
    if ordinal > 0 {
      FillPlaces(l.(active := true), Chars(slots[0]), name, (ordinal - 1) * LFN_CHARS);
      RunCompletes(AddEntry(l, slots[0]), slots[1..], name, ordinal - 1);
    }
  }

  /** Splitting a name into slots and accumulating them from a reset state recovers it, stale buffer bytes or not. */
  lemma LongNameRecovered(l: Lfn, slots: seq<Slot>, name: seq<byte>)
    requires l.Idle() && StoresLongName(slots, name)
    ensures var r := AddAll(l, slots); r.active && r.len == |name| && r.buf[..r.len] == name
  {
    RunCompletes(l, slots, name, DivCeil(|name|, LFN_CHARS));
  }

  // ── Long-name slots as bytes ──────────────────────────────────────────────

  /** Two bytes to a character. */
  function Utf16(cs: seq<u16>): (bs: seq<byte>)
    ensures |bs| == 2 * |cs|
  {
    if cs == [] then [] else LeBytes(cs[0], 2) + Utf16(cs[1..])
  }

  lemma {:induction false} Utf16At(cs: seq<u16>, i: nat)
    requires i < |cs|
    ensures Utf16(cs)[2 * i] == cs[i] % 0x100 && Utf16(cs)[2 * i + 1] == cs[i] / 0x100
  {
    if i == 0 {
      assert LeBytes(cs[0], 2) == [cs[0] % 0x100] + ([cs[0] / 0x100 % 0x100] + LeBytes(cs[0] / 0x1_0000, 0));
    } else {
      Utf16At(cs[1..], i - 1);
    }
  }

  /** A long-name slot: order, five characters, attribute 15, type, checksum, six characters, a zero word, two more. */
  function LongSlot(order: byte, sum: byte, cs: seq<u16>): Slot
    requires |cs| == 13
  {
    [order] + Utf16(cs[..5]) + [0x0F, 0, sum] + Utf16(cs[5..11]) + [0, 0] + Utf16(cs[11..])
  }

  /** Each of the 13 characters is read from where the slot keeps it. */
  lemma SlotReadBack(order: byte, sum: byte, cs: seq<u16>)
    requires |cs| == 13
    ensures Chars(LongSlot(order, sum, cs)) == cs
  {
    hide Utf16;
    var raw := LongSlot(order, sum, cs);
    forall i | 0 <= i < 13 ensures CharAt(raw, i) == cs[i] {
      if i < 5 {
        Utf16At(cs[..5], i);
        assert raw[1..11] == Utf16(cs[..5]);
        assert raw[1 + 2 * i] == raw[1..11][2 * i] && raw[2 + 2 * i] == raw[1..11][2 * i + 1];
      } else if i < 11 {
        Utf16At(cs[5..11], i - 5);
        assert raw[14..26] == Utf16(cs[5..11]);
        assert raw[14 + 2 * (i - 5)] == raw[14..26][2 * (i - 5)];
        assert raw[15 + 2 * (i - 5)] == raw[14..26][2 * (i - 5) + 1];
      } else {
        Utf16At(cs[11..], i - 11);
        assert raw[28..32] == Utf16(cs[11..]);
        assert raw[28 + 2 * (i - 11)] == raw[28..32][2 * (i - 11)];
        assert raw[29 + 2 * (i - 11)] == raw[28..32][2 * (i - 11) + 1];
      }
    }
  }

  /** Characters 13 (k - 1) to 13 k - 1 of a name: behind its end a zero, then all ones. */
  function Piece(name: seq<byte>, k: nat): (cs: seq<u16>)
    requires k > 0
    ensures |cs| == 13
  {
    seq<u16>(13, i requires 0 <= i < 13 =>
      var p := 13 * (k - 1) + i; if p < |name| then name[p] as int else if p == |name| then 0 else 0xFFFF)
  }

  /** The slots of a name from piece `k` down to piece 1; the first slot written is marked with 64. */
  function EncodeLong(name: seq<byte>, sum: byte, k: nat, last: bool): (slots: seq<Slot>)
    requires k <= 20
    ensures |slots| == k
  {
    if k == 0 then [] else
      [LongSlot(if last then 64 + k else k, sum, Piece(name, k))] + EncodeLong(name, sum, k - 1, false)
  }

  lemma PieceIs(name: seq<byte>, k: nat)
    requires k > 0
    ensures forall i :: 0 <= i < LFN_CHARS ==> Piece(name, k)[i] == StoredChar(name, (k - 1) * LFN_CHARS + i)
  {
  }

  lemma {:induction false} EncodedRun(name: seq<byte>, sum: byte, k: nat, last: bool)
    requires k <= 20
    ensures LongRun(EncodeLong(name, sum, k, last), name, k)
  {
    if k > 0 {
      hide LongSlot;
      hide Chars;
      hide Piece;
      hide StoredChar;
      var order := if last then 64 + k else k;
      SlotReadBack(order, sum, Piece(name, k));
      SlotMarks(order, sum, Piece(name, k));
      PieceIs(name, k);
      assert IsLongSlot(LongSlot(order, sum, Piece(name, k)), name, k);
      EncodedRun(name, sum, k - 1, false);
      assert EncodeLong(name, sum, k, last)[1..] == EncodeLong(name, sum, k - 1, false);
    }
  }

  lemma SlotMarks(order: byte, sum: byte, cs: seq<u16>)
    requires |cs| == 13
    ensures LongSlot(order, sum, cs)[0] == order && LongSlot(order, sum, cs)[11] == 0x0F
  {
    hide Utf16;
  }

  /** Every name, written into slots byte by byte, comes back from them. */
  lemma LongNameReadBack(l: Lfn, name: seq<byte>, sum: byte)
    requires l.Idle() && LongName(name)
    ensures var slots := EncodeLong(name, sum, DivCeil(|name|, 13), true);
            var r := AddAll(l, slots);
            StoresLongName(slots, name) && r.active && r.len == |name| && r.buf[..r.len] == name
  {
    EncodedRun(name, sum, DivCeil(|name|, 13), true);
    LongNameRecovered(l, EncodeLong(name, sum, DivCeil(|name|, 13), true), name);
  }

  /** Upper case, in terms of letters; every other byte stays as it is. */
  lemma UpperCase(b: byte)
    ensures var a, z, upper := Text("a")[0], Text("z")[0], Text("A")[0];
            ToUpper(b) == if a <= b <= z then upper + (b - a) else b
  {
  }

  function UpperOf(s: seq<byte>): seq<byte> { seq(|s|, i requires 0 <= i < |s| => ToUpper(s[i])) }

  /** Names are equal up to case exactly when they are equal in upper case; so a name is found in either case. */
  lemma FoldIs(a: seq<byte>, b: seq<byte>)
    ensures EqualFold(a, b) <==> UpperOf(a) == UpperOf(b)
    ensures EqualFold(a, UpperOf(a))
  {
    var u, v := UpperOf(a), UpperOf(b);
    assert forall i :: 0 <= i < |a| ==> u[i] == ToUpper(a[i]);
    assert forall i :: 0 <= i < |b| ==> v[i] == ToUpper(b[i]);
  }

  // ── 8.3 names ─────────────────────────────────────────────────────────────

  /** Index of the first dot, or the length when there is none. */
  function DotPos(c: seq<byte>): (d: nat)
    ensures d <= |c| && (d < |c| ==> c[d] == DOT)
    ensures forall i :: 0 <= i < d ==> c[i] != DOT
  {
    if c == [] || c[0] == DOT then 0 else 1 + DotPos(c[1..])
  }

  /** The first `n` bytes in upper case, space-padded to `n`. */
  function PadUpper(s: seq<byte>, n: nat): (r: seq<byte>)
    ensures |r| == n
  {
    seq(n, i requires 0 <= i < n => if i < |s| then ToUpper(s[i]) else SPACE)
  }

  /** A path component as the 11 bytes an 8.3 entry would hold: base cut at 8, extension at 3. */
  function Padded(component: seq<byte>): (r: seq<byte>)
    ensures |r| == 11
  {
    var d := DotPos(component);
    PadUpper(component[..d], 8) + PadUpper(if d < |component| then component[d + 1..] else [], 3)
  }

  /** Copies up to `n` bytes in upper case into a field of spaces. */
  method CopyUpper(src: seq<byte>, padded: array<byte>, at: nat, n: nat)
    requires at + n <= padded.Length && forall k :: at <= k < at + n ==> padded[k] == SPACE
    modifies padded
    ensures padded[at..at + n] == PadUpper(src, n)
    ensures padded[..at] == old(padded[..at]) && padded[at + n..] == old(padded[at + n..])
  {
    for i := 0 to Min(|src|, n)
      invariant forall k :: at <= k < at + n ==> padded[k] == if k - at < i then ToUpper(src[k - at]) else SPACE
      invariant padded[..at] == old(padded[..at]) && padded[at + n..] == old(padded[at + n..])
    {
      padded[at + i] := ToUpper(src[i]);
    }
  }

  method NameMatches(entryName: seq<byte>, component: seq<byte>) returns (yes: bool)
    requires |entryName| == 11
    ensures yes <==> entryName == Padded(component)
  {
    var padded := new byte[11](_ => SPACE);
    var d := DotPos(component);
    CopyUpper(component[..d], padded, 0, 8);
    assert forall k :: 0 <= k < 3 ==> padded[8 + k] == padded[8..][k];
    CopyUpper(if d < |component| then component[d + 1..] else [], padded, 8, 3);
    assert padded[..] == padded[..8] + padded[8..11];
    yes := entryName == padded[..];
  }

  function TrimEnd(s: seq<byte>): (t: seq<byte>)
    ensures t <= s && (t != [] ==> t[|t| - 1] != SPACE)
    ensures forall i :: |t| <= i < |s| ==> s[i] == SPACE
  {
    if s != [] && s[|s| - 1] == SPACE then TrimEnd(s[..|s| - 1]) else s
  }

  /** The readable form of an 8.3 name: trailing spaces trimmed, a dot before a non-empty extension. */
  function Format83(raw: seq<byte>): (r: seq<byte>)
    requires |raw| == 11
    ensures |r| <= 12
  {
    var ext := TrimEnd(raw[8..]);
    TrimEnd(raw[..8]) + (if ext == [] then [] else [DOT] + ext)
  }

  function Spaces(n: nat): (r: seq<byte>)
    ensures |r| == n
  {
    seq(n, _ => 0x20)
  }

  lemma TrimPadded(s: seq<byte>, n: nat)
    requires s == [] || s[|s| - 1] != 0x20
    ensures TrimEnd(s + Spaces(n)) == s
  {
    hide TrimEnd;
    var padded := s + Spaces(n);
    assert padded[..|s|] == s && forall i :: |s| <= i < |padded| ==> padded[i] == SPACE;
  }

  lemma FormatParts(front: seq<byte>, back: seq<byte>)
    requires |front| == 8 && |back| == 3
    ensures Format83(front + back)
         == TrimEnd(front) + if TrimEnd(back) == [] then [] else [DOT] + TrimEnd(back)
  {
    hide TrimEnd;
    assert (front + back)[..8] == front && (front + back)[8..] == back;
  }

  /** A stored name prints as its base, and as base, dot and extension if it has one. */
  lemma PrintsNames(base: seq<byte>, ext: seq<byte>)
    requires |base| <= 8 && (base == [] || base[|base| - 1] != 0x20)
    requires |ext| <= 3 && (ext == [] || ext[|ext| - 1] != 0x20)
    ensures var raw := (base + Spaces(8 - |base|)) + (ext + Spaces(3 - |ext|));
            Format83(raw) == if ext == [] then base else base + [0x2E] + ext
  {
    hide TrimEnd;
    hide Spaces;
    var front, back := base + Spaces(8 - |base|), ext + Spaces(3 - |ext|);
    hide Format83;
    FormatParts(front, back);
    TrimPadded(base, 8 - |base|);
    TrimPadded(ext, 3 - |ext|);
    if ext == [] {
      assert base + [] == base;
    } else {
      assert base + ([DOT] + ext) == base + [0x2E] + ext;
    }
  }

  /** A component is compared by the first 8 bytes before its first dot and the first 3 behind it. */
  lemma PadsNames(base: seq<byte>, ext: seq<byte>, i: nat)
    requires 0x2E !in base && i < 11
    ensures Padded(base + [0x2E] + ext)[i] ==
            if i < 8 then (if i < |base| then ToUpper(base[i]) else 0x20)
            else if i - 8 < |ext| then ToUpper(ext[i - 8]) else 0x20
    ensures ext == [] ==> Padded(base) == Padded(base + [0x2E])
  {
    var name := base + [0x2E] + ext;
    DotIs(name, |base|);
    assert name[..|base|] == base && name[|base| + 1..] == ext;
    var short := base + [0x2E];
    DotIs(short, |base|);
    assert DotPos(base) == |base| && short[..|base|] == base[..|base|] && short[|base| + 1..] == [];
  }

  lemma DotIs(c: seq<byte>, d: nat)
    requires d < |c| && c[d] == DOT && forall i :: 0 <= i < d ==> c[i] != DOT
    ensures DotPos(c) == d
  {
    hide DotPos;
  }

  method TrimmedEnd(raw: seq<byte>, lo: nat, hi: nat) returns (end: nat)
    requires lo <= hi <= |raw|
    ensures lo <= end <= hi && raw[lo..end] == TrimEnd(raw[lo..hi])
  {
    end := hi;
    while end > lo && raw[end - 1] == SPACE
      invariant lo <= end <= hi && TrimEnd(raw[lo..end]) == TrimEnd(raw[lo..hi])
    {
      TrimLast(raw, lo, end);
      end := end - 1;
    }
    assert lo < end ==> raw[lo..end][end - lo - 1] == raw[end - 1];
  }

  lemma TrimLast(raw: seq<byte>, lo: nat, end: nat)
    requires lo < end <= |raw| && raw[end - 1] == SPACE
    ensures TrimEnd(raw[lo..end]) == TrimEnd(raw[lo..end - 1])
  {
    assert raw[lo..end][..end - lo - 1] == raw[lo..end - 1];
  }

  method Append(bytes: seq<byte>, out: array<byte>, at: nat) returns (pos: nat)
    requires at + |bytes| <= out.Length
    modifies out
    ensures pos == at + |bytes| && out[..pos] == old(out[..at]) + bytes
  {
    pos := at;
    for i := 0 to |bytes|
      invariant pos == at + i && out[..pos] == old(out[..at]) + bytes[..i]
    {
      out[pos] := bytes[i];
      pos := pos + 1;
    }
  }

  method FormatName(raw: seq<byte>, out: array<byte>) returns (pos: nat)
    requires |raw| == 11 && out.Length == 12
    modifies out
    ensures pos <= 12 && out[..pos] == Format83(raw)
  {
    hide TrimEnd;
    assert raw[0..8] == raw[..8] && raw[8..11] == raw[8..];
    var baseEnd := TrimmedEnd(raw, 0, 8);
    pos := Append(raw[0..baseEnd], out, 0);
    var extEnd := TrimmedEnd(raw, 8, 11);
    if extEnd > 8 {
      out[pos] := DOT;
      pos := Append(raw[8..extEnd], out, pos + 1);
    }
  }

  /** Short names some path component can denote. */
  predicate Searchable(raw: seq<byte>)
    requires |raw| == 11
  {
    NoLowercase(raw) && NoDot(raw[..8])
  }

  predicate NoLowercase(s: seq<byte>) { forall i :: 0 <= i < |s| ==> !Lowercase(s[i]) }

  predicate NoDot(s: seq<byte>) { forall i :: 0 <= i < |s| ==> s[i] != DOT }

  lemma FormatSplits(raw: seq<byte>)
    requires |raw| == 11 && NoDot(raw[..8])
    ensures var b, e := TrimEnd(raw[..8]), TrimEnd(raw[8..]);
            Padded(Format83(raw)) == PadUpper(b, 8) + PadUpper(e, 3)
  {
    var f, b, e := Format83(raw), TrimEnd(raw[..8]), TrimEnd(raw[8..]);
    assert forall i :: 0 <= i < |b| ==> f[i] == raw[..8][i];
    if e != [] {
      assert f[|b|] == DOT && f[|b| + 1..] == e;
    }
    assert DotPos(f) == |b| && f[..|b|] == b;
  }

  lemma PadTrimmed(s: seq<byte>, n: nat)
    requires |s| == n
    ensures PadUpper(TrimEnd(s), n) == s <==> NoLowercase(s)
  {
    var p := PadUpper(TrimEnd(s), n);
    assert forall i :: 0 <= i < n ==> p[i] == ToUpper(s[i]);
    if p == s {
      forall i | 0 <= i < n ensures !Lowercase(s[i]) {
        assert p[i] == s[i];
      }
    }
  }

  lemma DottedBaseLost(raw: seq<byte>, i: nat)
    requires |raw| == 11 && i < 8 && raw[i] == DOT
    ensures raw != Padded(Format83(raw))
  {
    var f := Format83(raw);
    var d := DotPos(f);
    assert f[i] == DOT && d <= i;
    assert raw[d] == f[d] == DOT;
    assert Padded(f)[d] == PadUpper(f[..d], 8)[d] == SPACE;
  }

  lemma Halves(a: seq<byte>, b: seq<byte>, a': seq<byte>, b': seq<byte>)
    requires |a| == |a'| && |b| == |b'|
    ensures a + b == a' + b' <==> a == a' && b == b'
    ensures NoLowercase(a + b) <==> NoLowercase(a) && NoLowercase(b)
  {
    assert a == (a + b)[..|a|] && b == (a + b)[|a|..] && a' == (a' + b')[..|a|] && b' == (a' + b')[|a|..];
    assert forall i :: 0 <= i < |b| ==> (a + b)[|a| + i] == b[i];
  }

  /** A padded component has no lower case and no dot in its base. */
  lemma PaddedSearchable(name: seq<byte>)
    ensures Searchable(Padded(name))
  {
  }

  /** Looking up a printed short name finds the name exactly when it has no lower case and no dot in its base. */
  lemma FormatFindsItself(raw: seq<byte>)
    requires |raw| == 11
    ensures raw == Padded(Format83(raw)) <==> Searchable(raw)
  {
    if i :| 0 <= i < 8 && raw[..8][i] == DOT {
      DottedBaseLost(raw, i);
    } else {
      FormatSplits(raw);
      var b, e := raw[..8], raw[8..];
      PadTrimmed(b, 8);
      PadTrimmed(e, 3);
      assert raw == b + e;
      Halves(b, e, PadUpper(TrimEnd(b), 8), PadUpper(TrimEnd(e), 3));
    }
  }
}
