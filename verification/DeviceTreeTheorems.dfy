/** The walker visits exactly the matching nodes of the encoded tree, and no node sees another's properties. */
module DeviceTreeTheorems {
  import opened Bytes
  import opened DeviceTree

  /** The contents of a node: tokens, properties and subnodes in their order in the struct block. */
  datatype Items =
    | Empty
    | Nop(rest: Items)
    | Prop(nameoff: u32, data: seq<byte>, rest: Items)
    | Node(name: seq<byte>, body: Items, rest: Items)

  // ── Encoding ──────────────────────────────────────────────────────────────

  function Be32(w: u32): (bs: seq<byte>)
    ensures |bs| == 4
  {
    var high, mid := w / 0x1_0000, w / 0x100;
    [high / 0x100, high % 0x100, mid % 0x100, w % 0x100]
  }

  lemma Be32Value(w: u32)
    ensures BeValue(Be32(w)) == w
  {
    var bs := Be32(w);
    assert bs[..3][..2] == bs[..2] && bs[..2][..1] == bs[..1] && bs[..1][..0] == [];
    var a: int, b: int := bs[0], bs[1];
    assert BeValue(bs[..1]) == a;
    assert BeValue(bs[..2]) == 0x100 * a + b;
  }

  /** Zero padding to the next multiple of four. */
  function Pad(bs: seq<byte>): (r: seq<byte>)
    ensures |r| == Align4(|bs| + 3) && |r| % 4 == 0 && |bs| <= |r| && r[..|bs|] == bs
  {
    bs + Zeros(Align4(|bs| + 3) - |bs|)
  }

  function NodeHead(name: seq<byte>): (bs: seq<byte>)
    ensures |bs| == 4 + |Pad(name + [0])|
  {
    Be32(1) + Pad(name + [0])
  }

  function EncodeProp(nameoff: u32, data: seq<byte>): (bs: seq<byte>)
    requires |data| < TWO32
    ensures |bs| == 12 + |Pad(data)|
  {
    Be32(3) + (Be32(|data|) + (Be32(nameoff) + Pad(data)))
  }

  ghost predicate Encodable(items: Items) {
    match items
    case Empty => true
    case Nop(rest) => Encodable(rest)
    case Prop(_, data, rest) => |data| < TWO32 && Encodable(rest)
    case Node(name, body, rest) => 0 !in name && Encodable(body) && Encodable(rest)
  }

  function Encode(items: Items): seq<byte>
    requires Encodable(items)
  {
    match items
    case Empty => []
    case Nop(rest) => Be32(4) + Encode(rest)
    case Prop(nameoff, data, rest) => EncodeProp(nameoff, data) + Encode(rest)
    case Node(name, body, rest) => NodeHead(name) + (Encode(body) + (Be32(2) + Encode(rest)))
  }

  lemma AlignedSum(a: int, b: int)
    requires a % 4 == 0 && b % 4 == 0
    ensures (a + b) % 4 == 0
  {
  }

  lemma {:induction false} EncodeAligned(items: Items)
    requires Encodable(items)
    ensures |Encode(items)| % 4 == 0
  {
    hide NodeHead;
    hide EncodeProp;
    hide Be32;
    match items
    case Empty =>
    case Nop(rest) =>
      EncodeAligned(rest);
      AlignedSum(4, |Encode(rest)|);
    case Prop(nameoff, data, rest) =>
      EncodeAligned(rest);
      AlignedSum(12, |Pad(data)|);
      AlignedSum(|EncodeProp(nameoff, data)|, |Encode(rest)|);
    case Node(name, body, rest) =>
      EncodeAligned(body);
      EncodeAligned(rest);
      AlignedSum(4, |Encode(rest)|);
      AlignedSum(|Encode(body)|, 4 + |Encode(rest)|);
      AlignedSum(4, |Pad(name + [0])|);
      AlignedSum(|NodeHead(name)|, |Encode(body)| + (4 + |Encode(rest)|));
  }

  // ── What a node holds and which nodes match ───────────────────────────────

  function OwnMatch(f: Fdt, target: seq<byte>, items: Items): bool {
    match items
    case Empty => false
    case Nop(rest) => OwnMatch(f, target, rest)
    case Prop(nameoff, data, rest) =>
      (KindOf(StringAt(f, nameoff)) == Compatible && HasEntry(data, target)) || OwnMatch(f, target, rest)
    case Node(_, _, rest) => OwnMatch(f, target, rest)
  }

  /** Concatenation of what `decode` reads from the node's own properties of the given kind. */
  function OwnList<T>(f: Fdt, kind: Kind, decode: seq<byte> -> seq<T>, items: Items): seq<T> {
    match items
    case Empty => []
    case Nop(rest) => OwnList(f, kind, decode, rest)
    case Prop(nameoff, data, rest) =>
      (if KindOf(StringAt(f, nameoff)) == kind then decode(data) else []) + OwnList(f, kind, decode, rest)
    case Node(_, _, rest) => OwnList(f, kind, decode, rest)
  }

  function Own(f: Fdt, target: seq<byte>, items: Items): NodeState {
    NodeState(OwnMatch(f, target, items),
              FirstOf(OwnList(f, RegList, Regs, items), MAX_REG_ENTRIES),
              FirstOf(OwnList(f, Interrupts, Irqs, items), MAX_IRQ_ENTRIES),
              FirstOf(OwnList(f, RangeList, Ranges, items), MAX_RANGES_ENTRIES))
  }

  /** The matching nodes, children before parents, of a forest whose nodes sit `depth` levels down. */
  function Matches(f: Fdt, target: seq<byte>, items: Items, depth: nat): seq<NodeState> {
    match items
    case Empty => []
    case Nop(rest) => Matches(f, target, rest, depth)
    case Prop(_, _, rest) => Matches(f, target, rest, depth)
    case Node(_, body, rest) =>
      Matches(f, target, body, depth + 1) + (OwnCall(f, target, body, depth) + Matches(f, target, rest, depth))
  }

  function OwnCall(f: Fdt, target: seq<byte>, body: Items, depth: nat): seq<NodeState> {
    if depth < MAX_DEPTH && OwnMatch(f, target, body) then [Own(f, target, body)] else []
  }

  // ── A callback that may stop the walk ─────────────────────────────────────

  datatype Fed = Going(calls: seq<NodeState>) | Stopped(calls: seq<NodeState>)

  function Feed(go: Callback, done: seq<NodeState>, news: seq<NodeState>): Fed
    decreases |news|
  {
    if news == [] then Going(done)
    else if go(done + [news[0]]) then Feed(go, done + [news[0]], news[1..])
    else Stopped(done + [news[0]])
  }

  lemma {:induction false} FeedConcat(go: Callback, done: seq<NodeState>, a: seq<NodeState>, b: seq<NodeState>)
    ensures var first := Feed(go, done, a);
            Feed(go, done, a + b) == if first.Stopped? then first else Feed(go, first.calls, b)
    decreases |a|
  {
    if a == [] {
      assert a + b == b;
    } else {
      assert (a + b)[1..] == a[1..] + b;
      FeedConcat(go, done + [a[0]], a[1..], b);
    }
  }

  /** The callback gets the nodes in order up to and including the first it refuses. */
  lemma {:induction false} FeedIsPrefix(go: Callback, done: seq<NodeState>, news: seq<NodeState>) returns (k: nat)
    ensures k <= |news| && Feed(go, done, news).calls == done + news[..k]
    ensures forall i :: 0 < i < k ==> go(done + news[..i])
    ensures Feed(go, done, news).Going? ==> k == |news| && (k > 0 ==> go(done + news[..k]))
    ensures Feed(go, done, news).Stopped? ==> k > 0 && !go(done + news[..k])
    decreases |news|
  {
    if news == [] {
      k := 0;
    } else {
      assert news[..1] == [news[0]];
      if go(done + [news[0]]) {
        var n := FeedIsPrefix(go, done + [news[0]], news[1..]);
        k := n + 1;
        forall i | 0 < i <= k ensures done + news[..i] == done + [news[0]] + news[1..][..i - 1] {
        }
      } else {
        k := 1;
      }
    }
  }

  // ── One token ─────────────────────────────────────────────────────────────

  ghost predicate At(block: seq<byte>, off: nat, bs: seq<byte>) {
    off + |bs| <= |block| && block[off..off + |bs|] == bs
  }

  lemma AtSplit(block: seq<byte>, off: nat, a: seq<byte>, b: seq<byte>)
    requires At(block, off, a + b)
    ensures At(block, off, a) && At(block, off + |a|, b)
  {
    assert (a + b)[..|a|] == a && (a + b)[|a|..] == b;
    assert block[off..off + |a + b|][..|a|] == block[off..off + |a|];
    assert block[off..off + |a + b|][|a|..] == block[off + |a|..off + |a| + |b|];
  }

  lemma ReadsWord(f: Fdt, off: nat, w: u32)
    requires f.Sized() && At(f.block, off, Be32(w))
    ensures ReadU32(f, off) == Some(w)
  {
    Be32Value(w);
  }

  lemma TextLengthIs(s: seq<byte>, n: nat)
    requires n < |s| && s[n] == 0 && forall k :: 0 <= k < n ==> s[k] != 0
    ensures TextLength(s) == n
  {
    hide TextLength;
  }

  lemma AlignShift(off: int, n: int)
    requires off % 4 == 0
    ensures Align4(off + n) == off + Align4(n)
  {
  }

  lemma SkipsName(f: Fdt, off: nat, name: seq<byte>)
    requires f.Sized() && off % 4 == 0 && 0 !in name
    requires At(f.block, off, Pad(name + [0])) && off + |Pad(name + [0])| + 4 <= |f.block|
    ensures AfterName(f, off) == off + |Pad(name + [0])|
  {
    hide Align4;
    hide TextLength;
    hide Wrap32;
    hide Pad;
    var rest := f.block[off..];
    var text := name + [0];
    assert f.block[off..off + |Pad(text)|][..|text|] == text;
    assert forall k :: 0 <= k < |text| ==> rest[k] == text[k];
    TextLengthIs(rest, |name|);
    Wrap32Same(off + |text| + 3);
    AlignShift(off, |text| + 3);
  }

  /** The three header words and the data of a property, as the walker reads them. */
  lemma ReadsProp(f: Fdt, off: nat, nameoff: u32, data: seq<byte>)
    requires f.Sized() && |data| < TWO32 && At(f.block, off, EncodeProp(nameoff, data))
    ensures ReadU32(f, off) == Some(PROP) && ReadU32(f, off + 4) == Some(|data|) && ReadU32(f, off + 8) == Some(nameoff)
    ensures StructSlice(f, off + 12, |data|) == data
  {
    hide ReadU32;
    hide Pad;
    hide Be32;
    var tail := Be32(nameoff) + Pad(data);
    AtSplit(f.block, off, Be32(PROP), Be32(|data|) + tail);
    AtSplit(f.block, off + 4, Be32(|data|), tail);
    AtSplit(f.block, off + 8, Be32(nameoff), Pad(data));
    ReadsWord(f, off, PROP);
    ReadsWord(f, off + 4, |data|);
    ReadsWord(f, off + 8, nameoff);
    assert f.block[off + 12..off + 12 + |Pad(data)|][..|data|] == f.block[off + 12..off + 12 + |data|];
  }

  lemma StepsProp(f: Fdt, target: seq<byte>, w: Walker, nameoff: u32, data: seq<byte>)
    requires f.Sized() && w.Valid() && |data| < TWO32 && At(f.block, w.off, EncodeProp(nameoff, data))
    ensures ReadU32(f, w.off) == Some(PROP)
    ensures var off := w.off + |EncodeProp(nameoff, data)|;
            StepProp(f, target, w) ==
            Next(if w.depth == 0 || w.depth > MAX_DEPTH then w.(off := off)
                 else
                   var state := Collect(w.states[w.depth - 1], KindOf(StringAt(f, nameoff)), data, target);
                   Walker(off, w.depth, w.states[w.depth - 1 := state], w.calls))
  {
    hide Collect;
    hide KindOf;
    hide StringAt;
    hide ReadU32;
    hide StructSlice;
    hide Pad;
    hide Wrap32;
    hide Align4;
    hide EncodeProp;
    ReadsProp(f, w.off, nameoff, data);
    Wrap32Same(|data| + 3);
    Wrap32Same(w.off + 12 + |Pad(data)|);
  }

  // ── A whole forest ────────────────────────────────────────────────────────

  /** Effect of a node's own properties on its state, in order. */
  function CollectAll(f: Fdt, target: seq<byte>, s: NodeState, items: Items): (r: NodeState)
    ensures Bounded(s) ==> Bounded(r)
    decreases items
  {
    match items
    case Empty => s
    case Nop(rest) => CollectAll(f, target, s, rest)
    case Prop(nameoff, data, rest) =>
      CollectAll(f, target, Collect(s, KindOf(StringAt(f, nameoff)), data, target), rest)
    case Node(_, _, rest) => CollectAll(f, target, s, rest)
  }

  lemma CapStep<T>(known: seq<T>, more: seq<T>, rest: seq<T>, n: nat, mine: bool)
    requires |known| <= n
    ensures var now := if mine then FirstOf(known + more, n) else known;
            FirstOf(now + rest, n) == FirstOf(known + ((if mine then more else []) + rest), n)
  {
    assert [] + rest == rest;
    assert known + more + rest == known + (more + rest);
    assert |known + more| > n ==> (known + more + rest)[..n] == (known + more)[..n];
  }

  lemma CapNone<T>(known: seq<T>, n: nat)
    requires |known| <= n
    ensures FirstOf(known + [], n) == known
  {
    assert known + [] == known;
  }

  lemma {:induction false} CollectsOwn(f: Fdt, target: seq<byte>, s: NodeState, items: Items)
    requires Bounded(s)
    ensures CollectAll(f, target, s, items) ==
            NodeState(s.matched || OwnMatch(f, target, items),
                      FirstOf(s.regs + OwnList(f, RegList, Regs, items), MAX_REG_ENTRIES),
                      FirstOf(s.irqs + OwnList(f, Interrupts, Irqs, items), MAX_IRQ_ENTRIES),
                      FirstOf(s.ranges + OwnList(f, RangeList, Ranges, items), MAX_RANGES_ENTRIES))
    decreases items
  {
    hide KindOf;
    hide StringAt;
    hide HasEntry;
    hide FirstOf;
    hide Regs;
    hide Irqs;
    hide Ranges;
    match items
    case Empty =>
      CapNone(s.regs, MAX_REG_ENTRIES);
      CapNone(s.irqs, MAX_IRQ_ENTRIES);
      CapNone(s.ranges, MAX_RANGES_ENTRIES);
    case Nop(rest) => CollectsOwn(f, target, s, rest);
    case Node(_, _, rest) => CollectsOwn(f, target, s, rest);
    case Prop(nameoff, data, rest) =>
      var kind := KindOf(StringAt(f, nameoff));
      CollectsOwn(f, target, Collect(s, kind, data, target), rest);
      CapStep(s.regs, Regs(data), OwnList(f, RegList, Regs, rest), MAX_REG_ENTRIES, kind == RegList);
      CapStep(s.irqs, Irqs(data), OwnList(f, Interrupts, Irqs, rest), MAX_IRQ_ENTRIES, kind == Interrupts);
      CapStep(s.ranges, Ranges(data), OwnList(f, RangeList, Ranges, rest), MAX_RANGES_ENTRIES, kind == RangeList);
  }

  /** The states of open nodes after a forest inside them: only the innermost changed, by the forest's properties. */
  ghost predicate Kept(f: Fdt, target: seq<byte>, w: Walker, after: Walker, items: Items)
    requires w.Valid() && after.Valid()
  {
    && after.depth == w.depth
    && (forall i :: 0 <= i < w.depth - 1 && i < MAX_DEPTH ==> after.states[i] == w.states[i])
    && (0 < w.depth <= MAX_DEPTH ==> after.states[w.depth - 1] == CollectAll(f, target, w.states[w.depth - 1], items))
  }

  /** Walking over an encoded forest: either the callback stops the walk inside it or the walk goes on behind it. */
  ghost predicate Crossed(f: Fdt, target: seq<byte>, go: Callback, w: Walker, after: Walker, items: Items)
    requires w.Valid() && Encodable(items)
  {
    var fed := Feed(go, w.calls, Matches(f, target, items, w.depth));
    && after.Valid()
    && after.off == w.off + |Encode(items)|
    && (fed.Stopped? ==> Run(f, target, go, w) == Some(fed.calls))
    && (fed.Going? ==>
          && Run(f, target, go, w) == Run(f, target, go, after)
          && after.calls == fed.calls
          && Kept(f, target, w, after, items))
  }

  lemma RunNext(f: Fdt, target: seq<byte>, go: Callback, w: Walker, next: Walker)
    requires w.Valid() && Step(f, target, go, w) == Next(next) && next.off > w.off
    ensures next.Valid() && Run(f, target, go, w) == Run(f, target, go, next)
  {
    hide Step;
  }

  lemma RunHalt(f: Fdt, target: seq<byte>, go: Callback, w: Walker, calls: seq<NodeState>)
    requires w.Valid() && Step(f, target, go, w) == Halt(calls)
    ensures Run(f, target, go, w) == Some(calls)
  {
    hide Step;
  }

  lemma StepToken(f: Fdt, target: seq<byte>, go: Callback, w: Walker, token: u32)
    requires w.Valid() && ReadU32(f, w.off) == Some(token)
    ensures Step(f, target, go, w) ==
            if token == BEGIN_NODE then Next(StepBegin(f, w))
            else if token == END_NODE then StepEnd(go, w)
            else if token == PROP then StepProp(f, target, w)
            else if token == NOP then Next(w.(off := w.off + 4))
            else Halt(w.calls)
  {
    hide ReadU32;
    hide StepBegin;
    hide StepEnd;
    hide StepProp;
  }

  lemma CrossNop(f: Fdt, target: seq<byte>, go: Callback, w: Walker, after: Walker, rest: Items)
    requires w.Valid() && Encodable(rest) && ReadU32(f, w.off) == Some(NOP)
    requires Crossed(f, target, go, w.(off := w.off + 4), after, rest)
    ensures Crossed(f, target, go, w, after, Nop(rest))
  {
    hide Step;
    hide Run;
    hide ReadU32;
    hide Be32;
    hide Feed;
    StepToken(f, target, go, w, NOP);
    RunNext(f, target, go, w, w.(off := w.off + 4));
  }

  lemma CrossProp(f: Fdt, target: seq<byte>, go: Callback, w: Walker, after: Walker, nameoff: u32, data: seq<byte>,
                  rest: Items)
    requires f.Sized() && w.Valid() && Encodable(rest)
    requires |data| < TWO32 && At(f.block, w.off, EncodeProp(nameoff, data))
    requires StepProp(f, target, w).Next? && Crossed(f, target, go, StepProp(f, target, w).w, after, rest)
    ensures Crossed(f, target, go, w, after, Prop(nameoff, data, rest))
  {
    hide Step;
    hide StepProp;
    hide Run;
    hide ReadU32;
    hide EncodeProp;
    hide Feed;
    hide Collect;
    hide StringAt;
    hide KindOf;
    StepsProp(f, target, w, nameoff, data);
    StepToken(f, target, go, w, PROP);
    RunNext(f, target, go, w, StepProp(f, target, w).w);
  }

  lemma {:induction false} RunForest(f: Fdt, target: seq<byte>, go: Callback, w: Walker, items: Items)
    returns (after: Walker)
    requires f.Sized() && w.Valid() && w.off % 4 == 0 && Encodable(items)
    requires At(f.block, w.off, Encode(items)) && w.off + |Encode(items)| + 4 <= |f.block|
    ensures after.Valid() && after.off == w.off + |Encode(items)| && Crossed(f, target, go, w, after, items)
    decreases items
  {
    hide Crossed;
    hide StepProp;
    hide Be32;
    hide EncodeProp;
    match items
    case Empty =>
      after := w;
      CrossEmpty(f, target, go, w);
    case Nop(rest) =>
      AtSplit(f.block, w.off, Be32(NOP), Encode(rest));
      ReadsWord(f, w.off, NOP);
      after := RunForest(f, target, go, w.(off := w.off + 4), rest);
      CrossNop(f, target, go, w, after, rest);
    case Prop(nameoff, data, rest) =>
      AtSplit(f.block, w.off, EncodeProp(nameoff, data), Encode(rest));
      StepsProp(f, target, w, nameoff, data);
      AlignedSum(12, |Pad(data)|);
      AlignedSum(w.off, |EncodeProp(nameoff, data)|);
      after := RunForest(f, target, go, StepProp(f, target, w).w, rest);
      CrossProp(f, target, go, w, after, nameoff, data, rest);
    case Node(name, body, rest) =>
      after := RunNode(f, target, go, w, name, body, rest);
  }

  lemma {:induction false} RunNode(f: Fdt, target: seq<byte>, go: Callback, w: Walker,
                                   name: seq<byte>, body: Items, rest: Items)
    returns (after: Walker)
    requires f.Sized() && w.Valid() && w.off % 4 == 0 && 0 !in name && Encodable(body) && Encodable(rest)
    requires At(f.block, w.off, Encode(Node(name, body, rest)))
    requires w.off + |Encode(Node(name, body, rest))| + 4 <= |f.block|
    ensures after.Valid() && after.off == w.off + |Encode(Node(name, body, rest))|
    ensures Crossed(f, target, go, w, after, Node(name, body, rest))
    decreases Node(name, body, rest), 0
  {
    hide Crossed;
    hide Be32;
    hide Encode;
    hide Feed;
    hide Step;
    hide Run;
    hide StepBegin;
    hide StepEnd;
    hide Matches;
    hide OwnCall;
    hide Pad;
    hide ReadU32;
    hide NodeHead;
    hide At;
    NodeParts(f, w.off, name, body, rest);
    OpenNode(f, target, go, w, name);
    var inside := StepBegin(f, w);
    var closing := RunForest(f, target, go, inside, body);
    if Feed(go, w.calls, Matches(f, target, body, w.depth + 1)).Stopped? {
      after := w.(off := w.off + |Encode(Node(name, body, rest))|);
      CrossStopped(f, target, go, w, inside, closing, after, name, body, rest);
    } else {
      var next := CloseNode(f, target, go, w, inside, closing, body);
      after := w.(off := w.off + |Encode(Node(name, body, rest))|);
      if Feed(go, closing.calls, OwnCall(f, target, body, w.depth)).Going? {
        after := RunForest(f, target, go, next, rest);
      }
      CrossNode(f, target, go, w, inside, closing, next, after, name, body, rest);
    }
  }

  /** Where the parts of an encoded node lie. */
  lemma NodeParts(f: Fdt, off: nat, name: seq<byte>, body: Items, rest: Items)
    requires f.Sized() && off % 4 == 0
    requires Encodable(Node(name, body, rest)) && At(f.block, off, Encode(Node(name, body, rest)))
    ensures var inner := off + |NodeHead(name)|;
            var end := inner + |Encode(body)|;
            && inner % 4 == 0 && end % 4 == 0 && (end + 4) % 4 == 0
            && |Encode(Node(name, body, rest))| == |NodeHead(name)| + |Encode(body)| + 4 + |Encode(rest)|
            && At(f.block, off, NodeHead(name))
            && At(f.block, inner, Encode(body))
            && At(f.block, end + 4, Encode(rest))
            && ReadU32(f, end) == Some(END_NODE)
  {
    hide NodeHead;
    hide Be32;
    hide Pad;
    hide ReadU32;
    hide At;
    var head, tail := NodeHead(name), Be32(END_NODE) + Encode(rest);
    assert Encode(Node(name, body, rest)) == head + (Encode(body) + tail);
    EncodeAligned(body);
    AlignedSum(4, |Pad(name + [0])|);
    AlignedSum(off, |head|);
    AlignedSum(off + |head|, |Encode(body)|);
    AlignedSum(off + |head| + |Encode(body)|, 4);
    AtSplit(f.block, off, head, Encode(body) + tail);
    AtSplit(f.block, off + |head|, Encode(body), tail);
    AtSplit(f.block, off + |head| + |Encode(body)|, Be32(END_NODE), Encode(rest));
    ReadsWord(f, off + |head| + |Encode(body)|, END_NODE);
  }

  lemma OpenNode(f: Fdt, target: seq<byte>, go: Callback, w: Walker, name: seq<byte>)
    requires f.Sized() && w.Valid() && w.off % 4 == 0 && 0 !in name
    requires At(f.block, w.off, NodeHead(name)) && w.off + |NodeHead(name)| + 4 <= |f.block|
    ensures var inside := StepBegin(f, w);
            && inside.off == w.off + |NodeHead(name)| && inside.depth == w.depth + 1 && inside.calls == w.calls
            && inside.states == (if w.depth < MAX_DEPTH then w.states[w.depth := FRESH] else w.states)
            && Run(f, target, go, w) == Run(f, target, go, inside)
  {
    hide AfterName;
    hide ReadU32;
    hide Step;
    hide Be32;
    hide Pad;
    hide Run;
    AtSplit(f.block, w.off, Be32(BEGIN_NODE), Pad(name + [0]));
    ReadsWord(f, w.off, BEGIN_NODE);
    SkipsName(f, w.off + 4, name);
    StepToken(f, target, go, w, BEGIN_NODE);
    RunNext(f, target, go, w, StepBegin(f, w));
  }

  /** The end token of a node hands the node over if it matched and leaves it. */
  ghost predicate Closed(f: Fdt, target: seq<byte>, go: Callback, w: Walker, closing: Walker, next: Walker, body: Items)
    requires closing.Valid()
  {
    var fed := Feed(go, closing.calls, OwnCall(f, target, body, w.depth));
    && next == Walker(closing.off + 4, w.depth, closing.states, fed.calls)
    && (fed.Stopped? ==> Run(f, target, go, closing) == Some(fed.calls))
    && (fed.Going? ==> Run(f, target, go, closing) == Run(f, target, go, next))
  }

  /** At its end token a node has exactly its own properties, whatever lies below it. */
  lemma CloseNode(f: Fdt, target: seq<byte>, go: Callback, w: Walker, inside: Walker, closing: Walker, body: Items)
    returns (next: Walker)
    requires w.Valid() && inside.Valid() && closing.Valid() && Encodable(body) && inside.depth == w.depth + 1
    requires w.depth < MAX_DEPTH ==> inside.states[w.depth] == FRESH
    requires Crossed(f, target, go, inside, closing, body) && ReadU32(f, closing.off) == Some(END_NODE)
    requires Feed(go, inside.calls, Matches(f, target, body, w.depth + 1)).Going?
    ensures Closed(f, target, go, w, closing, next, body)
  {
    hide ReadU32;
    hide Step;
    hide Own;
    hide OwnMatch;
    hide Matches;
    hide Encode;
    hide CollectAll;
    hide Run;
    hide Feed;
    CollectsNode(f, target, body);
    StepToken(f, target, go, closing, END_NODE);
    FeedOwn(go, closing.calls, Own(f, target, body));
    var fed := Feed(go, closing.calls, OwnCall(f, target, body, w.depth));
    next := Walker(closing.off + 4, w.depth, closing.states, fed.calls);
    if fed.Going? {
      RunNext(f, target, go, closing, next);
    } else {
      RunHalt(f, target, go, closing, fed.calls);
    }
  }

  lemma FeedOwn(go: Callback, done: seq<NodeState>, s: NodeState)
    ensures Feed(go, done, []) == Going(done)
    ensures Feed(go, done, [s]) == if go(done + [s]) then Going(done + [s]) else Stopped(done + [s])
  {
    assert Feed(go, done + [s], [s][1..]) == Going(done + [s]);
  }

  lemma CollectsNode(f: Fdt, target: seq<byte>, body: Items)
    ensures CollectAll(f, target, FRESH, body) == Own(f, target, body)
    ensures Own(f, target, body).matched == OwnMatch(f, target, body)
  {
    hide FirstOf;
    hide OwnList;
    hide OwnMatch;
    CollectsOwn(f, target, FRESH, body);
    assert [] + OwnList(f, RegList, Regs, body) == OwnList(f, RegList, Regs, body);
    assert [] + OwnList(f, Interrupts, Irqs, body) == OwnList(f, Interrupts, Irqs, body);
    assert [] + OwnList(f, RangeList, Ranges, body) == OwnList(f, RangeList, Ranges, body);
  }

  lemma CrossStopped(f: Fdt, target: seq<byte>, go: Callback, w: Walker, inside: Walker, closing: Walker, after: Walker,
                     name: seq<byte>, body: Items, rest: Items)
    requires w.Valid() && inside.Valid() && after.Valid() && Encodable(Node(name, body, rest))
    requires inside.depth == w.depth + 1 && inside.calls == w.calls
    requires Run(f, target, go, w) == Run(f, target, go, inside)
    requires Crossed(f, target, go, inside, closing, body) && after.off == w.off + |Encode(Node(name, body, rest))|
    requires Feed(go, w.calls, Matches(f, target, body, w.depth + 1)).Stopped?
    ensures Crossed(f, target, go, w, after, Node(name, body, rest))
  {
    hide Run;
    hide Feed;
    hide OwnCall;
    hide Encode;
    FeedConcat(go, w.calls, Matches(f, target, body, w.depth + 1),
               OwnCall(f, target, body, w.depth) + Matches(f, target, rest, w.depth));
  }

  lemma KeptNode(f: Fdt, target: seq<byte>, w: Walker, inside: Walker, closing: Walker, next: Walker, after: Walker,
                 name: seq<byte>, body: Items, rest: Items)
    requires w.Valid() && inside.Valid() && closing.Valid() && next.Valid() && after.Valid()
    requires inside.depth == w.depth + 1 && next.depth == w.depth && next.states == closing.states
    requires inside.states == if w.depth < MAX_DEPTH then w.states[w.depth := FRESH] else w.states
    requires Kept(f, target, inside, closing, body)
    ensures Kept(f, target, next, after, rest) ==> Kept(f, target, w, after, Node(name, body, rest))
  {
    assert forall i :: 0 <= i < w.depth && i < MAX_DEPTH ==> next.states[i] == w.states[i];
  }

  lemma CrossNode(f: Fdt, target: seq<byte>, go: Callback, w: Walker, inside: Walker, closing: Walker,
                  next: Walker, after: Walker, name: seq<byte>, body: Items, rest: Items)
    requires w.Valid() && inside.Valid() && closing.Valid() && next.Valid() && after.Valid()
    requires Encodable(Node(name, body, rest))
    requires inside.depth == w.depth + 1 && inside.calls == w.calls
    requires Run(f, target, go, w) == Run(f, target, go, inside)
    requires inside.states == if w.depth < MAX_DEPTH then w.states[w.depth := FRESH] else w.states
    requires Crossed(f, target, go, inside, closing, body) && after.off == w.off + |Encode(Node(name, body, rest))|
    requires Feed(go, w.calls, Matches(f, target, body, w.depth + 1)).Going?
    requires Closed(f, target, go, w, closing, next, body)
    requires Feed(go, closing.calls, OwnCall(f, target, body, w.depth)).Going? ==>
               Crossed(f, target, go, next, after, rest)
    ensures Crossed(f, target, go, w, after, Node(name, body, rest))
  {
    hide Run;
    hide Feed;
    hide OwnCall;
    hide Encode;
    hide Kept;
    var inner, others := Matches(f, target, body, w.depth + 1), Matches(f, target, rest, w.depth);
    var own := OwnCall(f, target, body, w.depth);
    FeedConcat(go, w.calls, inner, own + others);
    FeedConcat(go, closing.calls, own, others);
    KeptNode(f, target, w, inside, closing, next, after, name, body, rest);
  }

  lemma RunFindsMatches(f: Fdt, target: seq<byte>, go: Callback, items: Items, tail: seq<byte>)
    requires f.Sized() && Encodable(items) && f.block == Encode(items) + (Be32(9) + tail)
    ensures Run(f, target, go, START) == Some(Feed(go, [], Matches(f, target, items, 0)).calls)
  {
    hide Encode;
    hide Be32;
    hide Step;
    AtSplit(f.block, 0, Encode(items), Be32(END) + tail);
    AtSplit(f.block, |Encode(items)|, Be32(END), tail);
    ReadsWord(f, |Encode(items)|, END);
    var after := RunForest(f, target, go, START, items);
    StepToken(f, target, go, after, END);
  }

  lemma CrossEmpty(f: Fdt, target: seq<byte>, go: Callback, w: Walker)
    requires w.Valid()
    ensures Crossed(f, target, go, w, w, Empty)
  {
    hide Run;
  }

  /** The walk ends, and the nodes it hands over are the matching ones of the encoded tree, children first. */
  lemma WalkFindsMatches(f: Fdt, target: seq<byte>, go: Callback, items: Items, tail: seq<byte>) returns (turns: nat)
    requires f.Sized() && Encodable(items) && f.block == Encode(items) + (Be32(9) + tail)
    ensures var found := Feed(go, [], Matches(f, target, items, 0)).calls;
            && RunFor(f, target, go, START, turns) == Some(found)
            && (forall n | RunFor(f, target, go, START, n).Some? :: RunFor(f, target, go, START, n) == Some(found))
  {
    hide Run;
    hide RunFor;
    hide Feed;
    hide Encode;
    hide Matches;
    RunFindsMatches(f, target, go, items, tail);
    turns := RunEnds(f, target, go, START);
    forall n | RunFor(f, target, go, START, n).Some?
      ensures RunFor(f, target, go, START, n) == RunFor(f, target, go, START, turns)
    {
      RunForUnique(f, target, go, START, n, turns);
    }
  }
}
