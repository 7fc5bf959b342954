/** What directory search and enumeration mean for directories of files, independently of sectors and slots. */
module FatDirTheorems {
  import opened Bytes
  import opened Fat
  import opened FatNames
  import opened FatDir

  // ── Which slots the search visits ─────────────────────────────────────────

  predicate NoEnd(slots: seq<Slot>) { forall i :: 0 <= i < |slots| ==> !EndMark(slots[i]) }

  function CutAtEnd(slots: seq<Slot>): seq<Slot> {
    if slots == [] || EndMark(slots[0]) then [] else [slots[0]] + CutAtEnd(slots[1..])
  }

  /** Every sector contributes its slots before its own end mark. */
  function Visited(ss: seq<Sector>): seq<Slot> {
    if ss == [] then [] else CutAtEnd(SlotsFrom(ss[0], 0)) + Visited(ss[1..])
  }

  predicate StartsWithEnd(s: Sector) { EndMark(SlotAt(s, 0)) }

  /** Once a sector holds an end mark, every later sector starts with one. */
  predicate StopsAtEnd(ss: seq<Sector>) {
    ss != [] ==>
      && (!NoEnd(SlotsFrom(ss[0], 0)) ==> forall j :: 1 <= j < |ss| ==> StartsWithEnd(ss[j]))
      && StopsAtEnd(ss[1..])
  }

  lemma {:induction false} ScanCut(slots: seq<Slot>, name: seq<byte>, l: Lfn)
    requires l.Wf()
    ensures Scan(CutAtEnd(slots), name, l) == Scan(slots, name, l)
    decreases |slots|
  {
    if slots != [] && !EndMark(slots[0]) {
      assert CutAtEnd(slots)[1..] == CutAtEnd(slots[1..]);
      ScanCut(slots[1..], name, l.Reset());
      ScanCut(slots[1..], name, AddEntry(l, slots[0]));
    }
  }

  lemma {:induction false} ScanConcat(a: seq<Slot>, b: seq<Slot>, name: seq<byte>, l: Lfn)
    requires l.Wf() && NoEnd(a)
    ensures Scan(a + b, name, l)
         == (var (hit, l') := Scan(a, name, l); if hit.Some? then (hit, l') else Scan(b, name, l'))
    decreases |a|
  {
    if a == [] {
      assert a + b == b;
    } else {
      assert (a + b)[1..] == a[1..] + b;
      ScanConcat(a[1..], b, name, l.Reset());
      ScanConcat(a[1..], b, name, AddEntry(l, a[0]));
    }
  }

  lemma NoEndTail(slots: seq<Slot>)
    requires slots != []
    ensures NoEnd(slots) <==> !EndMark(slots[0]) && NoEnd(slots[1..])
  {
    assert forall i :: 1 <= i < |slots| ==> slots[i] == slots[1..][i - 1];
  }

  lemma {:induction false} CutHasNoEnd(a: seq<Slot>)
    ensures NoEnd(CutAtEnd(a)) && (NoEnd(a) ==> CutAtEnd(a) == a)
    decreases |a|
  {
    if a != [] && !EndMark(a[0]) {
      hide EndMark;
      CutHasNoEnd(a[1..]);
      NoEndTail(a);
      NoEndTail(CutAtEnd(a));
    }
  }

  lemma CutStep(slots: seq<Slot>)
    ensures CutAtEnd([]) == []
    ensures slots != [] ==>
              CutAtEnd(slots) == if EndMark(slots[0]) then [] else [slots[0]] + CutAtEnd(slots[1..])
  {
  }

  lemma {:induction false} CutConcat(a: seq<Slot>, b: seq<Slot>)
    ensures CutAtEnd(a + b) == if NoEnd(a) then a + CutAtEnd(b) else CutAtEnd(a)
    decreases |a|
  {
    hide EndMark;
    hide NoEnd;
    hide CutAtEnd;
    var cut := CutAtEnd(b);
    if a == [] {
      NothingEnds();
      assert a + b == b && a + cut == cut;
    } else {
      var rest := a[1..];
      assert (a + b)[0] == a[0] && (a + b)[1..] == rest + b;
      assert a + cut == [a[0]] + (rest + cut);
      NoEndTail(a);
      CutStep(a + b);
      CutStep(a);
      CutConcat(rest, b);
    }
  }

  lemma NothingEnds()
    ensures NoEnd([])
  {
  }

  lemma CutFacts(a: seq<Slot>, b: seq<Slot>)
    ensures NoEnd(CutAtEnd(a))
    ensures CutAtEnd(a + b) == if NoEnd(a) then a + CutAtEnd(b) else CutAtEnd(a)
    ensures NoEnd(a) ==> CutAtEnd(a) == a
  {
    CutHasNoEnd(a);
    CutConcat(a, b);
  }

  /** On every sequence of sectors the driver's search is the plain slot search over the visited slots. */
  lemma {:induction false} SearchVisits(ss: seq<Sector>, name: seq<byte>, l: Lfn)
    requires l.Wf()
    ensures ScanSectors(ss, name, l) == Scan(Visited(ss), name, l)
    decreases |ss|
  {
    if ss != [] {
      var slots := SlotsFrom(ss[0], 0);
      ScanCut(slots, name, l);
      CutFacts(slots, []);
      ScanConcat(CutAtEnd(slots), Visited(ss[1..]), name, l);
      SearchVisits(ss[1..], name, Scan(slots, name, l).1);
    }
  }

  lemma {:induction false} NothingVisited(ss: seq<Sector>)
    ensures Visited(ss) == [] <==> forall j :: 0 <= j < |ss| ==> StartsWithEnd(ss[j])
    decreases |ss|
  {
    if ss != [] {
      NothingVisited(ss[1..]);
      assert forall j :: 1 <= j < |ss| ==> ss[j] == ss[1..][j - 1];
    }
  }

  /** The search visits no slot behind the directory's end mark exactly when later sectors start with an end mark. */
  lemma {:induction false} VisitsToEndIff(ss: seq<Sector>)
    ensures Visited(ss) == CutAtEnd(AllSlots(ss)) <==> StopsAtEnd(ss)
    decreases |ss|
  {
    if ss != [] {
      var slots, rest := SlotsFrom(ss[0], 0), ss[1..];
      CutFacts(slots, AllSlots(rest));
      assert forall j :: 1 <= j < |ss| ==> ss[j] == rest[j - 1];
      if NoEnd(slots) {
        VisitsToEndIff(rest);
        PrefixCancels(slots, Visited(rest), CutAtEnd(AllSlots(rest)));
      } else {
        NothingVisited(rest);
        PrefixCancels(CutAtEnd(slots), Visited(rest), []);
        if Visited(rest) == [] {
          AllEndsStop(rest);
        }
      }
    }
  }

  lemma {:induction false} AllEndsStop(ss: seq<Sector>)
    requires forall j :: 0 <= j < |ss| ==> StartsWithEnd(ss[j])
    ensures StopsAtEnd(ss)
    decreases |ss|
  {
    if ss != [] {
      AllEndsStop(ss[1..]);
    }
  }

  lemma PrefixCancels<T>(p: seq<T>, a: seq<T>, b: seq<T>)
    ensures p + a == p + b <==> a == b
    ensures p + [] == p
  {
    assert a == (p + a)[|p|..] && b == (p + b)[|p|..];
  }

  // ── Directories of files ──────────────────────────────────────────────────

  /** What a directory holds: a deleted slot, or a file with its long-name slots (if any) before its 8.3 slot. */
  datatype Item = Hole(raw: Slot) | File(long: seq<byte>, longSlots: seq<Slot>, raw: Slot)

  predicate GoodItem(it: Item) {
    match it
    case Hole(raw) => DeletedSlot(raw)
    case File(long, longSlots, raw) =>
      ShortSlot(raw) && if longSlots == [] then long == [] else StoresLongName(longSlots, long)
  }

  predicate GoodItems(items: seq<Item>) { forall i :: 0 <= i < |items| ==> GoodItem(items[i]) }

  function ItemSlots(it: Item): seq<Slot> {
    match it
    case Hole(raw) => [raw]
    case File(_, longSlots, raw) => longSlots + [raw]
  }

  function Encode(items: seq<Item>): seq<Slot> {
    if items == [] then [] else ItemSlots(items[0]) + Encode(items[1..])
  }

  /** Sectors holding exactly `items`, then nothing or an end mark. */
  predicate Holds(ss: seq<Sector>, items: seq<Item>, tail: seq<Slot>) {
    && GoodItems(items) && StopsAtEnd(ss)
    && AllSlots(ss) == Encode(items) + tail && (tail == [] || EndMark(tail[0]))
  }

  /** `name` denotes the file: its long name up to case, or its short name in padded upper case. */
  predicate Denotes(it: Item, name: seq<byte>) {
    it.File? && ((it.long != [] && EqualFold(it.long, name)) || it.raw[..11] == Padded(name))
  }

  function Lookup(items: seq<Item>, name: seq<byte>): Option<DirEntry> {
    if items == [] then None
    else if Denotes(items[0], name) then ParseDirEntry(items[0].raw)
    else Lookup(items[1..], name)
  }

  lemma {:induction false} LongSlotsScan(slots: seq<Slot>, long: seq<byte>, ordinal: nat, rest: seq<Slot>,
                                         name: seq<byte>, l: Lfn)
    requires l.Wf() && LongRun(slots, long, ordinal)
    ensures Scan(slots + rest, name, l) == Scan(rest, name, AddAll(l, slots))
    decreases |slots|
  {
    hide LfnMatches;
    hide Padded;
    hide ParseDirEntry;
    hide AddEntry;
    if slots == [] {
      assert slots + rest == rest;
    } else {
      assert (slots + rest)[1..] == slots[1..] + rest;
      LongSlotsScan(slots[1..], long, ordinal - 1, rest, name, AddEntry(l, slots[0]));
    }
  }

  /** One item either is what the name denotes or leaves the search idle again. */
  lemma ItemScan(it: Item, rest: seq<Slot>, name: seq<byte>, l: Lfn) returns (l': Lfn)
    requires l.Idle() && GoodItem(it)
    ensures l'.Idle()
    ensures Denotes(it, name) ==> Scan(ItemSlots(it) + rest, name, l).0 == ParseDirEntry(it.raw)
    ensures !Denotes(it, name) ==> Scan(ItemSlots(it) + rest, name, l) == Scan(rest, name, l')
  {
    match it
    case Hole(raw) =>
      l' := l.Reset();
      assert ([raw] + rest)[1..] == rest;
    case File(long, longSlots, raw) =>
      var full := AddAll(l, longSlots);
      l' := full.Reset();
      assert longSlots + [raw] + rest == longSlots + ([raw] + rest);
      assert ([raw] + rest)[0] == raw && ([raw] + rest)[1..] == rest;
      if longSlots == [] {
        assert longSlots + ([raw] + rest) == [raw] + rest;
      } else {
        LongSlotsScan(longSlots, long, DivCeil(|long|, LFN_CHARS), [raw] + rest, name, l);
        LongNameRecovered(l, longSlots, long);
      }
  }

  lemma {:induction false} ItemsScan(items: seq<Item>, tail: seq<Slot>, name: seq<byte>, l: Lfn)
    requires l.Idle() && GoodItems(items) && (tail == [] || EndMark(tail[0]))
    ensures Scan(Encode(items) + tail, name, l).0 == Lookup(items, name)
    decreases |items|
  {
    if items == [] {
      assert Encode(items) + tail == tail;
    } else {
      var rest := Encode(items[1..]) + tail;
      assert Encode(items) + tail == ItemSlots(items[0]) + rest;
      var l' := ItemScan(items[0], rest, name, l);
      ItemsScan(items[1..], tail, name, l');
    }
  }

  /** Search returns the first file the name denotes, wherever long-name runs cross sector or cluster boundaries. */
  lemma SearchFindsFirst(ss: seq<Sector>, items: seq<Item>, tail: seq<Slot>, name: seq<byte>)
    requires Holds(ss, items, tail)
    ensures ScanSectors(ss, name, EMPTY_LFN).0 == Lookup(items, name)
  {
    SearchVisits(ss, name, EMPTY_LFN);
    VisitsToEndIff(ss);
    ScanCut(AllSlots(ss), name, EMPTY_LFN);
    ItemsScan(items, tail, name, EMPTY_LFN);
  }

  // ── Files behind the end mark ─────────────────────────────────────────────

  /** The directory ends behind `items`, but sectors after its end mark hold `hidden` before their own end marks. */
  ghost predicate Overrun(ss: seq<Sector>, items: seq<Item>, hidden: seq<Item>) {
    && GoodItems(items + hidden) && OneNamespace(items + hidden)
    && CutAtEnd(AllSlots(ss)) == Encode(items) && Visited(ss) == Encode(items + hidden)
  }

  lemma {:induction false} VisitedMore(ss: seq<Sector>, s: Sector)
    ensures Visited(ss + [s]) == Visited(ss) + CutAtEnd(SlotsFrom(s, 0))
    decreases |ss|
  {
    if ss == [] {
      assert [s][1..] == [] && ss + [s] == [s];
    } else {
      hide SlotsFrom;
      hide CutAtEnd;
      assert (ss + [s])[0] == ss[0] && (ss + [s])[1..] == ss[1..] + [s];
      VisitedMore(ss[1..], s);
    }
  }

  lemma {:induction false} EncodeMore(items: seq<Item>, it: Item)
    ensures Encode(items + [it]) == Encode(items) + ItemSlots(it)
    decreases |items|
  {
    if items == [] {
      assert [it][1..] == [] && items + [it] == [it];
    } else {
      assert (items + [it])[1..] == items[1..] + [it];
      EncodeMore(items[1..], it);
    }
  }

  lemma {:induction false} LongRunGoesOn(slots: seq<Slot>, name: seq<byte>, ordinal: nat)
    requires LongRun(slots, name, ordinal)
    ensures NoEnd(slots)
    decreases |slots|
  {
    if slots != [] {
      LongRunGoesOn(slots[1..], name, ordinal - 1);
      assert forall i :: 1 <= i < |slots| ==> slots[i] == slots[1..][i - 1];
    }
  }

  /** The slots of items hold no end mark. */
  lemma {:induction false} ItemsGoOn(items: seq<Item>)
    requires GoodItems(items)
    ensures NoEnd(Encode(items))
    decreases |items|
  {
    hide LongRun;
    if items != [] {
      var it := items[0];
      assert GoodItem(it);
      if it.File? && it.longSlots != [] {
        LongRunGoesOn(it.longSlots, it.long, DivCeil(|it.long|, LFN_CHARS));
      }
      ItemsGoOn(items[1..]);
    }
  }

  /** A sector with one 8.3 slot and nothing else. */
  function Lone(raw: Slot): (s: Sector)
    ensures CutAtEnd(SlotsFrom(s, 0)) == if EndMark(raw) then [] else [raw]
  {
    var s := raw + Zeros(SECTOR_SIZE - 32);
    assert SlotAt(s, 0) == raw && SlotAt(s, 1)[0] == 0;
    assert SlotsFrom(s, 0)[0] == raw && SlotsFrom(s, 0)[1..] == SlotsFrom(s, 1);
    s
  }

  /** Every directory that ends with an end mark can be overrun: one more sector with a file in it does. */
  lemma EndsCanBeOverrun(ss: seq<Sector>, items: seq<Item>, tail: seq<Slot>, raw: Slot)
    requires Holds(ss, items, tail) && tail != [] && ShortSlot(raw) && OneNamespace(items + [File([], [], raw)])
    ensures Overrun(ss + [Lone(raw)], items, [File([], [], raw)])
  {
    hide SlotsFrom;
    hide AllSlots;
    hide Visited;
    hide CutAtEnd;
    hide Encode;
    hide Denotes;
    hide StopsAtEnd;
    var it, slots := File([], [], raw), AllSlots(ss);
    VisitedMore(ss, Lone(raw));
    EncodeMore(items, it);
    VisitsToEndIff(ss);
    AllSlotsConcat(ss, [Lone(raw)]);
    EndsAtTail(items, tail);
    CutFacts(slots, AllSlots([Lone(raw)]));
    assert ItemSlots(it) == [raw];
  }

  lemma EndsAtTail(items: seq<Item>, tail: seq<Slot>)
    requires GoodItems(items) && tail != [] && EndMark(tail[0])
    ensures CutAtEnd(Encode(items) + tail) == Encode(items) && !NoEnd(Encode(items) + tail)
  {
    CutFacts(Encode(items), tail);
    ItemsGoOn(items);
    assert (Encode(items) + tail)[|Encode(items)|] == tail[0];
  }

  lemma ZerosAreEmpty(ss: seq<Sector>) returns (tail: seq<Slot>)
    requires |ss| == 1 && ss[0] == Zeros(SECTOR_SIZE)
    ensures Holds(ss, [], tail) && tail != []
  {
    tail := AllSlots(ss);
    assert ss[1..] == [] && StopsAtEnd(ss[1..]);
    assert tail[0] == SlotsFrom(ss[0], 0)[0] == SlotAt(ss[0], 0);
    assert Encode([]) + tail == tail;
  }

  /** For example, behind an empty directory. */
  lemma OverrunExists(raw: Slot) returns (ss: seq<Sector>)
    requires ShortSlot(raw)
    ensures Overrun(ss, [], [File([], [], raw)])
  {
    hide Holds;
    hide Overrun;
    hide Denotes;
    var empty: seq<Sector> := [Zeros(SECTOR_SIZE)];
    var tail := ZerosAreEmpty(empty);
    ss := empty + [Lone(raw)];
    assert [] + [File([], [], raw)] == [File([], [], raw)];
    EndsCanBeOverrun(empty, [], tail, raw);
  }

  lemma OverrunSearch(ss: seq<Sector>, items: seq<Item>, hidden: seq<Item>, name: seq<byte>)
    requires Overrun(ss, items, hidden)
    ensures GoodItems(items) && GoodItems(hidden)
    ensures ScanSectors(ss, name, EMPTY_LFN).0 == Lookup(items + hidden, name)
    ensures Scan(AllSlots(ss), name, EMPTY_LFN).0 == Lookup(items, name)
  {
    var all := items + hidden;
    assert GoodItems(items) by {
      assert forall i :: 0 <= i < |items| ==> items[i] == all[i];
    }
    assert GoodItems(hidden) by {
      assert forall i :: 0 <= i < |hidden| ==> hidden[i] == all[|items| + i];
    }
    SearchVisits(ss, name, EMPTY_LFN);
    ScanCut(AllSlots(ss), name, EMPTY_LFN);
    ItemsScan(all, [], name, EMPTY_LFN);
    ItemsScan(items, [], name, EMPTY_LFN);
    assert Encode(all) + [] == Encode(all) && Encode(items) + [] == Encode(items);
  }

  lemma {:induction false} LookupMisses(items: seq<Item>, name: seq<byte>)
    requires GoodItems(items)
    ensures Lookup(items, name) == None <==> forall i :: 0 <= i < |items| ==> !Denotes(items[i], name)
    decreases |items|
  {
    hide Denotes;
    if items != [] {
      LookupMisses(items[1..], name);
      assert forall i :: 1 <= i < |items| ==> items[i] == items[1..][i - 1];
      assert GoodItem(items[0]);
      DenotedIsFile(items[0], name);
    }
  }

  lemma DenotedIsFile(it: Item, name: seq<byte>)
    ensures Denotes(it, name) ==> it.File?
  {
  }

  lemma {:induction false} LookupConcat(a: seq<Item>, b: seq<Item>, name: seq<byte>)
    requires GoodItems(a)
    ensures Lookup(a + b, name) == if Lookup(a, name).Some? then Lookup(a, name) else Lookup(b, name)
    decreases |a|
  {
    hide Denotes;
    if a == [] {
      assert a + b == b;
    } else {
      assert (a + b)[1..] == a[1..] + b && GoodItem(a[0]);
      DenotedIsFile(a[0], name);
      LookupConcat(a[1..], b, name);
    }
  }

  /** A hidden file is found by every name that denotes it, although the directory ends before it. */
  lemma HiddenFileFound(ss: seq<Sector>, items: seq<Item>, hidden: seq<Item>, h: nat, name: seq<byte>)
    requires Overrun(ss, items, hidden) && h < |hidden| && Denotes(hidden[h], name)
    ensures ScanSectors(ss, name, EMPTY_LFN).0 == ParseDirEntry(hidden[h].raw) != None
    ensures Scan(AllSlots(ss), name, EMPTY_LFN).0 == Lookup(items, name) == None
  {
    hide Denotes;
    var all := items + hidden;
    OverrunSearch(ss, items, hidden, name);
    assert all[|items| + h] == hidden[h] && GoodItem(hidden[h]);
    DenotedIsFile(hidden[h], name);
    LookupUnique(all, hidden[h], name);
    LookupMisses(items, name);
    forall i | 0 <= i < |items| ensures !Denotes(items[i], name) {
      assert all[i] == items[i];
    }
  }

  /** Some name denotes the file: it has a long name, or a short name a path component can spell. */
  predicate Nameable(it: Item) { it.File? && (it.long != [] || Searchable(it.raw[..11])) }

  lemma NameableIff(it: Item)
    requires GoodItem(it)
    ensures Nameable(it) <==> exists name :: Denotes(it, name)
  {
    if it.File? {
      FormatFindsItself(it.raw[..11]);
      if it.long != [] {
        assert Denotes(it, it.long);
      } else if Searchable(it.raw[..11]) {
        assert Denotes(it, Format83(it.raw[..11]));
      }
      forall name | Denotes(it, name) ensures Nameable(it) {
        PaddedSearchable(name);
      }
    }
  }

  /** The search answers every name as if the directory ended at its end mark exactly if no hidden file is nameable. */
  lemma EndRespectedIff(ss: seq<Sector>, items: seq<Item>, hidden: seq<Item>)
    requires Overrun(ss, items, hidden)
    ensures (forall name :: ScanSectors(ss, name, EMPTY_LFN).0 == Lookup(items, name))
       <==> forall h :: 0 <= h < |hidden| ==> !Nameable(hidden[h])
  {
    hide Denotes;
    hide Nameable;
    if h :| 0 <= h < |hidden| && Nameable(hidden[h]) {
      OverrunSearch(ss, items, hidden, []);
      NameableIff(hidden[h]);
      var name :| Denotes(hidden[h], name);
      HiddenFileFound(ss, items, hidden, h, name);
    } else {
      forall name ensures ScanSectors(ss, name, EMPTY_LFN).0 == Lookup(items, name) {
        OverrunSearch(ss, items, hidden, name);
        LookupConcat(items, hidden, name);
        LookupMisses(hidden, name);
        forall h | 0 <= h < |hidden| ensures !Denotes(hidden[h], name) {
          NameableIff(hidden[h]);
        }
      }
    }
  }

  // ── Enumeration agrees with lookup ────────────────────────────────────────

  function Files(items: seq<Item>): seq<Item> {
    if items == [] then []
    else (if items[0].File? then [items[0]] else []) + Files(items[1..])
  }

  lemma {:induction false} PickSkipsLong(slots: seq<Slot>, long: seq<byte>, ordinal: nat, rest: seq<Slot>, index: nat)
    requires LongRun(slots, long, ordinal)
    ensures PickSlot(slots + rest, index) == PickSlot(rest, index)
    decreases |slots|
  {
    hide Chars;
    hide StoredChar;
    hide ParseDirEntry;
    if slots == [] {
      assert slots + rest == rest;
    } else {
      assert (slots + rest)[1..] == slots[1..] + rest;
      PickSkipsLong(slots[1..], long, ordinal - 1, rest, index);
    }
  }

  /** One item contributes its file to the count, or nothing. */
  lemma ItemPick(it: Item, rest: seq<Slot>, index: nat)
    requires GoodItem(it)
    ensures PickSlot(ItemSlots(it) + rest, index)
         == if it.Hole? then PickSlot(rest, index)
            else if index == 0 then Hit(ParseDirEntry(it.raw).value)
            else PickSlot(rest, index - 1)
    ensures it.File? ==> ParseDirEntry(it.raw).Some?
  {
    hide LongRun;
    var tail := [it.raw] + rest;
    assert tail[0] == it.raw && tail[1..] == rest;
    if it.File? {
      assert ItemSlots(it) + rest == it.longSlots + tail;
      if it.longSlots == [] {
        assert it.longSlots + tail == tail;
      } else {
        PickSkipsLong(it.longSlots, it.long, DivCeil(|it.long|, LFN_CHARS), tail, index);
      }
    }
  }

  /** Enumeration by index yields the files in directory order. */
  lemma {:induction false} PickIsNthFile(items: seq<Item>, tail: seq<Slot>, index: nat)
    requires GoodItems(items) && (tail == [] || EndMark(tail[0]))
    ensures Picked(PickSlot(Encode(items) + tail, index))
         == if index < |Files(items)| then ParseDirEntry(Files(items)[index].raw) else None
    decreases |items|
  {
    hide ParseDirEntry;
    hide GoodItem;
    hide ItemSlots;
    if items == [] {
      assert Encode(items) + tail == tail;
    } else {
      var it, rest := items[0], Encode(items[1..]) + tail;
      assert Encode(items) + tail == ItemSlots(it) + rest;
      ItemPick(it, rest, index);
      PickIsNthFile(items[1..], tail, if it.Hole? || index == 0 then index else index - 1);
    }
  }

  lemma {:induction false} FilesAreItems(items: seq<Item>, i: nat)
    requires i < |Files(items)|
    ensures Files(items)[i] in items && Files(items)[i].File?
  {
    if !items[0].File? {
      FilesAreItems(items[1..], i);
    } else if i > 0 {
      FilesAreItems(items[1..], i - 1);
    }
  }

  /** Long and short names share one namespace without collisions. */
  ghost predicate OneNamespace(items: seq<Item>) {
    forall i, j, name :: 0 <= i < j < |items| ==> !(Denotes(items[i], name) && Denotes(items[j], name))
  }

  lemma {:induction false} LookupUnique(items: seq<Item>, it: Item, name: seq<byte>)
    requires OneNamespace(items) && it in items && Denotes(it, name)
    ensures Lookup(items, name) == ParseDirEntry(it.raw)
    decreases |items|
  {
    if items[0] != it {
      var j :| 1 <= j < |items| && items[j] == it;
      assert it == items[1..][j - 1];
      LookupUnique(items[1..], it, name);
    }
  }

  /** Printing the name of any enumerated entry and searching for the print returns that entry. */
  lemma ReaddirAgreesWithLookup(ss: seq<Sector>, items: seq<Item>, tail: seq<Slot>, index: nat)
    requires Holds(ss, items, tail) && OneNamespace(items)
    requires PickSlot(AllSlots(ss), index).Hit? && Searchable(PickSlot(AllSlots(ss), index).entry.name)
    ensures var e := PickSlot(AllSlots(ss), index).entry;
            ScanSectors(ss, Format83(e.name), EMPTY_LFN).0 == Some(e)
  {
    PickIsNthFile(items, tail, index);
    FilesAreItems(items, index);
    var it := Files(items)[index];
    var e := PickSlot(AllSlots(ss), index).entry;
    FormatFindsItself(e.name);
    LookupUnique(items, it, Format83(e.name));
    SearchFindsFirst(ss, items, tail, Format83(e.name));
  }
}
