/** procmgr's page allocator over delegated frames, with a bounded free list. */
module FramePool {
  import opened Bytes
  import opened Frames

  const MAX_FREE_PAGES: nat := 64

  /** Every piece of memory is there once and no two share a page. */
  ghost predicate Apart(pieces: multiset<Frame>) {
    && (forall f :: f in pieces ==> pieces[f] == 1 && f.pages > 0)
    && (forall f, g :: f in pieces && g in pieces && f != g ==> Disjoint(f, g))
  }

  function Pages(frames: seq<Frame>): nat {
    if frames == [] then 0 else frames[0].pages + Pages(frames[1..])
  }

  lemma SplitApart(pieces: multiset<Frame>, f: Frame)
    requires Apart(pieces) && f in pieces && f.pages > 1
    ensures Apart(pieces - multiset{f} + multiset{First(f)} + multiset{Rest(f)})
  {
    var others := pieces - multiset{f};
    assert forall g :: g in others ==> g in pieces && g != f && Disjoint(f, g);
  }

  // ── The pool as a value ───────────────────────────────────────────────────

  /**
   * `out` are the frames in callers' hands, `leaked` those returned when the free list was full, and `uncounted` the
   * pages beyond the first of frames handed out whole.
   */
  datatype View = View(out: multiset<Frame>, leaked: multiset<Frame>, free: seq<Frame>, current: Option<Frame>,
                       rest: seq<Frame>, taken: nat, uncounted: nat) {
    ghost function Pieces(): multiset<Frame> {
      out + leaked + multiset(free) + (if current.Some? then multiset{current.value} else multiset{}) + multiset(rest)
    }

    /** Pages not handed out yet. */
    function Unsplit(): nat { (if current.Some? then current.value.pages else 0) + Pages(rest) }

    ghost predicate Ok(total: nat) {
      && Apart(Pieces())
      && |free| <= MAX_FREE_PAGES
      && taken == |out| + |leaked|
      && taken + |free| + Unsplit() + uncounted == total
    }

    predicate Empty() { free == [] && current.None? && rest == [] }

    /** The counters account for every delegated page. */
    predicate Balanced(total: nat) { taken + |free| + Unsplit() == total }
  }

  function TakeFree(v: View): View
    requires v.free != []
  {
    var n := |v.free| - 1;
    v.(free := v.free[..n], out := v.out + multiset{v.free[n]}, taken := v.taken + 1)
  }

  function TakeWhole(v: View): View
    requires v.current.Some? && v.current.value.pages > 0
  {
    var f := v.current.value;
    v.(current := None, out := v.out + multiset{f}, taken := v.taken + 1, uncounted := v.uncounted + f.pages - 1)
  }

  function TakePage(v: View): View
    requires v.current.Some? && v.current.value.pages > 1
  {
    var f := v.current.value;
    v.(current := Some(Rest(f)), out := v.out + multiset{First(f)}, taken := v.taken + 1)
  }

  function Refill(v: View): View
    requires v.current.None? && v.rest != []
  {
    v.(current := Some(v.rest[0]), rest := v.rest[1..])
  }

  function PutBack(v: View, f: Frame): View
    requires f in v.out && v.taken > 0
  {
    if |v.free| < MAX_FREE_PAGES then
      v.(free := v.free + [f], out := v.out - multiset{f}, taken := v.taken - 1)
    else
      v.(leaked := v.leaked + multiset{f}, out := v.out - multiset{f})
  }

  lemma TakeFreeOk(v: View, total: nat)
    requires v.Ok(total) && v.free != []
    ensures TakeFree(v).Ok(total)
  {
    var n := |v.free| - 1;
    assert v.free == v.free[..n] + [v.free[n]];
    assert TakeFree(v).Pieces() == v.Pieces();
  }

  lemma TakeWholeOk(v: View, total: nat)
    requires v.Ok(total) && v.current.Some?
    ensures v.current.value.pages > 0 && TakeWhole(v).Ok(total)
  {
    assert v.current.value in v.Pieces();
    assert TakeWhole(v).Pieces() == v.Pieces();
  }

  lemma TakePageOk(v: View, total: nat)
    requires v.Ok(total) && v.current.Some? && v.current.value.pages > 1
    ensures TakePage(v).Ok(total)
  {
    var f := v.current.value;
    assert f in v.Pieces();
    SplitApart(v.Pieces(), f);
    assert TakePage(v).Pieces() == v.Pieces() - multiset{f} + multiset{First(f)} + multiset{Rest(f)};
  }

  lemma RefillOk(v: View, total: nat)
    requires v.Ok(total) && v.current.None? && v.rest != []
    ensures Refill(v).Ok(total)
  {
    assert v.rest == [v.rest[0]] + v.rest[1..];
    assert Refill(v).Pieces() == v.Pieces();
  }

  lemma RefillUnsplit(v: View)
    requires v.current.None? && v.rest != []
    ensures Refill(v).Unsplit() == v.Unsplit()
  {
  }

  lemma Moved(out: multiset<Frame>, leaked: multiset<Frame>, free: multiset<Frame>, f: Frame)
    requires f in out
    ensures (out - multiset{f}) + leaked + (free + multiset{f}) == out + leaked + free
    ensures (out - multiset{f}) + (leaked + multiset{f}) + free == out + leaked + free
    ensures |out| > 0 && |out - multiset{f}| == |out| - 1
  {
    assert out == out - multiset{f} + multiset{f};
  }

  lemma PutBackPieces(v: View, f: Frame)
    requires f in v.out && v.taken > 0
    ensures PutBack(v, f).Pieces() == v.Pieces()
  {
    Moved(v.out, v.leaked, multiset(v.free), f);
    var w := PutBack(v, f);
    assert |v.free| < MAX_FREE_PAGES ==> multiset(w.free) == multiset(v.free) + multiset{f};
    assert w.out + w.leaked + multiset(w.free) == v.out + v.leaked + multiset(v.free);
  }

  lemma PutBackOk(v: View, f: Frame, total: nat)
    requires v.Ok(total) && f in v.out
    ensures v.taken > 0 && PutBack(v, f).Ok(total)
  {
    hide Apart;
    hide View.Pieces;
    Moved(v.out, v.leaked, multiset(v.free), f);
    PutBackPieces(v, f);
  }

  /** A frame handed out next shares no page with any frame in a caller's hands. */
  lemma HandedOutApart(v: View, total: nat, f: Frame, g: Frame)
    requires v.Ok(total) && f in v.out && g in v.out && (f != g || v.out[f] > 1)
    ensures f != g && Disjoint(f, g)
  {
    assert f in v.Pieces() && g in v.Pieces() && v.Pieces()[f] >= v.out[f];
  }

  /** The counters account for every page exactly when no page was handed out uncounted. */
  lemma BalancedIff(v: View, total: nat)
    requires v.Ok(total)
    ensures v.Balanced(total) <==> v.uncounted == 0
  {
  }

  datatype FramesReply = InvalidArgument | OutOfFrames | Granted(caps: seq<Frame>)

  // ── The pool as the program keeps it ──────────────────────────────────────

  class Pool {
    const kernel: Kernel
    const frames: seq<Frame>
    var current: Option<Frame>
    var nextIdx: nat
    var allocatedPages: nat
    const freeList: array<Frame>
    var freeCount: nat

    /** History the program does not keep. */
    ghost var out: multiset<Frame>
    ghost var leaked: multiset<Frame>
    ghost var uncounted: nat

    ghost predicate InBounds()
      reads this
    {
      nextIdx <= |frames| && freeList.Length == MAX_FREE_PAGES && freeCount <= MAX_FREE_PAGES
    }

    ghost function Seen(): View
      requires InBounds()
      reads this, freeList
    {
      View(out, leaked, freeList[..freeCount], current, frames[nextIdx..], allocatedPages, uncounted)
    }

    ghost predicate Valid()
      reads this, freeList
    {
      InBounds() && Seen().Ok(Pages(frames))
    }

    constructor (k: Kernel, delegated: seq<Frame>)
      requires Apart(multiset(delegated))
      ensures Valid() && fresh(freeList) && kernel == k && frames == delegated && out == multiset{}
      ensures Seen().Balanced(Pages(frames))
    {
      kernel := k;
      frames, current, nextIdx, allocatedPages, freeCount := delegated, None, 0, 0, 0;
      freeList := new Frame[MAX_FREE_PAGES](_ => Frame(0, 0));
      out, leaked, uncounted := multiset{}, multiset{}, 0;
      new;
      assert frames[0..] == frames;
      assert Seen().Pieces() == multiset(delegated);
    }

    /**
     * Hands out a frame no caller holds, or `None` exactly when nothing is left. Unless the kernel refuses a split, a
     * frame that was not in use before is a single page and the rest is kept; the counters stay balanced exactly then.
     */
    method AllocPage() returns (r: Option<Frame>)
      requires Valid()
      modifies this, freeList, kernel
      ensures Valid() && kernel.refusals >= old(kernel.refusals)
      ensures r.None? <==> old(Seen().Empty())
      ensures r.None? ==> Seen() == old(Seen()) && kernel.refusals == old(kernel.refusals)
      ensures r.Some? ==> out == old(out) + multiset{r.value} && leaked == old(leaked)
      ensures r.Some? ==> allocatedPages == old(allocatedPages) + 1
      ensures r.Some? ==> forall g :: g in old(out) ==> Disjoint(r.value, g)
      ensures old(freeCount) > 0 ==>
                && r == Some(old(freeList[freeCount - 1])) && freeList[..freeCount] == old(freeList[..freeCount - 1])
                && Seen().Unsplit() == old(Seen().Unsplit()) && kernel.refusals == old(kernel.refusals)
      ensures old(freeCount) == 0 && r.Some? ==>
                && Seen().Unsplit() == old(Seen().Unsplit()) - r.value.pages
                && (kernel.refusals == old(kernel.refusals) <==> r.value.pages == 1)
      ensures Seen().Balanced(Pages(frames))
         <==> old(Seen().Balanced(Pages(frames))) && kernel.refusals == old(kernel.refusals)
    {
      hide View.Ok;
      hide View.Balanced;
      hide Pages;
      ghost var v := Seen();
      BalancedIff(v, Pages(frames));
      if freeCount > 0 {
        TakeFreeOk(v, Pages(frames));
        freeCount := freeCount - 1;
        r := Some(freeList[freeCount]);
        allocatedPages, out := allocatedPages + 1, out + multiset{r.value};
        assert freeList[..freeCount + 1][..freeCount] == freeList[..freeCount];
        assert Seen() == TakeFree(v);
      } else {
        if current.None? {
          if nextIdx >= |frames| {
            return None;
          }
          RefillOk(v, Pages(frames));
          RefillUnsplit(v);
          current, nextIdx := Some(frames[nextIdx]), nextIdx + 1;
          assert Seen() == Refill(v);
        }
        r := TakeCurrent();
      }
      BalancedIff(Seen(), Pages(frames));
      forall g | g in old(out) ensures Disjoint(r.value, g) {
        HandedOutApart(Seen(), Pages(frames), r.value, g);
      }
    }

    /** Splits a page off the current frame, or hands the frame out whole when the split fails. */
    method TakeCurrent() returns (r: Option<Frame>)
      requires Valid() && current.Some?
      modifies this, kernel
      ensures Valid() && freeCount == old(freeCount) && nextIdx == old(nextIdx)
      ensures r.Some? && out == old(out) + multiset{r.value} && leaked == old(leaked)
      ensures allocatedPages == old(allocatedPages) + 1
      ensures Seen().Unsplit() == old(Seen().Unsplit()) - r.value.pages
      ensures kernel.refusals == old(kernel.refusals) + if r.value.pages == 1 then 0 else 1
      ensures uncounted == old(uncounted) + r.value.pages - 1 && r.value.pages > 0
    {
      hide View.Ok;
      hide View.Balanced;
      hide Pages;
      ghost var v := Seen();
      var f := current.value;
      TakeWholeOk(v, Pages(frames));
      var halves := kernel.FrameSplit(f);
      if halves.Some? {
        TakePageOk(v, Pages(frames));
        current, r := Some(halves.value.1), Some(halves.value.0);
        allocatedPages, out := allocatedPages + 1, out + multiset{First(f)};
        assert Seen() == TakePage(v);
      } else {
        current, r := None, Some(f);
        allocatedPages, out, uncounted := allocatedPages + 1, out + multiset{f}, uncounted + f.pages - 1;
        assert Seen() == TakeWhole(v);
      }
    }

    /** Takes a frame back; a full free list loses it but keeps it counted as allocated. */
    method FreePage(f: Frame)
      requires Valid() && f in out
      modifies this, freeList
      ensures Valid() && out == old(out) - multiset{f}
      ensures Seen().Unsplit() == old(Seen().Unsplit())
      ensures Seen().Balanced(Pages(frames)) == old(Seen().Balanced(Pages(frames)))
      ensures if old(freeCount) < 64 then freeList[..freeCount] == old(freeList[..freeCount]) + [f]
              else leaked == old(leaked) + multiset{f} && allocatedPages == old(allocatedPages)
    {
      hide View.Ok;
      hide View.Balanced;
      hide Pages;
      ghost var v := Seen();
      PutBackOk(v, f, Pages(frames));
      BalancedIff(v, Pages(frames));
      if freeCount < MAX_FREE_PAGES {
        freeList[freeCount] := f;
        freeCount := freeCount + 1;
        if allocatedPages > 0 {
          allocatedPages := allocatedPages - 1;
        }
        out := out - multiset{f};
        assert freeList[..freeCount] == v.free + [f];
        assert Seen() == PutBack(v, f);
      } else {
        out, leaked := out - multiset{f}, leaked + multiset{f};
        assert Seen() == PutBack(v, f);
      }
      BalancedIff(Seen(), Pages(frames));
    }

    /**
     * REQUEST_FRAMES: up to four frames, fewer only when the pool runs dry, all new to the callers. The balance is lost
     * exactly if the kernel refuses a split on the way.
     */
    method HandleRequestFrames(requested: nat) returns (reply: FramesReply)
      requires Valid()
      modifies this, freeList, kernel
      ensures Valid() && leaked == old(leaked) && kernel.refusals >= old(kernel.refusals)
      ensures reply.InvalidArgument? <==> requested == 0 || requested > 4
      ensures reply.OutOfFrames? <==> 0 < requested <= 4 && old(Seen().Empty())
      ensures reply.Granted? ==> 0 < |reply.caps| <= requested && out == old(out) + multiset(reply.caps)
      ensures reply.Granted? && |reply.caps| < requested ==> Seen().Empty()
      ensures !reply.Granted? ==> Seen() == old(Seen())
      ensures Seen().Balanced(Pages(frames))
         <==> old(Seen().Balanced(Pages(frames))) && kernel.refusals == old(kernel.refusals)
    {
      hide View.Ok;
      hide View.Balanced;
      hide Pages;
      if requested == 0 || requested > 4 {
        return InvalidArgument;
      }
      var caps := GrantFrames(requested);
      reply := if caps == [] then OutOfFrames else Granted(caps);
    }

    /** The loop of the request: allocates until enough frames are granted or none is left. */
    method GrantFrames(requested: nat) returns (caps: seq<Frame>)
      requires Valid() && requested > 0
      modifies this, freeList, kernel
      ensures Valid() && leaked == old(leaked) && kernel.refusals >= old(kernel.refusals)
      ensures |caps| <= requested && out == old(out) + multiset(caps)
      ensures |caps| < requested ==> Seen().Empty()
      ensures caps == [] <==> old(Seen().Empty())
      ensures caps == [] ==> Seen() == old(Seen())
      ensures Seen().Balanced(Pages(frames))
         <==> old(Seen().Balanced(Pages(frames))) && kernel.refusals == old(kernel.refusals)
    {
      hide View.Ok;
      hide View.Balanced;
      hide Pages;
      caps := [];
      for i := 0 to requested
        invariant Valid() && leaked == old(leaked) && kernel.refusals >= old(kernel.refusals)
        invariant |caps| == i && out == old(out) + multiset(caps)
        invariant i == 0 ==> Seen() == old(Seen()) && kernel.refusals == old(kernel.refusals)
        invariant i > 0 ==> !old(Seen().Empty())
        invariant Seen().Balanced(Pages(frames))
             <==> old(Seen().Balanced(Pages(frames))) && kernel.refusals == old(kernel.refusals)
      {
        var page := AllocPage();
        if page.None? {
          break;
        }
        caps := caps + [page.value];
      }
    }
  }
}
