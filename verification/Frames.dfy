/** Frame capabilities and the kernel's split, as far as the two page pools depend on them. */
module Frames {
  import opened Bytes

  /** A frame capability, named by the physical pages it covers. */
  datatype Frame = Frame(base: nat, pages: nat)

  predicate Disjoint(f: Frame, g: Frame) { f.base + f.pages <= g.base || g.base + g.pages <= f.base }

  function First(f: Frame): Frame { Frame(f.base, 1) }

  function Rest(f: Frame): Frame
    requires f.pages > 1
  {
    Frame(f.base + 1, f.pages - 1)
  }

  /** The kernel's side of a split; it may refuse one, and `refusals` counts how often it did. */
  class Kernel {
    var refusals: nat

    constructor ()
      ensures refusals == 0
    {
      refusals := 0;
    }

    /** The split at one page: it fails on a single page, and on a larger frame exactly when the kernel refuses. */
    method FrameSplit(f: Frame) returns (r: Option<(Frame, Frame)>)
      modifies this
      ensures f.pages <= 1 ==> r.None? && refusals == old(refusals)
      ensures f.pages > 1 ==> refusals == old(refusals) + if r.None? then 1 else 0
      ensures r.Some? ==> f.pages > 1 && r.value == (First(f), Rest(f))
    {
      if f.pages <= 1 {
        return None;
      }
      var refused := *;
      if refused {
        refusals := refusals + 1;
        return None;
      }
      r := Some((First(f), Rest(f)));
    }
  }
}
