/** Path resolution from the root directory (fs/fat/src/dir.rs). */
module FatPath {
  import opened Bytes
  import opened Fat
  import opened FatDriver
  import opened FatNames
  import opened FatDir

  const SLASH: byte := 0x2F
  const ATTR_DIRECTORY: byte := 0x10

  const ROOT_NAME: ShortName := [SLASH, SPACE, SPACE, SPACE, SPACE, SPACE, SPACE, SPACE, SPACE, SPACE, SPACE]

  predicate IsDirectory(e: DirEntry) { e.attr / ATTR_DIRECTORY % 2 == 1 }

  // ── What a path means ─────────────────────────────────────────────────────

  /** Index of the first slash, or the length when there is none. */
  function SlashPos(path: seq<byte>): (p: nat)
    ensures p <= |path| && (p < |path| ==> path[p] == SLASH)
    ensures forall i :: 0 <= i < p ==> path[i] != SLASH
  {
    if path == [] || path[0] == SLASH then 0 else 1 + SlashPos(path[1..])
  }

  /** The non-empty pieces between slashes. */
  function Components(path: seq<byte>): seq<seq<byte>>
    decreases |path|
  {
    var p := SlashPos(path);
    var here := if p == 0 then [] else [path[..p]];
    if p == |path| then here else here + Components(path[p + 1..])
  }

  /** Follows components from a directory cluster, `find` being the directory lookup. */
  ghost function Follow(find: (u32, seq<byte>) -> Option<DirEntry>, cluster: u32, components: seq<seq<byte>>)
    : Option<DirEntry>
    requires components != []
    decreases |components|
  {
    match find(cluster, components[0])
    case None => None
    case Some(e) =>
      if |components| == 1 then Some(e)
      else if !IsDirectory(e) then None
      else Follow(find, e.cluster, components[1..])
  }

  /** One name more: looked up in the directory the path before it leads to, and in nothing else. */
  lemma {:induction false} FollowFurther(find: (u32, seq<byte>) -> Option<DirEntry>, cluster: u32,
                                         front: seq<seq<byte>>, name: seq<byte>)
    requires front != []
    ensures Follow(find, cluster, [name]) == find(cluster, name)
    ensures var dir := Follow(find, cluster, front);
            Follow(find, cluster, front + [name])
            == if dir.Some? && IsDirectory(dir.value) then find(dir.value.cluster, name) else None
    decreases |front|
  {
    hide IsDirectory;
    var found := find(cluster, front[0]);
    assert (front + [name])[1..] == front[1..] + [name];
    if |front| == 1 {
      assert front[1..] + [name] == [name];
    } else if found.Some? && IsDirectory(found.value) {
      FollowFurther(find, found.value.cluster, front[1..], name);
    }
  }

  function RootOf(g: Geometry): u32 {
    match g.fatType case Fat32 => g.rootCluster case Fat16 => 0
  }

  ghost function Resolved(find: (u32, seq<byte>) -> Option<DirEntry>, g: Geometry, path: seq<byte>): Option<DirEntry> {
    if Components(path) == [] then Some(DirEntry(ROOT_NAME, ATTR_DIRECTORY, RootOf(g), 0))
    else Follow(find, RootOf(g), Components(path))
  }

  /** Lookup in the directory that starts at a cluster. */
  ghost function Finder(img: Image, g: Geometry, chains: u32 -> seq<u32>): (u32, seq<byte>) -> Option<DirEntry> {
    (c: u32, name: seq<byte>) => ScanSectors(DirSectors(img, g, c, chains(c)), name, EMPTY_LFN).0
  }

  /** The search in every directory the path leads through ends, which it need not on a cyclic chain. */
  ghost predicate EndsAlong(img: Image, g: Geometry, chains: u32 -> seq<u32>, cluster: u32, components: seq<seq<byte>>)
    requires g.Usable()
    decreases |components|
  {
    components != [] ==>
      && (cluster != 0 ==> SearchEnds(img, g, cluster, components[0], chains(cluster)))
      && var found := Finder(img, g, chains)(cluster, components[0]);
      found.Some? && IsDirectory(found.value) ==> EndsAlong(img, g, chains, found.value.cluster, components[1..])
  }

  /** Bit 4 of the attribute byte says directory. */
  lemma DirectoryBit(e: DirEntry, low: nat, bit: nat, high: nat)
    requires low < 16 && bit < 2 && e.attr == low + 16 * bit + 32 * high
    ensures IsDirectory(e) <==> bit == 1
  {
    assert e.attr == low + 16 * (bit + 2 * high);
    assert e.attr / 16 == bit + 2 * high;
  }

  function Join(names: seq<seq<byte>>): seq<byte> {
    if names == [] then [] else [SLASH] + names[0] + Join(names[1..])
  }

  lemma LoneComponent(name: seq<byte>)
    requires name != [] && SLASH !in name
    ensures Components(name) == [name] && Components([]) == []
  {
    assert SlashPos(name) == |name| && name[..|name|] == name;
  }

  lemma ComponentsOfName(name: seq<byte>, rest: seq<byte>)
    requires name != [] && SLASH !in name && (rest == [] || rest[0] == SLASH)
    ensures Components(name + rest) == [name] + Components(rest)
  {
    hide Components;
    var path, n := name + rest, |name|;
    if rest == [] {
      assert path == name;
      LoneComponent(name);
    } else {
      assert path[n] == SLASH && path[..n] == name && path[n + 1..] == rest[1..];
      forall i | 0 <= i < n ensures path[i] != SLASH {
        assert path[i] == name[i];
      }
      ComponentsAt(path, n);
      ComponentsAt(rest, 0);
    }
  }

  /** A path means the names it was written with, however many of them. */
  lemma {:induction false} JoinReadBack(names: seq<seq<byte>>)
    requires forall i :: 0 <= i < |names| ==> names[i] != [] && 0x2F !in names[i]
    ensures Components(Join(names)) == names
    decreases |names|
  {
    if names != [] {
      hide Components;
      var name, rest := names[0], Join(names[1..]);
      JoinReadBack(names[1..]);
      assert Join(names) == [SLASH] + (name + rest);
      LeadingSlashes([SLASH], name + rest);
      ComponentsOfName(name, rest);
      assert names == [name] + names[1..];
    }
  }

  // ── Slash stripping ───────────────────────────────────────────────────────

  lemma {:induction false} ComponentsOfSlashes(path: seq<byte>)
    requires forall i :: 0 <= i < |path| ==> path[i] == SLASH
    ensures Components(path) == []
    decreases |path|
  {
    if path != [] {
      ComponentsOfSlashes(path[1..]);
    }
  }

  /** Components of a path known to have its first slash at `p`. */
  lemma ComponentsAt(path: seq<byte>, p: nat)
    requires p < |path| && path[p] == SLASH && forall i :: 0 <= i < p ==> path[i] != SLASH
    ensures Components(path) == (if p == 0 then [] else [path[..p]]) + Components(path[p + 1..])
  {
    assert SlashPos(path) == p;
  }

  /** Slashes alone lead to the root directory, which has the name "/" and is a directory. */
  lemma RootPath(find: (u32, seq<byte>) -> Option<DirEntry>, g: Geometry, path: seq<byte>)
    requires forall i :: 0 <= i < |path| ==> path[i] == 0x2F
    ensures Resolved(find, g, path)
         == Some(DirEntry([0x2F] + Spaces(10), 16, if g.fatType.Fat32? then g.rootCluster else 0, 0))
  {
    ComponentsOfSlashes(path);
    assert ROOT_NAME == [0x2F] + Spaces(10);
  }

  lemma {:induction false} TrailingSlashes(a: seq<byte>, b: seq<byte>)
    requires forall i :: 0 <= i < |b| ==> b[i] == SLASH
    ensures Components(a + b) == Components(a)
    decreases |a|
  {
    var p := SlashPos(a);
    if b == [] {
      assert a + b == a;
    } else if p < |a| {
      assert (a + b)[..p] == a[..p] && (a + b)[p + 1..] == a[p + 1..] + b;
      ComponentsAt(a, p);
      ComponentsAt(a + b, p);
      TrailingSlashes(a[p + 1..], b);
    } else {
      assert a[..p] == a && (a + b)[..p] == a && (a + b)[p + 1..] == b[1..];
      ComponentsAt(a + b, p);
      ComponentsOfSlashes(b[1..]);
    }
  }

  lemma {:induction false} LeadingSlashes(a: seq<byte>, b: seq<byte>)
    requires forall i :: 0 <= i < |a| ==> a[i] == SLASH
    ensures Components(a + b) == Components(b)
    decreases |a|
  {
    if a == [] {
      assert a + b == b;
    } else {
      assert (a + b)[1..] == a[1..] + b;
      LeadingSlashes(a[1..], b);
    }
  }

  method StripSlashes(path: seq<byte>) returns (inner: seq<byte>)
    ensures Components(inner) == Components(path) && |inner| <= |path|
    ensures inner != [] ==> inner[0] != SLASH && inner[|inner| - 1] != SLASH
  {
    hide Components;
    var start := 0;
    while start < |path| && path[start] == SLASH
      invariant start <= |path| && forall i :: 0 <= i < start ==> path[i] == SLASH
    {
      start := start + 1;
    }
    var end := |path|;
    while end > start && path[end - 1] == SLASH
      invariant start <= end <= |path| && forall i :: end <= i < |path| ==> path[i] == SLASH
    {
      end := end - 1;
    }
    inner := path[start..end];
    assert path == path[..start] + (inner + path[end..]);
    LeadingSlashes(path[..start], inner + path[end..]);
    TrailingSlashes(inner, path[end..]);
  }

  /** First component and stripped rest. */
  method SplitComponent(path: seq<byte>) returns (component: seq<byte>, rest: seq<byte>)
    ensures Components(path) == (if component == [] then [] else [component]) + Components(rest)
    ensures component == [] <==> path == [] || path[0] == SLASH
    ensures path != [] ==> |rest| < |path|
    ensures rest != [] ==> rest[0] != SLASH
  {
    var p := SlashPos(path);
    if p < |path| {
      component := path[..p];
      rest := StripSlashes(path[p + 1..]);
    } else {
      assert path[..p] == path;
      component, rest := path, [];
    }
  }

  /** Resolves a path, directory by directory. */
  method ResolvePath(fs: FatState, dev: BlockDevice, path: seq<byte>, ghost chains: u32 -> seq<u32>)
    returns (entry: Option<DirEntry>)
    requires fs.Geo().Usable() && fs.Coherent(dev.image)
    requires EndsAlong(dev.image, fs.Geo(), chains, RootOf(fs.Geo()), Components(path))
    modifies fs`cachedFatSector, fs.cachedFatData, dev`failures
    ensures fs.Coherent(dev.image) && old(dev.failures) <= dev.failures
    ensures dev.failures == old(dev.failures) ==>
              entry == Resolved(Finder(dev.image, fs.Geo(), chains), fs.Geo(), path)
    ensures dev.failures != old(dev.failures) ==> entry == None
  {
    hide ScanSectors;
    hide DirSectors;
    hide SearchEnds;
    ghost var g, find := fs.Geo(), Finder(dev.image, fs.Geo(), chains);
    var cluster := RootOf(fs.Geo());
    var remaining := StripSlashes(path);
    if remaining == [] {
      return Some(DirEntry(ROOT_NAME, ATTR_DIRECTORY, cluster, 0));
    }
    assert remaining[..SlashPos(remaining)] != [];
    while true
      invariant fs.Coherent(dev.image) && fs.Geo() == g && dev.failures == old(dev.failures)
      invariant remaining != [] && remaining[0] != SLASH && Components(remaining) != []
      invariant EndsAlong(dev.image, g, chains, cluster, Components(remaining))
      invariant Resolved(find, g, path) == Follow(find, cluster, Components(remaining))
      decreases |remaining|
    {
      // The component is never empty here: stripped rests do not start with a slash.
      var component, rest := SplitComponent(remaining);
      var found := FindInDirectory(fs, dev, cluster, component, chains(cluster));
      if found == None {
        return None;
      }
      assert found == find(cluster, component);
      if rest == [] {
        return found;
      }
      assert rest[..SlashPos(rest)] != [];
      assert Components(remaining)[1..] == Components(rest);
      if !IsDirectory(found.value) {
        return None;
      }
      cluster := found.value.cluster;
      remaining := rest;
    }
  }
}
