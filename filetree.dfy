/** The filesystem the traverser walks, as an abstract tree, and the order
    in which the traversal is expected to produce its regular files. */
module FileTree {
  import opened Entries
  import opened Names
  import opened Ordering
  import opened Listing

  /** A filesystem object: its type and, for a directory, its members in
      the order a directory stream reports them ("." and ".." included, as
      directories). */
  datatype FsNode = FsNode(kind: Kind, children: seq<Child>)

  /** One member of a directory: its name and the object it names. */
  datatype Child = Child(name: string, node: FsNode)

  /** What a directory stream over d delivers, one member per read. */
  function Members(d: FsNode): seq<Dirent> {
    seq(|d.children|, k requires 0 <= k < |d.children| => Dirent(d.children[k].name, d.children[k].node.kind))
  }

  /** The listing create_dir_file_list builds for d. */
  function ListingOf(d: FsNode): seq<DirEntry> {
    ReadListing(Members(d))
  }

  /** fdopendir on what a descriptor refers to, by definition: only a
      directory opens, and reading it never fails. */
  function OpenStream(n: Option<FsNode>): Option<Stream> {
    if n.Some? && n.value.kind == Dir then Some(Stream(Members(n.value), false)) else None
  }

  /** The index of the first member called name. */
  function FindName(cs: seq<Child>, name: string): (r: Option<nat>)
    ensures r.Some? ==> r.value < |cs| && cs[r.value].name == name
    ensures r.Some? ==> forall k :: 0 <= k < r.value ==> cs[k].name != name
    ensures r.None? ==> forall k :: 0 <= k < |cs| ==> cs[k].name != name
  {
    if cs == [] then None
    else if cs[0].name == name then Some(0)
    else match FindName(cs[1..], name)
      case None => None
      case Some(k) => Some(k + 1)
  }

  /** No two members share a name: the first member's name occurs nowhere
      after it, and so on down the list. */
  predicate UniqueNames(cs: seq<Child>)
    decreases |cs|
  {
    cs == [] || (FindName(cs[1..], cs[0].name).None? && UniqueNames(cs[1..]))
  }

  /** With unique names, looking up any member's name finds that very member. */
  lemma {:induction false} UniqueFind(cs: seq<Child>, k: nat)
    requires UniqueNames(cs) && k < |cs|
    ensures FindName(cs, cs[k].name) == Some(k)
    decreases |cs|
  {
    if k > 0 {
      UniqueFind(cs[1..], k - 1);
      assert cs[1..][k - 1] == cs[k];
    }
  }

  /** A directory descriptor, modelled as the path of names that leads to
      it from the traversal's root. */
  type Path = seq<string>

  /** openat(dir, name): ".." leads back to the parent, any other name to
      the member of that name. */
  function OpenAt(dir: Path, name: string): Path {
    if name == ".." then (if dir == [] then [] else dir[..|dir| - 1]) else dir + [name]
  }

  /** The object a path leads to, looking each name up in turn. */
  function Resolve(root: FsNode, p: Path): Option<FsNode>
    decreases |p|
  {
    if p == [] then Some(root)
    else match Resolve(root, p[..|p| - 1])
      case None => None
      case Some(d) =>
        match FindName(d.children, p[|p| - 1])
        case None => None
        case Some(k) => Some(d.children[k].node)
  }

  /** Opening a member by its name from the directory's path reaches it. */
  lemma ResolveMember(root: FsNode, p: Path, d: FsNode, k: nat)
    requires Resolve(root, p) == Some(d) && UniqueNames(d.children) && k < |d.children|
    requires d.children[k].name != ".."
    ensures Resolve(root, OpenAt(p, d.children[k].name)) == Some(d.children[k].node)
    ensures OpenAt(OpenAt(p, d.children[k].name), "..") == p
  {
    var q := OpenAt(p, d.children[k].name);
    assert q[..|q| - 1] == p;
    UniqueFind(d.children, k);
  }

  /** A directory the traversal handles: it holds "." and ".." (so its
      stream is never empty), no two members share a name, and every member
      is one the traversal handles. */
  predicate Supported(d: FsNode)
    decreases d, 1
  {
    d.kind == Dir &&
    (exists k :: 0 <= k < |d.children| && d.children[k].name == "." && d.children[k].node.kind == Dir) &&
    (exists k :: 0 <= k < |d.children| && d.children[k].name == ".." && d.children[k].node.kind == Dir) &&
    UniqueNames(d.children) &&
    forall k {:trigger MemberOK(d, k)} :: 0 <= k < |d.children| ==> MemberOK(d, k)
  }

  /** Member k of d has a C string for its name, and is skipped for its
      name, or is a regular file, or is a directory the traversal handles. */
  predicate MemberOK(d: FsNode, k: int)
    decreases d, 0
  {
    0 <= k < |d.children| ==>
      CString(d.children[k].name) &&
      (IgnoreFile(d.children[k].name) == 1 || d.children[k].node.kind == Reg ||
      (d.children[k].node.kind == Dir && Supported(d.children[k].node)))
  }

  /** An entry agrees with the directory it was read from: its position
      names a member, its type is that member's, and a name it holds is that
      member's name. */
  predicate Fits(d: FsNode, e: DirEntry) {
    e.loc < |d.children| && e.kind == d.children[e.loc].node.kind &&
    (e.name.Some? ==> e.name.value == d.children[e.loc].name)
  }

  predicate AllFit(d: FsNode, es: seq<DirEntry>) {
    forall k :: 0 <= k < |es| ==> Fits(d, es[k])
  }

  /** Same length and the same position at every index. */
  predicate SameLocs(a: seq<DirEntry>, b: seq<DirEntry>) {
    |a| == |b| && forall k :: 0 <= k < |a| ==> a[k].loc == b[k].loc
  }

  lemma ListingFits(d: FsNode)
    ensures AllFit(d, ListingOf(d))
  {
  }

  /** Entries travel with their positions: reordering keeps every entry
      agreeing with its directory. */
  lemma AllFitPermutation(d: FsNode, a: seq<DirEntry>, b: seq<DirEntry>)
    requires multiset(a) == multiset(b) && AllFit(d, a)
    ensures AllFit(d, b)
  {
    forall k | 0 <= k < |b|
      ensures Fits(d, b[k])
    {
      assert b[k] in multiset(a);
      var j :| 0 <= j < |a| && a[j] == b[k];
    }
  }

  /** Dropping names keeps every entry agreeing with its directory and
      keeps every position. */
  lemma AllFitScrub(d: FsNode, s: seq<DirEntry>, lo: nat, hi: nat)
    requires AllFit(d, s)
    ensures AllFit(d, ScrubRange(s, lo, hi)) && SameLocs(ScrubRange(s, lo, hi), s)
  {
  }

  /** A name dropped by the scrubber and read back from the stream position
      stored with its entry is the name read there when the listing was
      built, even after sorting and partitioning moved the entry. */
  lemma RefetchRecoversName(d: FsNode, k: nat)
    requires k < |Arrange(ListingOf(d))|
    ensures Arrange(ListingOf(d))[k].loc < |Members(d)|
    ensures Arrange(ListingOf(d))[k].name == Some(Members(d)[Arrange(ListingOf(d))[k].loc].name)
    ensures Arrange(ListingOf(d))[k].kind == Members(d)[Arrange(ListingOf(d))[k].loc].kind
  {
    var a := Arrange(ListingOf(d));
    ArrangeOrdered(ListingOf(d));
    ListingFits(d);
    AllFitPermutation(d, ListingOf(d), a);
    assert Fits(d, a[k]);
    assert a[k] in multiset(ListingOf(d));
    assert AllNamed(ListingOf(d));
    var j :| 0 <= j < |ListingOf(d)| && ListingOf(d)[j] == a[k];
  }

  /** The listing a traversal keeps for d: sorted, partitioned, and with
      every name but the first dropped. Each entry still agrees with d and
      sits where the arranged listing has it. */
  lemma PreparedListing(d: FsNode)
    ensures AllFit(d, ScrubRange(Arrange(ListingOf(d)), 1, |d.children|))
    ensures SameLocs(ScrubRange(Arrange(ListingOf(d)), 1, |d.children|), Arrange(ListingOf(d)))
  {
    ArrangeOrdered(ListingOf(d));
    ListingFits(d);
    AllFitPermutation(d, ListingOf(d), Arrange(ListingOf(d)));
    AllFitScrub(d, Arrange(ListingOf(d)), 1, |d.children|);
  }

  /** In a directory the traversal handles, the first entry of the arranged
      listing, the only one whose name stays in memory, is a directory or a
      link: "." is a directory, and directories and links come first. */
  lemma FirstEntryIsDirectory(d: FsNode)
    requires Supported(d)
    ensures |Arrange(ListingOf(d))| > 0 && IsDirOrLink(Arrange(ListingOf(d))[0])
  {
    var l := ListingOf(d);
    var k :| 0 <= k < |d.children| && d.children[k].name == "." && d.children[k].node.kind == Dir;
    assert IsDirOrLink(l[k]);
    ArrangeOrdered(l);
    assert l[k] in multiset(Arrange(l));
    var j :| 0 <= j < |Arrange(l)| && Arrange(l)[j] == l[k];
    assert DirsFirst(Arrange(l));
  }

  /** The regular files the traversal produces for directory d: its
      listing in sort_file_list order, each member contributing nothing
      when its name starts with a dot, its own files when it is a directory,
      and its name when it is a regular file. */
  function Enumerate(d: FsNode): seq<string>
    decreases d, 1, 0
  {
    EnumEntries(d, Arrange(ListingOf(d)))
  }

  function EnumEntries(d: FsNode, es: seq<DirEntry>): seq<string>
    decreases d, 0, |es|
  {
    if es == [] then [] else Item(d, es[0].loc) + EnumEntries(d, es[1..])
  }

  /** What the member at position loc of d contributes. */
  function Item(d: FsNode, loc: nat): seq<string>
    decreases d, 0, 0
  {
    if loc < |d.children| then
      var c := d.children[loc];
      if IgnoreFile(c.name) == 1 then []
      else if c.node.kind == Dir then Enumerate(c.node)
      else if c.node.kind == Reg then [c.name]
      else []
    else []
  }

  /** The number of loop iterations the traversal spends on d: one per
      member, those of each subdirectory it enters, and one to leave d. */
  function TreeSteps(d: FsNode): nat
    decreases d, 1, 0
  {
    StepsEntries(d, Arrange(ListingOf(d))) + 1
  }

  function StepsEntries(d: FsNode, es: seq<DirEntry>): nat
    decreases d, 0, |es|
  {
    if es == [] then 0 else ItemSteps(d, es[0].loc) + StepsEntries(d, es[1..])
  }

  function ItemSteps(d: FsNode, loc: nat): nat
    decreases d, 0, 0
  {
    if loc < |d.children| && IgnoreFile(d.children[loc].name) == 0 && d.children[loc].node.kind == Dir
    then 1 + TreeSteps(d.children[loc].node)
    else 1
  }

  /** Only positions matter to what a listing contributes, not the names
      held in memory. */
  lemma {:induction false} EnumSameLocs(d: FsNode, a: seq<DirEntry>, b: seq<DirEntry>)
    requires SameLocs(a, b)
    ensures EnumEntries(d, a) == EnumEntries(d, b)
    ensures StepsEntries(d, a) == StepsEntries(d, b)
  {
    if a != [] {
      EnumSameLocs(d, a[1..], b[1..]);
    }
  }

  /** The contribution of a listing from index c on is that of entry c
      followed by the rest. */
  lemma EnumFrom(d: FsNode, es: seq<DirEntry>, c: nat)
    requires c < |es|
    ensures EnumEntries(d, es[c..]) == Item(d, es[c].loc) + EnumEntries(d, es[c + 1..])
    ensures StepsEntries(d, es[c..]) == ItemSteps(d, es[c].loc) + StepsEntries(d, es[c + 1..])
  {
    assert es[c..][1..] == es[c + 1..];
  }

  /** No name the traversal produces starts with a dot. */
  lemma {:induction false} EnumerateSkipsDotNames(d: FsNode)
    ensures forall n :: n in Enumerate(d) ==> IgnoreFile(n) == 0
    decreases d, 1, 0
  {
    EnumEntriesSkipsDotNames(d, Arrange(ListingOf(d)));
  }

  lemma {:induction false} EnumEntriesSkipsDotNames(d: FsNode, es: seq<DirEntry>)
    ensures forall n :: n in EnumEntries(d, es) ==> IgnoreFile(n) == 0
    decreases d, 0, |es|
  {
    if es != [] {
      var loc := es[0].loc;
      if loc < |d.children| && IgnoreFile(d.children[loc].name) == 0 && d.children[loc].node.kind == Dir {
        EnumerateSkipsDotNames(d.children[loc].node);
      }
      EnumEntriesSkipsDotNames(d, es[1..]);
    }
  }
}
