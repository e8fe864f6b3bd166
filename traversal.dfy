/** dir_get_next_filedes: the resumable depth-first walk. Its static state
    (the stack of per-directory frames, the depth, the capacity of the stack,
    the descriptor being walked and the open directory stream) becomes the
    fields of a Walker; one call runs the walk until it meets the next
    regular file, or reports the end of the walk. */
module Traversal {
  import opened Entries
  import opened Names
  import opened Ordering
  import opened Listing
  import opened FileTree

  /** struct dir_node: the descriptor of the directory (as its path from the
      root), the number of entries in its listing, the index of the next
      entry to process, and the listing itself. */
  datatype DirNode = DirNode(dirFd: Path, lenght: int, current: int, file: seq<DirEntry>)

  /** The capacity the frame stack starts with when a new root is given. */
  const INITIAL_MAX_DEPTH: int := 16

  /** The descriptor a successful call returns for the regular file it
      opened; the model does not number descriptors. */
  const OPENED_FILE: int := 3

  function Top(frames: seq<DirNode>): DirNode
    requires frames != []
  {
    frames[|frames| - 1]
  }

  /** The entries of a frame still to be processed. */
  function Tail(fr: DirNode): seq<DirEntry> {
    if 0 <= fr.current <= |fr.file| then fr.file[fr.current..] else []
  }

  /** The regular files a stack of frames has yet to produce: the rest of
      the top directory, then the rest of each directory below it. */
  function Pend(nodes: seq<FsNode>, frames: seq<DirNode>): seq<string>
    requires |nodes| == |frames|
    decreases |frames|
  {
    if frames == [] then []
    else EnumEntries(nodes[|nodes| - 1], Tail(Top(frames))) + Pend(nodes[..|nodes| - 1], frames[..|frames| - 1])
  }

  /** The loop iterations a stack of frames has yet to run. */
  function Work(nodes: seq<FsNode>, frames: seq<DirNode>): nat
    requires |nodes| == |frames|
    decreases |frames|
  {
    if frames == [] then 0
    else StepsEntries(nodes[|nodes| - 1], Tail(Top(frames))) + 1 + Work(nodes[..|nodes| - 1], frames[..|frames| - 1])
  }

  /** The entry under a frame's cursor (a blank entry past the end). */
  function Cursor(fr: DirNode): DirEntry {
    if 0 <= fr.current < |fr.file| then fr.file[fr.current] else DirEntry(0, None, Unknown)
  }

  /** The frame with the name of the entry under the cursor replaced. */
  function WithName(fr: DirNode, name: Option<string>): DirNode {
    if 0 <= fr.current < |fr.file| then fr.(file := fr.file[fr.current := fr.file[fr.current].(name := name)]) else fr
  }

  /** The frame with its cursor moved one entry on. */
  function Next(fr: DirNode): DirNode {
    fr.(current := fr.current + 1)
  }

  /** The frame with the name under the cursor dropped and the cursor moved
      past it. */
  function Dropped(fr: DirNode): DirNode {
    Next(WithName(fr, None))
  }

  /** The stack with its top frame replaced. */
  function SetTop(frames: seq<DirNode>, fr: DirNode): seq<DirNode>
    requires frames != []
  {
    frames[|frames| - 1 := fr]
  }

  /** A frame describes directory n: its descriptor leads to n, its length
      is that of its listing, its cursor is within the listing, and every
      entry agrees with n. */
  ghost predicate FrameOK(root: FsNode, n: FsNode, fr: DirNode) {
    Resolve(root, fr.dirFd) == Some(n) && Supported(n) &&
    fr.lenght == |fr.file| && 0 <= fr.current <= fr.lenght && AllFit(n, fr.file)
  }

  /** Each frame's parent is the frame below it. */
  ghost predicate Linked(frames: seq<DirNode>) {
    forall j {:trigger ParentBelow(frames, j)} :: 0 < j < |frames| ==> ParentBelow(frames, j)
  }

  /** Opening ".." from frame j reaches frame j - 1. */
  ghost predicate ParentBelow(frames: seq<DirNode>, j: int) {
    0 < j < |frames| ==> OpenAt(frames[j].dirFd, "..") == frames[j - 1].dirFd
  }

  /** The state of a walk in progress over root: one frame per open
      directory, each frame describing its directory, and the stream open on
      the top directory. */
  ghost predicate LiveOK(root: FsNode, nodes: seq<FsNode>, frames: seq<DirNode>, dirp: seq<Dirent>) {
    |nodes| == |frames| >= 1 &&
    (forall i {:trigger FrameOK(root, nodes[i], frames[i])} :: 0 <= i < |frames| ==> FrameOK(root, nodes[i], frames[i])) &&
    Linked(frames) &&
    dirp == Members(nodes[|nodes| - 1])
  }

  /** What the loop may rely on about the entry under the top cursor: it
      lies within the listing, its position is one the stream can seek to, a
      name it holds is the one read there, and unless that name starts with a
      dot it is a directory or a regular file. */
  lemma AtCursor(root: FsNode, nodes: seq<FsNode>, frames: seq<DirNode>, dirp: seq<Dirent>)
    requires LiveOK(root, nodes, frames, dirp)
    requires Top(frames).current < Top(frames).lenght
    ensures 0 <= Top(frames).current < |Top(frames).file|
    ensures Cursor(Top(frames)).loc < |dirp|
    ensures Cursor(Top(frames)).name.Some? ==> Cursor(Top(frames)).name.value == dirp[Cursor(Top(frames)).loc].name
    ensures Cursor(Top(frames)).kind == dirp[Cursor(Top(frames)).loc].kind
    ensures IgnoreFile(dirp[Cursor(Top(frames)).loc].name) == 0 ==> Cursor(Top(frames)).kind == Dir || Cursor(Top(frames)).kind == Reg
  {
    var t := |frames| - 1;
    assert FrameOK(root, nodes[t], frames[t]);
    var e := Cursor(frames[t]);
    assert Fits(nodes[t], e);
    assert MemberOK(nodes[t], e.loc);
  }

  /** Replacing the top frame by another frame for the same directory and
      descriptor keeps the state well formed, and what is still to come is
      the new top's rest followed by the frames below. */
  lemma ReplaceTop(root: FsNode, nodes: seq<FsNode>, frames: seq<DirNode>, dirp: seq<Dirent>, fr: DirNode)
    requires LiveOK(root, nodes, frames, dirp)
    requires FrameOK(root, nodes[|nodes| - 1], fr) && fr.dirFd == Top(frames).dirFd
    ensures LiveOK(root, nodes, SetTop(frames, fr), dirp)
    ensures Pend(nodes, SetTop(frames, fr)) ==
              EnumEntries(nodes[|nodes| - 1], Tail(fr)) + Pend(nodes[..|nodes| - 1], frames[..|frames| - 1])
    ensures Work(nodes, SetTop(frames, fr)) ==
              StepsEntries(nodes[|nodes| - 1], Tail(fr)) + 1 + Work(nodes[..|nodes| - 1], frames[..|frames| - 1])
  {
    ReplaceTopFrames(root, nodes, frames, fr);
    ReplaceTopLinked(frames, fr);
    var t := |frames| - 1;
    assert SetTop(frames, fr)[..t] == frames[..t];
  }

  lemma ReplaceTopFrames(root: FsNode, nodes: seq<FsNode>, frames: seq<DirNode>, fr: DirNode)
    requires |nodes| == |frames| >= 1
    requires forall i :: 0 <= i < |frames| ==> FrameOK(root, nodes[i], frames[i])
    requires FrameOK(root, nodes[|nodes| - 1], fr)
    ensures forall i :: 0 <= i < |frames| ==> FrameOK(root, nodes[i], SetTop(frames, fr)[i])
  {
    var s := SetTop(frames, fr);
    forall i | 0 <= i < |s|
      ensures FrameOK(root, nodes[i], s[i])
    {
      if i < |frames| - 1 {
        assert s[i] == frames[i];
      }
    }
  }

  lemma ReplaceTopLinked(frames: seq<DirNode>, fr: DirNode)
    requires Linked(frames) && frames != [] && fr.dirFd == Top(frames).dirFd
    ensures Linked(SetTop(frames, fr))
  {
    var s := SetTop(frames, fr);
    forall j | 0 < j < |s|
      ensures ParentBelow(s, j)
    {
      assert ParentBelow(frames, j);
      assert s[j].dirFd == frames[j].dirFd && s[j - 1].dirFd == frames[j - 1].dirFd;
    }
  }

  /** Dropping the name under the top cursor, or reading it back from the
      stream, changes neither what is still to come nor how long it takes. */
  lemma SetName(root: FsNode, nodes: seq<FsNode>, frames: seq<DirNode>, dirp: seq<Dirent>, name: Option<string>)
    requires LiveOK(root, nodes, frames, dirp)
    requires 0 <= Top(frames).current < |Top(frames).file|
    requires name.Some? ==> Cursor(Top(frames)).loc < |dirp| && name.value == dirp[Cursor(Top(frames)).loc].name
    ensures LiveOK(root, nodes, SetTop(frames, WithName(Top(frames), name)), dirp)
    ensures Pend(nodes, SetTop(frames, WithName(Top(frames), name))) == Pend(nodes, frames)
    ensures Work(nodes, SetTop(frames, WithName(Top(frames), name))) == Work(nodes, frames)
  {
    var t := |frames| - 1;
    var top := frames[t];
    var c := top.current;
    var fr := WithName(top, name);
    assert FrameOK(root, nodes[t], top);
    assert Fits(nodes[t], top.file[c]);
    assert AllFit(nodes[t], fr.file) by {
      forall k | 0 <= k < |fr.file|
        ensures Fits(nodes[t], fr.file[k])
      {
        if k != c {
          assert fr.file[k] == top.file[k];
        }
      }
    }
    ReplaceTop(root, nodes, frames, dirp, fr);
    EnumSameLocs(nodes[t], Tail(fr), Tail(top));
  }

  /** What is still to come, split at the cursor entry: its contribution,
      then what comes once the cursor has moved on. */
  lemma SplitPending(it: seq<string>, after: seq<string>, rest: seq<string>, pend: seq<string>, stepped: seq<string>)
    requires pend == (it + after) + rest && stepped == after + rest
    ensures pend == it + stepped
  {
  }

  /** Moving the top cursor past its entry: what is still to come loses
      that entry's contribution, and so does the work. */
  lemma Advance(root: FsNode, nodes: seq<FsNode>, frames: seq<DirNode>, dirp: seq<Dirent>)
    requires LiveOK(root, nodes, frames, dirp)
    requires 0 <= Top(frames).current < |Top(frames).file|
    ensures LiveOK(root, nodes, SetTop(frames, Next(Top(frames))), dirp)
    ensures Pend(nodes, frames) == Item(nodes[|nodes| - 1], Cursor(Top(frames)).loc) + Pend(nodes, SetTop(frames, Next(Top(frames))))
    ensures Work(nodes, frames) == ItemSteps(nodes[|nodes| - 1], Cursor(Top(frames)).loc) + Work(nodes, SetTop(frames, Next(Top(frames))))
  {
    var t := |frames| - 1;
    assert FrameOK(root, nodes[t], frames[t]);
    ReplaceTop(root, nodes, frames, dirp, Next(frames[t]));
    StepRest(nodes, frames);
  }

  lemma StepRest(nodes: seq<FsNode>, frames: seq<DirNode>)
    requires |nodes| == |frames| >= 1
    requires 0 <= Top(frames).current < |Top(frames).file|
    ensures Pend(nodes, frames) == Item(nodes[|nodes| - 1], Cursor(Top(frames)).loc) + Pend(nodes, SetTop(frames, Next(Top(frames))))
    ensures Work(nodes, frames) == ItemSteps(nodes[|nodes| - 1], Cursor(Top(frames)).loc) + Work(nodes, SetTop(frames, Next(Top(frames))))
  {
    var t := |frames| - 1;
    var top := frames[t];
    var fr := Next(top);
    var stepped := SetTop(frames, fr);
    assert stepped[..t] == frames[..t];
    EnumFrom(nodes[t], top.file, top.current);
    assert Tail(top) == top.file[top.current..];
    assert Tail(fr) == top.file[top.current + 1..];
    var it := Item(nodes[t], top.file[top.current].loc);
    var after := EnumEntries(nodes[t], Tail(fr));
    var rest := Pend(nodes[..t], frames[..t]);
    assert Pend(nodes, frames) == (it + after) + rest;
    assert Pend(nodes, stepped) == after + rest;
    SplitPending(it, after, rest, Pend(nodes, frames), Pend(nodes, stepped));
  }

  /** Dropping the name under the top cursor and moving past it: what is
      still to come loses that entry's contribution, and so does the work. */
  lemma DropStep(root: FsNode, nodes: seq<FsNode>, frames: seq<DirNode>, dirp: seq<Dirent>)
    requires LiveOK(root, nodes, frames, dirp)
    requires 0 <= Top(frames).current < |Top(frames).file|
    ensures LiveOK(root, nodes, SetTop(frames, Dropped(Top(frames))), dirp)
    ensures Pend(nodes, frames) == Item(nodes[|nodes| - 1], Cursor(Top(frames)).loc) + Pend(nodes, SetTop(frames, Dropped(Top(frames))))
    ensures Work(nodes, frames) == ItemSteps(nodes[|nodes| - 1], Cursor(Top(frames)).loc) + Work(nodes, SetTop(frames, Dropped(Top(frames))))
  {
    var top := Top(frames);
    SetName(root, nodes, frames, dirp, None);
    var renamed := SetTop(frames, WithName(top, None));
    Advance(root, nodes, renamed, dirp);
    assert SetTop(renamed, Next(Top(renamed))) == SetTop(frames, Dropped(top));
  }

  /** A name starting with a dot is dropped and passed over: nothing still
      to come changes, and an iteration of work is spent. */
  lemma SkipStep(root: FsNode, nodes: seq<FsNode>, frames: seq<DirNode>, dirp: seq<Dirent>)
    requires LiveOK(root, nodes, frames, dirp)
    requires 0 <= Top(frames).current < |Top(frames).file|
    requires Cursor(Top(frames)).name.Some? && IgnoreFile(Cursor(Top(frames)).name.value) == 1
    ensures LiveOK(root, nodes, SetTop(frames, Dropped(Top(frames))), dirp)
    ensures Pend(nodes, SetTop(frames, Dropped(Top(frames)))) == Pend(nodes, frames)
    ensures Work(nodes, SetTop(frames, Dropped(Top(frames)))) < Work(nodes, frames)
  {
    var t := |frames| - 1;
    assert FrameOK(root, nodes[t], frames[t]);
    assert Fits(nodes[t], Cursor(frames[t]));
    DropStep(root, nodes, frames, dirp);
  }

  /** A regular file is produced: it is the first of what is still to come,
      and the rest follows. A name read back from the stream is dropped; one
      that was in memory stays. */
  lemma YieldStep(root: FsNode, nodes: seq<FsNode>, frames: seq<DirNode>, dirp: seq<Dirent>, refetched: bool)
    requires LiveOK(root, nodes, frames, dirp)
    requires 0 <= Top(frames).current < |Top(frames).file|
    requires Cursor(Top(frames)).name.Some? && IgnoreFile(Cursor(Top(frames)).name.value) == 0
    requires Cursor(Top(frames)).kind == Reg
    ensures var fr := if refetched then Dropped(Top(frames)) else Next(Top(frames));
            LiveOK(root, nodes, SetTop(frames, fr), dirp) &&
            Pend(nodes, frames) == [Cursor(Top(frames)).name.value] + Pend(nodes, SetTop(frames, fr))
  {
    var t := |frames| - 1;
    var top := frames[t];
    assert FrameOK(root, nodes[t], top);
    assert Fits(nodes[t], Cursor(top));
    if refetched {
      DropStep(root, nodes, frames, dirp);
    } else {
      Advance(root, nodes, frames, dirp);
    }
  }

  /** A subdirectory entry opens, by its name from the top directory's
      descriptor, as the member its position names: a supported directory
      whose stream is not empty. */
  lemma EnterOpen(root: FsNode, nodes: seq<FsNode>, frames: seq<DirNode>, dirp: seq<Dirent>)
    requires LiveOK(root, nodes, frames, dirp)
    requires 0 <= Top(frames).current < |Top(frames).file|
    requires Cursor(Top(frames)).name.Some? && IgnoreFile(Cursor(Top(frames)).name.value) == 0
    requires Cursor(Top(frames)).kind == Dir
    ensures var sub := Resolve(root, OpenAt(Top(frames).dirFd, Cursor(Top(frames)).name.value));
            sub.Some? && sub.value.kind == Dir && |sub.value.children| > 0 &&
            Supported(sub.value) && Fits(nodes[|frames| - 1], Cursor(Top(frames))) &&
            sub.value == nodes[|frames| - 1].children[Cursor(Top(frames)).loc].node
  {
    var t := |frames| - 1;
    var top := frames[t];
    var e := Cursor(top);
    assert FrameOK(root, nodes[t], top);
    assert Fits(nodes[t], e);
    assert MemberOK(nodes[t], e.loc);
    ResolveMember(root, top.dirFd, nodes[t], e.loc);
    SupportedNonEmpty(nodes[t].children[e.loc].node);
  }

  /** Entering a subdirectory: the entry's name is dropped and the cursor
      moves past it, and a frame for the subdirectory with its prepared
      listing is pushed. Nothing still to come changes, and an iteration of
      work is spent. */
  lemma EnterStep(root: FsNode, nodes: seq<FsNode>, frames: seq<DirNode>, dirp: seq<Dirent>, sub: FsNode, file: seq<DirEntry>)
    requires LiveOK(root, nodes, frames, dirp)
    requires 0 <= Top(frames).current < |Top(frames).file|
    requires Cursor(Top(frames)).name.Some? && IgnoreFile(Cursor(Top(frames)).name.value) == 0
    requires Cursor(Top(frames)).kind == Dir
    requires Resolve(root, OpenAt(Top(frames).dirFd, Cursor(Top(frames)).name.value)) == Some(sub)
    requires file == ScrubRange(Arrange(ListingOf(sub)), 1, |sub.children|)
    ensures var fr := DirNode(OpenAt(Top(frames).dirFd, Cursor(Top(frames)).name.value), |file|, 0, file);
            var frames' := SetTop(frames, Dropped(Top(frames))) + [fr];
            LiveOK(root, nodes + [sub], frames', Members(sub)) &&
            Pend(nodes + [sub], frames') == Pend(nodes, frames) &&
            Work(nodes + [sub], frames') < Work(nodes, frames)
  {
    var t := |frames| - 1;
    var top, n := frames[t], nodes[t];
    var e := Cursor(top);
    assert FrameOK(root, n, top);
    assert Fits(n, e);
    var child := n.children[e.loc];
    assert child.name == e.name.value && child.node.kind == Dir;
    ResolveMember(root, top.dirFd, n, e.loc);
    assert sub == child.node;
    DropStep(root, nodes, frames, dirp);
    var dropped := SetTop(frames, Dropped(top));
    assert Top(dropped).dirFd == top.dirFd && dropped[..t] == frames[..t];
    PreparedListing(sub);
    assert LiveOK(root, nodes, dropped, dirp);
    assert |nodes| - 1 == t;
    assert IgnoreFile(child.name) == 0;
    assert AllFit(child.node, file);
    assert SameLocs(file, Arrange(ListingOf(child.node)));
    Descend(root, nodes, dropped, dirp, e.loc, file);
  }

  /** Entering the subdirectory at position k of the top directory, with
      its prepared listing: what is still to come is the subdirectory's
      files followed by the rest, and one iteration of work is spent. */
  lemma Descend(root: FsNode, nodes: seq<FsNode>, frames: seq<DirNode>, dirp: seq<Dirent>, k: nat, file: seq<DirEntry>)
    requires LiveOK(root, nodes, frames, dirp)
    requires k < |nodes[|nodes| - 1].children|
    requires IgnoreFile(nodes[|nodes| - 1].children[k].name) == 0 && nodes[|nodes| - 1].children[k].node.kind == Dir
    requires AllFit(nodes[|nodes| - 1].children[k].node, file)
    requires SameLocs(file, Arrange(ListingOf(nodes[|nodes| - 1].children[k].node)))
    ensures var child := nodes[|nodes| - 1].children[k];
            var fr := DirNode(OpenAt(Top(frames).dirFd, child.name), |file|, 0, file);
            LiveOK(root, nodes + [child.node], frames + [fr], Members(child.node)) &&
            Pend(nodes + [child.node], frames + [fr]) == Item(nodes[|nodes| - 1], k) + Pend(nodes, frames) &&
            Work(nodes + [child.node], frames + [fr]) + 1 == ItemSteps(nodes[|nodes| - 1], k) + Work(nodes, frames)
  {
    var t := |frames| - 1;
    var n := nodes[t];
    var child := n.children[k];
    var p := Top(frames).dirFd;
    var fr := DirNode(OpenAt(p, child.name), |file|, 0, file);
    assert FrameOK(root, n, frames[t]);
    ChildFrame(root, p, n, k, file);
    PushFrames(root, nodes, frames, dirp, child.node, fr);
    PushRest(nodes, frames, n, k, fr);
  }

  /** The frame for a subdirectory, opened by its name from its parent's
      descriptor, describes it, and ".." from it leads back to the parent. */
  lemma ChildFrame(root: FsNode, p: Path, n: FsNode, k: nat, file: seq<DirEntry>)
    requires Resolve(root, p) == Some(n) && Supported(n) && k < |n.children|
    requires IgnoreFile(n.children[k].name) == 0 && n.children[k].node.kind == Dir
    requires AllFit(n.children[k].node, file)
    ensures FrameOK(root, n.children[k].node, DirNode(OpenAt(p, n.children[k].name), |file|, 0, file))
    ensures OpenAt(OpenAt(p, n.children[k].name), "..") == p
  {
    assert MemberOK(n, k);
    ResolveMember(root, p, n, k);
  }

  lemma PushFrames(root: FsNode, nodes: seq<FsNode>, frames: seq<DirNode>, dirp: seq<Dirent>, n: FsNode, fr: DirNode)
    requires LiveOK(root, nodes, frames, dirp)
    requires FrameOK(root, n, fr) && OpenAt(fr.dirFd, "..") == Top(frames).dirFd
    ensures LiveOK(root, nodes + [n], frames + [fr], Members(n))
  {
    var nodes', frames' := nodes + [n], frames + [fr];
    forall i | 0 <= i < |frames'|
      ensures FrameOK(root, nodes'[i], frames'[i])
    {
      if i < |frames| {
        assert frames'[i] == frames[i] && nodes'[i] == nodes[i];
      }
    }
    forall j | 0 < j < |frames'|
      ensures ParentBelow(frames', j)
    {
      if j < |frames| {
        assert ParentBelow(frames, j);
        assert frames'[j] == frames[j] && frames'[j - 1] == frames[j - 1];
      }
    }
  }

  /** Pushing a fresh frame for subdirectory k of d puts that
      subdirectory's files, and its iterations, ahead of the rest. */
  lemma PushRest(nodes: seq<FsNode>, frames: seq<DirNode>, d: FsNode, k: nat, fr: DirNode)
    requires |nodes| == |frames|
    requires k < |d.children| && IgnoreFile(d.children[k].name) == 0 && d.children[k].node.kind == Dir
    requires fr.current == 0 && SameLocs(fr.file, Arrange(ListingOf(d.children[k].node)))
    ensures Pend(nodes + [d.children[k].node], frames + [fr]) == Item(d, k) + Pend(nodes, frames)
    ensures Work(nodes + [d.children[k].node], frames + [fr]) + 1 == ItemSteps(d, k) + Work(nodes, frames)
  {
    var c := d.children[k].node;
    assert (nodes + [c])[..|nodes|] == nodes && (frames + [fr])[..|frames|] == frames;
    assert Tail(fr) == fr.file;
    EnumSameLocs(c, fr.file, Arrange(ListingOf(c)));
  }

  /** Leaving an exhausted directory that has a parent: the parent is
      reached by "..", and nothing still to come is lost. */
  lemma Ascend(root: FsNode, nodes: seq<FsNode>, frames: seq<DirNode>, dirp: seq<Dirent>)
    requires LiveOK(root, nodes, frames, dirp)
    requires |frames| >= 2 && Top(frames).current >= Top(frames).lenght
    ensures OpenAt(Top(frames).dirFd, "..") == frames[|frames| - 2].dirFd
    ensures Resolve(root, frames[|frames| - 2].dirFd) == Some(nodes[|nodes| - 2])
    ensures LiveOK(root, nodes[..|nodes| - 1], frames[..|frames| - 1], Members(nodes[|nodes| - 2]))
    ensures Pend(nodes[..|nodes| - 1], frames[..|frames| - 1]) == Pend(nodes, frames)
    ensures Work(nodes[..|nodes| - 1], frames[..|frames| - 1]) + 1 == Work(nodes, frames)
  {
    var t := |frames| - 1;
    assert FrameOK(root, nodes[t - 1], frames[t - 1]);
    assert FrameOK(root, nodes[t], frames[t]);
    assert ParentBelow(frames, t);
    PopFrames(root, nodes, frames, dirp);
    PopRest(nodes, frames);
  }

  /** The frames below the top one still describe their directories and
      stay linked. */
  lemma PopFrames(root: FsNode, nodes: seq<FsNode>, frames: seq<DirNode>, dirp: seq<Dirent>)
    requires LiveOK(root, nodes, frames, dirp) && |frames| >= 2
    ensures LiveOK(root, nodes[..|nodes| - 1], frames[..|frames| - 1], Members(nodes[|nodes| - 2]))
  {
    var t := |frames| - 1;
    var nodes', frames' := nodes[..t], frames[..t];
    forall i | 0 <= i < t
      ensures FrameOK(root, nodes'[i], frames'[i])
    {
      assert nodes'[i] == nodes[i] && frames'[i] == frames[i];
      assert FrameOK(root, nodes[i], frames[i]);
    }
    forall j | 0 < j < t
      ensures ParentBelow(frames', j)
    {
      assert ParentBelow(frames, j);
      assert frames'[j] == frames[j] && frames'[j - 1] == frames[j - 1];
    }
  }

  /** Popping a frame with nothing left in it loses nothing still to come,
      and spends one iteration of work. */
  lemma PopRest(nodes: seq<FsNode>, frames: seq<DirNode>)
    requires |nodes| == |frames| >= 1 && Top(frames).current >= |Top(frames).file|
    ensures Pend(nodes[..|nodes| - 1], frames[..|frames| - 1]) == Pend(nodes, frames)
    ensures Work(nodes[..|nodes| - 1], frames[..|frames| - 1]) + 1 == Work(nodes, frames)
  {
    assert Tail(Top(frames)) == [];
    assert EnumEntries(nodes[|nodes| - 1], []) == [];
  }

  /** An exhausted root frame has nothing left to produce. */
  lemma Exhausted(root: FsNode, nodes: seq<FsNode>, frames: seq<DirNode>, dirp: seq<Dirent>)
    requires LiveOK(root, nodes, frames, dirp)
    requires |frames| == 1 && Top(frames).current >= Top(frames).lenght
    ensures Pend(nodes, frames) == []
  {
    assert FrameOK(root, nodes[0], frames[0]);
    assert Tail(frames[0]) == [];
  }

  /** A fresh walk over a directory the traversal handles, with its
      prepared listing in the root frame, has the whole enumeration ahead. */
  lemma Start(root: FsNode, nodes: seq<FsNode>, frames: seq<DirNode>, file: seq<DirEntry>)
    requires Supported(root)
    requires file == ScrubRange(Arrange(ListingOf(root)), 1, |root.children|)
    requires nodes == [root] && frames == [DirNode([], |file|, 0, file)]
    ensures LiveOK(root, nodes, frames, Members(root))
    ensures Pend(nodes, frames) == Enumerate(root)
  {
    PreparedListing(root);
    assert FrameOK(root, root, frames[0]);
    assert Tail(frames[0]) == file;
    EnumSameLocs(root, file, Arrange(ListingOf(root)));
  }

  /** A directory the traversal handles lists at least "." and "..". */
  lemma SupportedNonEmpty(d: FsNode)
    requires Supported(d)
    ensures |Members(d)| > 0
  {
  }

  /** Reading, sorting and scrubbing a directory's listing, as the walk
      does for every directory it opens: NULL when the object is not a
      directory or its stream is empty; otherwise one entry per member,
      arranged, with every name but the first dropped. */
  method LoadDirectory(n: Option<FsNode>) returns (list: array?<DirEntry>, size: int)
    ensures list == null <==> !(n.Some? && n.value.kind == Dir && |n.value.children| > 0)
    ensures list != null ==> fresh(list) && size == list.Length == |n.value.children|
    ensures list != null ==> list[..] == ScrubRange(Arrange(ListingOf(n.value)), 1, size)
  {
    list, size := CreateDirFileList(OpenStream(n));
    if list == null {
      return;
    }
    assert list[..size] == ListingOf(n.value);
    var _ := SortFileList(list, size);
    assert list[..] == list[..size] == Arrange(ListingOf(n.value));
    var _ := ScrubDirFileList(list, 1, size - 1);
  }

  /** Descriptor fd, when it refers to a directory, refers to one the walk
      supports. */
  ghost predicate Walkable(fdTable: map<int, FsNode>, fd: int)
  {
    fd in fdTable && fdTable[fd].kind == Dir ==> Supported(fdTable[fd])
  }

  /** Every directory in the descriptor table is one the walk supports. */
  ghost predicate TableOK(fdTable: map<int, FsNode>)
  {
    forall fd :: Walkable(fdTable, fd)
  }

  /** The walker: the static state of dir_get_next_filedes over a table of
      descriptors. fdTable maps each descriptor the caller may pass to the
      object it refers to; closed holds those of them the walk has closed,
      and read those whose file offset, which dup shares, a listing of the
      walk has moved to the end of the directory. */
  class Walker {
    const fdTable: map<int, FsNode>
    var tree: array<DirNode>
    var maxDepth: int
    var depth: int
    var currentFd: int
    var dirp: seq<Dirent>
    var closed: set<int>
    var read: set<int>
    /** A walk of currentFd is in progress: it has neither finished nor failed. */
    ghost var live: bool
    /** The directory each frame describes. */
    ghost var nodes: seq<FsNode>

    ghost predicate Valid()
      reads this, tree
    {
      TableOK(fdTable) &&
      tree.Length == maxDepth &&
      (live ==> 0 <= depth < maxDepth && currentFd in fdTable &&
                LiveOK(fdTable[currentFd], nodes, tree[..depth + 1], dirp))
    }

    /** The regular files the walk in progress has yet to produce. */
    ghost function Pending(): seq<string>
      reads this, tree
      requires Valid()
    {
      if live then Pend(nodes, tree[..depth + 1]) else []
    }

    ghost function Remaining(): nat
      reads this, tree
      requires Valid()
    {
      if live then Work(nodes, tree[..depth + 1]) else 0
    }

    /** What the calls with descriptor fd will produce from here on: the
        rest of the walk in progress when fd is the one being walked, and
        otherwise the whole enumeration of the directory fd refers to, when
        fd is still open and at the start of that directory. */
    ghost function Upcoming(fd: int): seq<string>
      reads this, tree
      requires Valid()
    {
      if fd == currentFd then Pending()
      else if Fresh(fd) then Enumerate(fdTable[fd])
      else []
    }

    /** Descriptor fd refers to a directory, is open and has not been read
        by a walk. */
    ghost predicate Fresh(fd: int)
      reads this
    {
      fd in fdTable && fd !in closed && fd !in read && fdTable[fd].kind == Dir
    }

    /** The state before the first call: no stack, no descriptor. */
    constructor(fdTable: map<int, FsNode>)
      requires TableOK(fdTable)
      ensures Valid() && !live && currentFd == -1 && this.fdTable == fdTable && closed == {} && read == {}
      ensures fresh(tree) && tree.Length == 0 && maxDepth == 0 && depth == 0
    {
      this.fdTable := fdTable;
      tree := new DirNode[0];
      maxDepth := 0;
      depth := 0;
      currentFd := -1;
      dirp := [];
      closed := {};
      read := {};
      live := false;
      nodes := [];
    }

    /** One call: returns the descriptor of the next regular file of the
        walk of fd and its name, or -1 when the walk is over (or fd is -1 or
        cannot be walked). A descriptor other than the one being walked
        starts a new walk. */
    method GetNextFiledes(fd: int) returns (ret: int, filename: string)
      requires Valid()
      requires fd != -1 && fd == currentFd ==> live
      modifies this, tree
      ensures Valid()
      ensures fresh(tree) || tree == old(tree)
      ensures ret == -1 || ret == OPENED_FILE
      ensures fd == -1 ==> ret == -1 && currentFd == old(currentFd) && live == old(live) && Pending() == old(Pending())
      ensures fd == -1 ==> closed == old(closed)
      ensures fd != -1 ==> currentFd == fd && (live <==> ret != -1)
      ensures old(closed) <= closed <= old(closed) + {fd}
      ensures read == if fd != -1 && fd != old(currentFd) && old(Fresh(fd)) then old(read) + {fd} else old(read)
      ensures fd != -1 && ret == -1 ==>
                (fd in closed <==> fd in old(closed) || fd == old(currentFd) || old(Fresh(fd)))
      ensures fd != -1 && ret != -1 ==>
                old(Upcoming(fd)) != [] && filename == old(Upcoming(fd))[0] && Pending() == old(Upcoming(fd))[1..]
      ensures fd != -1 && ret == -1 ==> old(Upcoming(fd)) == []
    {
      if fd == -1 {
        return -1, "";
      }
      ghost var upcoming := Upcoming(fd);
      if fd != currentFd {
        var ok := Restart(fd);
        if !ok {
          return -1, "";
        }
      }
      while true
        invariant Valid() && live && currentFd == fd
        invariant fresh(tree) || tree == old(tree)
        invariant old(closed) <= closed <= old(closed) + {fd}
        invariant read == if fd != old(currentFd) && old(Fresh(fd)) then old(read) + {fd} else old(read)
        invariant fd == old(currentFd) || old(Fresh(fd))
        invariant Pending() == upcoming
        decreases Remaining()
      {
        var found, over;
        found, over, filename := Step();
        if found {
          return OPENED_FILE, filename;
        } else if over {
          return -1, "";
        }
      }
    }

    /** One pass of the main loop: the entry under the top cursor is
        skipped, entered or yielded, or, when the top directory is
        exhausted, its frame is popped. Returns whether a regular file was
        found (its name in filename) and whether the walk is over. */
    method Step() returns (found: bool, over: bool, filename: string)
      requires Valid() && live
      modifies this, tree
      ensures Valid() && currentFd == old(currentFd)
      ensures fresh(tree) || tree == old(tree)
      ensures old(closed) <= closed <= old(closed) + {currentFd} && read == old(read)
      ensures !(found && over) && (live <==> !over)
      ensures found ==> old(Pending()) == [filename] + Pending()
      ensures over ==> old(Pending()) == [] && currentFd in closed
      ensures !found && !over ==> Pending() == old(Pending()) && Remaining() < old(Remaining())
    {
      found, over, filename := false, false, "";
      if tree[depth].current < tree[depth].lenght {
        var refetched := Refetch();
        var e := Cursor(tree[depth]);
        if IgnoreFile(e.name.value) == 1 {
          SkipEntry();
        } else if e.kind == Dir {
          EnterDirectory();
        } else {
          assert e.kind == Reg;
          filename := YieldFile(refetched);
          found := true;
        }
      } else {
        var more := LeaveDirectory();
        over := !more;
      }
    }

    /** A new descriptor: a new stack of INITIAL_MAX_DEPTH frames and the
        root frame, holding the root's listing sorted and with every name
        but the first dropped. Fails when fd does not open as a directory
        stream, or when its shared offset is at the end and the listing
        comes back empty. A listing that succeeds reads fd to the end. */
    method Restart(fd: int) returns (ok: bool)
      requires Valid() && fd != -1
      modifies this
      ensures Valid() && fresh(tree) && currentFd == fd && live == ok && depth == 0
      ensures maxDepth == INITIAL_MAX_DEPTH && closed == old(closed)
      ensures ok <==> old(Fresh(fd))
      ensures read == if ok then old(read) + {fd} else old(read)
      ensures ok ==> var root := fdTable[fd];
                tree[0] == DirNode([], |root.children|, 0, ScrubRange(Arrange(ListingOf(root)), 1, |root.children|)) &&
                nodes == [root] && dirp == Members(root)
      ensures ok ==> Pending() == Enumerate(fdTable[fd])
    {
      tree := new DirNode[INITIAL_MAX_DEPTH](_ => DirNode([], 0, 0, []));
      depth := 0;
      maxDepth := INITIAL_MAX_DEPTH;
      currentFd := fd;
      live := false;
      // dup fails on a descriptor the walk has closed
      var root := if fd in fdTable && fd !in closed then Some(fdTable[fd]) else None;
      if root.Some? && root.value.kind == Dir && fd in read {
        // the stream starts at the shared offset, after the last member
        var list, size := CreateDirFileList(Some(Stream([], false)));
        assert list == null;
        return false;
      }
      if root.Some? && root.value.kind == Dir {
        assert Walkable(fdTable, fd);
        SupportedNonEmpty(root.value);
      }
      var list, size := LoadDirectory(root);
      if list == null {
        return false;
      }
      // the listing read the shared offset to the end
      read := read + {fd};
      SetRoot(list, size);
      ok := true;
    }

    /** The root frame: the root's prepared listing, its cursor at the start. */
    method SetRoot(list: array<DirEntry>, size: int)
      requires tree.Length == maxDepth >= 1 && depth == 0 && !live
      requires TableOK(fdTable)
      requires currentFd in fdTable && Supported(fdTable[currentFd])
      requires size == list.Length && list[..] == ScrubRange(Arrange(ListingOf(fdTable[currentFd])), 1, size)
      requires size == |fdTable[currentFd].children|
      modifies this, tree
      ensures Valid() && live && tree == old(tree) && depth == 0 && maxDepth == old(maxDepth) && currentFd == old(currentFd)
      ensures tree[0] == DirNode([], size, 0, list[..]) && closed == old(closed) && read == old(read)
      ensures nodes == [fdTable[currentFd]] && dirp == Members(fdTable[currentFd])
      ensures Pending() == Enumerate(fdTable[currentFd])
    {
      var root := fdTable[currentFd];
      ghost var file := list[..];
      ghost var frames := [DirNode([], size, 0, file)];
      Start(root, [root], frames, file);
      tree[0] := DirNode([], size, 0, list[..]);
      dirp := Members(root);
      nodes := [root];
      live := true;
      assert tree[..depth + 1] == frames;
    }

    /** A name that is not in memory is read back: seekdir to the position
        stored with the entry, then readdir. Returns whether it was read. */
    method Refetch() returns (refetched: bool)
      requires Valid() && live && tree[depth].current < tree[depth].lenght
      modifies tree
      ensures Valid() && live
      ensures 0 <= tree[depth].current < |tree[depth].file|
      ensures Cursor(tree[depth]).loc < |dirp| && Cursor(tree[depth]).name == Some(dirp[Cursor(tree[depth]).loc].name)
      ensures IgnoreFile(dirp[Cursor(tree[depth]).loc].name) == 0 ==> Cursor(tree[depth]).kind == Dir || Cursor(tree[depth]).kind == Reg
      ensures refetched <==> Cursor(old(tree[depth])).name.None?
      ensures tree[depth] == if refetched then WithName(old(tree[depth]), Cursor(tree[depth]).name) else old(tree[depth])
      ensures tree[..depth] == old(tree[..depth])
      ensures Pending() == old(Pending()) && Remaining() == old(Remaining())
    {
      ghost var frames := tree[..depth + 1];
      AtCursor(fdTable[currentFd], nodes, frames, dirp);
      refetched := false;
      var fr := tree[depth];
      if Cursor(fr).name.None? {
        var name := dirp[Cursor(fr).loc].name;
        SetName(fdTable[currentFd], nodes, frames, dirp, Some(name));
        tree[depth] := WithName(fr, Some(name));
        assert tree[..depth + 1] == SetTop(frames, WithName(Top(frames), Some(name)));
        refetched := true;
      }
    }

    /** A name starting with a dot: drop it and move on. */
    method SkipEntry()
      requires Valid() && live && 0 <= tree[depth].current < |tree[depth].file|
      requires Cursor(tree[depth]).name.Some? && IgnoreFile(Cursor(tree[depth]).name.value) == 1
      modifies tree
      ensures Valid() && live
      ensures tree[depth] == Dropped(old(tree[depth]))
      ensures tree[..depth] == old(tree[..depth])
      ensures Pending() == old(Pending()) && Remaining() < old(Remaining())
    {
      ghost var frames := tree[..depth + 1];
      SkipStep(fdTable[currentFd], nodes, frames, dirp);
      tree[depth] := Dropped(tree[depth]);
      assert tree[..depth + 1] == SetTop(frames, Dropped(Top(frames)));
    }

    /** A regular file: its name is returned and the cursor moves past it.
        A name read back from the stream is dropped; a name that was in
        memory is freed without being reset. */
    method YieldFile(refetched: bool) returns (filename: string)
      requires Valid() && live && 0 <= tree[depth].current < |tree[depth].file|
      requires Cursor(tree[depth]).name.Some? && IgnoreFile(Cursor(tree[depth]).name.value) == 0
      requires Cursor(tree[depth]).kind == Reg
      modifies tree
      ensures Valid() && live
      ensures tree[depth] == if refetched then Dropped(old(tree[depth])) else Next(old(tree[depth]))
      ensures tree[..depth] == old(tree[..depth])
      ensures old(Pending()) == [filename] + Pending()
    {
      ghost var frames := tree[..depth + 1];
      YieldStep(fdTable[currentFd], nodes, frames, dirp, refetched);
      filename := Cursor(tree[depth]).name.value;
      if refetched {
        tree[depth] := Dropped(tree[depth]);
      } else {
        tree[depth] := Next(tree[depth]);
      }
      assert tree[..depth + 1] == SetTop(frames, if refetched then Dropped(Top(frames)) else Next(Top(frames)));
    }

    /** A subdirectory: move the cursor past it and drop its name, push a
        frame (doubling the stack when it is full), open the subdirectory by
        its name, and read, sort and scrub its listing; the stream moves to
        the subdirectory. */
    method EnterDirectory()
      requires Valid() && live && 0 <= tree[depth].current < |tree[depth].file|
      requires Cursor(tree[depth]).name.Some? && IgnoreFile(Cursor(tree[depth]).name.value) == 0
      requires Cursor(tree[depth]).kind == Dir
      modifies this, tree
      ensures Valid() && live && currentFd == old(currentFd)
      ensures fresh(tree) || tree == old(tree)
      ensures depth == old(depth) + 1 && closed == old(closed) + {currentFd} && read == old(read)
      ensures maxDepth == if old(depth) + 1 > old(maxDepth) - 1 then 2 * old(maxDepth) else old(maxDepth)
      ensures tree[..depth - 1] == old(tree[..depth]) && tree[depth - 1] == Dropped(old(tree[depth]))
      ensures var path := OpenAt(old(tree[depth]).dirFd, Cursor(old(tree[depth])).name.value);
              var sub := Resolve(fdTable[currentFd], path);
              sub.Some? && nodes == old(nodes) + [sub.value] && dirp == Members(sub.value) &&
              tree[depth] == DirNode(path, |sub.value.children|, 0, ScrubRange(Arrange(ListingOf(sub.value)), 1, |sub.value.children|))
      ensures Pending() == old(Pending()) && Remaining() < old(Remaining())
    {
      ghost var frames := tree[..depth + 1];
      ghost var top := tree[depth];
      var name := Cursor(tree[depth]).name.value;
      Deepen();
      assert tree[..depth - 1] == frames[..depth - 1] == old(tree[..depth]);
      assert tree[depth - 1] == Dropped(top) && Dropped(top).dirFd == top.dirFd;
      OpenSubdirectory(name, frames);
    }

    /** After the descent: the subdirectory named name under the frame below
        is opened, read, sorted and scrubbed, and becomes the new top frame. */
    method OpenSubdirectory(name: string, ghost frames: seq<DirNode>)
      requires 0 < depth < maxDepth == tree.Length && live && currentFd in fdTable
      requires TableOK(fdTable)
      requires LiveOK(fdTable[currentFd], nodes, frames, dirp)
      requires 0 <= Top(frames).current < |Top(frames).file|
      requires Cursor(Top(frames)).name == Some(name) && IgnoreFile(name) == 0
      requires Cursor(Top(frames)).kind == Dir
      requires tree[..depth] == SetTop(frames, Dropped(Top(frames)))
      modifies this, tree
      ensures Valid() && live && tree == old(tree) && currentFd == old(currentFd)
      ensures depth == old(depth) && maxDepth == old(maxDepth) && tree[..depth] == old(tree[..depth])
      ensures closed == old(closed) + {currentFd} && read == old(read)
      ensures var path := OpenAt(Top(frames).dirFd, name);
              var sub := Resolve(fdTable[currentFd], path);
              sub.Some? && nodes == old(nodes) + [sub.value] && dirp == Members(sub.value) &&
              tree[depth] == DirNode(path, |sub.value.children|, 0, ScrubRange(Arrange(ListingOf(sub.value)), 1, |sub.value.children|))
      ensures Pending() == Pend(old(nodes), frames) && Remaining() < Work(old(nodes), frames)
    {
      ghost var root := fdTable[currentFd];
      EnterOpen(root, nodes, frames, dirp);
      assert tree[depth - 1] == Dropped(Top(frames));
      // openat(tree[depth - 1].dir_fd, name): the subdirectory's descriptor
      var path := OpenAt(tree[depth - 1].dirFd, name);
      var sub := Resolve(fdTable[currentFd], path);
      var list, size := LoadDirectory(sub);
      ghost var file := list[..];
      EnterStep(root, nodes, frames, dirp, sub.value, file);
      PushFrame(DirNode(path, size, 0, list[..]), sub.value);
    }

    /** The new top frame, for directory sub; the stream moves to sub.
        Closing the old stream closes its descriptor, which for the root's
        stream is the caller's; the streams of deeper frames are over
        descriptors the walk opened itself, which the model does not number. */
    method PushFrame(fr: DirNode, sub: FsNode)
      requires 0 < depth < maxDepth == tree.Length && currentFd in fdTable
      requires TableOK(fdTable)
      requires LiveOK(fdTable[currentFd], nodes + [sub], tree[..depth] + [fr], Members(sub))
      modifies this, tree
      ensures Valid() && live && tree == old(tree) && currentFd == old(currentFd)
      ensures depth == old(depth) && maxDepth == old(maxDepth) && tree[..depth] == old(tree[..depth]) && tree[depth] == fr
      ensures nodes == old(nodes) + [sub] && dirp == Members(sub) && closed == old(closed) + {currentFd}
      ensures read == old(read)
      ensures Pending() == Pend(old(nodes) + [sub], old(tree[..depth]) + [fr])
      ensures Remaining() == Work(old(nodes) + [sub], old(tree[..depth]) + [fr])
    {
      ghost var frames := tree[..depth] + [fr];
      tree[depth] := fr;
      // closedir(dirp), then fdopendir on the new frame's descriptor
      closed := closed + {currentFd};
      dirp := Members(sub);
      nodes := nodes + [sub];
      live := true;
      assert tree[..depth + 1] == frames;
    }

    /** The cursor moves past the subdirectory entry and its name is
        dropped; the depth grows by one, and the stack doubles when the new
        depth does not fit. */
    method Deepen()
      requires Valid() && live && 0 <= tree[depth].current < |tree[depth].file|
      modifies this, tree
      ensures depth == old(depth) + 1 && 0 < depth < maxDepth == tree.Length
      ensures maxDepth == if depth > old(maxDepth) - 1 then 2 * old(maxDepth) else old(maxDepth)
      ensures tree[..depth] == SetTop(old(tree[..depth + 1]), Dropped(old(tree[depth])))
      ensures fresh(tree) || tree == old(tree)
      ensures currentFd == old(currentFd) && dirp == old(dirp) && live == old(live) && nodes == old(nodes)
      ensures closed == old(closed) && read == old(read)
    {
      ghost var frames := tree[..depth + 1];
      tree[depth] := Dropped(tree[depth]);
      depth := depth + 1;
      assert tree[..depth] == SetTop(frames, Dropped(frames[depth - 1]));
      // a deeper directory than the stack holds: double it
      if depth > maxDepth - 1 {
        Grow();
      }
    }

    /** realloc of the stack to twice its capacity: the frames in use keep
        their places. */
    method Grow()
      requires tree.Length == maxDepth
      modifies this
      ensures maxDepth == 2 * old(maxDepth) && fresh(tree) && tree.Length == maxDepth
      ensures tree[..old(tree.Length)] == old(tree[..])
      ensures depth == old(depth) && currentFd == old(currentFd) && dirp == old(dirp)
      ensures live == old(live) && nodes == old(nodes) && closed == old(closed) && read == old(read)
    {
      maxDepth := 2 * maxDepth;
      var tmp := new DirNode[maxDepth](_ => DirNode([], 0, 0, []));
      forall k | 0 <= k < tree.Length {
        tmp[k] := tree[k];
      }
      tree := tmp;
    }

    /** The end of a directory: pop its frame (depth-- and a test against
        -1). Below the root, the parent is reopened through ".." and the
        stream moves to it; at the root the walk is over. Returns whether
        the walk goes on. */
    method LeaveDirectory() returns (more: bool)
      requires Valid() && live && tree[depth].current >= tree[depth].lenght
      modifies this, tree
      ensures Valid() && tree == old(tree) && currentFd == old(currentFd) && more == live
      ensures more <==> old(depth) >= 1
      ensures more ==> depth == old(depth) - 1 && tree[..depth + 1] == old(tree[..depth]) && closed == old(closed)
      ensures !more ==> depth == -1 && closed == old(closed) + {currentFd}
      ensures read == old(read)
      ensures more ==> Pending() == old(Pending()) && Remaining() < old(Remaining())
      ensures !more ==> old(Pending()) == []
    {
      if depth - 1 != -1 {
        ReturnToParent();
        more := true;
      } else {
        EndWalk();
        more := false;
      }
    }

    /** Popping a frame that has a parent: the parent's descriptor is
        reopened through "..", and the stream moves to the parent. */
    method ReturnToParent()
      requires Valid() && live && depth >= 1 && tree[depth].current >= tree[depth].lenght
      modifies this, tree
      ensures Valid() && live && tree == old(tree) && currentFd == old(currentFd)
      ensures depth == old(depth) - 1 && maxDepth == old(maxDepth) && tree[..depth + 1] == old(tree[..depth])
      ensures nodes == old(nodes[..depth]) && dirp == Members(old(nodes[depth - 1])) && closed == old(closed)
      ensures read == old(read)
      ensures Pending() == old(Pending()) && Remaining() < old(Remaining())
    {
      ghost var frames := tree[..depth + 1];
      Ascend(fdTable[currentFd], nodes, frames, dirp);
      depth := depth - 1;
      // openat(tree[depth + 1].dir_fd, ".."): the parent's descriptor
      tree[depth] := tree[depth].(dirFd := OpenAt(tree[depth + 1].dirFd, ".."));
      assert tree[..depth + 1] == frames[..|frames| - 1];
      dirp := Members(Resolve(fdTable[currentFd], tree[depth].dirFd).value);
      nodes := nodes[..depth + 1];
    }

    /** Popping the root frame: the walk is over, and nothing was left. */
    method EndWalk()
      requires Valid() && live && depth == 0 && tree[depth].current >= tree[depth].lenght
      modifies this
      ensures Valid() && !live && tree == old(tree) && currentFd == old(currentFd)
      ensures depth == -1 && closed == old(closed) + {currentFd} && read == old(read)
      ensures old(Pending()) == []
    {
      Exhausted(fdTable[currentFd], nodes, tree[..depth + 1], dirp);
      depth := depth - 1;
      // closedir(dirp): when the walk never descended, the root's stream
      // and with it the caller's descriptor
      closed := closed + {currentFd};
      live := false;
    }
  }

  /** Taking the next name off what is still to come keeps the names
      produced and the names to come adding up to the whole walk. */
  lemma NextName(done: seq<string>, rest: seq<string>, expected: seq<string>)
    requires done + rest == expected
    ensures rest == [] ==> done == expected
    ensures rest != [] ==> (done + [rest[0]]) + rest[1..] == expected
  {
    if rest != [] {
      assert rest == [rest[0]] + rest[1..];
    }
  }

  /** The caller's loop: call with the same descriptor until -1, collecting
      the names. The names are the enumeration of the directory fd refers to. */
  method Walk(w: Walker, fd: int) returns (names: seq<string>)
    requires w.Valid() && fd != -1 && fd != w.currentFd
    modifies w, w.tree
    ensures w.Valid() && w.currentFd == fd && !w.live
    ensures old(w.closed) <= w.closed <= old(w.closed) + {fd}
    ensures fresh(w.tree) || w.tree == old(w.tree)
    ensures w.read == if old(w.Fresh(fd)) then old(w.read) + {fd} else old(w.read)
    ensures names == if old(w.Fresh(fd)) then Enumerate(w.fdTable[fd]) else []
    ensures fd in w.closed <==> fd in old(w.closed) || old(w.Fresh(fd))
  {
    ghost var expected := w.Upcoming(fd);
    ghost var wasFresh := w.Fresh(fd);
    ghost var closed0, read0 := w.closed, w.read;
    names := [];
    var ret, name := w.GetNextFiledes(fd);
    while ret != -1
      invariant w.Valid() && w.currentFd == fd && (w.live <==> ret != -1)
      invariant fresh(w.tree) || w.tree == old(w.tree)
      invariant closed0 <= w.closed <= closed0 + {fd}
      invariant ret != -1 ==> wasFresh
      invariant w.read == if wasFresh then read0 + {fd} else read0
      invariant ret == -1 ==> (fd in w.closed <==> fd in closed0 || wasFresh)
      invariant ret != -1 ==> (names + [name]) + w.Pending() == expected
      invariant ret == -1 ==> names == expected
      decreases |w.Pending()| + (if ret != -1 then 1 else 0)
    {
      ghost var rest := w.Pending();
      names := names + [name];
      ret, name := w.GetNextFiledes(fd);
      NextName(names, rest, expected);
    }
  }

  /** Walking a, then another descriptor b, then a again: the first walk
      closes a (with the root's stream), so the second walk of a fails at
      the dup in create_dir_file_list and produces nothing. */
  method WalkAgain(w: Walker, a: int, b: int) returns (first: seq<string>, again: seq<string>)
    requires w.Valid() && a != -1 && b != -1 && a != b && a != w.currentFd
    requires w.Fresh(a)
    modifies w, w.tree
    ensures first == Enumerate(w.fdTable[a]) && again == []
  {
    first := Walk(w, a);
    var _ := Walk(w, b);
    again := Walk(w, a);
  }

  /** One call with a, a whole walk of another descriptor b, then a call
      with a again: the first call yields the first file of a, and the
      walk of a is not resumed. If the first call descended, a was closed
      with the root's stream; if not, the root's listing left a's shared
      offset at the end, the new listing is empty, and the call returns -1. */
  method SwitchAway(w: Walker, a: int, b: int) returns (ret: int, name: string, back: int)
    requires w.Valid() && a != -1 && b != -1 && a != b && a != w.currentFd
    requires w.Fresh(a)
    modifies w, w.tree
    ensures Enumerate(w.fdTable[a]) != [] ==> ret == OPENED_FILE && name == Enumerate(w.fdTable[a])[0]
    ensures Enumerate(w.fdTable[a]) == [] ==> ret == -1
    ensures back == -1
  {
    ret, name := w.GetNextFiledes(a);
    var _ := Walk(w, b);
    var again;
    back, again := w.GetNextFiledes(a);
  }

  /** The program: open a descriptor for the directory (-1 when open
      fails), then, from the statics' initial values, print the name of
      every regular file the calls return until -1. The names are the
      enumeration of the directory. */
  method WalkFromStart(fdTable: map<int, FsNode>, fd: int) returns (names: seq<string>)
    requires TableOK(fdTable)
    ensures names == if fd != -1 && fd in fdTable && fdTable[fd].kind == Dir then Enumerate(fdTable[fd]) else []
  {
    if fd == -1 {
      return [];
    }
    var w := new Walker(fdTable);
    names := Walk(w, fd);
  }
}
