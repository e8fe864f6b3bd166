/** Reading one directory into a listing (create_dir_file_list) and
    dropping the names a listing holds (scrub_dir_file_list). */
module Listing {
  import opened Entries

  const INITIAL_CAPACITY: nat := 32

  /** The listing a complete pass over the members yields: entry k was read
      at position k, with its name and type. */
  function ReadListing(members: seq<Dirent>): (r: seq<DirEntry>)
    ensures |r| == |members| && AllNamed(r)
  {
    seq(|members|, k requires 0 <= k < |members| => DirEntry(k, Some(members[k].name), members[k].kind))
  }

  /** The listing with the names of entries lo..hi-1 dropped. */
  function ScrubRange(s: seq<DirEntry>, lo: nat, hi: nat): seq<DirEntry> {
    seq(|s|, k requires 0 <= k < |s| => if lo <= k < hi then s[k].(name := None) else s[k])
  }

  /** Scrubbing keeps every position and type and drops exactly the names
      in the range. */
  lemma ScrubKeepsPositionsAndTypes(s: seq<DirEntry>, lo: nat, hi: nat)
    ensures |ScrubRange(s, lo, hi)| == |s|
    ensures forall k :: 0 <= k < |s| ==>
                          ScrubRange(s, lo, hi)[k].loc == s[k].loc && ScrubRange(s, lo, hi)[k].kind == s[k].kind
    ensures forall k :: 0 <= k < |s| ==>
                          ScrubRange(s, lo, hi)[k].name == if lo <= k < hi then None else s[k].name
  {
  }

  /** Scrubbing twice is scrubbing once. */
  lemma ScrubIdempotent(s: seq<DirEntry>, lo: nat, hi: nat)
    ensures ScrubRange(ScrubRange(s, lo, hi), lo, hi) == ScrubRange(s, lo, hi)
  {
  }

  /** create_dir_file_list over an abstract stream. dir is None when the
      descriptor is invalid or cannot be opened as a directory stream. The
      buffer starts at INITIAL_CAPACITY entries and doubles whenever the
      next write would reach its end; the position is recorded before every
      read; at end of stream the buffer is trimmed to the number of entries.
      An empty stream and a read error yield NULL. */
  method CreateDirFileList(dir: Option<Stream>) returns (list: array?<DirEntry>, size: int)
    ensures list == null <==> dir.None? || dir.value.failsAtEnd || |dir.value.members| == 0
    ensures list != null ==> fresh(list) && size == list.Length
    ensures list != null ==> list[..] == ReadListing(dir.value.members)
  {
    if dir.None? {
      return null, 0;
    }
    var members := dir.value.members;
    var lenght := INITIAL_CAPACITY;
    var buf := new DirEntry[lenght](_ => DirEntry(0, None, Unknown));
    var i := 0;
    while true
      invariant 0 <= i <= |members|
      invariant INITIAL_CAPACITY <= lenght == buf.Length && i <= lenght
      invariant fresh(buf)
      invariant buf[..i] == ReadListing(members)[..i]
      decreases |members| - i
    {
      if i == lenght {
        lenght := 2 * lenght;
        var tmp := new DirEntry[lenght](_ => DirEntry(0, None, Unknown));
        forall k | 0 <= k < i {
          tmp[k] := buf[k];
        }
        buf := tmp;
      }
      // telldir: the position before this read
      buf[i] := DirEntry(i, None, Unknown);
      // readdir
      if i == |members| {
        if dir.value.failsAtEnd {
          return null, 0;
        }
        break;
      }
      buf[i] := buf[i].(name := Some(members[i].name), kind := members[i].kind);
      assert buf[..i + 1] == buf[..i] + [buf[i]];
      assert ReadListing(members)[..i + 1] == ReadListing(members)[..i] + [ReadListing(members)[i]];
      i := i + 1;
    }
    if i == 0 {
      return null, 0;
    }
    // trim to the number of entries
    list := new DirEntry[i](_ => DirEntry(0, None, Unknown));
    forall k | 0 <= k < i {
      list[k] := buf[k];
    }
    size := i;
  }

  /** scrub_dir_file_list applied to list + from: drops the name of every
      entry in from..from+size-1, counting down, and touches nothing else. */
  method ScrubDirFileList(list: array?<DirEntry>, from: nat, size: nat) returns (r: int)
    requires list != null ==> from + size <= list.Length
    modifies list
    ensures list == null ==> r == -1
    ensures list != null ==> r == 0 && list[..] == ScrubRange(old(list[..]), from, from + size)
  {
    if list == null {
      return -1;
    }
    var n := size;
    while n != 0
      invariant 0 <= n <= size
      invariant forall k :: 0 <= k < list.Length ==>
                              list[k] == if from + n <= k < from + size then old(list[k]).(name := None) else old(list[k])
    {
      if list[from + n - 1].name.Some? {
        list[from + n - 1] := list[from + n - 1].(name := None);
      }
      n := n - 1;
    }
    r := 0;
  }
}
