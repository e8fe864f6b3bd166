/** The records the traverser works on: what a directory stream delivers for
    one member, and the lighter entry the traverser keeps per member. */
module Entries {

  datatype Option<+T> = None | Some(value: T)

  /** The d_type a directory stream reports for a member (DT_UNKNOWN, DT_FIFO, ...). */
  datatype Kind = Unknown | Fifo | Chr | Dir | Blk | Reg | Lnk | Sock | Wht

  /** struct dir_entry: the stream position the member was read from (the
      telldir token), its name while it is held in memory (NULL otherwise),
      and its type. */
  datatype DirEntry = DirEntry(loc: nat, name: Option<string>, kind: Kind)

  /** What one readdir call delivers: the member's name and type. */
  datatype Dirent = Dirent(name: string, kind: Kind)

  /** An open directory stream. Member k is what the (k+1)-th readdir returns
      and k is the position telldir reports before that read; the read after
      the last member either reports end-of-stream or, when failsAtEnd holds,
      fails with an error. */
  datatype Stream = Stream(members: seq<Dirent>, failsAtEnd: bool)

  /** The name an entry holds, read as empty when it is not in memory. */
  function NameOf(e: DirEntry): string {
    if e.name.Some? then e.name.value else ""
  }

  /** The members that prioritize_directories moves to the front. */
  predicate IsDirOrLink(e: DirEntry) {
    e.kind == Dir || e.kind == Lnk
  }

  predicate AllNamed(s: seq<DirEntry>) {
    forall k :: 0 <= k < |s| ==> s[k].name.Some?
  }
}
