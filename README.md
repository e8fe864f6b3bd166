# CDir core in Dafny

A model of `core.c` of CDir. CDir is a resumable depth-first directory
iterator. `dir_get_next_filedes(fd)` keeps its state in statics:
- a stack of per-directory frames (`struct dir_node`);
- the depth and the capacity of that stack;
- the descriptor being walked;
- the open directory stream.

Each call goes on with the walk until it meets the next regular file, and returns a
descriptor for that file with its name copied into a buffer. When the walk
is over it returns -1. The walk works like this:
- A frame holds the listing of one directory (`struct dir_entry`: the
  telldir position, the name and the type of each entry). The listing is
  built by `create_dir_file_list`.
- `sort_file_list` orders the listing: `qsort` with `qsort_cmp_alpha`
  (strcasecmp), then `prioritize_directories` (a stable partition that puts
  directories and links first).
- `scrub_dir_file_list` frees every name but the first, to save memory.
- A dropped name is read back from the stream with seekdir/readdir when the
  cursor reaches it.
- Names that start with a dot are skipped (`ignore_file`).

The modules follow the structure of the source:

- `Entries` (entries.dfy): `struct dir_entry` as `DirEntry(loc, name, kind)`,
  where a dropped or freed name is `None`. It also holds the entry types of
  `<dirent.h>`, an entry as readdir delivers it (`Dirent`), and a directory
  stream: its members in read order, and whether readdir fails at the end.
- `Names` (names.dfy):
  - strcmp and strcasecmp on C strings. strcasecmp is ASCII case folding
    followed by strcmp.
  - `ignore_file`.
  - The lexicographic order these functions agree with.
- `Ordering` (ordering.dfy):
  - `qsort_cmp_alpha`;
  - the qsort call as an array method specified by a stable insertion sort;
  - `prioritize_directories` as the in-place rotation loop of the source,
    specified by a reference stable partition;
  - `sort_file_list`.
- `Listing` (listing.dfy): `create_dir_file_list`, with its growing array,
  and `scrub_dir_file_list`, both as array methods.
- `FileTree` (filetree.dfy): the file system the walk reads.
  - An `FsNode` has a kind and its members in readdir order.
  - A directory descriptor is the path of names that leads to it from the
    root. `openat(dir, name)` extends the path, and `openat(dir, "..")`
    shortens it.
  - A supported directory's member names are C strings, so the comparator's
    order is the order `Arrange` sorts by.
  - `OpenStream` is the model's definition of fdopendir: only a directory
    opens, and its stream delivers the directory's members.
  - `Enumerate(d)` is the reference definition of what a complete walk of
    `d` produces: its regular files in the order the sorted listings put
    them.
- `Traversal` (traversal.dfy):
  - the `Walker` class. Its fields are the statics of
    `dir_get_next_filedes`, plus two sets of the caller's descriptors: those
    the walk has closed, and those whose file offset a listing of the walk
    has moved to the end of the directory (`dup` shares the offset);
  - one method per branch of its loop;
  - the lemmas that tie each step to `Enumerate`;
  - `Walk`, the caller's loop (`while((ret_fd = dir_get_next_filedes(fd, name)) != -1)`
    in main.c).

The main results are these:
- `Walk` returns exactly `Enumerate` of the directory it is given, unless an
  earlier walk closed that descriptor or read it. In that case it returns
  nothing: dup fails on a closed descriptor, and a listing through the dup
  of a read one starts at the shared offset, at the end, and comes back
  empty.
- Every call of `GetNextFiledes` returns the next name of that
  enumeration and removes it from what is still to come, or returns -1
  exactly when nothing is left.
- The walk terminates: a measure of the remaining work decreases with every
  loop iteration.

## Model

| member | source | states |
|---|---|---|
| Names.CaseCmpIsStrCmpOfFolded | core.c:30-34 | strcasecmp of two C strings is strcmp of their ASCII-folded forms |
| Names.CaseCmpZeroIff | core.c:30-34 | strcasecmp is 0 exactly when the two names are equal up to ASCII case |
| Names.CaseCmpOrdersLikeLex | core.c:30-34 | strcasecmp is at most 0 exactly when the folded names are in lexicographic order |
| Names.CaseCmpAntisymmetric | core.c:30-34 | swapping the arguments of strcasecmp negates the sign of the result |
| Names.IgnoreFile | core.c:196-202 | the result is 0 or 1, and it is 1 exactly when the name is non-empty and starts with '.' |
| Names.DotEntriesIgnored | core.c:196-202 | "." and ".." are ignored, and the empty name is not |
| Ordering.QsortCmpAlpha | core.c:30-34 | the comparator is strcmp of the two case-folded names, and swapping the entries negates it |
| Ordering.QsortCmpAlphaAgreesWithNameLe | core.c:30-34 | the comparator is at most 0 exactly when the first entry's name is at most the second's, case-insensitively |
| Ordering.NameLeTotalPreorder | core.c:30-34 | the comparator's order is total and transitive, as qsort needs |
| Ordering.SortByNamePermutation | core.c:81 | the reference sort rearranges its input without losing or adding entries |
| Ordering.SortByNameSorted | core.c:81 | the reference sort's output is in case-insensitive name order |
| Ordering.Qsort | core.c:81 | after the call, the first size cells hold the reference sort of what they held before, and the cells beyond size are unchanged |
| Ordering.PrioritizeDirectories | core.c:37-71 | returns -1 on a NULL list and leaves it alone; otherwise returns 0, the first size cells become the stable partition of their old contents (directories and links first), and the rest is unchanged |
| Ordering.RotateIntoPlace | core.c:55-64 | the entry at i moves to first, the entries from first to i-1 shift up by one, and everything else stays |
| Ordering.PartitionIsPermutation | core.c:37-71 | the partition is a permutation of its input |
| Ordering.PartitionShape | core.c:37-71 | in the partition, an entry is a directory or a link exactly when its position is below the number of directories and links in the input |
| Ordering.PartitionDirsFirst | core.c:37-71 | in the partition, no directory or link comes after an entry of another kind |
| Ordering.PartitionStable | core.c:37-71 | within each group, the partition keeps the input's relative order |
| Ordering.PartitionSortedWithinGroups | core.c:74-84 | partitioning a name-sorted list leaves each group name-sorted |
| Ordering.ArrangeOrdered | core.c:74-84 | sort then partition gives a permutation with directories and links first and each group in case-insensitive name order |
| Ordering.SortFileList | core.c:74-84 | returns -1 on a NULL list; otherwise returns 0, the first size cells become the arranged listing of their old contents, and the rest is unchanged |
| Listing.ReadListing | core.c:124-151 | reading a stream gives one named entry per member, in read order |
| Listing.ScrubKeepsPositionsAndTypes | core.c:175-191 | scrubbing keeps the length and every position and type, drops the names in the range and keeps the names outside it |
| Listing.ScrubIdempotent | core.c:182-188 | scrubbing the same range twice gives the same list as scrubbing it once |
| Listing.CreateDirFileList | core.c:89-172 | returns NULL exactly when there is no stream (an invalid descriptor or fdopendir failing), when readdir fails, or when the stream is empty; otherwise returns a fresh array of exactly the entries read, each with its name, type and read position, and its size |
| Listing.ScrubDirFileList | core.c:175-191 | returns -1 on NULL; otherwise returns 0, drops the names at from to from+size-1, and keeps every other field and entry |
| FileTree.ResolveMember | core.c:349-350 | openat by a member's name reaches that member, and openat(.., "..") from there leads back to the directory |
| FileTree.RefetchRecoversName | core.c:282-291 | after sorting and partitioning, the stream position stored with an entry still names the member it was read from, with the same name and type |
| FileTree.PreparedListing | core.c:252-265 | the listing a frame keeps (arranged, then scrubbed from 1) agrees with its directory and keeps the arranged positions |
| FileTree.FirstEntryIsDirectory | core.c:259-265 | in a supported directory, the one entry whose name stays in memory is a directory or a link |
| FileTree.EnumSameLocs | core.c:282-291 | what a listing produces depends only on its positions, not on which names are still in memory |
| FileTree.EnumerateSkipsDotNames | core.c:299-309 | no name that a walk produces starts with '.' |
| Traversal.AtCursor | core.c:278-294 | under the top cursor there is an entry; its position names a member of the open stream, and its name (when in memory) and type are that member's; an entry that is not ignored is a directory or a regular file |
| Traversal.SetName | core.c:282-291 | reading a dropped name back from the stream keeps the walk's invariant, and what is still to come is unchanged |
| Traversal.Advance | core.c:420 | moving the cursor past an entry removes that entry's contribution from the front of what is still to come |
| Traversal.DropStep | core.c:305-307 | dropping the name under the cursor and moving past it removes that entry's contribution from the front of what is still to come |
| Traversal.SkipStep | core.c:299-309 | skipping a dot-name loses nothing still to come, and the remaining work decreases |
| Traversal.YieldStep | core.c:402-421 | yielding a regular file produces exactly the first name still to come, and the rest follows |
| Traversal.EnterOpen | core.c:328-350 | openat of a subdirectory's name from the top frame's descriptor reaches exactly the member that the cursor entry's stored position names (the entry agrees with it in name and type), and that member is a supported, non-empty directory |
| Traversal.EnterStep | core.c:328-394 | pushing the frame of a subdirectory keeps the invariant, and what is still to come is unchanged: the subdirectory's files, then the rest |
| Traversal.Descend | core.c:369-394 | the pushed frame of subdirectory k keeps the invariant, with the stream on k's members, and puts k's files in front of the rest |
| Traversal.ChildFrame | core.c:349-350 | the frame of a subdirectory opened by name describes it, and ".." from it leads back to the parent |
| Traversal.PushRest | core.c:369-394 | a fresh frame for subdirectory k contributes exactly k's enumeration ahead of the rest |
| Traversal.Ascend | core.c:427-443 | popping an exhausted frame with a parent: ".." leads to the parent's descriptor, the invariant holds with the stream on the parent's members, nothing still to come is lost, and the work decreases |
| Traversal.PopRest | core.c:427-429 | popping a frame with nothing left in it loses nothing still to come |
| Traversal.Exhausted | core.c:445-451 | an exhausted root frame has nothing left to produce |
| Traversal.Start | core.c:237-272 | a root frame holding the prepared listing of the root satisfies the invariant, and has the whole enumeration ahead |
| Traversal.SupportedNonEmpty | core.c:153-155 | a supported directory's stream is never empty, so building its listing never fails for emptiness |
| Traversal.LoadDirectory | core.c:252-265 | creating, sorting and scrubbing a listing gives NULL exactly when there is no directory or it is empty; otherwise it gives the arranged listing with every name but the first dropped |
| Traversal.Walker.constructor | core.c:213-228 | the state before the first call: no walk in progress, the current descriptor is -1, no descriptor is closed or read, the stack is a new, empty array, and `max_depth` and `depth` are 0 |
| Traversal.Walker.GetNextFiledes | core.c:211-454 | -1 for descriptor -1, with the state unchanged. Otherwise the walk switches to fd. The call returns the opened-file descriptor and the first name still to come, and the rest stays pending, exactly when something is left; otherwise it returns -1. At most fd joins the closed descriptors. fd joins the read descriptors exactly when the walk switched to it and it was an open, unread directory. After -1, fd is closed exactly when it was closed before, was the one being walked, or was an open, unread directory |
| Traversal.Walker.Restart | core.c:231-272 | a new descriptor gets a fresh stack of 16 frames and depth 0. It succeeds exactly when the descriptor refers to a directory, is not closed, and has not been read by an earlier listing. On success the descriptor joins the read ones, and the root frame then holds the prepared root listing with its cursor at 0, the stream is on the root's members, and the whole enumeration is pending |
| Traversal.Walker.SetRoot | core.c:257-268 | frame 0 is the given prepared listing with its size and cursor 0, the stream is on the root's members, the depth is 0, and the whole enumeration is pending |
| Traversal.Walker.Refetch | core.c:278-294 | a dropped name under the cursor is read back from the stream at its stored position; a name in memory stays; the frames below are unchanged; nothing still to come changes |
| Traversal.Walker.SkipEntry | core.c:299-309 | a dot-name is dropped and passed over; the frames below are unchanged; nothing still to come changes, and the work decreases |
| Traversal.Walker.YieldFile | core.c:402-422 | returns the first name still to come, moves past it, and drops it if it was read back; the frames below are unchanged |
| Traversal.Walker.EnterDirectory | core.c:328-397 | the depth goes up by one, and the capacity doubles exactly when the new depth does not fit. The frames below are unchanged, and the old top frame has moved past the subdirectory and dropped its name. The new top frame is the subdirectory opened by that name: its prepared listing with cursor 0, and the stream is on its members. The caller's descriptor is closed. Nothing still to come changes, and the work decreases |
| Traversal.Walker.OpenSubdirectory | core.c:347-397 | the depth, capacity and lower frames stay as they are. The subdirectory opened by name from the entered frame's descriptor becomes the top frame, holding its listing created, sorted and scrubbed from 1, with cursor 0. The stream moves to its members, and the caller's descriptor is closed. What is still to come is unchanged |
| Traversal.Walker.PushFrame | core.c:369-394 | the given frame becomes tree[depth], and depth, capacity and the lower frames stay as they are. The subdirectory is added to the frames' directories. The old stream is closed, and the stream moves to the subdirectory's members |
| Traversal.Walker.Deepen | core.c:329-345 | the cursor moves past the entry and its name is dropped, and the depth goes up by one. The capacity doubles exactly when the new depth is greater than the old capacity minus one, and otherwise stays the same |
| Traversal.Walker.Step | core.c:278-451 | one pass of the main loop either finds a regular file, which is the first name still to come; or ends the walk, when nothing was left; or keeps what is still to come and decreases the work. At most the walked descriptor joins the closed descriptors, and the read descriptors are unchanged |
| Traversal.Walker.Grow | core.c:336-345 | the stack's capacity doubles, and the frames in use keep their places |
| Traversal.Walker.LeaveDirectory | core.c:427-451 | the walk goes on exactly when the old depth is at least 1. In that case the depth drops by one, the remaining frames are unchanged, and nothing still to come is lost. Otherwise the depth becomes -1 and the caller's descriptor is closed, with nothing left to produce |
| Traversal.Walker.ReturnToParent | core.c:430-443 | the depth drops by one. The remaining frames, including the parent with its saved cursor, are unchanged. The stream moves to the parent's members. Nothing still to come changes, and the work decreases |
| Traversal.Walker.EndWalk | core.c:445-451 | at the exhausted root the walk ends: the depth becomes -1, the caller's descriptor is closed, and there was nothing left to produce |
| Traversal.WalkAgain | core.c:105-108 | after one walk of a directory, a walk of another descriptor and a second walk of the first one; the first walk yields the whole enumeration, and the second yields nothing, because dup fails on the closed descriptor. The walks chain completed walks, so in the source each restart also frees the stack a second time (core.c:238-240 after 448), which the model does not capture |
| Traversal.SwitchAway | core.c:105-155 | one call with a directory, a whole walk of another descriptor, then a call with the first directory: the first call yields the first name of the enumeration (or -1 when it is empty), and the last call returns -1. Either the first call descended and closed the descriptor, or the root listing left the shared offset at the end, so the new listing is empty (core.c:153-154). The walk of b runs to its end, so in the source the last call also frees the stack a second time (core.c:239 after 448), as does the first call with b when a's enumeration is empty; the model does not capture that |
| Traversal.Walk | main.c:23-26 | calling GetNextFiledes until -1 yields exactly the enumeration of the directory. A descriptor that is not a directory, is closed, or was read by an earlier walk yields nothing. Afterwards the descriptor is closed exactly when it was closed before or was an open, unread directory, and it is read exactly when it was read before or was an open, unread directory |
| Traversal.WalkFromStart | main.c:11-30 | from the statics' initial values, a run of the program on a directory descriptor prints exactly the enumeration of the directory; a descriptor that is -1, or not a directory, prints nothing |

## Left out

- I/O: the file system is a value (`FsNode`). A descriptor is the path
  that leads to it, and a stream is the list of its members. There are no
  real descriptors and no descriptor numbering, so a regular file's
  descriptor is the constant `OPENED_FILE`.
- Descriptor accounting: only the caller's descriptors are tracked. The
  walk closes the caller's descriptor when it closes the root's stream,
  at the first descent (core.c:393) or at the end (core.c:449); the model
  adds it to `closed` at every descent and at the end. It adds the
  descriptor to `read` when the root's listing succeeds. The descriptors
  the walk opens itself, their closing, and the open file the caller
  must close are not modelled.
- Memory management, that is malloc, realloc and free:
  - A dropped or freed name is `None`, and the stack is reallocated by
    copying.
  - When the yielded name was in memory, core.c:413-418 frees it but
    leaves the `d_name` field set. The model keeps the name, as the source
    does. The scrub at core.c:438 or 446 would then free that name a
    second time. This cannot happen in a supported tree: only the first
    entry of a listing keeps its name, and `FileTree.FirstEntryIsDirectory`
    shows that this entry is always a directory or a link.
  - Popping a frame frees its listing (core.c:438-439); the model just
    discards the frame.
- Error paths of openat, seekdir, realloc and malloc, and readdir
  returning NULL on a refetch. They cannot happen in the modelled file
  system.
- FileTree.OpenStream: every stream it makes has `failsAtEnd` false, so
  the listings the walk builds (core.c:252-255, 370-375) never meet the
  readdir error of core.c:139-142. `Listing.CreateDirFileList` models
  that error for any stream it is given.
- Traversal.Walker.GetNextFiledes: behaviour after the walk ends or fails.
  - The model requires that a call with the same descriptor is made only
    while the walk is live.
  - In the source, such a call reuses a freed stack at depth -1
    (core.c:446-450), or reads an uninitialised frame after a failed start
    (core.c:253-256).
  - A call with a different descriptor starts a new walk, on the shared
    offset that the descriptor's earlier listings left (see the next line).
    After a completed walk, the source frees the old stack a second time
    (core.c:238-240 after core.c:448); this is not modelled.
- Kinds other than directories and regular files, and the `#if 0` block
  (core.c:311-325). A tree is `Supported` only when every member that is
  not ignored is a directory or a regular file. On any other kind,
  symbolic links included, neither branch at core.c:328 or 402 is taken
  and the cursor does not move. So the source keeps revisiting the same
  entry forever (core.c:278), and the model excludes such trees.
- Traversal.Walker.GetNextFiledes: links are excluded with the other
  kinds. The sort still puts links with the directories.
- Traversal.Walker.Restart, Traversal.Walker.GetNextFiledes and
  Traversal.Walk: a descriptor's shared file offset is modelled by two
  positions only. A descriptor no walk has read is at the start of its
  directory, so a caller that read it first is not modelled. A descriptor
  a walk has read is at the end, where the root listing (core.c:124-151)
  leaves it. A refetch on the root stream (core.c:282-291) seeks the
  offset back and lets readdir read ahead, which for a directory larger
  than readdir's buffer can stop before the end; the model then still
  treats the offset as at the end, so the later listing comes back empty
  where the source's could hold the last members.
- telldir tokens: positions in a stream are read indices.
- The locale: strcasecmp is ASCII case folding.
- Ordering.Qsort: qsort's order among equal keys is unspecified. The model
  fixes it as a stable sort.
- Listing.ScrubDirFileList: size is a natural number, and the range must
  fit in the array. The source loops without end on a negative size and
  does not check bounds; every caller passes an in-bounds, non-negative
  range.
- Listing.CreateDirFileList: the capacity of 32 that doubles when the list
  is full is modelled inside the method. The result is trimmed to the
  entries read, so its contract does not mention the capacity.
- Traversal.Walker.EnterDirectory: the source opens the subdirectory by
  the entry's name and then drops the name (core.c:349-366). The model
  saves the name in a local, drops it while moving the cursor, and then
  opens the subdirectory by the saved name.
- Ordering.SortFileList and Ordering.Qsort: the size must be non-negative
  and every entry sorted must hold its name. The source passes a negative
  count to qsort as a huge unsigned one, and the comparator reads every
  name. Both callers pass the length of a fresh, fully named listing.
