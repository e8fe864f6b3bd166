/** Entry ordering: sort_file_list sorts a listing by name with qsort and
    qsort_cmp_alpha, then prioritize_directories moves every directory and
    link to the front, keeping the order inside each group. */
module Ordering {
  import opened Entries
  import opened Names

  /** qsort_cmp_alpha: strcasecmp of the two entries' names, which is
      strcmp of the case-folded names and changes sign when the entries are
      swapped. */
  function QsortCmpAlpha(one: DirEntry, two: DirEntry): (r: int)
    ensures r == StrCmp(Fold(NameOf(one)), Fold(NameOf(two)))
    ensures r == -CaseCmp(NameOf(two), NameOf(one))
  {
    CaseCmpIsStrCmpOfFolded(NameOf(one), NameOf(two));
    CaseCmpAntisymmetric(NameOf(one), NameOf(two));
    CaseCmp(NameOf(one), NameOf(two))
  }

  /** The order qsort establishes: folded names in lexicographic order. */
  predicate NameLe(x: DirEntry, y: DirEntry) {
    LexLe(Fold(NameOf(x)), Fold(NameOf(y)))
  }

  /** For C-string names the comparator's sign is exactly NameLe, so a
      sequence sorted by NameLe is one qsort may produce. */
  lemma QsortCmpAlphaAgreesWithNameLe(x: DirEntry, y: DirEntry)
    requires CString(NameOf(x)) && CString(NameOf(y))
    ensures QsortCmpAlpha(x, y) <= 0 <==> NameLe(x, y)
    ensures QsortCmpAlpha(x, y) == -QsortCmpAlpha(y, x)
  {
    CaseCmpOrdersLikeLex(NameOf(x), NameOf(y));
  }

  /** qsort needs a total preorder: NameLe is total and transitive. */
  lemma NameLeTotalPreorder(x: DirEntry, y: DirEntry, z: DirEntry)
    ensures NameLe(x, y) || NameLe(y, x)
    ensures NameLe(x, y) && NameLe(y, z) ==> NameLe(x, z)
  {
    LexLeTotal(Fold(NameOf(x)), Fold(NameOf(y)));
    if NameLe(x, y) && NameLe(y, z) {
      LexLeTransitive(Fold(NameOf(x)), Fold(NameOf(y)), Fold(NameOf(z)));
    }
  }

  predicate SortedByName(s: seq<DirEntry>) {
    forall i, j :: 0 <= i < j < |s| ==> NameLe(s[i], s[j])
  }

  /** Insertion of one entry before the first entry it does not follow. */
  function Insert(x: DirEntry, s: seq<DirEntry>): seq<DirEntry> {
    if s == [] then [x]
    else if NameLe(x, s[0]) then [x] + s
    else [s[0]] + Insert(x, s[1..])
  }

  /** Insertion adds exactly the one entry. */
  lemma {:induction false} InsertPermutation(x: DirEntry, s: seq<DirEntry>)
    ensures multiset(Insert(x, s)) == multiset(s) + multiset{x}
  {
    if s != [] && !NameLe(x, s[0]) {
      InsertPermutation(x, s[1..]);
      assert s == [s[0]] + s[1..];
    }
  }

  lemma {:induction false} InsertSorted(x: DirEntry, s: seq<DirEntry>)
    requires SortedByName(s)
    ensures SortedByName(Insert(x, s))
  {
    if s == [] {
    } else if NameLe(x, s[0]) {
      forall j | 0 <= j < |s|
        ensures NameLe(x, s[j])
      {
        if j > 0 {
          NameLeTotalPreorder(x, s[0], s[j]);
        }
      }
    } else {
      NameLeTotalPreorder(x, s[0], s[0]);
      var rest := Insert(x, s[1..]);
      InsertSorted(x, s[1..]);
      InsertPermutation(x, s[1..]);
      forall j | 0 <= j < |rest|
        ensures NameLe(s[0], rest[j])
      {
        assert rest[j] in multiset(rest);
        if rest[j] != x {
          assert rest[j] in multiset(s[1..]);
          var k :| 0 <= k < |s[1..]| && s[1..][k] == rest[j];
          assert s[k + 1] == rest[j];
        }
      }
    }
  }

  /** The sort that stands for qsort: insertion sort by NameLe. */
  function SortByName(s: seq<DirEntry>): seq<DirEntry> {
    if s == [] then [] else Insert(s[0], SortByName(s[1..]))
  }

  /** Sorting rearranges the entries and neither adds nor drops any. */
  lemma {:induction false} SortByNamePermutation(s: seq<DirEntry>)
    ensures multiset(SortByName(s)) == multiset(s)
  {
    if s != [] {
      SortByNamePermutation(s[1..]);
      InsertPermutation(s[0], SortByName(s[1..]));
      assert s == [s[0]] + s[1..];
    }
  }

  lemma {:induction false} SortByNameSorted(s: seq<DirEntry>)
    ensures SortedByName(SortByName(s))
  {
    if s != [] {
      SortByNameSorted(s[1..]);
      InsertSorted(s[0], SortByName(s[1..]));
    }
  }

  /** The entries whose IsDirOrLink is dirs, in their order in s. */
  function Group(s: seq<DirEntry>, dirs: bool): seq<DirEntry> {
    if s == [] then []
    else (if IsDirOrLink(s[0]) == dirs then [s[0]] else []) + Group(s[1..], dirs)
  }

  /** The result prioritize_directories leaves: directories and links first,
      then the rest, each group in its original order. */
  function StablePartition(s: seq<DirEntry>): seq<DirEntry> {
    Group(s, true) + Group(s, false)
  }

  /** What sort_file_list leaves: sorted by name, then partitioned. */
  function Arrange(s: seq<DirEntry>): seq<DirEntry> {
    StablePartition(SortByName(s))
  }

  lemma {:induction false} GroupAppend(s: seq<DirEntry>, x: DirEntry, dirs: bool)
    ensures Group(s + [x], dirs) == Group(s, dirs) + (if IsDirOrLink(x) == dirs then [x] else [])
  {
    if s == [] {
      assert [x][1..] == [];
    } else {
      var head := if IsDirOrLink(s[0]) == dirs then [s[0]] else [];
      var tail := if IsDirOrLink(x) == dirs then [x] else [];
      assert (s + [x])[0] == s[0] && (s + [x])[1..] == s[1..] + [x];
      assert Group(s + [x], dirs) == head + Group(s[1..] + [x], dirs);
      GroupAppend(s[1..], x, dirs);
      assert head + (Group(s[1..], dirs) + tail) == (head + Group(s[1..], dirs)) + tail;
    }
  }

  lemma {:induction false} GroupConcat(a: seq<DirEntry>, b: seq<DirEntry>, dirs: bool)
    ensures Group(a + b, dirs) == Group(a, dirs) + Group(b, dirs)
  {
    if a == [] {
      assert a + b == b;
    } else {
      assert (a + b)[1..] == a[1..] + b;
      GroupConcat(a[1..], b, dirs);
    }
  }

  lemma {:induction false} GroupOfGroup(s: seq<DirEntry>, dirs: bool)
    ensures Group(Group(s, dirs), dirs) == Group(s, dirs)
    ensures Group(Group(s, dirs), !dirs) == []
  {
    if s != [] {
      GroupOfGroup(s[1..], dirs);
      var head := if IsDirOrLink(s[0]) == dirs then [s[0]] else [];
      GroupConcat(head, Group(s[1..], dirs), dirs);
      GroupConcat(head, Group(s[1..], dirs), !dirs);
      if head != [] {
        assert head[1..] == [];
      }
    }
  }

  lemma {:induction false} GroupMultiset(s: seq<DirEntry>)
    ensures multiset(Group(s, true)) + multiset(Group(s, false)) == multiset(s)
  {
    if s != [] {
      GroupMultiset(s[1..]);
      assert s == [s[0]] + s[1..];
    }
  }

  lemma {:induction false} GroupMembers(s: seq<DirEntry>, dirs: bool)
    ensures forall x :: x in Group(s, dirs) ==> x in s && IsDirOrLink(x) == dirs
  {
    if s != [] {
      GroupMembers(s[1..], dirs);
    }
  }

  lemma {:induction false} GroupSorted(s: seq<DirEntry>, dirs: bool)
    requires SortedByName(s)
    ensures SortedByName(Group(s, dirs))
  {
    if s != [] {
      assert SortedByName(s[1..]);
      GroupSorted(s[1..], dirs);
      GroupMembers(s[1..], dirs);
      var rest := Group(s[1..], dirs);
      if IsDirOrLink(s[0]) == dirs {
        forall j | 0 <= j < |rest|
          ensures NameLe(s[0], rest[j])
        {
          assert rest[j] in rest;
          var k :| 0 <= k < |s[1..]| && s[1..][k] == rest[j];
          assert s[k + 1] == rest[j];
        }
      }
    }
  }

  /** prioritize_directories leaves a permutation of its input. */
  lemma PartitionIsPermutation(s: seq<DirEntry>)
    ensures multiset(StablePartition(s)) == multiset(s)
  {
    GroupMultiset(s);
  }

  /** Every directory or link precedes every other entry. */
  predicate DirsFirst(r: seq<DirEntry>) {
    forall i, j :: 0 <= i < j < |r| && IsDirOrLink(r[j]) ==> IsDirOrLink(r[i])
  }

  /** Within each group (directories and links, the rest) names are in order. */
  predicate SortedWithinGroups(r: seq<DirEntry>) {
    forall i, j :: 0 <= i < j < |r| && IsDirOrLink(r[i]) == IsDirOrLink(r[j]) ==> NameLe(r[i], r[j])
  }

  /** The partition holds the directories and links exactly below the
      length of the first group. */
  lemma PartitionShape(s: seq<DirEntry>)
    ensures forall k :: 0 <= k < |StablePartition(s)| ==>
                          (IsDirOrLink(StablePartition(s)[k]) <==> k < |Group(s, true)|)
  {
    var r := StablePartition(s);
    var d := |Group(s, true)|;
    GroupMembers(s, true);
    GroupMembers(s, false);
    forall k | 0 <= k < |r|
      ensures IsDirOrLink(r[k]) <==> k < d
    {
      if k < d {
        assert r[k] == Group(s, true)[k];
        assert r[k] in Group(s, true);
      } else {
        assert r[k] == Group(s, false)[k - d];
        assert r[k] in Group(s, false);
      }
    }
  }

  lemma PartitionDirsFirst(s: seq<DirEntry>)
    ensures DirsFirst(StablePartition(s))
  {
    PartitionShape(s);
  }

  /** The partition is stable: each group keeps the order it had in the input. */
  lemma PartitionStable(s: seq<DirEntry>, dirs: bool)
    ensures Group(StablePartition(s), dirs) == Group(s, dirs)
  {
    GroupConcat(Group(s, true), Group(s, false), dirs);
    GroupOfGroup(s, true);
    GroupOfGroup(s, false);
    if dirs {
      assert Group(s, true) + [] == Group(s, true);
    } else {
      assert [] + Group(s, false) == Group(s, false);
    }
  }

  /** Partitioning a sorted sequence leaves each group sorted. */
  lemma PartitionSortedWithinGroups(t: seq<DirEntry>)
    requires SortedByName(t)
    ensures SortedWithinGroups(StablePartition(t))
  {
    var r := StablePartition(t);
    var dirs, others := Group(t, true), Group(t, false);
    PartitionShape(t);
    GroupSorted(t, true);
    GroupSorted(t, false);
    forall i, j | 0 <= i < j < |r| && IsDirOrLink(r[i]) == IsDirOrLink(r[j])
      ensures NameLe(r[i], r[j])
    {
      if j < |dirs| {
        assert r[i] == dirs[i] && r[j] == dirs[j];
      } else if i >= |dirs| {
        assert r[i] == others[i - |dirs|] && r[j] == others[j - |dirs|];
      }
    }
  }

  /** After sort_file_list: a permutation of the listing, directories and
      links first, and inside each group the names in non-decreasing
      case-insensitive order. */
  lemma ArrangeOrdered(s: seq<DirEntry>)
    ensures multiset(Arrange(s)) == multiset(s)
    ensures DirsFirst(Arrange(s))
    ensures SortedWithinGroups(Arrange(s))
  {
    SortByNamePermutation(s);
    PartitionIsPermutation(SortByName(s));
    PartitionDirsFirst(SortByName(s));
    SortByNameSorted(s);
    PartitionSortedWithinGroups(SortByName(s));
  }

  /** qsort(list, size, ..., qsort_cmp_alpha): sorts the first size entries. */
  method Qsort(list: array<DirEntry>, size: nat)
    requires size <= list.Length && AllNamed(list[..size])
    modifies list
    ensures list[..size] == SortByName(old(list[..size]))
    ensures list[size..] == old(list[size..])
  {
    var sorted := SortByName(list[..size]);
    SortByNamePermutation(list[..size]);
    assert |multiset(sorted)| == |sorted|;
    forall k | 0 <= k < size {
      list[k] := sorted[k];
    }
  }

  /** prioritize_directories: each directory or link found past the
      boundary first is rotated into place by shifting the run of other
      entries between them one slot up. */
  method PrioritizeDirectories(file: array?<DirEntry>, size: int) returns (r: int)
    requires file != null ==> size <= file.Length
    modifies file
    ensures file == null ==> r == -1
    ensures file != null ==> r == 0
    ensures file != null && size <= 0 ==> file[..] == old(file[..])
    ensures file != null && size > 0 ==> file[..size] == StablePartition(old(file[..size]))
    ensures file != null && size > 0 ==> file[size..] == old(file[size..])
  {
    if file == null {
      return -1;
    }
    ghost var o := file[..];
    ghost var n := if size < 0 then 0 else size;
    var first := 0;
    var i := 0;
    while i < size
      invariant 0 <= first <= i <= n
      invariant file[..first] == Group(o[..i], true)
      invariant file[first..i] == Group(o[..i], false)
      invariant file[i..] == o[i..]
    {
      assert file[i] == file[i..][0] == o[i..][0] == o[i];
      ghost var dirs := file[..first];
      ghost var others := file[first..i];
      GroupStep(o, i);
      if file[i].kind == Dir || file[i].kind == Lnk {
        if first == i {
          first := first + 1;
        } else {
          ghost var before := file[..];
          RotateIntoPlace(file, first, i);
          RotatedSlices(before, file[..], first, i);
          first := first + 1;
        }
        assert file[..first] == dirs + [o[i]];
        assert file[first..i + 1] == others;
      } else {
        assert file[first..i + 1] == others + [o[i]];
      }
      assert file[i + 1..] == o[i + 1..];
      i := i + 1;
    }
    assert file[..n] == file[..first] + file[first..n];
    r := 0;
  }

  /** One more entry of the original order joins its group at the end. */
  lemma GroupStep(o: seq<DirEntry>, i: nat)
    requires i < |o|
    ensures Group(o[..i + 1], true) == Group(o[..i], true) + (if IsDirOrLink(o[i]) then [o[i]] else [])
    ensures Group(o[..i + 1], false) == Group(o[..i], false) + (if IsDirOrLink(o[i]) then [] else [o[i]])
  {
    assert o[..i + 1] == o[..i] + [o[i]];
    GroupAppend(o[..i], o[i], true);
    GroupAppend(o[..i], o[i], false);
  }

  /** The three pieces of a rotation of b[first..i+1] by one slot. */
  lemma RotatedSlices(b: seq<DirEntry>, f: seq<DirEntry>, first: nat, i: nat)
    requires first < i < |b|
    requires f == b[..first] + [b[i]] + b[first..i] + b[i + 1..]
    ensures f[..first + 1] == b[..first] + [b[i]]
    ensures f[first + 1..i + 1] == b[first..i]
    ensures f[i + 1..] == b[i + 1..]
  {
  }

  /** The body of prioritize_directories for a directory or link at i past
      the boundary first: it moves to first and the entries first..i-1
      shift one slot up. */
  method RotateIntoPlace(file: array<DirEntry>, first: nat, i: nat)
    requires first < i < file.Length
    modifies file
    ensures file[..] == old(file[..first]) + [old(file[i])] + old(file[first..i]) + old(file[i + 1..])
  {
    ghost var b := file[..];
    var tmp := file[first];
    file[first] := file[i];
    var next := i;
    while next - 1 > first
      invariant first + 1 <= next <= i
      invariant file[first] == b[i]
      invariant forall j :: first < j <= next ==> file[j] == b[j]
      invariant forall j :: next < j <= i ==> file[j] == b[j - 1]
      invariant forall j :: 0 <= j < first ==> file[j] == b[j]
      invariant forall j :: i < j < file.Length ==> file[j] == b[j]
    {
      file[next] := file[next - 1];
      next := next - 1;
    }
    file[first + 1] := tmp;
    assert file[..] == b[..first] + [b[i]] + b[first..i] + b[i + 1..];
  }

  /** sort_file_list: sort by name, then move directories and links first. */
  method SortFileList(list: array?<DirEntry>, size: int) returns (r: int)
    requires list != null ==> 0 <= size <= list.Length && AllNamed(list[..size])
    modifies list
    ensures list == null ==> r == -1
    ensures list != null ==> r == 0
    ensures list != null ==> list[..size] == Arrange(old(list[..size]))
    ensures list != null ==> list[size..] == old(list[size..])
  {
    if list == null {
      return -1;
    }
    Qsort(list, size);
    var _ := PrioritizeDirectories(list, size);
    r := 0;
  }
}
