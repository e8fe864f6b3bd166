/** Name handling: the case-insensitive comparison behind qsort_cmp_alpha
    (strcasecmp, with ASCII case folding) and the dot filter ignore_file. */
module Names {

  /** ASCII tolower. */
  function Lower(c: char): char {
    if 'A' <= c <= 'Z' then (c as int + 32) as char else c
  }

  /** The name with every character case-folded. */
  function Fold(s: string): string {
    if s == [] then [] else [Lower(s[0])] + Fold(s[1..])
  }

  /** A C string: no character is the terminating NUL. */
  predicate CString(s: string) {
    forall i :: 0 <= i < |s| ==> s[i] != '\0'
  }

  /** strcmp: the difference of the first differing characters, the end of
      a string reading as NUL. */
  function StrCmp(a: string, b: string): int {
    if a == [] then (if b == [] then 0 else 0 - b[0] as int)
    else if b == [] then a[0] as int
    else if a[0] != b[0] then a[0] as int - b[0] as int
    else StrCmp(a[1..], b[1..])
  }

  /** strcasecmp: as strcmp, but every character is case-folded before it
      is compared. */
  function CaseCmp(a: string, b: string): int {
    if a == [] then (if b == [] then 0 else 0 - Lower(b[0]) as int)
    else if b == [] then Lower(a[0]) as int
    else if Lower(a[0]) != Lower(b[0]) then Lower(a[0]) as int - Lower(b[0]) as int
    else CaseCmp(a[1..], b[1..])
  }

  /** Lexicographic order on character sequences, a prefix first: the
      reference order against which strcasecmp is checked. */
  predicate LexLe(a: string, b: string) {
    a == [] || (b != [] && (a[0] < b[0] || (a[0] == b[0] && LexLe(a[1..], b[1..]))))
  }

  lemma {:induction false} LexLeTotal(a: string, b: string)
    ensures LexLe(a, b) || LexLe(b, a)
  {
    if a != [] && b != [] && a[0] == b[0] {
      LexLeTotal(a[1..], b[1..]);
    }
  }

  lemma {:induction false} LexLeTransitive(a: string, b: string, c: string)
    requires LexLe(a, b) && LexLe(b, c)
    ensures LexLe(a, c)
  {
    if a != [] && a[0] == b[0] && b[0] == c[0] {
      LexLeTransitive(a[1..], b[1..], c[1..]);
    }
  }

  lemma FoldTail(s: string)
    requires s != []
    ensures Fold(s) != [] && Fold(s)[0] == Lower(s[0]) && Fold(s)[1..] == Fold(s[1..])
  {
  }

  /** strcasecmp is antisymmetric: swapping the arguments negates the result. */
  lemma {:induction false} CaseCmpAntisymmetric(a: string, b: string)
    ensures CaseCmp(a, b) == -CaseCmp(b, a)
  {
    if a != [] && b != [] && Lower(a[0]) == Lower(b[0]) {
      CaseCmpAntisymmetric(a[1..], b[1..]);
    }
  }

  /** strcasecmp is strcmp of the case-folded names. */
  lemma {:induction false} CaseCmpIsStrCmpOfFolded(a: string, b: string)
    ensures CaseCmp(a, b) == StrCmp(Fold(a), Fold(b))
  {
    if a != [] && b != [] {
      FoldTail(a);
      FoldTail(b);
      if Lower(a[0]) == Lower(b[0]) {
        CaseCmpIsStrCmpOfFolded(a[1..], b[1..]);
      }
    } else if a != [] {
      FoldTail(a);
    } else if b != [] {
      FoldTail(b);
    }
  }

  /** For C strings, strcasecmp is zero exactly when the names agree up to case. */
  lemma {:induction false} CaseCmpZeroIff(a: string, b: string)
    requires CString(a) && CString(b)
    ensures CaseCmp(a, b) == 0 <==> Fold(a) == Fold(b)
  {
    if a != [] && b != [] {
      FoldTail(a);
      FoldTail(b);
      if Lower(a[0]) == Lower(b[0]) {
        CaseCmpZeroIff(a[1..], b[1..]);
        assert Fold(a) == [Fold(a)[0]] + Fold(a)[1..];
        assert Fold(b) == [Fold(b)[0]] + Fold(b)[1..];
      }
    } else if a != [] {
      FoldTail(a);
      assert a[0] != '\0';
    } else if b != [] {
      FoldTail(b);
      assert b[0] != '\0';
    }
  }

  /** For C strings, strcasecmp is non-positive exactly when the folded
      names are in lexicographic order. */
  lemma {:induction false} CaseCmpOrdersLikeLex(a: string, b: string)
    requires CString(a) && CString(b)
    ensures CaseCmp(a, b) <= 0 <==> LexLe(Fold(a), Fold(b))
  {
    if a != [] && b != [] {
      FoldTail(a);
      FoldTail(b);
      if Lower(a[0]) == Lower(b[0]) {
        CaseCmpOrdersLikeLex(a[1..], b[1..]);
      }
    } else if a != [] {
      FoldTail(a);
      assert a[0] != '\0';
    }
  }

  /** Character i of a C string: past the end of the name it reads the
      terminating NUL. */
  function CChar(s: string, i: nat): char {
    if i < |s| then s[i] else '\0'
  }

  /** ignore_file: a name is skipped exactly when its first character is a
      dot; the empty name, whose first C character is the NUL, is kept. */
  function IgnoreFile(filename: string): (r: int)
    ensures r == 0 || r == 1
    ensures r == 1 <==> |filename| > 0 && filename[0] == '.'
  {
    if CChar(filename, 0) == '.' then 1 else 0
  }

  /** "." and ".." are always ignored, the empty name never. */
  lemma DotEntriesIgnored()
    ensures IgnoreFile(".") == 1 && IgnoreFile("..") == 1
    ensures IgnoreFile("") == 0
  {
  }
}
