/** The two ways the bundler orders the matched files: alphabetically by full
    path (a new sequence) or by extension (in place, with an unstable sort). */
module Ordering {
  import opened Text
  import opened Paths

  // ---------------------------------------------------------------------
  // Alphabetical order: a new sequence ordered by the full path
  // ---------------------------------------------------------------------

  /** Non-decreasing under the string order. */
  predicate Sorted(s: seq<string>)
  {
    forall i, j :: 0 <= i < j < |s| ==> Le(s[i], s[j])
  }

  /** `x` placed before the first element it sorts no later than. */
  function Insert(x: string, s: seq<string>): seq<string>
  {
    if s == [] then [x]
    else if Le(x, s[0]) then [x] + s
    else [s[0]] + Insert(x, s[1..])
  }

  lemma {:induction false} InsertPermutes(x: string, s: seq<string>)
    ensures multiset(Insert(x, s)) == multiset(s) + multiset{x}
  {
    if s != [] && !Le(x, s[0]) {
      InsertPermutes(x, s[1..]);
      assert s == [s[0]] + s[1..];
    }
  }

  lemma {:induction false} InsertSorted(x: string, s: seq<string>)
    requires Sorted(s)
    ensures Sorted(Insert(x, s))
  {
    if s == [] {
    } else if Le(x, s[0]) {
      forall j | 0 < j < |s| ensures Le(x, s[j]) {
        LeTransitive(x, s[0], s[j]);
      }
    } else {
      var r := Insert(x, s[1..]);
      InsertSorted(x, s[1..]);
      InsertPermutes(x, s[1..]);
      LeTotal(x, s[0]);
      forall j | 0 <= j < |r| ensures Le(s[0], r[j]) {
        assert r[j] in multiset(r);
        if r[j] != x {
          assert r[j] in multiset(s[1..]);
        }
      }
      assert Insert(x, s) == [s[0]] + r;
    }
  }

  /** `SortTheFileAlph`: the files in ascending order of their full path,
      as a new sequence. */
  function SortTheFileAlph(files: seq<string>): (r: seq<string>)
    ensures Sorted(r) && multiset(r) == multiset(files)
  {
    if files == [] then []
    else
      var rest := SortTheFileAlph(files[1..]);
      InsertSorted(files[0], rest);
      InsertPermutes(files[0], rest);
      assert files == [files[0]] + files[1..];
      Insert(files[0], rest)
  }

  /** Every element of a sorted sequence is no smaller than its first. */
  lemma SortedHeadLeast(s: seq<string>, x: string)
    requires Sorted(s) && x in s
    ensures Le(s[0], x)
  {
    var j :| 0 <= j < |s| && s[j] == x;
    if j == 0 { LeReflexive(x); }
  }

  /** Removing the first element of a non-empty sequence removes one copy
      of it from the multiset, and a sorted sequence stays sorted. */
  lemma DropHead(a: seq<string>)
    requires a != [] && Sorted(a)
    ensures multiset(a[1..]) == multiset(a) - multiset{a[0]}
    ensures Sorted(a[1..])
  {
    assert a == [a[0]] + a[1..];
  }

  /** Under a total order there is only one sorted arrangement of a multiset. */
  lemma {:induction false} SortedUnique(a: seq<string>, b: seq<string>)
    requires Sorted(a) && Sorted(b) && multiset(a) == multiset(b)
    ensures a == b
  {
    if a == [] {
      assert |b| == |multiset(b)| == 0;
    } else {
      assert a[0] in multiset(b);
      assert b[0] in multiset(a);
      SortedHeadLeast(a, b[0]);
      SortedHeadLeast(b, a[0]);
      LeAntisymmetric(a[0], b[0]);
      DropHead(a);
      DropHead(b);
      SortedUnique(a[1..], b[1..]);
      assert a == [a[0]] + a[1..];
      assert b == [b[0]] + b[1..];
    }
  }

  /** The same files listed in any order give the same alphabetical order,
      so bundling an unchanged directory twice gives the same output. */
  lemma SortTheFileAlphDeterministic(a: seq<string>, b: seq<string>)
    requires multiset(a) == multiset(b)
    ensures SortTheFileAlph(a) == SortTheFileAlph(b)
  {
    SortedUnique(SortTheFileAlph(a), SortTheFileAlph(b));
  }

  /** Already sorted input comes back unchanged. */
  lemma SortTheFileAlphOfSorted(files: seq<string>)
    requires Sorted(files)
    ensures SortTheFileAlph(files) == files
  {
    SortedUnique(SortTheFileAlph(files), files);
  }

  // ---------------------------------------------------------------------
  // Order by type of code: an in-place sort comparing extensions
  // ---------------------------------------------------------------------

  /** `a`'s extension sorts no later than `b`'s. */
  predicate ExtLe(a: string, b: string)
  {
    Le(Extension(a), Extension(b))
  }

  /** Extensions are non-decreasing along `s`. */
  predicate SortedByExtension(s: seq<string>)
  {
    forall i, j :: 0 <= i < j < |s| ==> ExtLe(s[i], s[j])
  }

  /** `SortTheFileByTypeOfCode`: rearranges the array in place so that the
      extensions ascend. `Array.Sort` is not stable, so nothing is promised
      about the relative order of files that share an extension. */
  method SortTheFileByTypeOfCode(files: array<string>)
    modifies files
    ensures SortedByExtension(files[..])
    ensures multiset(files[..]) == multiset(old(files[..]))
  {
    var i := 0;
    while i < files.Length
      invariant 0 <= i <= files.Length
      invariant forall p, q :: 0 <= p < q < i ==> ExtLe(files[p], files[q])
      invariant multiset(files[..]) == multiset(old(files[..]))
    {
      SiftDown(files, i);
      i := i + 1;
    }
  }

  /** While `s[j]` moves left within the first `i + 1` entries: every pair
      not involving position `j` is ordered, and `s[j]` sorts no later than
      every entry after it. */
  predicate Sifting(s: seq<string>, i: nat, j: nat)
    requires j <= i < |s|
  {
    && (forall p, q :: 0 <= p < q <= i && p != j && q != j ==> ExtLe(s[p], s[q]))
    && (forall q :: j < q <= i ==> ExtLe(s[j], s[q]))
  }

  /** Swapping `s[j]` with a left neighbour that sorts after it moves the
      hole one place left. */
  lemma SiftSwap(s: seq<string>, i: nat, j: nat)
    requires 0 < j <= i < |s| && Sifting(s, i, j) && !ExtLe(s[j - 1], s[j])
    ensures Sifting(s[j - 1 := s[j]][j := s[j - 1]], i, j - 1)
  {
    LeTotal(Extension(s[j - 1]), Extension(s[j]));
  }

  /** Once `s[j]` has reached the front or a neighbour that sorts no later,
      the first `i + 1` entries are ordered. */
  lemma SiftDone(s: seq<string>, i: nat, j: nat)
    requires j <= i < |s| && Sifting(s, i, j) && (j == 0 || ExtLe(s[j - 1], s[j]))
    ensures forall p, q :: 0 <= p < q <= i ==> ExtLe(s[p], s[q])
  {
    forall p, q | 0 <= p < q <= i ensures ExtLe(s[p], s[q]) {
      if q == j && p < j - 1 {
        LeTransitive(Extension(s[p]), Extension(s[j - 1]), Extension(s[j]));
      }
    }
  }

  /** One insertion step: `files[i]` moves left past every element whose
      extension sorts after its own, so the first `i + 1` entries become
      ordered. Entries after `i` are not touched. */
  method SiftDown(files: array<string>, i: nat)
    requires i < files.Length
    requires forall p, q :: 0 <= p < q < i ==> ExtLe(files[p], files[q])
    modifies files
    ensures forall p, q :: 0 <= p < q <= i ==> ExtLe(files[p], files[q])
    ensures multiset(files[..]) == multiset(old(files[..]))
    ensures files[i + 1..] == old(files[i + 1..])
  {
    var j := i;
    while j > 0 && !ExtLe(files[j - 1], files[j])
      invariant 0 <= j <= i
      invariant Sifting(files[..], i, j)
      invariant multiset(files[..]) == multiset(old(files[..]))
      invariant files[i + 1..] == old(files[i + 1..])
    {
      SiftSwap(files[..], i, j);
      files[j - 1], files[j] := files[j], files[j - 1];
      j := j - 1;
    }
    SiftDone(files[..], i, j);
  }

  /** Files with the same extension end up next to each other. */
  lemma SameExtensionContiguous(s: seq<string>, i: nat, j: nat, k: nat)
    requires SortedByExtension(s) && i < j < k < |s|
    requires Extension(s[i]) == Extension(s[k])
    ensures Extension(s[j]) == Extension(s[i])
  {
    LeAntisymmetric(Extension(s[j]), Extension(s[i]));
  }

  /** The extensions of the three files of the example below. */
  lemma ExampleExtensions()
    ensures Extension("a.cpp") == ".cpp"
    ensures Extension("b.py") == ".py" && Extension("c.py") == ".py"
  {
    ExtensionAt("a.cpp", 1);
    ExtensionAt("b.py", 1);
    ExtensionAt("c.py", 1);
  }

  /** Three files whose first extension sorts before the other two, which
      are equal, are in extension order whichever way the last two go. */
  lemma ThreeSorted(x: string, y: string, z: string)
    requires Le(Extension(x), Extension(y)) && Extension(y) == Extension(z)
    ensures SortedByExtension([x, y, z]) && SortedByExtension([x, z, y])
  {
    LeReflexive(Extension(y));
  }

  /** `["b.py", "a.cpp", "c.py"]`: ".cpp" goes first, and both orders of the
      two ".py" files meet the contract, since the sort is not stable. */
  lemma ExtensionOrderLeavesTiesOpen()
    ensures var input := ["b.py", "a.cpp", "c.py"];
            && SortedByExtension(["a.cpp", "b.py", "c.py"])
            && SortedByExtension(["a.cpp", "c.py", "b.py"])
            && multiset(["a.cpp", "b.py", "c.py"]) == multiset(input)
            && multiset(["a.cpp", "c.py", "b.py"]) == multiset(input)
            && !SortedByExtension(input)
  {
    ExampleExtensions();
    assert Le(".cpp", ".py") && !Le(".py", ".cpp");
    ThreeSorted("a.cpp", "b.py", "c.py");
    assert !ExtLe("b.py", "a.cpp");
  }
}
