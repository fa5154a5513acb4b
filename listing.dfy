/** The file snapshot `index_images` takes before its batch loop
    (service.py:200-204): the files found under the folder whose
    lower-cased `PurePath.suffix` is an image extension, sorted in the
    order Python compares paths (component lists, each component compared
    character by character). The walk of the folder itself (`rglob`) is an
    input: the listing. */
module Listing {
  import opened Common
  import Config

  /** A file as the list of components of its absolute path. */
  type FilePath = seq<string>

  /** `PurePath.name`: the last component. */
  function Name(p: FilePath): string
  {
    if p == [] then "" else p[|p| - 1]
  }

  /** `s.rfind('.')`: the index of the last dot, or -1 when there is none. */
  function LastDot(s: string): (i: int)
    ensures -1 <= i < |s|
    ensures i >= 0 ==> s[i] == '.'
    ensures forall k :: i < k < |s| ==> s[k] != '.'
    decreases |s|
  {
    if s == [] then -1
    else if s[|s| - 1] == '.' then |s| - 1
    else LastDot(s[..|s| - 1])
  }

  /** `PurePath.suffix`: the name from its last dot on, unless that dot
      begins the name (a hidden file such as ".jpg") or ends it. */
  function Suffix(name: string): string
  {
    var i := LastDot(name);
    if 0 < i < |name| - 1 then name[i..] else ""
  }

  /** The filter of service.py:202. */
  predicate IsImage(p: FilePath)
  {
    Lower(Suffix(Name(p))) in Config.ImageExtensions
  }

  /** A name ends in extension `e`, in any letter case, after at least one
      other character. */
  predicate HasExtension(name: string, e: string)
  {
    |e| < |name| && Lower(name[|name| - |e|..]) == e
  }

  lemma LowerDot(c: char)
    ensures LowerChar(c) == '.' <==> c == '.'
  {
  }

  /** The suffix test in terms of name endings: a file is indexed exactly
      when its name ends in .jpg, .jpeg or .png (any case) and is more
      than the extension alone. */
  lemma IsImageByEnding(p: FilePath)
    ensures IsImage(p) <==>
      HasExtension(Name(p), ".jpg") || HasExtension(Name(p), ".jpeg") || HasExtension(Name(p), ".png")
  {
    var n := Name(p);
    var i := LastDot(n);
    if IsImage(p) {
      var e := Lower(Suffix(n));
      assert e != "";
      assert 0 < i < |n| - 1 && e == Lower(n[i..]);
      assert n[|n| - |e|..] == n[i..];
    }
    forall e | e in Config.ImageExtensions && HasExtension(n, e)
      ensures IsImage(p)
    {
      var j := |n| - |e|;
      var tail := n[j..];
      assert e[0] == '.' && forall k :: 1 <= k < |e| ==> e[k] != '.';
      assert LowerChar(tail[0]) == '.';
      LowerDot(tail[0]);
      assert n[j] == '.';
      forall k | j < k < |n| ensures n[k] != '.' {
        LowerDot(tail[k - j]);
        assert LowerChar(tail[k - j]) == e[k - j];
      }
      assert i == j;
      assert Suffix(n) == tail;
    }
  }

  /** The image files of a listing, in listing order. */
  function ImageFiles(listing: seq<FilePath>): (r: seq<FilePath>)
    ensures forall p :: multiset(r)[p] == if IsImage(p) then multiset(listing)[p] else 0
    ensures |r| <= |listing|
    decreases |listing|
  {
    if listing == [] then []
    else
      assert listing == [listing[0]] + listing[1..];
      (if IsImage(listing[0]) then [listing[0]] else []) + ImageFiles(listing[1..])
  }

  // Lexicographic order, once for any element order.

  /** `below` is a strict total order. */
  ghost predicate StrictTotalOrder<T(!new)>(below: (T, T) -> bool)
  {
    && (forall x :: !below(x, x))
    && (forall x, y, z :: below(x, y) && below(y, z) ==> below(x, z))
    && (forall x, y :: x == y || below(x, y) || below(y, x))
  }

  /** Python's `<` on sequences: the first difference decides, and a
      proper prefix comes first. */
  function LexBelow<T(==)>(a: seq<T>, b: seq<T>, below: (T, T) -> bool): bool
    decreases |a|
  {
    if a == [] then b != []
    else if b == [] then false
    else if a[0] != b[0] then below(a[0], b[0])
    else LexBelow(a[1..], b[1..], below)
  }

  lemma {:induction false} LexIrreflexive<T(!new)>(a: seq<T>, below: (T, T) -> bool)
    requires StrictTotalOrder(below)
    ensures !LexBelow(a, a, below)
    decreases |a|
  {
    if a != [] {
      LexIrreflexive(a[1..], below);
    }
  }

  lemma {:induction false} LexTransitive<T(!new)>(a: seq<T>, b: seq<T>, c: seq<T>, below: (T, T) -> bool)
    requires StrictTotalOrder(below)
    requires LexBelow(a, b, below) && LexBelow(b, c, below)
    ensures LexBelow(a, c, below)
    decreases |a|
  {
    if a != [] && a[0] == b[0] && b[0] == c[0] {
      LexTransitive(a[1..], b[1..], c[1..], below);
    }
  }

  lemma {:induction false} LexTotal<T(!new)>(a: seq<T>, b: seq<T>, below: (T, T) -> bool)
    requires StrictTotalOrder(below)
    ensures a == b || LexBelow(a, b, below) || LexBelow(b, a, below)
    decreases |a|
  {
    if a != [] && b != [] && a[0] == b[0] {
      LexTotal(a[1..], b[1..], below);
      if a[1..] == b[1..] {
        assert a == [a[0]] + a[1..] && b == [b[0]] + b[1..];
      }
    }
  }

  /** The lexicographic order of a strict total order is one. */
  lemma LexOrder<T(!new)>(below: (T, T) -> bool)
    requires StrictTotalOrder(below)
    ensures forall a: seq<T> :: !LexBelow(a, a, below)
    ensures forall a: seq<T>, b: seq<T>, c: seq<T> ::
      LexBelow(a, b, below) && LexBelow(b, c, below) ==> LexBelow(a, c, below)
    ensures forall a: seq<T>, b: seq<T> :: a == b || LexBelow(a, b, below) || LexBelow(b, a, below)
  {
    forall a: seq<T> ensures !LexBelow(a, a, below) {
      LexIrreflexive(a, below);
    }
    forall a: seq<T>, b: seq<T>, c: seq<T> | LexBelow(a, b, below) && LexBelow(b, c, below)
      ensures LexBelow(a, c, below)
    {
      LexTransitive(a, b, c, below);
    }
    forall a: seq<T>, b: seq<T> ensures a == b || LexBelow(a, b, below) || LexBelow(b, a, below) {
      LexTotal(a, b, below);
    }
  }

  function CharBelow(x: char, y: char): bool
  {
    x < y
  }

  /** Python's `<` on strings: by code point. */
  function StrBelow(a: string, b: string): bool
  {
    LexBelow(a, b, CharBelow)
  }

  /** Python's `<` on paths (`PurePath.__lt__`): by component list. */
  function PathBelow(p: FilePath, q: FilePath): bool
  {
    LexBelow(p, q, StrBelow)
  }

  lemma PathOrder()
    ensures StrictTotalOrder(PathBelow)
  {
    assert StrictTotalOrder(CharBelow);
    LexOrder(CharBelow);
    assert StrictTotalOrder(StrBelow);
    LexOrder(StrBelow);
  }

  // Sorting.

  /** Ascending: no later path is below an earlier one. */
  predicate Sorted(s: seq<FilePath>)
  {
    forall i, j :: 0 <= i < j < |s| ==> !PathBelow(s[j], s[i])
  }

  predicate StrictlyAscending(s: seq<FilePath>)
  {
    forall i, j :: 0 <= i < j < |s| ==> PathBelow(s[i], s[j])
  }

  predicate Distinct(s: seq<FilePath>)
  {
    forall i, j :: 0 <= i < j < |s| ==> s[i] != s[j]
  }

  /** Inserts `x` into a sorted sequence before the first path not below it. */
  function Insert(x: FilePath, s: seq<FilePath>): (r: seq<FilePath>)
    requires Sorted(s)
    ensures Sorted(r)
    ensures multiset(r) == multiset(s) + multiset{x}
    decreases |s|
  {
    PathOrder();
    if s == [] then [x]
    else if PathBelow(s[0], x) then
      assert s == [s[0]] + s[1..];
      var t := Insert(x, s[1..]);
      assert forall j :: 0 <= j < |t| ==> !PathBelow(t[j], s[0]) by {
        forall j | 0 <= j < |t| ensures !PathBelow(t[j], s[0]) {
          assert t[j] in multiset(t);
          assert t[j] == x || t[j] in multiset(s[1..]);
          if t[j] != x {
            var k :| 0 <= k < |s[1..]| && s[1..][k] == t[j];
            assert s[k + 1] == t[j];
          }
        }
      }
      [s[0]] + t
    else
      assert s == [s[0]] + s[1..];
      [x] + s
  }

  /** Insertion sort: the sorted permutation of `s`. */
  function SortPaths(s: seq<FilePath>): (r: seq<FilePath>)
    ensures Sorted(r)
    ensures multiset(r) == multiset(s)
    decreases |s|
  {
    if s == [] then []
    else
      assert s == [s[0]] + s[1..];
      Insert(s[0], SortPaths(s[1..]))
  }

  /** There is only one sorted arrangement of a multiset of paths, so
      SortPaths agrees with whatever algorithm Python's `sorted` uses. */
  lemma {:induction false} SortedUnique(a: seq<FilePath>, b: seq<FilePath>)
    requires Sorted(a) && Sorted(b) && multiset(a) == multiset(b)
    ensures a == b
    decreases |a|
  {
    if a != [] {
      assert |b| == |a| by { assert |multiset(b)| == |multiset(a)|; }
      SameHead(a, b);
      SameTail(a, b);
      SortedUnique(a[1..], b[1..]);
      assert a == [a[0]] + a[1..] && b == [b[0]] + b[1..];
    }
  }

  /** No element of a sorted sequence is below its first. */
  lemma SortedHeadLeast(a: seq<FilePath>, x: FilePath)
    requires Sorted(a) && x in multiset(a)
    ensures !PathBelow(x, a[0])
  {
    var i :| 0 <= i < |a| && a[i] == x;
    PathOrder();
    if i == 0 {
      assert !PathBelow(x, x);
    }
  }

  lemma SameHead(a: seq<FilePath>, b: seq<FilePath>)
    requires Sorted(a) && Sorted(b) && multiset(a) == multiset(b) && a != [] && b != []
    ensures a[0] == b[0]
  {
    assert a[0] in multiset(a) && b[0] in multiset(b);
    SortedHeadLeast(a, b[0]);
    SortedHeadLeast(b, a[0]);
    PathOrder();
  }

  lemma SameTail(a: seq<FilePath>, b: seq<FilePath>)
    requires multiset(a) == multiset(b) && a != [] && b != [] && a[0] == b[0]
    ensures multiset(a[1..]) == multiset(b[1..])
  {
    assert a == [a[0]] + a[1..] && b == [b[0]] + b[1..];
    assert multiset(a) == multiset{a[0]} + multiset(a[1..]);
    assert multiset(b) == multiset{b[0]} + multiset(b[1..]);
    assert multiset(a[1..]) == multiset(a) - multiset{a[0]};
    assert multiset(b[1..]) == multiset(b) - multiset{b[0]};
  }

  lemma {:induction false} DistinctCounts(s: seq<FilePath>)
    ensures Distinct(s) <==> forall x :: multiset(s)[x] <= 1
    decreases |s|
  {
    if s != [] {
      DistinctCounts(s[1..]);
      assert s == [s[0]] + s[1..];
      if Distinct(s) {
        assert s[0] !in s[1..] by {
          forall k | 0 <= k < |s[1..]| ensures s[1..][k] != s[0] {
            assert s[1..][k] == s[k + 1];
          }
        }
      }
      if forall x :: multiset(s)[x] <= 1 {
        assert forall x :: multiset(s[1..])[x] <= 1 by {
          forall x ensures multiset(s[1..])[x] <= 1 {
            assert multiset(s)[x] >= multiset(s[1..])[x];
          }
        }
        assert multiset(s[1..])[s[0]] == 0 by {
          assert multiset(s)[s[0]] == 1 + multiset(s[1..])[s[0]];
        }
        forall i, j | 0 <= i < j < |s| ensures s[i] != s[j] {
          if i == 0 {
            assert s[j] == s[1..][j - 1];
            assert s[j] in multiset(s[1..]);
          } else {
            assert s[i] == s[1..][i - 1] && s[j] == s[1..][j - 1];
          }
        }
      }
    }
  }

  /** The snapshot of service.py:200-203. */
  function Snapshot(listing: seq<FilePath>): (files: seq<FilePath>)
    ensures Sorted(files)
    ensures forall p :: multiset(files)[p] == if IsImage(p) then multiset(listing)[p] else 0
  {
    SortPaths(ImageFiles(listing))
  }

  /** The snapshot holds the image files of the listing and nothing else;
      their number is the `total` the job reports. */
  lemma SnapshotMembers(listing: seq<FilePath>)
    ensures forall p :: p in Snapshot(listing) <==> p in listing && IsImage(p)
    ensures |Snapshot(listing)| == |ImageFiles(listing)|
  {
    var files := Snapshot(listing);
    assert multiset(files) == multiset(ImageFiles(listing));
    assert |multiset(files)| == |multiset(ImageFiles(listing))|;
    forall p ensures p in files <==> p in listing && IsImage(p) {
      assert p in files <==> p in multiset(files);
      assert p in listing <==> p in multiset(listing);
    }
  }

  /** Whatever sorting algorithm produced it, a sorted arrangement of the
      image files is the snapshot. */
  lemma SnapshotIsTheSortedImages(listing: seq<FilePath>, r: seq<FilePath>)
    requires Sorted(r) && multiset(r) == multiset(ImageFiles(listing))
    ensures r == Snapshot(listing)
  {
    SortedUnique(r, Snapshot(listing));
  }

  /** A listing without repeats (as a directory walk yields) gives a
      snapshot in strictly ascending order: no file is processed twice,
      and the order is fixed by the file names alone. */
  lemma SnapshotStrictlyAscending(listing: seq<FilePath>)
    requires Distinct(listing)
    ensures StrictlyAscending(Snapshot(listing))
  {
    var files := Snapshot(listing);
    DistinctCounts(listing);
    forall x ensures multiset(files)[x] <= 1 {
    }
    DistinctCounts(files);
    PathOrder();
    forall i, j | 0 <= i < j < |files| ensures PathBelow(files[i], files[j]) {
      assert files[i] != files[j];
      assert !PathBelow(files[j], files[i]);
    }
  }
}
