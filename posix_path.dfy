/** POSIX path strings as app.py's image route handles them: `os.path.join`,
    the split of a path into its '/'-separated parts, and `os.path.realpath`
    modelled as lexical normalisation (symbolic links are not resolved).
    The central result, SlashedPrefix, says exactly when one normalised path
    string starts with another: the test app.py uses as its containment check. */
module PosixPath {
  import opened Common

  predicate IsAbsolute(p: string)
  {
    |p| > 0 && p[0] == '/'
  }

  predicate SlashFree(s: string)
  {
    '/' !in s
  }

  predicate AllSlashFree(parts: seq<string>)
  {
    forall k :: 0 <= k < |parts| ==> SlashFree(parts[k])
  }

  /** `os.path.join(a, b)`: an absolute `b` replaces `a`; otherwise a
      separator is inserted unless `a` is empty or already ends in one. */
  function Join(a: string, b: string): (r: string)
    ensures IsAbsolute(b) ==> r == b
    ensures !IsAbsolute(b) ==> StartsWith(r, a) && EndsWith(r, b)
  {
    if IsAbsolute(b) then b
    else if a == [] || a[|a| - 1] == '/' then a + b
    else a + "/" + b
  }

  /** `s.split('/')`: the pieces between separators, empty ones included. */
  function Split(s: string): (parts: seq<string>)
    ensures |parts| >= 1
    ensures AllSlashFree(parts)
    decreases |s|
  {
    if s == [] then [""]
    else
      var rest := Split(s[1..]);
      if s[0] == '/' then [""] + rest
      else [[s[0]] + rest[0]] + rest[1..]
  }

  /** `'/'.join(parts)`: the inverse of Split. */
  function Glue(parts: seq<string>): string
    requires |parts| >= 1
    decreases |parts|
  {
    if |parts| == 1 then parts[0] else parts[0] + "/" + Glue(parts[1..])
  }

  lemma {:induction false} GlueCons(c: char, rest: seq<string>)
    requires |rest| >= 1
    ensures Glue([[c] + rest[0]] + rest[1..]) == [c] + Glue(rest)
  {
    var p := [[c] + rest[0]] + rest[1..];
    if |rest| > 1 {
      var g := Glue(rest[1..]);
      calc {
        Glue(p);
        p[0] + "/" + Glue(p[1..]);
        { assert p[1..] == rest[1..]; }
        ([c] + rest[0]) + "/" + g;
        [c] + (rest[0] + "/" + g);
        [c] + Glue(rest);
      }
    }
  }

  /** Gluing the pieces of a split gives the string back. */
  lemma {:induction false} GlueSplit(s: string)
    ensures Glue(Split(s)) == s
    decreases |s|
  {
    if s != [] {
      GlueSplit(s[1..]);
      var rest := Split(s[1..]);
      if s[0] == '/' {
        assert ([""] + rest)[1..] == rest;
        assert s == "/" + s[1..];
      } else {
        GlueCons(s[0], rest);
        assert s == [s[0]] + s[1..];
      }
    }
  }

  /** Splitting a string that starts with a slash-free word `w` puts `w`
      in front of the first piece. */
  lemma {:induction false} SplitPrefix(w: string, t: string)
    requires SlashFree(w)
    ensures Split(w + t) == [w + Split(t)[0]] + Split(t)[1..]
    decreases |w|
  {
    if w != [] {
      SplitPrefix(w[1..], t);
      var s := w + t;
      assert s[0] == w[0] && w[0] in w;
      assert s[1..] == w[1..] + t;
      var rest := Split(s[1..]);
      assert rest[0] == w[1..] + Split(t)[0];
      assert rest[1..] == Split(t)[1..];
      assert [w[0]] + (w[1..] + Split(t)[0]) == w + Split(t)[0];
    } else {
      assert w + t == t;
      assert w + Split(t)[0] == Split(t)[0];
      assert Split(t) == [Split(t)[0]] + Split(t)[1..];
    }
  }

  /** Splitting glued slash-free pieces gives the pieces back. */
  lemma {:induction false} SplitGlue(parts: seq<string>)
    requires |parts| >= 1 && AllSlashFree(parts)
    ensures Split(Glue(parts)) == parts
    decreases |parts|
  {
    if |parts| == 1 {
      SplitPrefix(parts[0], "");
      assert parts[0] + "" == parts[0];
    } else {
      SplitGlue(parts[1..]);
      var tail := "/" + Glue(parts[1..]);
      SplitPrefix(parts[0], tail);
      assert parts[0] + tail == Glue(parts);
      assert tail[0] == '/' && tail[1..] == Glue(parts[1..]);
      assert Split(tail) == [""] + parts[1..];
      assert Split(tail)[0] == "" && Split(tail)[1..] == parts[1..];
      assert parts[0] + "" == parts[0];
      assert parts == [parts[0]] + parts[1..];
    }
  }

  /** A normalised path component: not empty, not `.`, not `..`, no separator. */
  predicate IsName(seg: string)
  {
    seg != "" && seg != "." && seg != ".." && SlashFree(seg)
  }

  predicate Canonical(segs: seq<string>)
  {
    forall k :: 0 <= k < |segs| ==> IsName(segs[k])
  }

  /** The walk `os.path.realpath` makes over a path's pieces: empty pieces
      and `.` are skipped, `..` drops the last component (at the root it
      stays at the root), and anything else is appended. */
  function Resolve(stack: seq<string>, parts: seq<string>): (r: seq<string>)
    requires Canonical(stack) && AllSlashFree(parts)
    ensures Canonical(r)
    ensures |r| <= |stack| + |parts|
    decreases |parts|
  {
    if parts == [] then stack
    else
      var p := parts[0];
      if p == "" || p == "." then Resolve(stack, parts[1..])
      else if p == ".." then Resolve(if stack == [] then [] else stack[..|stack| - 1], parts[1..])
      else Resolve(stack + [p], parts[1..])
  }

  /** The string `"/c1/c2/.../cn"` of a component list ("" for no components). */
  function Slashed(segs: seq<string>): string
    decreases |segs|
  {
    if segs == [] then "" else "/" + segs[0] + Slashed(segs[1..])
  }

  /** The absolute path string of a component list; the root is "/". */
  function Render(segs: seq<string>): (p: string)
    ensures IsAbsolute(p)
  {
    if segs == [] then "/" else Slashed(segs)
  }

  /** The normalised components of an absolute path. */
  function Components(p: string): (segs: seq<string>)
    ensures Canonical(segs)
  {
    Resolve([], Split(p))
  }

  /** `os.path.realpath(p)` for an absolute `p`, without symbolic links. */
  function RealPath(p: string): (r: string)
    requires IsAbsolute(p)
    ensures IsAbsolute(r)
  {
    Render(Components(p))
  }

  lemma {:induction false} SlashedAppend(a: seq<string>, b: seq<string>)
    ensures Slashed(a + b) == Slashed(a) + Slashed(b)
    decreases |a|
  {
    if a != [] {
      SlashedAppend(a[1..], b);
      assert (a + b)[0] == a[0];
      assert (a + b)[1..] == a[1..] + b;
    } else {
      assert a + b == b;
    }
  }

  lemma {:induction false} SlashedGlue(segs: seq<string>)
    requires |segs| >= 1
    ensures Slashed(segs) == "/" + Glue(segs)
    decreases |segs|
  {
    if |segs| > 1 {
      SlashedGlue(segs[1..]);
    }
  }

  lemma {:induction false} SlashedLength(segs: seq<string>)
    requires Canonical(segs)
    ensures |Slashed(segs)| >= 2 * |segs|
    ensures segs == [] ==> Slashed(segs) == ""
    ensures segs != [] ==> Slashed(segs)[0] == '/'
    decreases |segs|
  {
    if segs != [] {
      SlashedLength(segs[1..]);
    }
  }

  /** Resolving a list of pieces in two parts is resolving it at once. */
  lemma {:induction false} ResolveAppend(stack: seq<string>, a: seq<string>, b: seq<string>)
    requires Canonical(stack) && AllSlashFree(a) && AllSlashFree(b)
    ensures AllSlashFree(a + b)
    ensures Resolve(stack, a + b) == Resolve(Resolve(stack, a), b)
    decreases |a|
  {
    if a != [] {
      assert (a + b)[0] == a[0];
      assert (a + b)[1..] == a[1..] + b;
      var p := a[0];
      if p == "" || p == "." {
        ResolveAppend(stack, a[1..], b);
      } else if p == ".." {
        ResolveAppend(if stack == [] then [] else stack[..|stack| - 1], a[1..], b);
      } else {
        ResolveAppend(stack + [p], a[1..], b);
      }
    } else {
      assert a + b == b;
    }
  }

  /** Normalised components are kept as they are. */
  lemma {:induction false} ResolveNames(stack: seq<string>, names: seq<string>)
    requires Canonical(stack) && Canonical(names)
    ensures Resolve(stack, names) == stack + names
    decreases |names|
  {
    if names != [] {
      ResolveNames(stack + [names[0]], names[1..]);
      assert stack + [names[0]] + names[1..] == stack + names;
    }
  }

  /** `k` leading `..` pieces climb `k` levels, stopping at the root. */
  lemma {:induction false} ResolveParents(stack: seq<string>, k: nat, rest: seq<string>)
    requires Canonical(stack) && AllSlashFree(rest)
    ensures AllSlashFree(Parents(k) + rest)
    ensures Resolve(stack, Parents(k) + rest)
         == Resolve(if k <= |stack| then stack[..|stack| - k] else [], rest)
    decreases k
  {
    if k > 0 {
      var up := if stack == [] then [] else stack[..|stack| - 1];
      assert (Parents(k) + rest)[0] == "..";
      assert (Parents(k) + rest)[1..] == Parents(k - 1) + rest;
      ResolveParents(up, k - 1, rest);
      if k <= |stack| {
        assert up[..|up| - (k - 1)] == stack[..|stack| - k];
      }
    } else {
      assert Parents(k) + rest == rest;
      assert stack[..|stack|] == stack;
    }
  }

  /** `k` copies of `..`. */
  function Parents(k: nat): (ps: seq<string>)
    ensures |ps| == k && AllSlashFree(ps)
    ensures forall i :: 0 <= i < k ==> ps[i] == ".."
  {
    seq(k, i => "..")
  }

  /** Rendering canonical components and normalising the string gives the
      components back. */
  lemma ComponentsOfRender(segs: seq<string>)
    requires Canonical(segs)
    ensures Components(Render(segs)) == segs
  {
    if segs == [] {
      assert Split("/") == ["", ""];
    } else {
      var parts := [""] + segs;
      SlashedGlue(segs);
      assert parts[1..] == segs && parts[0] == "";
      assert Render(segs) == Glue(parts);
      assert AllSlashFree(parts) by {
        forall k | 0 <= k < |parts| ensures SlashFree(parts[k]) {
          if k > 0 { assert parts[k] == segs[k - 1]; }
        }
      }
      SplitGlue(parts);
      assert Resolve([], parts) == Resolve([], segs);
      ResolveNames([], segs);
      assert [] + segs == segs;
    }
  }

  /** Normalising a normalised path changes nothing. */
  lemma RealPathIdempotent(p: string)
    requires IsAbsolute(p)
    ensures RealPath(RealPath(p)) == RealPath(p)
  {
    ComponentsOfRender(Components(p));
  }

  /** Splitting at an inserted separator splits the two sides. */
  lemma SplitAtSeparator(p: string, q: string)
    ensures Split(p + "/" + q) == Split(p) + Split(q)
  {
    GlueSplit(p);
    GlueSplit(q);
    GlueAppend(Split(p), Split(q));
    SplitGlue(Split(p) + Split(q));
  }

  /** Splitting a join: the pieces of `base` and then the pieces of a
      relative `rel`, up to an empty piece that normalisation skips. */
  lemma JoinComponents(base: string, rel: string)
    requires IsAbsolute(base) && !IsAbsolute(rel)
    ensures IsAbsolute(Join(base, rel))
    ensures AllSlashFree(Split(rel))
    ensures Resolve([], Split(Join(base, rel))) == Resolve(Components(base), Split(rel))
  {
    if base[|base| - 1] == '/' {
      JoinAfterSeparator(base[..|base| - 1], rel);
      assert base[..|base| - 1] + "/" == base;
    } else {
      assert Join(base, rel) == base + "/" + rel;
      SplitAtSeparator(base, rel);
      ResolveAppend([], Split(base), Split(rel));
    }
  }

  /** JoinComponents for a base that ends in a separator. */
  lemma JoinAfterSeparator(init: string, rel: string)
    requires !IsAbsolute(rel)
    ensures Resolve([], Split(init + "/" + rel)) == Resolve(Components(init + "/"), Split(rel))
  {
    SplitAtSeparator(init, rel);
    SplitAtSeparator(init, "");
    assert init + "/" + "" == init + "/";
    var ai := Split(init);
    ResolveAppend([], ai, Split(rel));
    ResolveAppend([], ai, [""]);
    assert Split("") == [""];
    assert Resolve(Resolve([], ai), [""]) == Resolve([], ai);
  }

  lemma {:induction false} GlueAppend(a: seq<string>, b: seq<string>)
    requires |a| >= 1 && |b| >= 1
    ensures Glue(a + b) == Glue(a) + "/" + Glue(b)
    decreases |a|
  {
    if |a| > 1 {
      GlueAppend(a[1..], b);
      assert (a + b)[1..] == a[1..] + b;
    }
  }

  /** One step of the prefix test: a slash-free word `x` followed by `u`
      against a slash-free word `y` followed by `v`, where `u` and `v` are
      empty or begin at a separator. */
  lemma StartsWithWord(x: string, u: string, y: string, v: string)
    requires SlashFree(x) && SlashFree(y)
    requires u == [] || u[0] == '/'
    requires v == [] || v[0] == '/'
    ensures v == [] ==> (StartsWith(x + u, y + v) <==> StartsWith(x, y))
    ensures v != [] ==> (StartsWith(x + u, y + v) <==> x == y && StartsWith(u, v))
  {
    var s, t := x + u, y + v;
    if v == [] {
      assert t == y;
      if |y| <= |x| {
        assert s[..|y|] == x[..|y|];
      } else if |y| <= |s| {
        assert y[|x|] in y && s[|x|] == u[0] == '/';
        assert s[..|y|][|x|] != y[|x|];
      }
    } else if x == y {
      if |v| <= |u| {
        assert s[..|t|] == x + u[..|v|];
        assert (x + u[..|v|])[|x|..] == u[..|v|] && t[|x|..] == v;
      }
    } else if |t| <= |s| {
      if |x| < |y| {
        assert y[|x|] in y && s[|x|] == u[0] == '/';
        assert s[..|t|][|x|] != t[|x|];
      } else if |x| > |y| {
        assert x[|y|] in x && t[|y|] == v[0] == '/';
        assert s[..|t|][|y|] != t[|y|];
      } else {
        assert s[..|t|][..|x|] == x && t[..|x|] == y;
      }
    }
  }

  /** When one normalised path string starts with another: the longer
      path agrees with the shorter one on every component but the last
      of the shorter, and that last component is merely a string prefix
      of the longer path's component at the same place. So a descendant
      passes, and so does a sibling whose name extends the last name. */
  lemma {:induction false} SlashedPrefix(b: seq<string>, r: seq<string>)
    requires |b| >= 1 && Canonical(b) && Canonical(r)
    ensures StartsWith(Slashed(r), Slashed(b)) <==>
      |b| <= |r| && r[..|b| - 1] == b[..|b| - 1] && StartsWith(r[|b| - 1], b[|b| - 1])
    decreases |b|
  {
    SlashedLength(b);
    if r == [] {
      assert Slashed(r) == "";
    } else {
      var x, u, y, v := r[0], Slashed(r[1..]), b[0], Slashed(b[1..]);
      SlashedLength(r[1..]);
      SlashedLength(b[1..]);
      StartsWithWord(x, u, y, v);
      assert Slashed(r) == "/" + (x + u) && Slashed(b) == "/" + (y + v);
      assert StartsWith(Slashed(r), Slashed(b)) <==> StartsWith(x + u, y + v) by {
        var s, t := x + u, y + v;
        assert ("/" + s)[1..] == s && ("/" + t)[1..] == t;
        if StartsWith(s, t) {
          assert ("/" + s)[..|t| + 1] == "/" + s[..|t|];
        }
        if StartsWith("/" + s, "/" + t) {
          assert s[..|t|] == ("/" + s)[..|t| + 1][1..];
        }
      }
      if |b| > 1 {
        SlashedPrefix(b[1..], r[1..]);
        if |b| <= |r| {
          assert r[..|b| - 1] == [x] + r[1..][..|b| - 2];
          assert b[..|b| - 1] == [y] + b[1..][..|b| - 2];
          assert r[|b| - 1] == r[1..][|b| - 2] && b[|b| - 1] == b[1..][|b| - 2];
        }
      }
    }
  }
}
