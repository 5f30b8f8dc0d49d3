/**
 Lexical path cleaning in the style of Plan 9 and Go's `path.Clean`.

 A path is split into its elements and the elements are folded left to right
 onto a stack of surviving names:
 - empty elements (from repeated '/') and "." are dropped;
 - ".." pops the name before it; with nothing to pop it is dropped in a
   rooted path and kept in an unrooted one;
 - every other element is pushed.
 The stack is then written back out, as "/" or "." when it is empty.
 */
module LexicalPath {
  import opened PathElements

  /** The path starts at the root. */
  predicate Rooted(p: string)
  {
    |p| > 0 && p[0] == '/'
  }

  /** An element that can survive cleaning: neither empty nor "." nor containing '/'. */
  predicate IsName(e: string)
  {
    e != "" && e != "." && '/' !in e
  }

  /** The stacks cleaning can produce: names only, ".." only as a leading run,
      and no ".." at all under the root. */
  predicate Canonical(st: seq<string>, rooted: bool)
  {
    && (forall i :: 0 <= i < |st| ==> IsName(st[i]))
    && (rooted ==> forall i :: 0 <= i < |st| ==> st[i] != "..")
    && (forall i, j :: 0 <= i < j < |st| && st[j] == ".." ==> st[i] == "..")
  }

  /** One element applied to the stack of names kept so far. */
  function Step(st: seq<string>, e: string, rooted: bool): seq<string>
  {
    if e == "" || e == "." then st
    else if e == ".." then
      if |st| > 0 && st[|st| - 1] != ".." then st[..|st| - 1]
      else if rooted then st
      else st + [".."]
    else st + [e]
  }

  /** The elements `es` applied in order, starting from the stack `st`. */
  function Fold(st: seq<string>, es: seq<string>, rooted: bool): seq<string>
    decreases |es|
  {
    if es == [] then st else Fold(Step(st, es[0], rooted), es[1..], rooted)
  }

  /** A stack written back out as a path. */
  function Render(st: seq<string>, rooted: bool): string
  {
    if rooted then (if st == [] then "/" else "/" + Join(st))
    else if st == [] then "." else Join(st)
  }

  /** The strings `Clean` returns: "/", ".", or a canonical stack written out. */
  predicate IsClean(s: string)
  {
    || s == "/"
    || s == "."
    || (Rooted(s) && Canonical(Split(s[1..]), true))
    || (!Rooted(s) && Canonical(Split(s), false))
  }

  /** The shortest path lexically equivalent to `p`. */
  function Clean(p: string): (c: string)
    ensures c != ""
    ensures Rooted(c) == Rooted(p)
    ensures IsClean(c)
    ensures c == "/" || c == "." || SingleSeparators(if Rooted(c) then c[1..] else c)
  {
    var rooted := Rooted(p);
    var st := Fold([], Split(p), rooted);
    FoldCanonical([], Split(p), rooted);
    RenderClean(st, rooted);
    Render(st, rooted)
  }

  /** A step keeps the stack canonical. */
  lemma StepCanonical(st: seq<string>, e: string, rooted: bool)
    requires Canonical(st, rooted)
    requires '/' !in e
    ensures Canonical(Step(st, e, rooted), rooted)
  {
    if e == ".." && !(|st| > 0 && st[|st| - 1] != "..") && !rooted {
      var st' := st + [".."];
      forall i, j | 0 <= i < j < |st'| && st'[j] == ".."
        ensures st'[i] == ".."
      {
        if j == |st| {
          assert st[|st| - 1] == "..";
          if i < |st| - 1 {
            assert st[i] == "..";
          }
        }
      }
    }
  }

  /** Folding keeps the stack canonical. */
  lemma {:induction false} FoldCanonical(st: seq<string>, es: seq<string>, rooted: bool)
    requires Canonical(st, rooted)
    requires Separated(es)
    ensures Canonical(Fold(st, es, rooted), rooted)
    decreases |es|
  {
    if es != [] {
      StepCanonical(st, es[0], rooted);
      FoldCanonical(Step(st, es[0], rooted), es[1..], rooted);
    }
  }

  /** Folding a canonical run of names onto a stack just pushes them. */
  lemma {:induction false} FoldPushes(st: seq<string>, es: seq<string>, rooted: bool)
    requires Canonical(st + es, rooted)
    ensures Fold(st, es, rooted) == st + es
    decreases |es|
  {
    if es != [] {
      var all := st + es;
      assert all[|st|] == es[0];
      if es[0] == ".." && |st| > 0 {
        assert all[|st| - 1] == st[|st| - 1];
      }
      assert Step(st, es[0], rooted) == st + [es[0]];
      assert (st + [es[0]]) + es[1..] == all;
      FoldPushes(st + [es[0]], es[1..], rooted);
    }
  }

  /** Folding a concatenation folds the first part, then the second. */
  lemma {:induction false} FoldAppend(st: seq<string>, xs: seq<string>, ys: seq<string>, rooted: bool)
    ensures Fold(st, xs + ys, rooted) == Fold(Fold(st, xs, rooted), ys, rooted)
    decreases |xs|
  {
    if xs != [] {
      assert (xs + ys)[0] == xs[0];
      assert (xs + ys)[1..] == xs[1..] + ys;
      FoldAppend(Step(st, xs[0], rooted), xs[1..], ys, rooted);
    } else {
      assert xs + ys == ys;
    }
  }

  /** A canonical stack written out is clean, and its separators are single. */
  lemma RenderClean(st: seq<string>, rooted: bool)
    requires Canonical(st, rooted)
    ensures Rooted(Render(st, rooted)) == rooted
    ensures IsClean(Render(st, rooted))
    ensures var c := Render(st, rooted);
      c == "/" || c == "." || SingleSeparators(if Rooted(c) then c[1..] else c)
  {
    if st != [] {
      SplitJoin(st);
      JoinHead(st);
      JoinSingleSeparators(st);
      if rooted {
        assert ("/" + Join(st))[1..] == Join(st);
      }
    }
  }

  /** Cleaning leaves a clean path unchanged. */
  lemma CleanFixpoint(s: string)
    requires IsClean(s)
    ensures Clean(s) == s
  {
    var rooted := Rooted(s);
    if s == "/" {
      assert Split(s) == ["", ""];
      assert Fold([], ["", ""], rooted) == Fold([], [""], rooted);
      assert Fold([], [""], rooted) == Fold([], [], rooted);
    } else if s == "." {
      SplitNoSlash(s);
      assert Fold([], Split(s), rooted) == Fold([], [], rooted);
    } else if rooted {
      var st := Split(s[1..]);
      assert s == "/" + s[1..];
      assert Split(s) == [""] + st;
      assert ([""] + st)[1..] == st;
      assert Fold([], Split(s), rooted) == Fold([], st, rooted);
      assert [] + st == st;
      FoldPushes([], st, rooted);
      JoinSplit(s[1..]);
      assert Render(st, rooted) == "/" + Join(st);
    } else {
      var st := Split(s);
      assert [] + st == st;
      FoldPushes([], st, rooted);
      JoinSplit(s);
    }
  }

  /** A path is its own cleaned form exactly when it is clean. */
  lemma CleanFixedPoints(s: string)
    ensures Clean(s) == s <==> IsClean(s)
  {
    if IsClean(s) {
      CleanFixpoint(s);
    }
  }

  /** Cleaning twice is the same as cleaning once. */
  lemma CleanIdempotent(p: string)
    ensures Clean(Clean(p)) == Clean(p)
  {
    CleanFixpoint(Clean(p));
  }

  /** A rooted path cleans to a rooted path in which ".." never occurs. */
  lemma RootedCleanHasNoParent(p: string)
    requires Rooted(p)
    ensures var c := Clean(p);
      c == "/" || (c[0] == '/' && forall e :: e in Split(c[1..]) ==> IsName(e) && e != "..")
  {
    var c := Clean(p);
    if c != "/" {
      var st := Split(c[1..]);
      forall e | e in st
        ensures IsName(e) && e != ".."
      {
        var i :| 0 <= i < |st| && st[i] == e;
      }
    }
  }

  /** Two paths with the same rootedness and the same stack clean alike. */
  lemma CleanByStack(p: string, q: string)
    requires Rooted(p) == Rooted(q)
    requires Fold([], Split(p), Rooted(p)) == Fold([], Split(q), Rooted(q))
    ensures Clean(p) == Clean(q)
  {
  }

  /** Paths sharing the part before their first '/' agree on being rooted. */
  lemma SameRoot(a: string, x: string, y: string)
    ensures Rooted(a + "/" + x) == Rooted(a + "/" + y)
  {
    if a != [] {
      assert (a + "/" + x)[0] == a[0] && (a + "/" + y)[0] == a[0];
    }
  }

  /** Replacing the tail `b` of "a/b" by `x`, whose elements are `mid` followed
      by those of `b`, does not change the cleaned path when `mid` leaves the
      stack built from `a` as it was. */
  lemma CleanSplice(a: string, x: string, b: string, mid: seq<string>)
    requires Split(x) == mid + Split(b)
    requires var r := Rooted(a + "/" + b);
      Fold(Fold([], Split(a), r), mid, r) == Fold([], Split(a), r)
    ensures Clean(a + "/" + x) == Clean(a + "/" + b)
  {
    var r := Rooted(a + "/" + b);
    var st := Fold([], Split(a), r);
    SameRoot(a, x, b);
    SplitAppend(a, x);
    SplitAppend(a, b);
    FoldAppend([], Split(a), Split(x), r);
    FoldAppend(st, mid, Split(b), r);
    FoldAppend([], Split(a), Split(b), r);
    CleanByStack(a + "/" + x, a + "/" + b);
  }

  /** A doubled separator means the same as a single one. */
  lemma CleanCollapsesDoubleSlash(a: string, b: string)
    ensures Clean(a + "//" + b) == Clean(a + "/" + b)
  {
    assert a + "//" + b == a + "/" + ("" + "/" + b);
    SplitCons("", b);
    CleanSplice(a, "" + "/" + b, b, [""]);
  }

  /** A "." element means nothing. */
  lemma CleanDropsDot(a: string, b: string)
    ensures Clean(a + "/./" + b) == Clean(a + "/" + b)
  {
    assert a + "/./" + b == a + "/" + ("." + "/" + b);
    SplitCons(".", b);
    CleanSplice(a, "." + "/" + b, b, ["."]);
  }

  /** A name followed by ".." cancels out, wherever it stands. */
  lemma CleanCancelsNameAndParent(a: string, n: string, b: string)
    requires IsName(n) && n != ".."
    ensures Clean(a + "/" + n + "/../" + b) == Clean(a + "/" + b)
  {
    var x := n + "/" + (".." + "/" + b);
    assert a + "/" + n + "/../" + b == a + "/" + x;
    SplitCons(n, ".." + "/" + b);
    SplitCons("..", b);
    assert Split(x) == [n, ".."] + Split(b);
    var r := Rooted(a + "/" + b);
    var st := Fold([], Split(a), r);
    FoldCanonical([], Split(a), r);
    assert Step(st, n, r) == st + [n];
    assert (st + [n])[..|st|] == st;
    assert Fold(st, [n, ".."], r) == Fold(st + [n], [".."], r);
    CleanSplice(a, x, b, [n, ".."]);
  }

  /** ".." directly under the root stays at the root. */
  lemma CleanRootParent(b: string)
    ensures Clean("/../" + b) == Clean("/" + b)
  {
    assert "/../" + b == "" + "/" + (".." + "/" + b);
    assert "/" + b == "" + "/" + b;
    SplitCons("..", b);
    assert Fold([], Split(""), true) == [];
    CleanSplice("", ".." + "/" + b, b, [".."]);
  }

  /** A leading "./" of an unrooted path means nothing. */
  lemma CleanDropsLeadingDot(b: string)
    requires !Rooted(b)
    ensures Clean("./" + b) == Clean(b)
  {
    assert "./" + b == "." + "/" + b;
    SplitCons(".", b);
    FoldAppend([], ["."], Split(b), false);
    CleanByStack("./" + b, b);
  }

  /** A leading name followed by ".." cancels out in an unrooted path. */
  lemma CleanCancelsLeadingNameAndParent(n: string, b: string)
    requires IsName(n) && n != ".."
    requires !Rooted(b)
    ensures Clean(n + "/../" + b) == Clean(b)
  {
    var p := n + "/" + (".." + "/" + b);
    assert n + "/../" + b == p;
    SplitCons(n, ".." + "/" + b);
    SplitCons("..", b);
    assert Split(p) == [n, ".."] + Split(b);
    assert p[0] == n[0];
    assert '/' !in n;
    FoldAppend([], [n, ".."], Split(b), false);
    assert Fold([], [n, ".."], false) == Fold([n], [".."], false);
    CleanByStack(p, b);
  }

  /** A trailing "/." or "/" means nothing. */
  lemma CleanDropsTrailingDotAndSlash(a: string)
    requires a != ""
    ensures Clean(a + "/.") == Clean(a)
    ensures Clean(a + "/") == Clean(a)
  {
    var r := Rooted(a);
    assert a + "/." == a + "/" + ".";
    assert a + "/" == a + "/" + "";
    SplitAppend(a, ".");
    SplitAppend(a, "");
    SplitNoSlash(".");
    SplitNoSlash("");
    assert (a + "/.")[0] == a[0] && (a + "/")[0] == a[0];
    FoldAppend([], Split(a), ["."], r);
    FoldAppend([], Split(a), [""], r);
    CleanByStack(a + "/.", a);
    CleanByStack(a + "/", a);
  }
}
