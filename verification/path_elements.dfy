/**
 A slash-separated path viewed as its sequence of elements.

 `Split` cuts a string at every '/', keeping empty elements, so a leading
 '/' shows up as a leading empty element and "a//b" as ["a", "", "b"].
 `Join` puts the separators back. The two round trips are proved here; the
 lexical cleaning of paths is built on top of them.
 */
module PathElements {

  /** Number of '/' characters in `s`. */
  function SlashCount(s: string): nat
  {
    if s == [] then 0
    else (if s[0] == '/' then 1 else 0) + SlashCount(s[1..])
  }

  /** No element of `es` contains a '/'. */
  predicate Separated(es: seq<string>)
  {
    forall i :: 0 <= i < |es| ==> '/' !in es[i]
  }

  /** The elements of `s` between its separators, in order. */
  function Split(s: string): (es: seq<string>)
    ensures |es| == SlashCount(s) + 1
    ensures Separated(es)
  {
    if s == [] then [""]
    else
      var rest := Split(s[1..]);
      if s[0] == '/' then [""] + rest
      else [[s[0]] + rest[0]] + rest[1..]
  }

  /** The elements `es` written out with one '/' between neighbours. */
  function Join(es: seq<string>): string
    requires |es| >= 1
    decreases |es|
  {
    if |es| == 1 then es[0] else es[0] + "/" + Join(es[1..])
  }

  /** `JoinSplit` for a string that starts with '/'. */
  lemma JoinSplitSlash(t: string)
    requires Join(Split(t)) == t
    ensures Join(Split("/" + t)) == "/" + t
  {
    var rest := Split(t);
    assert ("/" + t)[0] == '/' && ("/" + t)[1..] == t;
    var es := Split("/" + t);
    assert es == [""] + rest;
    assert es[1..] == rest;
    assert Join(es) == "" + "/" + Join(rest);
  }

  /** `JoinSplit` for a string that starts with a character other than '/'. */
  lemma JoinSplitChar(c: char, t: string)
    requires c != '/'
    requires Join(Split(t)) == t
    ensures Join(Split([c] + t)) == [c] + t
  {
    var rest := Split(t);
    assert ([c] + t)[0] == c && ([c] + t)[1..] == t;
    var es := Split([c] + t);
    assert es == [[c] + rest[0]] + rest[1..];
    if |rest| == 1 {
      assert Join(es) == [c] + rest[0];
    } else {
      assert es[1..] == rest[1..];
      assert Join(es) == ([c] + rest[0]) + "/" + Join(rest[1..]);
      assert Join(rest) == rest[0] + "/" + Join(rest[1..]);
    }
  }

  /** Joining the pieces of a string gives the string back. */
  lemma {:induction false} JoinSplit(s: string)
    ensures Join(Split(s)) == s
    decreases |s|
  {
    if s != [] {
      JoinSplit(s[1..]);
      assert s == [s[0]] + s[1..];
      if s[0] == '/' {
        JoinSplitSlash(s[1..]);
      } else {
        JoinSplitChar(s[0], s[1..]);
      }
    }
  }

  /** A string without separators is a single element. */
  lemma {:induction false} SplitNoSlash(e: string)
    requires '/' !in e
    ensures Split(e) == [e]
    decreases |e|
  {
    if e != [] {
      assert '/' !in e[1..] by {
        forall i | 0 <= i < |e[1..]|
          ensures e[1..][i] != '/'
        {
          assert e[1..][i] == e[i + 1];
        }
      }
      SplitNoSlash(e[1..]);
      assert e == [e[0]] + e[1..];
    }
  }

  /** Splitting "a/b" yields the element `a` followed by the pieces of `b`. */
  lemma {:induction false} SplitCons(a: string, b: string)
    requires '/' !in a
    ensures Split(a + "/" + b) == [a] + Split(b)
    decreases |a|
  {
    var s := a + "/" + b;
    if a == [] {
      assert s == "/" + b;
      assert s[1..] == b;
    } else {
      assert '/' !in a[1..] by {
        forall i | 0 <= i < |a[1..]|
          ensures a[1..][i] != '/'
        {
          assert a[1..][i] == a[i + 1];
        }
      }
      SplitCons(a[1..], b);
      assert s[0] == a[0];
      assert s[1..] == a[1..] + "/" + b;
      assert a == [a[0]] + a[1..];
    }
  }

  /** The tail of a separated list is separated. */
  lemma SeparatedTail(es: seq<string>)
    requires |es| >= 1 && Separated(es)
    ensures Separated(es[1..])
  {
    forall i | 0 <= i < |es[1..]|
      ensures '/' !in es[1..][i]
    {
      assert es[1..][i] == es[i + 1];
    }
  }

  /** "x/j" followed by "/b" is "x" followed by "/j/b". */
  lemma Regroup(x: string, j: string, b: string)
    ensures x + "/" + j + "/" + b == x + "/" + (j + "/" + b)
  {
  }

  /** "e/rest" followed by "/b" regrouped as "e" followed by "/rest/b". */
  lemma JoinThenTail(es: seq<string>, b: string)
    requires |es| >= 2
    ensures Join(es) + "/" + b == es[0] + "/" + (Join(es[1..]) + "/" + b)
  {
    var j := Join(es[1..]);
    assert Join(es) == es[0] + "/" + j;
    Regroup(es[0], j, b);
  }

  /** Splitting a join of separator-free elements followed by "/b" gives the
      elements followed by the pieces of `b`. */
  lemma {:induction false} SplitJoinAppend(es: seq<string>, b: string)
    requires |es| >= 1
    requires Separated(es)
    ensures Split(Join(es) + "/" + b) == es + Split(b)
    decreases |es|
  {
    assert '/' !in es[0];
    if |es| == 1 {
      SplitCons(es[0], b);
    } else {
      var tail := Join(es[1..]) + "/" + b;
      JoinThenTail(es, b);
      SeparatedTail(es);
      SplitJoinAppend(es[1..], b);
      SplitCons(es[0], tail);
      assert es == [es[0]] + es[1..];
    }
  }

  /** Splitting "a/b" yields the pieces of `a` followed by the pieces of `b`. */
  lemma SplitAppend(a: string, b: string)
    ensures Split(a + "/" + b) == Split(a) + Split(b)
  {
    JoinSplit(a);
    SplitJoinAppend(Split(a), b);
  }

  /** Splitting a join of separator-free elements gives the elements back. */
  lemma {:induction false} SplitJoin(es: seq<string>)
    requires |es| >= 1
    requires Separated(es)
    ensures Split(Join(es)) == es
    decreases |es|
  {
    if |es| == 1 {
      SplitNoSlash(es[0]);
    } else {
      SplitJoin(es[1..]);
      SplitCons(es[0], Join(es[1..]));
      assert es == [es[0]] + es[1..];
    }
  }

  /** The first character of a join is the first character of its first element. */
  lemma {:induction false} JoinHead(es: seq<string>)
    requires |es| >= 1 && es[0] != ""
    ensures Join(es) != "" && Join(es)[0] == es[0][0]
  {
    if |es| > 1 {
      assert Join(es) == es[0] + ("/" + Join(es[1..]));
    }
  }

  /** No '/' is doubled in `s`, and `s` neither starts nor ends with one. */
  predicate SingleSeparators(s: string)
  {
    && (forall i :: 0 <= i < |s| - 1 ==> s[i] != '/' || s[i + 1] != '/')
    && (|s| > 0 ==> s[0] != '/' && s[|s| - 1] != '/')
  }

  /** Joining non-empty, separator-free elements never doubles a separator. */
  lemma {:induction false} JoinSingleSeparators(es: seq<string>)
    requires |es| >= 1
    requires forall i :: 0 <= i < |es| ==> es[i] != "" && '/' !in es[i]
    ensures Join(es) != ""
    ensures SingleSeparators(Join(es))
    decreases |es|
  {
    if |es| == 1 {
      assert '/' !in es[0];
    } else {
      var a, b := es[0], Join(es[1..]);
      JoinSingleSeparators(es[1..]);
      var s := a + "/" + b;
      assert Join(es) == s;
      assert '/' !in a;
      forall i | 0 <= i < |s| - 1
        ensures s[i] != '/' || s[i + 1] != '/'
      {
        if i < |a| {
          assert s[i] == a[i];
        } else if i == |a| {
          assert s[i + 1] == b[0];
        } else {
          assert s[i] == b[i - |a| - 1];
          assert s[i + 1] == b[i - |a|];
        }
      }
      assert s[0] == a[0];
      assert s[|s| - 1] == b[|b| - 1];
    }
  }
}
