/**
 * Slash-separated paths as Go's `path.Join`, `path.Clean` and (on Unix)
 * `filepath.Dir` treat them. The resolver compares parent directories of
 * destinations it builds with `path.Join`, so the lexical cleaning rules
 * decide when its reconciliation branch is taken.
 *
 * `Clean` is modelled element by element: the path is split at every '/',
 * empty and "." elements are dropped, ".." removes the element before it
 * (or stays, at the head of a relative path, or vanishes at the root), and
 * what is left is joined again, "/" for the bare root and "." for nothing.
 */
module Paths {

  /** Index of the first '/' in `s`. */
  function FirstSlash(s: string): (i: nat)
    requires '/' in s
    ensures i < |s| && s[i] == '/'
    ensures forall k | 0 <= k < i :: s[k] != '/'
  {
    if s[0] == '/' then 0 else 1 + FirstSlash(s[1..])
  }

  /** The elements of `s` between slashes, like `strings.Split(s, "/")`. */
  function Split(s: string): (parts: seq<string>)
    ensures |parts| >= 1
    decreases |s|
  {
    if '/' !in s then [s]
    else
      var i := FirstSlash(s);
      [s[..i]] + Split(s[i + 1..])
  }

  /** The elements of `parts` joined with '/', like `strings.Join(parts, "/")`. */
  function JoinSlash(parts: seq<string>): string
  {
    if |parts| == 0 then ""
    else if |parts| == 1 then parts[0]
    else JoinSlash(parts[..|parts| - 1]) + "/" + parts[|parts| - 1]
  }

  predicate Rooted(p: string)
  {
    |p| > 0 && p[0] == '/'
  }

  /** How one path element changes the stack of kept elements. */
  function Step(rooted: bool, kept: seq<string>, elem: string): seq<string>
  {
    if elem == "" || elem == "." then kept
    else if elem == ".." then
      if |kept| > 0 && kept[|kept| - 1] != ".." then kept[..|kept| - 1]
      else if rooted then kept
      else kept + [".."]
    else kept + [elem]
  }

  function Fold(rooted: bool, kept: seq<string>, elems: seq<string>): seq<string>
    decreases |elems|
  {
    if elems == [] then kept else Fold(rooted, Step(rooted, kept, elems[0]), elems[1..])
  }

  /** The path spelled by a stack of kept elements. */
  function Render(rooted: bool, kept: seq<string>): string
  {
    if rooted then "/" + JoinSlash(kept)
    else if kept == [] then "."
    else JoinSlash(kept)
  }

  /** Go's `path.Clean`. */
  function Clean(p: string): string
  {
    Render(Rooted(p), Fold(Rooted(p), [], Split(p)))
  }

  /** Go's `path.Join`: the elements from the first non-empty one on, joined and cleaned. */
  function Join(elems: seq<string>): string
  {
    if elems == [] then ""
    else if elems[0] == "" then Join(elems[1..])
    else Clean(JoinSlash(elems))
  }

  /** Length of the part of `p` up to and including its last '/', 0 if it has none. */
  function LastSlashEnd(p: string): (n: nat)
    ensures n <= |p|
  {
    if |p| == 0 then 0
    else if p[|p| - 1] == '/' then |p|
    else LastSlashEnd(p[..|p| - 1])
  }

  /** Go's `filepath.Dir` on Unix: everything before the last element, cleaned. */
  function Dir(p: string): string
  {
    Clean(p[..LastSlashEnd(p)])
  }

  /** A single path element that cleaning keeps as it is. */
  predicate PlainName(t: string)
  {
    t != "" && t != "." && t != ".." && '/' !in t
  }

  /** A stack `Fold` can produce: real elements only, ".." only leading a relative path. */
  ghost predicate CleanStack(rooted: bool, kept: seq<string>)
  {
    && (forall i | 0 <= i < |kept| :: kept[i] != "" && kept[i] != "." && '/' !in kept[i])
    && (forall i | 0 <= i < |kept| && kept[i] == ".." ::
          !rooted && forall j | 0 <= j < i :: kept[j] == "..")
  }

  // ---------------------------------------------------------------------
  // Splitting and joining

  lemma {:induction false} SplitElementsHaveNoSlash(s: string)
    ensures forall i | 0 <= i < |Split(s)| :: '/' !in Split(s)[i]
    decreases |s|
  {
    if '/' in s {
      var i := FirstSlash(s);
      SplitElementsHaveNoSlash(s[i + 1..]);
      assert forall k | 0 <= k < i :: s[..i][k] != '/';
    }
  }

  lemma SplitWhole(s: string)
    requires '/' !in s
    ensures Split(s) == [s]
  {
  }

  /** Splitting at the first slash, wherever it is. */
  lemma SplitAt(s: string, i: nat)
    requires i < |s| && s[i] == '/'
    requires forall k | 0 <= k < i :: s[k] != '/'
    ensures Split(s) == [s[..i]] + Split(s[i + 1..])
  {
    assert '/' in s;
    var j := FirstSlash(s);
    assert !(j < i) && !(i < j);
  }

  lemma SplitAppendNoSlash(x: string, t: string)
    requires '/' !in x && '/' !in t
    ensures Split(x + "/" + t) == [x, t]
  {
    var s := x + "/" + t;
    assert forall k | 0 <= k < |x| :: s[k] == x[k];
    SplitAt(s, |x|);
    assert s[..|x|] == x;
    assert s[|x| + 1..] == t;
    SplitWhole(t);
  }

  lemma SplitAppendAt(x: string, t: string, i: nat)
    requires i < |x| && x[i] == '/'
    requires forall k | 0 <= k < i :: x[k] != '/'
    ensures Split(x + "/" + t) == [x[..i]] + Split(x[i + 1..] + "/" + t)
    ensures Split(x) == [x[..i]] + Split(x[i + 1..])
  {
    var s := x + "/" + t;
    assert forall k | 0 <= k <= i :: s[k] == x[k];
    SplitAt(s, i);
    SplitAt(x, i);
    assert s[..i] == x[..i];
    assert s[i + 1..] == x[i + 1..] + "/" + t;
  }

  /** Appending "/" and a slash-free `t` appends exactly one element. */
  lemma {:induction false} SplitAppend(x: string, t: string)
    requires '/' !in t
    ensures Split(x + "/" + t) == Split(x) + [t]
    decreases |x|
  {
    if '/' !in x {
      SplitAppendNoSlash(x, t);
      SplitWhole(x);
    } else {
      var i := FirstSlash(x);
      SplitAppendAt(x, t, i);
      SplitAppend(x[i + 1..], t);
    }
  }

  lemma SplitLeadingSlash(y: string)
    ensures Split("/" + y) == [""] + Split(y)
  {
    var s := "/" + y;
    assert FirstSlash(s) == 0;
    assert s[1..] == y;
  }

  /** Joining one more element adds a slash and that element. */
  lemma JoinSlashSnoc(init: seq<string>, last: string)
    requires init != []
    ensures JoinSlash(init + [last]) == JoinSlash(init) + "/" + last
  {
    assert (init + [last])[..|init|] == init;
  }

  /** Splitting undoes joining, for non-empty lists of slash-free elements. */
  lemma {:induction false} SplitJoin(parts: seq<string>)
    requires |parts| > 0
    requires forall i | 0 <= i < |parts| :: '/' !in parts[i]
    ensures Split(JoinSlash(parts)) == parts
    decreases |parts|
  {
    if |parts| == 1 {
      SplitWhole(parts[0]);
    } else {
      var init, last := parts[..|parts| - 1], parts[|parts| - 1];
      assert parts == init + [last];
      JoinSlashSnoc(init, last);
      SplitJoin(init);
      SplitAppend(JoinSlash(init), last);
    }
  }

  lemma {:induction false} JoinSlashHead(parts: seq<string>)
    requires |parts| > 0 && |parts[0]| > 0
    ensures |JoinSlash(parts)| > 0 && JoinSlash(parts)[0] == parts[0][0]
    decreases |parts|
  {
    if |parts| > 1 {
      JoinSlashHead(parts[..|parts| - 1]);
    }
  }

  // ---------------------------------------------------------------------
  // Folding

  lemma {:induction false} FoldAppend(rooted: bool, kept: seq<string>, elems: seq<string>, e: string)
    ensures Fold(rooted, kept, elems + [e]) == Step(rooted, Fold(rooted, kept, elems), e)
    decreases |elems|
  {
    if elems == [] {
      assert [e][1..] == [];
    } else {
      assert (elems + [e])[1..] == elems[1..] + [e];
      FoldAppend(rooted, Step(rooted, kept, elems[0]), elems[1..], e);
    }
  }

  lemma StepKeepsClean(rooted: bool, kept: seq<string>, elem: string)
    requires CleanStack(rooted, kept) && '/' !in elem
    ensures CleanStack(rooted, Step(rooted, kept, elem))
  {
  }

  lemma {:induction false} FoldKeepsClean(rooted: bool, kept: seq<string>, elems: seq<string>)
    requires CleanStack(rooted, kept)
    requires forall i | 0 <= i < |elems| :: '/' !in elems[i]
    ensures CleanStack(rooted, Fold(rooted, kept, elems))
    decreases |elems|
  {
    if elems != [] {
      StepKeepsClean(rooted, kept, elems[0]);
      FoldKeepsClean(rooted, Step(rooted, kept, elems[0]), elems[1..]);
    }
  }

  /** Folding a clean stack onto a prefix of itself rebuilds it. */
  lemma {:induction false} FoldCleanSuffix(rooted: bool, kept: seq<string>, k: nat)
    requires CleanStack(rooted, kept) && k <= |kept|
    ensures Fold(rooted, kept[..k], kept[k..]) == kept
    decreases |kept| - k
  {
    if k < |kept| {
      assert Step(rooted, kept[..k], kept[k]) == kept[..k + 1];
      assert kept[k..][1..] == kept[k + 1..];
      FoldCleanSuffix(rooted, kept, k + 1);
    } else {
      assert kept[..k] == kept;
    }
  }

  lemma FoldClean(rooted: bool, kept: seq<string>)
    requires CleanStack(rooted, kept)
    ensures Fold(rooted, [], kept) == kept
  {
    FoldCleanSuffix(rooted, kept, 0);
    assert kept[..0] == [] && kept[0..] == kept;
  }

  /** What `Clean` computes is a clean stack rendered. */
  lemma CleanIsRender(p: string)
    ensures CleanStack(Rooted(p), Fold(Rooted(p), [], Split(p)))
  {
    SplitElementsHaveNoSlash(p);
    FoldKeepsClean(Rooted(p), [], Split(p));
  }

  lemma RenderRooted(rooted: bool, kept: seq<string>)
    requires CleanStack(rooted, kept)
    ensures Rooted(Render(rooted, kept)) == rooted
  {
    if !rooted && kept != [] {
      JoinSlashHead(kept);
    }
  }

  lemma CleanRoot()
    ensures Clean("/") == "/"
  {
    SplitLeadingSlash("");
    assert "/" + "" == "/";
    assert Split("/") == ["", ""];
    assert Fold(true, [], ["", ""]) == Fold(true, [], [""]) == Fold(true, [], []);
  }

  /** A rendered clean stack is its own cleaning. */
  lemma CleanRender(rooted: bool, kept: seq<string>)
    requires CleanStack(rooted, kept)
    ensures Clean(Render(rooted, kept)) == Render(rooted, kept)
  {
    var p := Render(rooted, kept);
    RenderRooted(rooted, kept);
    if rooted {
      if kept == [] {
        CleanRoot();
      } else {
        SplitLeadingSlash(JoinSlash(kept));
        SplitJoin(kept);
        FoldClean(rooted, kept);
        assert Split(p)[1..] == kept;
      }
    } else if kept == [] {
      assert p == ".";
      assert Split(p) == ["."];
      assert Fold(rooted, [], ["."]) == Fold(rooted, [], []);
    } else {
      SplitJoin(kept);
      FoldClean(rooted, kept);
    }
  }

  /** A trailing slash does not change a rendered clean stack once cleaned. */
  lemma CleanRenderSlash(rooted: bool, kept: seq<string>)
    requires CleanStack(rooted, kept) && kept != []
    ensures Clean(Render(rooted, kept) + "/") == Render(rooted, kept)
  {
    var p := Render(rooted, kept);
    RenderRooted(rooted, kept);
    assert Rooted(p + "/") == rooted;
    SplitAppend(p, "");
    assert p + "/" == p + "/" + "";
    CleanRender(rooted, kept);
    FoldAppend(rooted, [], Split(p), "");
  }

  /** `path.Clean` is idempotent. */
  lemma CleanIdempotent(p: string)
    ensures Clean(Clean(p)) == Clean(p)
  {
    CleanIsRender(p);
    CleanRender(Rooted(p), Fold(Rooted(p), [], Split(p)));
  }

  // ---------------------------------------------------------------------
  // Parents

  lemma {:induction false} LastSlashEndAfter(prefix: string, t: string)
    requires '/' !in t
    requires prefix == [] || prefix[|prefix| - 1] == '/'
    ensures LastSlashEnd(prefix + t) == |prefix|
    decreases |t|
  {
    if t != [] {
      var s := prefix + t;
      assert s[|s| - 1] == t[|t| - 1];
      assert s[..|s| - 1] == prefix + t[..|t| - 1];
      LastSlashEndAfter(prefix, t[..|t| - 1]);
    } else {
      assert prefix + t == prefix;
    }
  }

  /** Cleaning `x/t` keeps `t` on top of what cleaning `x` keeps. */
  lemma CleanChild(x: string, t: string)
    requires x != "" && PlainName(t)
    ensures Clean(x + "/" + t) == Render(Rooted(x), Fold(Rooted(x), [], Split(x)) + [t])
  {
    assert Rooted(x + "/" + t) == Rooted(x);
    SplitAppend(x, t);
    FoldAppend(Rooted(x), [], Split(x), t);
  }

  /** The text of a rendered stack before its top element `t`. */
  function RenderedParent(rooted: bool, kept: seq<string>): string
  {
    if kept == [] then (if rooted then "/" else "") else Render(rooted, kept) + "/"
  }

  lemma RenderChild(rooted: bool, kept: seq<string>, t: string)
    requires PlainName(t)
    ensures Render(rooted, kept + [t]) == RenderedParent(rooted, kept) + t
  {
    if kept == [] {
      assert kept + [t] == [t];
    } else {
      JoinSlashSnoc(kept, t);
      if rooted {
        assert "/" + (JoinSlash(kept) + "/" + t) == ("/" + JoinSlash(kept)) + "/" + t;
      }
    }
  }

  lemma CleanRenderedParent(rooted: bool, kept: seq<string>)
    requires CleanStack(rooted, kept)
    ensures Clean(RenderedParent(rooted, kept)) == Render(rooted, kept)
  {
    if kept == [] {
      if rooted {
        CleanRoot();
      } else {
        assert Split("") == [""];
      }
    } else {
      CleanRenderSlash(rooted, kept);
    }
  }

  /** The parent of `x/t`, cleaned, is `x` cleaned, for any plain element `t`. */
  lemma DirOfChild(x: string, t: string)
    requires x != "" && PlainName(t)
    ensures Dir(Clean(x + "/" + t)) == Clean(x)
  {
    var r := Rooted(x);
    var kept := Fold(r, [], Split(x));
    CleanIsRender(x);
    CleanChild(x, t);
    RenderChild(r, kept, t);
    var prefix := RenderedParent(r, kept);
    var child := Clean(x + "/" + t);
    assert child == prefix + t;
    LastSlashEndAfter(prefix, t);
    assert child[..LastSlashEnd(child)] == prefix;
    CleanRenderedParent(r, kept);
  }

  /** A plain element is clean already. */
  lemma CleanPlain(t: string)
    requires PlainName(t)
    ensures Clean(t) == t && Dir(t) == "."
  {
    assert Split(t) == [t];
    assert Fold(false, [], [t]) == Fold(false, [t], []);
    assert LastSlashEnd(t) == 0 by {
      LastSlashEndAfter("", t);
      assert "" + t == t;
    }
    assert t[..0] == "";
    assert Split("") == [""];
  }

  lemma JoinSlashTwo(a: string, b: string)
    ensures JoinSlash([a, b]) == a + "/" + b
  {
    assert [a, b][..1] == [a];
  }

  lemma JoinSlashThree(a: string, b: string, c: string)
    ensures JoinSlash([a, b, c]) == (a + "/" + b) + "/" + c
  {
    assert [a, b, c][..2] == [a, b];
    JoinSlashTwo(a, b);
  }

  /** `path.Join` skips leading empty elements. */
  lemma JoinSkipsEmpty(rest: seq<string>)
    ensures Join([""] + rest) == Join(rest)
  {
    assert ([""] + rest)[1..] == rest;
  }

  /**
   * The parent of `path.Join(root, sub, t)` for a plain element `t` is
   * `path.Join(root, sub)`, or "." when both are empty: it does not depend on `t`.
   */
  lemma JoinParent(root: string, sub: string, t: string)
    requires PlainName(t)
    ensures Dir(Join([root, sub, t])) == if root == "" && sub == "" then "." else Join([root, sub])
  {
    if root != "" {
      JoinSlashThree(root, sub, t);
      JoinSlashTwo(root, sub);
      DirOfChild(root + "/" + sub, t);
    } else {
      JoinSkipsEmpty([sub, t]);
      JoinSkipsEmpty([sub]);
      assert [root, sub, t] == [""] + [sub, t] && [root, sub] == [""] + [sub];
      if sub != "" {
        JoinSlashTwo(sub, t);
        assert Join([sub, t]) == Clean(sub + "/" + t);
        assert Join([sub]) == Clean(sub);
        DirOfChild(sub, t);
      } else {
        JoinSkipsEmpty([t]);
        assert [sub, t] == [""] + [t];
        assert Join([t]) == Clean(t);
        CleanPlain(t);
      }
    }
  }

  /** `path.Clean` never returns the empty string. */
  lemma CleanNonEmpty(p: string)
    ensures Clean(p) != ""
  {
    CleanIsRender(p);
    var kept := Fold(Rooted(p), [], Split(p));
    if !Rooted(p) && kept != [] {
      JoinSlashHead(kept);
    }
  }

  /** A join whose last element is not empty is non-empty and already clean. */
  lemma {:induction false} JoinIsClean(elems: seq<string>)
    requires |elems| > 0 && elems[|elems| - 1] != ""
    ensures Join(elems) != "" && Clean(Join(elems)) == Join(elems)
    decreases |elems|
  {
    if elems[0] == "" {
      JoinIsClean(elems[1..]);
    } else {
      CleanNonEmpty(JoinSlash(elems));
      CleanIdempotent(JoinSlash(elems));
    }
  }

  /** The parent of `path.Join(d, t)` is `d`, for a clean non-empty `d` and a plain `t`. */
  lemma JoinChildParent(d: string, t: string)
    requires d != "" && Clean(d) == d && PlainName(t)
    ensures Dir(Join([d, t])) == d
  {
    JoinSlashTwo(d, t);
    DirOfChild(d, t);
  }
}
