/** What the cleaned form of a path looks like: single slashes, no trailing
    slash except for "/" itself, no "." element, ".." only at the front of a
    relative path, the input's rootedness, and a fixed point of cleaning. */
module PathCleanFacts {
  import opened PathClean

  /** No two consecutive slashes. */
  predicate NoDoubleSlash(q: string)
  {
    forall i :: 0 <= i < |q| - 1 ==> !(q[i] == '/' && q[i + 1] == '/')
  }

  /** Elements that may be joined: non-empty and free of '/'. */
  predicate Joinable(xs: seq<string>)
  {
    forall i :: 0 <= i < |xs| ==> |xs[i]| > 0 && NoSlash(xs[i])
  }

  // ---------------------------------------------------------------------
  // Splitting a joined text back into its elements.

  /** The first element of a + "/" + b ends inside a or at the added '/'. */
  lemma {:induction false} ElemLenSep(a: string, b: string)
    ensures ElemLen(a + "/" + b) == ElemLen(a)
    decreases |a|
  {
    var q := a + "/" + b;
    if a == [] {
      assert q[0] == '/';
    } else if a[0] == '/' {
      assert q[0] == '/';
    } else {
      assert q[0] == a[0] && q[1..] == a[1..] + "/" + b;
      ElemLenSep(a[1..], b);
    }
  }

  /** A separating '/' splits the element list. */
  lemma {:induction false} ElementsSep(a: string, b: string)
    ensures Elements(a + "/" + b) == Elements(a) + Elements(b)
    decreases |a|
  {
    var q := a + "/" + b;
    if a == [] {
      assert q[0] == '/' && q[1..] == b;
    } else if a[0] == '/' {
      assert q[0] == '/' && q[1..] == a[1..] + "/" + b;
      ElementsSep(a[1..], b);
    } else {
      ElemLenSep(a, b);
      ElemLenFacts(a);
      var k := ElemLen(a);
      assert q[0] == a[0];
      assert q[..k] == a[..k];
      assert q[k..] == a[k..] + "/" + b;
      ElementsSep(a[k..], b);
      assert Elements(q) == [a[..k]] + (Elements(a[k..]) + Elements(b));
    }
  }

  /** A single non-empty element without '/' is its own element list. */
  lemma ElementsOne(e: string)
    requires |e| > 0 && NoSlash(e)
    ensures Elements(e) == [e]
  {
    assert e[0..] == e && e[0..|e|] == e;
    ElementEnd(e, 0, |e|);
    assert e[..|e|] == e && e[|e|..] == [];
  }

  /** Joining and then splitting gives the elements back. */
  lemma {:induction false} ElementsJoin(xs: seq<string>)
    requires Joinable(xs)
    ensures Elements(Join(xs)) == xs
  {
    if |xs| == 1 {
      ElementsOne(xs[0]);
    } else if |xs| > 1 {
      var init := xs[..|xs| - 1];
      var e := xs[|xs| - 1];
      assert Joinable(init) by {
        forall i | 0 <= i < |init| ensures |init[i]| > 0 && NoSlash(init[i]) {
          assert init[i] == xs[i];
        }
      }
      ElementsJoin(init);
      ElementsSep(Join(init), e);
      ElementsOne(e);
      assert init + [e] == xs;
    }
  }

  /** The joined text starts and ends with a non-slash and has single slashes. */
  lemma {:induction false} JoinShape(xs: seq<string>)
    requires Joinable(xs)
    ensures xs != [] ==> |Join(xs)| > 0 && Join(xs)[0] != '/' && Join(xs)[|Join(xs)| - 1] != '/'
    ensures NoDoubleSlash(Join(xs))
  {
    if |xs| == 1 {
      assert Join(xs) == xs[0];
    } else if |xs| > 1 {
      var init := xs[..|xs| - 1];
      var e := xs[|xs| - 1];
      assert Joinable(init) by {
        forall i | 0 <= i < |init| ensures |init[i]| > 0 && NoSlash(init[i]) {
          assert init[i] == xs[i];
        }
      }
      JoinShape(init);
      var a := Join(init);
      var q := a + "/" + e;
      assert Join(xs) == q;
      assert q[0] == a[0];
      assert q[|q| - 1] == e[|e| - 1];
      forall i | 0 <= i < |q| - 1
        ensures !(q[i] == '/' && q[i + 1] == '/')
      {
        if i < |a| - 1 {
          assert q[i] == a[i] && q[i + 1] == a[i + 1];
        } else if i == |a| - 1 {
          assert q[i] == a[|a| - 1];
        } else if i == |a| {
          assert q[i + 1] == e[0];
        } else {
          assert q[i] == e[i - |a| - 1];
        }
      }
    }
  }

  // ---------------------------------------------------------------------
  // Rendering a reachable stack.

  /** The elements of a reachable stack's text, in order. */
  function StackElements(st: Stack): seq<string>
  {
    Repeat("..", st.ups) + st.names
  }

  lemma StackJoinable(rooted: bool, st: Stack)
    requires Reachable(rooted, st)
    ensures Joinable(StackElements(st))
  {
    var xs := StackElements(st);
    RepeatNoEmpty(st.ups);
    forall i | 0 <= i < |xs| ensures |xs[i]| > 0 && NoSlash(xs[i]) {
      if i < st.ups {
        assert xs[i] == "..";
      } else {
        assert xs[i] == st.names[i - st.ups];
      }
    }
  }

  /** The text of a reachable stack: single slashes, a leading '/' exactly
      when rooted, a trailing one only for "/" itself, and splitting it gives
      back the stack's elements. */
  lemma RenderShape(rooted: bool, st: Stack)
    requires Reachable(rooted, st)
    ensures var t := Render(rooted, st);
      NoDoubleSlash(t) && Elements(t) == StackElements(st) &&
      (t == [] ==> !rooted) &&
      (t != [] ==> (t[0] == '/' <==> rooted) && (t[|t| - 1] == '/' ==> t == "/"))
  {
    var xs := StackElements(st);
    StackJoinable(rooted, st);
    JoinShape(xs);
    ElementsJoin(xs);
    var j := Join(xs);
    if rooted {
      RootedJoin(j);
      assert Render(rooted, st) == "/" + j;
    } else {
      assert Render(rooted, st) == j;
    }
  }

  /** A root slash before a joined text keeps it free of double slashes,
      ends in '/' only when the text is empty, and adds no element. */
  lemma RootedJoin(j: string)
    requires j != [] ==> j[0] != '/' && j[|j| - 1] != '/'
    requires NoDoubleSlash(j)
    ensures var t := "/" + j;
      NoDoubleSlash(t) && t[0] == '/' && (t[|t| - 1] == '/' ==> t == "/") && Elements(t) == Elements(j)
  {
    var t := "/" + j;
    assert t[1..] == j && t[0] == '/';
    forall i | 0 <= i < |t| - 1
      ensures !(t[i] == '/' && t[i + 1] == '/')
    {
      if i == 0 {
        assert t[1] == j[0];
      } else {
        assert t[i] == j[i - 1] && t[i + 1] == j[i];
      }
    }
    if j != [] {
      assert t[|t| - 1] == j[|j| - 1];
    } else {
      assert t == "/";
    }
  }

  /** Reducing a list is reducing its halves one after the other. */
  lemma {:induction false} ReduceAppend(rooted: bool, st: Stack, a: seq<string>, b: seq<string>)
    ensures Reduce(rooted, st, a + b) == Reduce(rooted, Reduce(rooted, st, a), b)
    decreases |a|
  {
    if a == [] {
      assert a + b == b;
    } else {
      assert (a + b)[0] == a[0] && (a + b)[1..] == a[1..] + b;
      ReduceAppend(rooted, Push(rooted, st, a[0]), a[1..], b);
    }
  }

  /** Leading ".." elements of a relative path are all kept. */
  lemma {:induction false} ReduceUps(n: nat)
    ensures Reduce(false, Stack(0, []), Repeat("..", n)) == Stack(n, [])
  {
    if n > 0 {
      ReduceUps(n - 1);
      ReduceAppend(false, Stack(0, []), Repeat("..", n - 1), [".."]);
    }
  }

  /** Proper names are pushed as they are. */
  lemma {:induction false} ReduceNames(rooted: bool, ups: nat, names: seq<string>)
    requires forall i :: 0 <= i < |names| ==> Proper(names[i])
    ensures Reduce(rooted, Stack(ups, []), names) == Stack(ups, names)
  {
    if names != [] {
      var init := names[..|names| - 1];
      var e := names[|names| - 1];
      ReduceNames(rooted, ups, init);
      ReduceAppend(rooted, Stack(ups, []), init, [e]);
      assert init + [e] == names;
      assert Proper(e);
    }
  }

  /** Reducing the elements of a reachable stack rebuilds the stack. */
  lemma ReduceStack(rooted: bool, st: Stack)
    requires Reachable(rooted, st)
    ensures Reduce(rooted, Stack(0, []), StackElements(st)) == st
  {
    ReduceAppend(rooted, Stack(0, []), Repeat("..", st.ups), st.names);
    if rooted {
      assert Repeat("..", st.ups) == [];
    } else {
      ReduceUps(st.ups);
    }
    ReduceNames(rooted, st.ups, st.names);
  }

  // ---------------------------------------------------------------------
  // The cleaned form.

  /** The stack a path reduces to is reachable. */
  lemma CleanStack(p: string)
    requires p != []
    ensures Reachable(p[0] == '/', Reduce(p[0] == '/', Stack(0, []), Elements(p)))
  {
    ElementsShape(p);
    ReduceReachable(p[0] == '/', Stack(0, []), Elements(p));
  }

  /** The cleaned form is never empty, has no "//", ends in '/' only when it
      is "/", is rooted exactly when the input is, and splits into leading
      ".." elements followed by proper names. */
  lemma CleanShape(p: string)
    ensures var c := Clean(p);
      |c| > 0 && NoDoubleSlash(c) && (c[|c| - 1] == '/' ==> c == "/") &&
      (c[0] == '/' <==> p != [] && p[0] == '/') &&
      (c != "." ==> exists st :: Reachable(c[0] == '/', st) && Elements(c) == StackElements(st))
  {
    if p != [] {
      var rooted := p[0] == '/';
      var st := Reduce(rooted, Stack(0, []), Elements(p));
      CleanStack(p);
      RenderShape(rooted, st);
      if Render(rooted, st) != [] {
        assert Clean(p) == Render(rooted, st);
      }
    }
  }

  /** No "." element survives, except in the result "." itself. */
  lemma CleanNoDot(p: string)
    ensures Clean(p) != "." ==> forall i :: 0 <= i < |Elements(Clean(p))| ==> Elements(Clean(p))[i] != "."
  {
    CleanShape(p);
    var c := Clean(p);
    if c != "." {
      var st :| Reachable(c[0] == '/', st) && Elements(c) == StackElements(st);
      RepeatNoEmpty(st.ups);
      forall i | 0 <= i < |Elements(c)| ensures Elements(c)[i] != "." {
        if i >= st.ups {
          assert Elements(c)[i] == st.names[i - st.ups];
        }
      }
    }
  }

  /** ".." elements come before every name, and a rooted path has none:
      cleaning never climbs above "/". */
  lemma CleanUpsFirst(p: string)
    ensures var es := Elements(Clean(p));
      (forall i, j :: 0 <= i < j < |es| && es[j] == ".." ==> es[i] == "..") &&
      (p != [] && p[0] == '/' ==> forall i :: 0 <= i < |es| ==> es[i] != "..")
  {
    CleanShape(p);
    var c := Clean(p);
    var es := Elements(c);
    if c == "." {
      ElementsOne(".");
    } else {
      var st :| Reachable(c[0] == '/', st) && Elements(c) == StackElements(st);
      RepeatNoEmpty(st.ups);
      forall i, j | 0 <= i < j < |es| && es[j] == ".."
        ensures es[i] == ".."
      {
      }
      if p != [] && p[0] == '/' {
        forall i | 0 <= i < |es| ensures es[i] != ".." {
          assert es[i] == st.names[i - st.ups];
        }
      }
    }
  }

  /** Cleaning a cleaned path changes nothing: already-clean paths come back
      unchanged. */
  lemma CleanIdempotent(p: string)
    ensures Clean(Clean(p)) == Clean(p)
  {
    var c := Clean(p);
    if c == "." {
      ElementsOne(".");
      assert Reduce(false, Stack(0, []), ["."]) == Stack(0, []);
    } else {
      var rooted := p[0] == '/';
      var st := Reduce(rooted, Stack(0, []), Elements(p));
      CleanStack(p);
      RenderShape(rooted, st);
      assert c == Render(rooted, st);
      ReduceStack(rooted, st);
    }
  }
}
