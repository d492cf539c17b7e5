/** Cases of the clean_path test table (tests/OS/TestIO.cpp), worked out
    on the specification Clean: the elements are read off with
    ElementsJoin, then reduced and rendered. */
module PathCleanCases {
  import opened PathClean
  import opened PathCleanFacts

  /** The text of ["abc", "def", "..", "..", ".."]. */
  lemma JoinUps()
    ensures Join(["abc", "def", "..", "..", ".."]) == "abc/def/../../.."
  {
    assert Join(["abc"]) == "abc";
    JoinSnoc(["abc"], "def");
    assert ["abc"] + ["def"] == ["abc", "def"];
    assert Join(["abc", "def"]) == "abc/def";
    JoinSnoc(["abc", "def"], "..");
    assert ["abc", "def"] + [".."] == ["abc", "def", ".."];
    assert Join(["abc", "def", ".."]) == "abc/def/..";
    JoinSnoc(["abc", "def", ".."], "..");
    assert ["abc", "def", ".."] + [".."] == ["abc", "def", "..", ".."];
    assert Join(["abc", "def", "..", ".."]) == "abc/def/../..";
    JoinSnoc(["abc", "def", "..", ".."], "..");
    assert ["abc", "def", "..", ".."] + [".."] == ["abc", "def", "..", "..", ".."];
  }

  /** The elements of "abc/def/../../.." with or without a root. */
  lemma ElementsUps(p: string)
    requires p == "abc/def/../../.." || p == "/abc/def/../../.."
    ensures Elements(p) == ["abc", "def", "..", "..", ".."]
  {
    JoinUps();
    ElementsJoin(["abc", "def", "..", "..", ".."]);
    if p[0] == '/' {
      assert p[1..] == "abc/def/../../..";
    }
  }

  /** "abc/def/../../.." cleans to "..": the third ".." has no name left
      to cancel and is kept. */
  lemma CleanRelativeUps()
    ensures Clean("abc/def/../../..") == ".."
  {
    var p := "abc/def/../../..";
    ElementsUps(p);
    var st := Reduce(false, Stack(0, []), ["abc", "def", "..", "..", ".."]);
    assert st == Stack(1, []);
    assert Repeat("..", 1) == [".."];
    assert Render(false, st) == "..";
  }

  /** "/abc/def/../../.." cleans to "/": at the root ".." is dropped. */
  lemma CleanRootedUps()
    ensures Clean("/abc/def/../../..") == "/"
  {
    ElementsUps("/abc/def/../../..");
    ReduceRootedUps();
    assert Repeat("..", 0) + [] == [];
  }

  /** At the root the three ".." cancel the two names and then vanish. */
  lemma ReduceRootedUps()
    ensures Reduce(true, Stack(0, []), ["abc", "def", "..", "..", ".."]) == Stack(0, [])
  {
    var xs := ["abc", "def", "..", "..", ".."];
    assert xs[1..] == ["def", "..", "..", ".."];
    assert xs[1..][1..] == ["..", "..", ".."];
  }

  /** The text of ["abc", ".", "..", "def"]. */
  lemma JoinDot()
    ensures Join(["abc", ".", "..", "def"]) == "abc/./../def"
  {
    assert Join(["abc"]) == "abc";
    JoinSnoc(["abc"], ".");
    assert ["abc"] + ["."] == ["abc", "."];
    assert Join(["abc", "."]) == "abc/.";
    JoinSnoc(["abc", "."], "..");
    assert ["abc", "."] + [".."] == ["abc", ".", ".."];
    assert Join(["abc", ".", ".."]) == "abc/./..";
    JoinSnoc(["abc", ".", ".."], "def");
    assert ["abc", ".", ".."] + ["def"] == ["abc", ".", "..", "def"];
  }

  /** "abc/./../def" cleans to "def": "." is skipped and ".." cancels the
      name before it. */
  lemma CleanDotAndUp()
    ensures Clean("abc/./../def") == "def"
  {
    JoinDot();
    ElementsJoin(["abc", ".", "..", "def"]);
    ReduceDotUp();
    assert Repeat("..", 0) + ["def"] == ["def"];
  }

  /** "." leaves the stack alone and ".." pops "abc". */
  lemma ReduceDotUp()
    ensures Reduce(false, Stack(0, []), ["abc", ".", "..", "def"]) == Stack(0, ["def"])
  {
    var xs := ["abc", ".", "..", "def"];
    assert xs[1..] == [".", "..", "def"];
    assert xs[1..][1..] == ["..", "def"];
    assert Stack(0, ["abc"]).names[..0] == [];
  }
}
