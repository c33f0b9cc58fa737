/**
 * The resolver's test cases (src/lib.rs), discharged on the model. The
 * hierarchy is
 *
 *       A
 *      /
 *     B
 *    / \
 *   C   D
 *
 * with every entity named after itself.
 */
module ObjectPathTests {
  import opened Wrappers
  import opened Hierarchy
  import opened ObjectPath

  const A: Entity := 1
  const B: Entity := 2
  const C: Entity := 3
  const D: Entity := 4

  function TestWorld(): World {
    World(
      map[B := A, C := B, D := B],
      map[A := [B], B := [C, D]],
      map[A := "A", B := "B", C := "C", D := "D"])
  }

  // The parent map and the children lists of the test hierarchy agree.
  lemma TestWorldIsConsistent()
    ensures Consistent(TestWorld())
  {
    var w := TestWorld();
    assert w.children[A] == [B] && w.children[B] == [C, D];
  }

  // Every parent chain of the test hierarchy reaches A.
  lemma TestWorldIsAcyclic()
    ensures Acyclic(TestWorld())
  {
    var w := TestWorld();
    assert |w.parent| == 3;
    forall e ensures ReachesRootWithin(w, e, |w.parent|) {
      assert ReachesRootWithin(w, A, 1);
      assert ReachesRootWithin(w, B, 2);
    }
  }

  // The ancestors of C are B then A, and its root is A.
  lemma TestAncestorsOfC()
    ensures Acyclic(TestWorld())
    ensures Ancestors(TestWorld(), C) == [B, A] && Root(TestWorld(), C) == A
  {
    var w := TestWorld();
    TestWorldIsAcyclic();
    AncestorsUnfold(w, C);
    AncestorsUnfold(w, B);
    AncestorsUnfold(w, A);
  }

  // The names in the test hierarchy pick out one child each.
  lemma TestNamedChildren()
    ensures NamedChild(TestWorld(), A, "B") == Some(B)
    ensures NamedChild(TestWorld(), B, "C") == Some(C)
    ensures NamedChild(TestWorld(), B, "D") == Some(D)
  {
    var w := TestWorld();
    assert Children(w, A) == [B] && Children(w, B) == [C, D];
    assert Name(w, C) == Some("C") && Name(w, D) == Some("D") && Name(w, B) == Some("B");
    assert "C" != "D";
  }

  // The path `""` from A gives A.
  lemma FindByPathEmpty()
    ensures FindByPath(TestWorld(), A, "") == Some(A)
  {
    FindByPathSelf(TestWorld(), A);
  }

  // The path `"."` from A gives A.
  lemma FindByPathDot()
    ensures FindByPath(TestWorld(), A, ".") == Some(A)
  {
    FindByPathSelf(TestWorld(), A);
  }

  // Below B, the names `C` and `D` resolve to C and D.
  lemma ResolveNamesUnderB()
    ensures Resolve(TestWorld(), B, ["C"]) == Some(C)
    ensures Resolve(TestWorld(), B, ["D"]) == Some(D)
  {
    var w := TestWorld();
    assert Children(w, B) == [C, D] && Name(w, C) == Some("C") && Name(w, D) == Some("D");
    ResolveLiteral(w, B, "C", [], 0);
    ResolveLiteral(w, B, "D", [], 1);
    assert ["C"] + [] == ["C"] && ["D"] + [] == ["D"];
    ResolveEmpty(w, C);
    ResolveEmpty(w, D);
  }

  // Below A, the name `B` leads to B.
  lemma ResolveNameUnderA(rest: seq<string>)
    ensures Resolve(TestWorld(), A, ["B"] + rest) == Resolve(TestWorld(), B, rest)
  {
    var w := TestWorld();
    assert Children(w, A) == [B] && Name(w, B) == Some("B");
    ResolveLiteral(w, A, "B", rest, 0);
  }

  // The path `"B"` from A gives B.
  lemma FindByPathChild()
    ensures FindByPath(TestWorld(), A, "B") == Some(B)
  {
    var w := TestWorld();
    FindByPathSegments(w, A, ["B"]);
    ResolveNameUnderA([]);
    assert ["B"] + [] == ["B"];
    ResolveEmpty(w, B);
  }

  // Below A, the paths `B/C` and `B/D` resolve to C and D.
  lemma ResolveGrandchildren()
    ensures Resolve(TestWorld(), A, ["B", "C"]) == Some(C)
    ensures Resolve(TestWorld(), A, ["B", "D"]) == Some(D)
  {
    ResolveNameUnderA(["C"]);
    ResolveNameUnderA(["D"]);
    assert ["B"] + ["C"] == ["B", "C"] && ["B"] + ["D"] == ["B", "D"];
    ResolveNamesUnderB();
  }

  // The path `"B/C"` from A gives C.
  lemma FindByPathGrandchildC()
    ensures FindByPath(TestWorld(), A, "B/C") == Some(C)
  {
    ResolveGrandchildren();
    FindByPathSegments(TestWorld(), A, ["B", "C"]);
    assert Join(["B", "C"]) == "B/C";
  }

  // The path `"B/D"` from A gives D.
  lemma FindByPathGrandchildD()
    ensures FindByPath(TestWorld(), A, "B/D") == Some(D)
  {
    ResolveGrandchildren();
    FindByPathSegments(TestWorld(), A, ["B", "D"]);
    assert Join(["B", "D"]) == "B/D";
  }

  // `*` under B gives C, the first child of B.
  lemma ResolveStarUnderB()
    ensures Resolve(TestWorld(), B, ["*"]) == Some(C)
  {
    var w := TestWorld();
    assert Children(w, B) == [C, D];
    ResolveStar(w, B, []);
    assert ["*"] + [] == ["*"];
    ResolveEmpty(w, C);
  }

  // The path `"B/*"` from A gives C, the first child of B.
  lemma FindByPathNameThenWildcard()
    ensures FindByPath(TestWorld(), A, "B/*") == Some(C)
  {
    var w := TestWorld();
    FindByPathSegments(w, A, ["B", "*"]);
    assert Join(["B", "*"]) == "B/*";
    ResolveNameUnderA(["*"]);
    assert ["B"] + ["*"] == ["B", "*"];
    ResolveStarUnderB();
  }

  // The path `"*/D"` from A gives D: `*` tries B, and `D` then resolves under B.
  lemma FindByPathWildcardThenName()
    ensures FindByPath(TestWorld(), A, "*/D") == Some(D)
  {
    var w := TestWorld();
    FindByPathSegments(w, A, ["*", "D"]);
    assert Join(["*", "D"]) == "*/D";
    assert Children(w, A) == [B];
    ResolveStar(w, A, ["D"]);
    assert ["*"] + ["D"] == ["*", "D"];
    ResolveNamesUnderB();
  }

  // The path `"*/*"` from A gives C, the first grandchild.
  lemma FindByPathWildcardTwice()
    ensures FindByPath(TestWorld(), A, "*/*") == Some(C)
  {
    var w := TestWorld();
    FindByPathSegments(w, A, ["*", "*"]);
    assert Join(["*", "*"]) == "*/*";
    assert Children(w, A) == [B];
    ResolveStar(w, A, ["*"]);
    assert ["*"] + ["*"] == ["*", "*"];
    ResolveStarUnderB();
  }

  // The path `".."` from B gives A.
  lemma FindByPathParentOfB()
    ensures FindByPath(TestWorld(), B, "..") == Some(A)
  {
    var w := TestWorld();
    FindByPathSegments(w, B, [".."]);
    ResolveUp(w, B, []);
    assert [".."] + [] == [".."];
    ResolveEmpty(w, A);
  }

  // The path `".."` from C gives B.
  lemma FindByPathParentOfC()
    ensures FindByPath(TestWorld(), C, "..") == Some(B)
  {
    var w := TestWorld();
    FindByPathSegments(w, C, [".."]);
    ResolveUp(w, C, []);
    assert [".."] + [] == [".."];
    ResolveEmpty(w, B);
  }

  // The path `"../D"` from C gives its sibling D.
  lemma FindByPathSibling()
    ensures FindByPath(TestWorld(), C, "../D") == Some(D)
  {
    var w := TestWorld();
    FindByPathSegments(w, C, ["..", "D"]);
    assert Join(["..", "D"]) == "../D";
    ResolveUp(w, C, ["D"]);
    assert [".."] + ["D"] == ["..", "D"];
    ResolveNamesUnderB();
  }

  // The path `"../C"` from C comes back to C.
  lemma FindByPathBackToSelf()
    ensures FindByPath(TestWorld(), C, "../C") == Some(C)
  {
    var w := TestWorld();
    FindByPathSegments(w, C, ["..", "C"]);
    assert Join(["..", "C"]) == "../C";
    ResolveUp(w, C, ["C"]);
    assert [".."] + ["C"] == ["..", "C"];
    ResolveNamesUnderB();
  }
}
