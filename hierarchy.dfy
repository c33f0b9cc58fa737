/**
 * The object hierarchy as the `ObjectHierarchy` default methods see it
 * (src/hierarchy.rs): a read-only view of the host's parent/child relation
 * and names. Every query is a function of that view.
 */
module Hierarchy {
  import opened Wrappers
  import opened Seqs

  /** An opaque entity identifier owned by the host world. */
  type Entity = nat

  /**
   * What the host exposes about its entities: the parent of each child, the
   * children of each parent in host order, and the optional `Name` component.
   * An entity absent from `parent` is a root; absent from `children` it has none.
   */
  datatype World = World(
    parent: map<Entity, Entity>,
    children: map<Entity, seq<Entity>>,
    name: map<Entity, string>)

  function Parent(w: World, e: Entity): Option<Entity> {
    if e in w.parent then Some(w.parent[e]) else None
  }

  function Children(w: World, e: Entity): seq<Entity> {
    if e in w.children then w.children[e] else []
  }

  function Name(w: World, e: Entity): Option<string> {
    if e in w.name then Some(w.name[e]) else None
  }

  /**
   * The host keeps both directions of the relation in step: a child's parent
   * lists it among its children, and every listed child names that parent.
   */
  ghost predicate Consistent(w: World) {
    && (forall c | c in w.parent :: w.parent[c] in w.children && c in w.children[w.parent[c]])
    && (forall p, i | p in w.children && 0 <= i < |w.children[p]| ::
          w.children[p][i] in w.parent && w.parent[w.children[p][i]] == p)
  }

  // ---------------------------------------------------------------------------
  // Parent and children tests

  /** `is_root`: the entity has no parent. */
  predicate IsRoot(w: World, e: Entity)
    ensures IsRoot(w, e) <==> e !in w.parent
  {
    Parent(w, e).None?
  }

  /** `is_child`: the entity has a parent. */
  predicate IsChild(w: World, e: Entity)
    ensures IsChild(w, e) <==> e in w.parent
  {
    Parent(w, e).Some?
  }

  /** `is_child_of`: the entity's parent is `p`. */
  predicate IsChildOf(w: World, e: Entity, p: Entity)
    ensures IsChildOf(w, e, p) <==> e in w.parent && w.parent[e] == p
  {
    Parent(w, e) == Some(p)
  }

  /** `has_children`: the host lists at least one child for the entity. */
  predicate HasChildren(w: World, e: Entity)
    ensures HasChildren(w, e) <==> e in w.children && w.children[e] != []
  {
    |Children(w, e)| > 0
  }

  /** Root and child are complementary, and a child of some `p` is a child. */
  lemma RootChildDuality(w: World, e: Entity)
    ensures IsRoot(w, e) <==> e !in w.parent
    ensures IsChild(w, e) <==> e in w.parent
    ensures IsRoot(w, e) <==> !IsChild(w, e)
    ensures IsChild(w, e) <==> exists p :: IsChildOf(w, e, p)
    ensures forall p :: IsChildOf(w, e, p) <==> e in w.parent && w.parent[e] == p
  {
    if e in w.parent {
      assert IsChildOf(w, e, w.parent[e]);
    }
  }

  /** In a consistent world, "c is a child of p" reads the same from either side. */
  lemma ChildOfMatchesChildren(w: World, c: Entity, p: Entity)
    requires Consistent(w)
    ensures IsChildOf(w, c, p) <==> c in Children(w, p)
  {
    if c in Children(w, p) {
      var i :| 0 <= i < |w.children[p]| && w.children[p][i] == c;
    }
  }

  /** In a consistent world, `has_children` holds exactly when some entity names `p` as parent. */
  lemma HasChildrenIffSomeChild(w: World, p: Entity)
    requires Consistent(w)
    ensures HasChildren(w, p) <==> exists c :: IsChildOf(w, c, p)
  {
    if HasChildren(w, p) {
      assert IsChildOf(w, Children(w, p)[0], p);
    } else {
      forall c ensures !IsChildOf(w, c, p) {
        ChildOfMatchesChildren(w, c, p);
      }
    }
  }

  // ---------------------------------------------------------------------------
  // Ancestors

  /** `e` reaches an entity without a parent within `fuel` parent steps. */
  predicate ReachesRootWithin(w: World, e: Entity, fuel: nat)
    decreases fuel
  {
    match Parent(w, e)
    case None => true
    case Some(p) => fuel > 0 && ReachesRootWithin(w, p, fuel - 1)
  }

  /**
   * The host assumes the hierarchy has no cycle. With finitely many children,
   * a parent chain without a cycle visits each of them at most once, so it
   * reaches a root within |w.parent| steps.
   */
  ghost predicate Acyclic(w: World) {
    forall e :: ReachesRootWithin(w, e, |w.parent|)
  }

  /** The parent chain of `e`, nearest first, cut off after `fuel` steps. */
  function AncestorsWithin(w: World, e: Entity, fuel: nat): (r: seq<Entity>)
    ensures |r| <= fuel
    ensures r == [] ==> fuel == 0 || IsRoot(w, e)
    ensures r != [] ==> Parent(w, e) == Some(r[0])
    ensures forall i | 0 <= i < |r| - 1 :: Parent(w, r[i]) == Some(r[i + 1])
    ensures ReachesRootWithin(w, e, fuel) ==> (r == [] <==> IsRoot(w, e))
    ensures ReachesRootWithin(w, e, fuel) && r != [] ==> IsRoot(w, r[|r| - 1])
    decreases fuel
  {
    if fuel == 0 then []
    else
      match Parent(w, e)
      case None => []
      case Some(p) => [p] + AncestorsWithin(w, p, fuel - 1)
  }

  /** More fuel changes nothing once the chain has reached a root. */
  lemma {:induction false} AncestorsWithinStable(w: World, e: Entity, fuel: nat, more: nat)
    requires ReachesRootWithin(w, e, fuel) && fuel <= more
    ensures AncestorsWithin(w, e, fuel) == AncestorsWithin(w, e, more)
    decreases fuel
  {
    match Parent(w, e)
    case None =>
    case Some(p) =>
      AncestorsWithinStable(w, p, fuel - 1, more - 1);
  }

  /**
   * `ancestors`: the parent chain of `e`, nearest first, ending at a root.
   * The chain is empty exactly when `e` is itself a root.
   */
  function Ancestors(w: World, e: Entity): (r: seq<Entity>)
    requires Acyclic(w)
    ensures r == [] <==> IsRoot(w, e)
    ensures r != [] ==> Parent(w, e) == Some(r[0]) && IsRoot(w, r[|r| - 1])
    ensures forall i | 0 <= i < |r| - 1 :: Parent(w, r[i]) == Some(r[i + 1])
  {
    assert ReachesRootWithin(w, e, |w.parent|);
    AncestorsWithin(w, e, |w.parent|)
  }

  /** The ancestors of a child are its parent followed by the parent's ancestors. */
  lemma AncestorsUnfold(w: World, e: Entity)
    requires Acyclic(w)
    ensures Ancestors(w, e) ==
      match Parent(w, e)
      case None => []
      case Some(p) => [p] + Ancestors(w, p)
  {
    match Parent(w, e)
    case None =>
    case Some(p) =>
      var n := |w.parent|;
      assert ReachesRootWithin(w, e, n);
      assert ReachesRootWithin(w, p, n);
      assert n > 0;
      AncestorsWithinStable(w, p, n - 1, n);
  }

  /** Every ancestor's own ancestors are the rest of the chain after it. */
  lemma {:induction false} AncestorsSuffix(w: World, e: Entity, i: nat)
    requires Acyclic(w) && i < |Ancestors(w, e)|
    ensures Ancestors(w, e)[i + 1..] == Ancestors(w, Ancestors(w, e)[i])
    decreases i
  {
    AncestorsUnfold(w, e);
    var p := Parent(w, e).value;
    if i > 0 {
      AncestorsSuffix(w, p, i - 1);
    }
  }

  /** `self_and_ancestors`: the entity itself, then its ancestors. */
  function SelfAndAncestors(w: World, e: Entity): (r: seq<Entity>)
    requires Acyclic(w)
    ensures |r| >= 1 && r[0] == e && r[1..] == Ancestors(w, e)
    ensures IsRoot(w, r[|r| - 1])
    ensures forall i | 0 <= i < |r| - 1 :: Parent(w, r[i]) == Some(r[i + 1])
  {
    [e] + Ancestors(w, e)
  }

  /** `root`: the last ancestor, or the entity itself when it has none. */
  function Root(w: World, e: Entity): (r: Entity)
    requires Acyclic(w)
    ensures IsRoot(w, r)
    ensures r == e || r in Ancestors(w, e)
    ensures r == SelfAndAncestors(w, e)[|SelfAndAncestors(w, e)| - 1]
  {
    var a := Ancestors(w, e);
    if a == [] then e else a[|a| - 1]
  }

  /** The root is the only entity without a parent among `e` and its ancestors. */
  lemma RootIsUnique(w: World, e: Entity, x: Entity)
    requires Acyclic(w)
    requires x in SelfAndAncestors(w, e) && IsRoot(w, x)
    ensures Root(w, e) == x
  {
    var s := SelfAndAncestors(w, e);
    forall j | 0 <= j < |s| - 1 ensures !IsRoot(w, s[j]) {
      assert Parent(w, s[j]) == Some(s[j + 1]);
    }
  }

  /** A child shares its root with its parent. */
  lemma RootOfChild(w: World, c: Entity, p: Entity)
    requires Acyclic(w) && IsChildOf(w, c, p)
    ensures Root(w, c) == Root(w, p)
  {
    AncestorsUnfold(w, c);
  }

  /** No entity occurs in its own parent chain. */
  lemma AncestorIrreflexive(w: World, e: Entity)
    requires Acyclic(w)
    ensures e !in Ancestors(w, e)
  {
    var s := Ancestors(w, e);
    if e in s {
      var i :| 0 <= i < |s| && s[i] == e;
      AncestorsSuffix(w, e, i);
      assert false;
    }
  }

  /**
   * `is_ancestor_of`: `a` occurs in the ancestors of `d`. Only a child has
   * ancestors, no entity is its own ancestor, and a parent is an ancestor.
   */
  predicate IsAncestorOf(w: World, a: Entity, d: Entity)
    requires Acyclic(w)
    ensures IsAncestorOf(w, a, d) ==> IsChild(w, d) && a != d
    ensures IsChildOf(w, d, a) ==> IsAncestorOf(w, a, d)
  {
    AncestorIrreflexive(w, d);
    AncestorsUnfold(w, d);
    a in Ancestors(w, d)
  }

  /**
   * `is_descendant_of`: `a` occurs in the ancestors of `d`. It is the same
   * membership test as `is_ancestor_of`, asked from `d`'s side.
   */
  predicate IsDescendantOf(w: World, d: Entity, a: Entity)
    requires Acyclic(w)
    ensures IsDescendantOf(w, d, a) <==> IsAncestorOf(w, a, d)
  {
    a in Ancestors(w, d)
  }

  /** An ancestor of an ancestor is an ancestor. */
  lemma AncestorTransitive(w: World, a: Entity, b: Entity, c: Entity)
    requires Acyclic(w)
    requires IsAncestorOf(w, a, b) && IsAncestorOf(w, b, c)
    ensures IsAncestorOf(w, a, c)
  {
    var s := Ancestors(w, c);
    var i :| 0 <= i < |s| && s[i] == b;
    AncestorsSuffix(w, c, i);
    assert a in s[i + 1..];
  }

  /** Two entities are never each other's ancestor. */
  lemma AncestorAntisymmetric(w: World, a: Entity, b: Entity)
    requires Acyclic(w)
    requires IsAncestorOf(w, a, b)
    ensures !IsAncestorOf(w, b, a)
  {
    if IsAncestorOf(w, b, a) {
      AncestorTransitive(w, a, b, a);
    }
  }

  // ---------------------------------------------------------------------------
  // Descendants

  /**
   * `d` is reached from `e` by walking down the children lists at most `k`
   * levels: it is a child of `e`, or it is reached from one of those children.
   */
  ghost predicate ReachedWithin(w: World, e: Entity, d: Entity, k: nat)
    decreases k
  {
    k > 0 && exists c | c in Children(w, e) :: c == d || ReachedWithin(w, c, d, k - 1)
  }

  /** `d` is reached from `e` by walking down the children lists. */
  ghost predicate Reached(w: World, e: Entity, d: Entity) {
    exists k :: ReachedWithin(w, e, d, k)
  }

  /** One more level down from a reached entity is reached. */
  lemma {:induction false} ReachedExtend(w: World, e: Entity, p: Entity, d: Entity, k: nat)
    requires ReachedWithin(w, e, p, k) && d in Children(w, p)
    ensures ReachedWithin(w, e, d, k + 1)
    decreases k
  {
    var c :| c in Children(w, e) && (c == p || ReachedWithin(w, c, p, k - 1));
    if c == p {
      assert ReachedWithin(w, c, d, k);
    } else {
      ReachedExtend(w, c, p, d, k - 1);
    }
  }

  /** In a consistent world, whatever the walk down the children reaches has `e` among its ancestors. */
  lemma {:induction false} ReachedIsDescendant(w: World, e: Entity, d: Entity, k: nat)
    requires Acyclic(w) && Consistent(w)
    requires ReachedWithin(w, e, d, k)
    ensures IsAncestorOf(w, e, d)
    decreases k
  {
    var c :| c in Children(w, e) && (c == d || ReachedWithin(w, c, d, k - 1));
    ChildOfMatchesChildren(w, c, e);
    if c != d {
      ReachedIsDescendant(w, c, d, k - 1);
      AncestorTransitive(w, e, c, d);
    }
  }

  /** In a consistent world, every entity with `e` among its ancestors is reached by walking down from `e`. */
  lemma {:induction false} DescendantIsReached(w: World, e: Entity, d: Entity)
    requires Acyclic(w) && Consistent(w)
    requires IsAncestorOf(w, e, d)
    ensures Reached(w, e, d)
    decreases |Ancestors(w, d)|
  {
    AncestorsUnfold(w, d);
    var p := w.parent[d];
    ChildOfMatchesChildren(w, d, p);
    if p == e {
      assert ReachedWithin(w, e, d, 1);
    } else {
      assert IsAncestorOf(w, e, p);
      DescendantIsReached(w, e, p);
      var k :| ReachedWithin(w, e, p, k);
      ReachedExtend(w, e, p, d, k);
    }
  }

  /** In a consistent world, `e` is an ancestor of exactly the entities the walk down from `e` reaches. */
  lemma DescendantIffReached(w: World, e: Entity, d: Entity)
    requires Acyclic(w) && Consistent(w)
    ensures (d in w.parent && IsAncestorOf(w, e, d)) <==> Reached(w, e, d)
  {
    if IsAncestorOf(w, e, d) {
      DescendantIsReached(w, e, d);
    }
    if Reached(w, e, d) {
      var k :| ReachedWithin(w, e, d, k);
      ReachedIsDescendant(w, e, d, k);
    }
  }

  /** In a consistent world, the entities below `e` on the parent side are exactly those the walk down reaches. */
  lemma DescendantsReached(w: World, e: Entity)
    requires Acyclic(w)
    ensures Consistent(w) ==>
      forall d :: (d in w.parent && IsAncestorOf(w, e, d)) <==> Reached(w, e, d)
  {
    if Consistent(w) {
      forall d {
        DescendantIffReached(w, e, d);
      }
    }
  }

  /**
   * The entities below `e`: those with `e` among their ancestors. In a
   * consistent world they are exactly the entities reached by walking down
   * the children lists from `e`, as the host's traversals do.
   */
  ghost function Descendants(w: World, e: Entity): (r: set<Entity>)
    requires Acyclic(w)
    ensures e !in r
    ensures Consistent(w) ==> forall d :: d in r <==> Reached(w, e, d)
  {
    AncestorIrreflexive(w, e);
    DescendantsReached(w, e);
    set d | d in w.parent.Keys && IsAncestorOf(w, e, d)
  }

  /** `self_and_descendants`: the entity together with everything below it. */
  ghost function SelfAndDescendants(w: World, e: Entity): (r: set<Entity>)
    requires Acyclic(w)
    ensures e in r && e !in Descendants(w, e)
    ensures forall d :: d in r <==> d == e || IsAncestorOf(w, e, d)
    ensures Consistent(w) ==> forall d :: d in r <==> d == e || Reached(w, e, d)
  {
    {e} + Descendants(w, e)
  }

  /** In a consistent world the children of a descendant are descendants too. */
  lemma DescendantsClosedUnderChildren(w: World, e: Entity, d: Entity, c: Entity)
    requires Acyclic(w) && Consistent(w)
    requires d in SelfAndDescendants(w, e) && c in Children(w, d)
    ensures c in Descendants(w, e)
  {
    ChildOfMatchesChildren(w, c, d);
    AncestorsUnfold(w, c);
  }

  // ---------------------------------------------------------------------------
  // Kind filters; `kind` tells whether the host's `Objects<U>` query accepts an entity.

  /** `children_of_kind`: the children the kind accepts, in host order. */
  function ChildrenOfKind(w: World, e: Entity, kind: Entity -> bool): (r: seq<Entity>)
    ensures forall c :: c in r <==> c in Children(w, e) && kind(c)
    ensures IsSubsequence(r, Children(w, e))
    ensures forall c :: multiset(r)[c] == if kind(c) then multiset(Children(w, e))[c] else 0
  {
    Filter(Children(w, e), kind)
  }

  /** `find_child_of_kind`: the first child, in host order, that the kind accepts. */
  function FindChildOfKind(w: World, e: Entity, kind: Entity -> bool): (r: Option<Entity>)
    ensures r.None? <==> forall c | c in Children(w, e) :: !kind(c)
    ensures r.Some? ==>
      var cs := Children(w, e);
      exists i | 0 <= i < |cs| :: cs[i] == r.value && kind(cs[i]) && forall j | 0 <= j < i :: !kind(cs[j])
    ensures r == if ChildrenOfKind(w, e, kind) == [] then None else Some(ChildrenOfKind(w, e, kind)[0])
  {
    FirstIsHeadOfFilter(Children(w, e), kind);
    First(Children(w, e), kind)
  }

  /** `ancestors_of_kind`: the ancestors the kind accepts, nearest first. */
  function AncestorsOfKind(w: World, e: Entity, kind: Entity -> bool): (r: seq<Entity>)
    requires Acyclic(w)
    ensures forall a :: a in r <==> IsAncestorOf(w, a, e) && kind(a)
    ensures IsSubsequence(r, Ancestors(w, e))
    ensures forall a :: multiset(r)[a] == if kind(a) then multiset(Ancestors(w, e))[a] else 0
  {
    Filter(Ancestors(w, e), kind)
  }

  /** `find_ancestor_of_kind`: the nearest ancestor that the kind accepts. */
  function FindAncestorOfKind(w: World, e: Entity, kind: Entity -> bool): (r: Option<Entity>)
    requires Acyclic(w)
    ensures r.None? <==> forall a | IsAncestorOf(w, a, e) :: !kind(a)
    ensures r.Some? ==>
      var s := Ancestors(w, e);
      exists i | 0 <= i < |s| :: s[i] == r.value && kind(s[i]) && forall j | 0 <= j < i :: !kind(s[j])
    ensures r == if AncestorsOfKind(w, e, kind) == [] then None else Some(AncestorsOfKind(w, e, kind)[0])
  {
    FirstIsHeadOfFilter(Ancestors(w, e), kind);
    First(Ancestors(w, e), kind)
  }
}
