# moonshine_object: object hierarchy and object paths

This project models the read-only core of `moonshine_object`, the typed object
layer over a Bevy ECS world: the hierarchy queries of `ObjectHierarchy` (root,
parent and child tests, ancestors, descendants, and the kind-filtered
searches) and the object-path resolver `find_by_path`, which walks a
slash-separated path of child names and the special segments `.`, `..` and
`*`.

The host world is a value, `Hierarchy.World`: a parent map, a map from each
entity to its children in host order, and a partial name map. A kind is a
predicate `Entity -> bool`; it stands for "the host's `Objects<U>` query
accepts this entity". Everything the source asks the host for becomes a
lookup in this value.

- `wrappers.dfy`: `Option`.
- `seqs.dfy`: the iterator adaptors the queries are built from, `Filter`
  (`filter_map`) and `First` (`find`, `find_map`), and `IsSubsequence`, which
  states that a filter keeps its input's order.
- `hierarchy.dfy`: module `Hierarchy`, the `ObjectHierarchy` default methods
  of `src/hierarchy.rs` and their `Object` counterparts in `src/lib.rs`.
  `ancestors` is the parent chain, nearest first. It is defined for worlds
  without a cycle (`Acyclic`: every parent chain reaches a root within as many
  steps as there are children). On a cycle the host's ancestor iterator never ends.
  Descendants are the set of entities that have the given entity among their
  ancestors. In a consistent world (the parent map and the children lists
  agree) that set is proved to be exactly what a walk down the children lists
  from the entity reaches, which is the set the host's breadth-first and
  depth-first iterators list; their order is not modelled.
- `object_path.dfy`: module `ObjectPath`. `Split` is `str::split('/')`,
  `Resolve` with `FirstResolving` is the free function `find_by_path`, and
  `FindByPath` is `Object::find_by_path`. The resolver exists twice in the
  source, at `src/hierarchy.rs:303-337` and `src/lib.rs:341-379`, with
  equivalent bodies: the first asks the `ObjectHierarchy` methods for the
  parent and the children, which for `Object` wrap the same host calls the
  second makes directly (`src/hierarchy.rs:235-245`). One definition models
  both. Its reference semantics is
  `Endpoints`, the set of every node that some choice of steps along the
  path reaches: `.` and an empty segment stay, `..` goes to the parent, `*`
  goes to any child, and a literal goes to the first child of that name. The
  resolver is proved sound and complete against it, and proved to take the
  earliest child for `*`.
- `object_path_tests.dfy`: module `ObjectPathTests`, the test cases of
  `src/lib.rs` on the hierarchy A → B → {C, D}.

The source's behaviour for `*` is followed: each child is tried in host order
and the first full resolution wins (backtracking). Both revisions of the
resolver in the source do this; a variant that tries only the first child is
not modelled. A literal segment does not backtrack: it commits to the first
child whose name is equal, byte for byte.

## Model

| member | source | states |
|---|---|---|
| `Hierarchy.IsRoot` | src/hierarchy.rs:16-18 | `is_root` holds exactly when the entity has no parent |
| `Hierarchy.IsChild` | src/hierarchy.rs:20-22 | `is_child` holds exactly when the entity has a parent |
| `Hierarchy.IsChildOf` | src/hierarchy.rs:24-27 | `is_child_of(p)` holds exactly when the entity has a parent and that parent is `p` |
| `Hierarchy.HasChildren` | src/hierarchy.rs:31-33 | `has_children` holds exactly when the host lists a non-empty children list for the entity |
| `Hierarchy.RootChildDuality` | src/hierarchy.rs:16-27 | `is_root` holds exactly when the entity has no parent, `is_child` exactly when it has one, the two are complementary, and `is_child_of(p)` holds exactly when the parent is `p` |
| `Hierarchy.ChildOfMatchesChildren` | src/hierarchy.rs:24-29 | in a consistent world, `c.is_child_of(p)` holds exactly when `c` is among the children of `p` |
| `Hierarchy.HasChildrenIffSomeChild` | src/hierarchy.rs:31-33 | in a consistent world, `has_children` holds exactly when some entity is a child of it |
| `Hierarchy.AncestorsWithin` | src/hierarchy.rs:247-251 | a bounded parent walk is a chain: its first element is the parent, each element's parent is the next, and if a root is reached in time it is empty exactly for a root and ends at a root |
| `Hierarchy.Ancestors` | src/hierarchy.rs:58 | in a world without cycles, `ancestors` is the parent chain nearest first: empty exactly for a root, starting at the parent, each element the parent of the one before, ending at a root |
| `Hierarchy.AncestorsUnfold` | src/hierarchy.rs:247-251 | the ancestors of a child are its parent followed by the parent's ancestors; a root has none |
| `Hierarchy.AncestorsSuffix` | src/hierarchy.rs:58 | the ancestors of the i-th ancestor are exactly the chain after position i |
| `Hierarchy.SelfAndAncestors` | src/hierarchy.rs:60-62 | `self_and_ancestors` starts with the entity, continues with its ancestors, is a parent chain and ends at a root |
| `Hierarchy.Root` | src/hierarchy.rs:10-14 | `root` has no parent, is the entity itself or one of its ancestors, and is the last element of `self_and_ancestors` |
| `Hierarchy.RootIsUnique` | src/hierarchy.rs:10-14 | any parentless entity among the entity and its ancestors is its root |
| `Hierarchy.RootOfChild` | src/lib.rs:156-159 | a child and its parent have the same root |
| `Hierarchy.AncestorIrreflexive` | src/hierarchy.rs:58 | in a world without cycles no entity occurs among its own ancestors |
| `Hierarchy.IsAncestorOf` | src/hierarchy.rs:64-71 | `a.is_ancestor_of(d)` (`a` occurs among the ancestors of `d`) implies that `d` has a parent and differs from `a`, and a parent is always an ancestor of its child |
| `Hierarchy.IsDescendantOf` | src/hierarchy.rs:128-133 | `d.is_descendant_of(a)` holds exactly when `a.is_ancestor_of(d)`; both test whether `a` occurs among the ancestors of `d`, so the duality holds by definition |
| `Hierarchy.AncestorTransitive` | src/hierarchy.rs:128-133 | an ancestor of an ancestor is an ancestor |
| `Hierarchy.AncestorAntisymmetric` | src/hierarchy.rs:128-133 | two entities are never each other's ancestor |
| `Hierarchy.ReachedIsDescendant` | src/lib.rs:203-208 | in a consistent world, every entity reached by walking down the children lists from `e` has `e` among its ancestors |
| `Hierarchy.DescendantIsReached` | src/lib.rs:203-208 | in a consistent world, every entity with `e` among its ancestors is reached by walking down the children lists from `e` |
| `Hierarchy.DescendantIffReached` | src/hierarchy.rs:116-118 | in a consistent world, an entity has `e` among its ancestors exactly when the walk down the children lists from `e` reaches it |
| `Hierarchy.Descendants` | src/lib.rs:203-208 | `descendants` never holds the entity itself, and in a consistent world holds exactly the entities the walk down the children lists reaches |
| `Hierarchy.SelfAndDescendants` | src/lib.rs:198-201 | `self_and_descendants` holds the entity and exactly the entities it is an ancestor of, which in a consistent world are exactly those the walk down the children lists reaches; the entity is not among its own descendants |
| `Hierarchy.DescendantsClosedUnderChildren` | src/hierarchy.rs:120-126 | in a consistent world every child of the entity or of one of its descendants is a descendant |
| `Hierarchy.ChildrenOfKind` | src/hierarchy.rs:43-50 | `children_of_kind` holds exactly the children the kind accepts, each as many times as the host lists it, in host order |
| `Hierarchy.FindChildOfKind` | src/hierarchy.rs:52-56 | `find_child_of_kind` is nothing exactly when no child is of the kind, and otherwise the earliest child of the kind, which is the head of `children_of_kind` |
| `Hierarchy.AncestorsOfKind` | src/hierarchy.rs:93-100 | `ancestors_of_kind` holds exactly the ancestors the kind accepts, each as many times as it occurs in the chain, nearest first |
| `Hierarchy.FindAncestorOfKind` | src/hierarchy.rs:102-109 | `find_ancestor_of_kind` is nothing exactly when no ancestor is of the kind, and otherwise the nearest ancestor of the kind, which is the head of `ancestors_of_kind` |
| `Seqs.Filter` | src/hierarchy.rs:43-50 | `filter_map` over a predicate is no longer than its input, keeps exactly the items the predicate accepts, each as many times as it occurs, and keeps them in their original order |
| `Seqs.First` | src/hierarchy.rs:52-56 | `find_map` over a predicate is nothing exactly when no item matches, and otherwise the earliest matching item |
| `Seqs.FirstIsHeadOfFilter` | src/hierarchy.rs:52-56 | `find_map` over a predicate gives the first element that `filter_map` keeps, or nothing when it keeps none |
| `Seqs.FilterAppend` | src/hierarchy.rs:93-100 | filtering keeps the original order: it distributes over concatenation |
| `ObjectPath.Split` | src/hierarchy.rs:266 | splitting on `/` gives at least one segment, and no segment contains `/` |
| `ObjectPath.JoinSplit` | src/lib.rs:152 | joining the segments with `/` gives the path back, so splitting loses nothing |
| `ObjectPath.SplitJoin` | src/hierarchy.rs:265-268 | splitting the join of slash-free segments gives those segments back |
| `ObjectPath.NamedChild` | src/hierarchy.rs:329-332 | the named lookup is nothing exactly when no child has that exact name (unnamed children never match), and otherwise the earliest child with that name |
| `ObjectPath.Resolve` | src/hierarchy.rs:303-337 | the resolver (also src/lib.rs:341-379) fails exactly when no choice of steps along the segments reaches a node, and what it returns is a node some choice of steps reaches |
| `ObjectPath.FirstResolving` | src/hierarchy.rs:322-328 | the `*` loop fails exactly when no child leads to a node, and what it returns is reached through one of the children |
| `ObjectPath.FirstResolvingIsEarliest` | src/hierarchy.rs:322-328 | the `*` loop gives nothing exactly when the rest resolves from no child, and otherwise the result for the earliest child from which it resolves |
| `ObjectPath.FindByPath` | src/hierarchy.rs:265-268 | `find_by_path` gives nothing exactly when the path denotes no node, and otherwise one of the nodes the path denotes |
| `ObjectPath.ResolveEmpty` | src/hierarchy.rs:307-309 | with no segments left the current node is the result |
| `ObjectPath.ResolveDot` | src/hierarchy.rs:314-315 | a `.` or empty segment leaves the current node unchanged |
| `ObjectPath.ResolveOnlyDots` | src/lib.rs:349-350 | a path made only of `.` and empty segments resolves to the starting node |
| `ObjectPath.ResolveUp` | src/hierarchy.rs:316-321 | `..` fails at a root and otherwise continues from the parent |
| `ObjectPath.ResolveStar` | src/hierarchy.rs:322-328 | `*` fails when there is no child or none succeeds, and otherwise gives the result for the earliest child from which the rest resolves |
| `ObjectPath.ResolveLiteral` | src/hierarchy.rs:329-336 | a literal segment continues from the first child with that name only; later children of the same name are never tried |
| `ObjectPath.ResolveLiteralMissing` | src/lib.rs:369-378 | a literal segment that names no child fails, with no partial match |
| `ObjectPath.ResolveAppend` | src/lib.rs:341-379 | for a prefix without `*`, resolving the prefix followed by a suffix is resolving the prefix and then the suffix from where it ended |
| `ObjectPath.DownThenUp` | src/hierarchy.rs:316-336 | in a consistent world, a named child followed by `..` leads back to the same place |
| `ObjectPath.FindByPathSelf` | src/lib.rs:409-417 | the paths `""` and `"."` both give the object itself |
| `ObjectPath.FindByPathSegments` | src/lib.rs:151-154 | the path entry point resolves exactly the `/`-separated pieces of the path |
| `ObjectPathTests.TestWorldIsConsistent` | src/lib.rs:391-407 | in the test hierarchy A → B → {C, D} the parent map and the children lists agree |
| `ObjectPathTests.TestWorldIsAcyclic` | src/lib.rs:391-407 | the test hierarchy has no cycle |
| `ObjectPathTests.TestAncestorsOfC` | src/lib.rs:391-407 | in the test hierarchy the ancestors of C are B then A, and its root is A |
| `ObjectPathTests.TestNamedChildren` | src/lib.rs:398-404 | in the test hierarchy the names pick out B under A and C, D under B |
| `ObjectPathTests.FindByPathEmpty` | src/lib.rs:409-412 | from A, the path `""` gives A |
| `ObjectPathTests.FindByPathDot` | src/lib.rs:414-417 | from A, the path `"."` gives A |
| `ObjectPathTests.FindByPathChild` | src/lib.rs:419-422 | from A, `"B"` gives B |
| `ObjectPathTests.FindByPathGrandchildC` | src/lib.rs:424-432 | from A, `"B/C"` gives C |
| `ObjectPathTests.FindByPathGrandchildD` | src/lib.rs:434-442 | from A, `"B/D"` gives D |
| `ObjectPathTests.FindByPathNameThenWildcard` | src/lib.rs:444-452 | from A, `"B/*"` gives C, the first child of B |
| `ObjectPathTests.FindByPathWildcardThenName` | src/lib.rs:454-462 | from A, `"*/D"` gives D: `*` tries B and `D` resolves under it |
| `ObjectPathTests.FindByPathWildcardTwice` | src/lib.rs:464-472 | from A, `"*/*"` gives C |
| `ObjectPathTests.FindByPathParentOfB` | src/lib.rs:474-477 | from B, `".."` gives A |
| `ObjectPathTests.FindByPathParentOfC` | src/lib.rs:479-482 | from C, `".."` gives B |
| `ObjectPathTests.FindByPathSibling` | src/lib.rs:484-492 | from C, `"../D"` gives D |
| `ObjectPathTests.FindByPathBackToSelf` | src/lib.rs:494-502 | from C, `"../C"` gives C |

## Left out

- ECS plumbing: the `Objects` system parameter, `Query` and `World` access, and `Objects::get`, `iter` and `instance` (src/lib.rs:20-62) are host queries. The `World` value and the `kind` predicate stand in for them.
- `descendants_wide` and `descendants_deep` (and `descendants`, `descendants_of_kind_*`, `find_descendant_of_kind_*`): their traversal is implemented by `HierarchyQuery` in moonshine_util, which is not part of this model. Descendants are modelled as a set, so their breadth-first and depth-first order is not captured.
- `query_children`, `query_ancestors` and the other `query_*` helpers: they filter over arbitrary host `Query` results.
- Typed handles: `rebind`, `rebind_any`, `rebind_as`, `cast_into`, `cast_into_any`, `cast_into_unchecked` and `from_base_unchecked`, and src/rebind.rs, src/cast.rs and src/instance.rs. Their guarantees are compile-time kind tags and `unsafe` caller contracts, with no runtime behaviour; here every handle is its entity.
- `from_base` (src/lib.rs:294-299): it checks at run time that the entity has component `T` and returns nothing otherwise, and the entity lookup panics when the entity does not exist. Both are host lookups into the ECS world, so neither is modelled.
- Name and tag lookup (src/name.rs, src/tags.rs): names are the `name` map of the world.
- The `Debug` formatting and the `Clone`, `Copy`, `From`, `PartialEq` and `Eq` impls (src/lib.rs:302-339).
- Hierarchies with a cycle: `Ancestors` and everything built on it require `Acyclic`. On a cycle the host's ancestor iterator does not end, so `root` and a failing `is_ancestor_of` do not return.
- `Hierarchy.DescendantsClosedUnderChildren`, `Hierarchy.ReachedIsDescendant`, `Hierarchy.DescendantIsReached`, `Hierarchy.DescendantIffReached`, `Hierarchy.ChildOfMatchesChildren`, `Hierarchy.HasChildrenIffSomeChild` and `ObjectPath.DownThenUp` assume the host keeps the parent and children relations in step (`Consistent`), as Bevy does; the source does not check it.
