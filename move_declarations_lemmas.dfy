/**
 Properties of the move-declarations pass: how hoisted names are formed and
 when they clash, what rewriting does to an expression's references, how the
 bindings of one element are split, where every hoisted declaration and every
 relocated binding comes from, and what the root and its descendants hold once
 the pass has run.
 */
module MoveDeclarationsLemmas {
  import opened ObjectTree
  import opened MoveDeclarations

  // ---------------------------------------------------------------------
  // Hoisted names
  // ---------------------------------------------------------------------

  /** Two elements can produce the same hoisted name when an id contains an
      underscore: the pass then lets the later entry overwrite the earlier. */
  lemma MapNameCollision()
    ensures MapName("a", "b_c") == MapName("a_b", "c")
    ensures "a" != "a_b"
  {
  }

  /** Every hoisted name contains an underscore, so it never equals a name
      without one. */
  lemma MapNameHasUnderscore(id: string, s: string)
    ensures '_' in MapName(id, s)
  {
    MapNameLayout(id, s);
    assert MapName(id, s)[|id|] == '_';
  }

  /** When neither id contains an underscore, the hoisted name determines both
      the element id and the original name. */
  lemma MapNameUnique(id1: string, s1: string, id2: string, s2: string)
    requires '_' !in id1 && '_' !in id2
    requires MapName(id1, s1) == MapName(id2, s2)
    ensures id1 == id2 && s1 == s2
  {
    var t := MapName(id1, s1);
    MapNameLayout(id1, s1);
    MapNameLayout(id2, s2);
    assert id1 == t[..|id1|] == id2;
  }

  /** The ids of distinct elements of `U` are distinct and contain no
      underscore, so no two declarations of `U` get the same hoisted name. */
  ghost predicate CollisionFree(U: set<Element>)
  {
    && (forall m | m in U :: '_' !in m.id)
    && (forall m1, m2 | m1 in U && m2 in U && m1.id == m2.id :: m1 == m2)
  }

  // ---------------------------------------------------------------------
  // Renaming a map
  // ---------------------------------------------------------------------

  /** Renaming moves every entry `p` to `MapName(id, p)` and adds no other key. */
  lemma RenamedEntries<V>(id: string, m: map<string, V>)
    ensures forall p | p in m :: MapName(id, p) in Renamed(id, m) && Renamed(id, m)[MapName(id, p)] == m[p]
    ensures forall q | q in Renamed(id, m) :: exists p | p in m :: q == MapName(id, p)
  {
    MapNameInjective(id);
  }

  /** Renaming loses no entry: it keeps the number of entries. */
  lemma {:induction false} RenamedSize<V>(id: string, m: map<string, V>)
    ensures |Renamed(id, m)| == |m|
    decreases m.Keys
  {
    if m != map[] {
      var k :| k in m;
      var m' := m - {k};
      RenamedSize(id, m');
      assert m == m'[k := m[k]];
      RenamedUpdate(id, m', k, m[k]);
      RenamedEntries(id, m');
      MapNameInjective(id);
      assert MapName(id, k) !in Renamed(id, m');
    }
  }

  // ---------------------------------------------------------------------
  // Rewriting references
  // ---------------------------------------------------------------------

  /** A reference is rewritten exactly when it moves; a moved reference keeps
      its component and points at the root under the hoisted name. */
  lemma RewriteRefMoves(r: NamedReference, comp: Component, S: DeclaredNames)
    ensures RewriteRef(r, comp, S) != r <==> Moves(r, comp, S)
    ensures Moves(r, comp, S) ==> RewriteRef(r, comp, S) == NamedReference(comp, comp.root, MapName(r.element.id, r.name))
  {
    if Moves(r, comp, S) {
      MapNameLayout(r.element.id, r.name);
    }
  }

  /** The rewrite of each reference of a sequence. */
  ghost function RewriteRefs(rs: seq<NamedReference>, comp: Component, S: DeclaredNames): (r: seq<NamedReference>)
    ensures |r| == |rs|
    ensures forall i | 0 <= i < |rs| :: r[i] == RewriteRef(rs[i], comp, S)
  {
    seq(|rs|, i requires 0 <= i < |rs| => RewriteRef(rs[i], comp, S))
  }

  lemma RewriteRefsConcat(a: seq<NamedReference>, b: seq<NamedReference>, comp: Component, S: DeclaredNames)
    ensures RewriteRefs(a + b, comp, S) == RewriteRefs(a, comp, S) + RewriteRefs(b, comp, S)
  {
    var l, r := RewriteRefs(a + b, comp, S), RewriteRefs(a, comp, S) + RewriteRefs(b, comp, S);
    forall i | 0 <= i < |l| ensures l[i] == r[i] {
      if i < |a| {
        assert (a + b)[i] == a[i];
      } else {
        assert (a + b)[i] == b[i - |a|];
      }
    }
  }

  /** Rewriting an expression rewrites its references one by one, in order. */
  lemma {:induction false} RewriteReferences(x: Expr, comp: Component, S: DeclaredNames)
    ensures References(Rewrite(x, comp, S)) == RewriteRefs(References(x), comp, S)
    decreases x, 1
  {
    match x
    case PropertyReference(r) =>
    case SignalReference(r) =>
    case Operation(op, xs) => RewriteAllReferences(xs, comp, S);
  }

  lemma {:induction false} RewriteAllReferences(xs: seq<Expr>, comp: Component, S: DeclaredNames)
    ensures ReferencesAll(RewriteAll(xs, comp, S)) == RewriteRefs(ReferencesAll(xs), comp, S)
    decreases xs, 0
  {
    if xs != [] {
      RewriteReferences(xs[0], comp, S);
      RewriteAllReferences(xs[1..], comp, S);
      RewriteRefsConcat(References(xs[0]), ReferencesAll(xs[1..]), comp, S);
    }
  }

  /** Rewriting changes nothing but reference targets: the operators, the
      reference kinds and their components stay. */
  lemma {:induction false} RewriteKeepsShape(x: Expr, comp: Component, S: DeclaredNames)
    ensures Erase(Rewrite(x, comp, S)) == Erase(x)
    decreases x, 1
  {
    match x
    case PropertyReference(r) =>
    case SignalReference(r) =>
    case Operation(op, xs) => RewriteAllKeepsShape(xs, comp, S);
  }

  lemma {:induction false} RewriteAllKeepsShape(xs: seq<Expr>, comp: Component, S: DeclaredNames)
    ensures EraseAll(RewriteAll(xs, comp, S)) == EraseAll(xs)
    decreases xs, 0
  {
    if xs != [] {
      RewriteKeepsShape(xs[0], comp, S);
      RewriteAllKeepsShape(xs[1..], comp, S);
    }
  }

  /** An expression none of whose references moves is left as it is. */
  lemma {:induction false} RewriteUnmoved(x: Expr, comp: Component, S: DeclaredNames)
    requires forall r | r in References(x) :: !Moves(r, comp, S)
    ensures Rewrite(x, comp, S) == x
    decreases x, 1
  {
    match x
    case PropertyReference(r) =>
    case SignalReference(r) =>
    case Operation(op, xs) => RewriteAllUnmoved(xs, comp, S);
  }

  lemma {:induction false} RewriteAllUnmoved(xs: seq<Expr>, comp: Component, S: DeclaredNames)
    requires forall r | r in ReferencesAll(xs) :: !Moves(r, comp, S)
    ensures RewriteAll(xs, comp, S) == xs
    decreases xs, 0
  {
    if xs != [] {
      RewriteUnmoved(xs[0], comp, S);
      RewriteAllUnmoved(xs[1..], comp, S);
    }
  }

  /** The property that the debug check at the end of the pass relies on: when
      every reference to an element of `optimized` names a property that
      element declares, no reference of the rewritten expression points at an
      optimized element any more. */
  lemma OptimizedUnreferenced(x: Expr, comp: Component, S: DeclaredNames, optimized: set<Element>)
    requires comp.root !in optimized
    requires forall r | r in References(x) && r.element in optimized :: Moves(r, comp, S)
    ensures forall r | r in References(Rewrite(x, comp, S)) :: r.element !in optimized
  {
    RewriteReferences(x, comp, S);
    var rs := References(x);
    forall r | r in References(Rewrite(x, comp, S)) ensures r.element !in optimized {
      var i :| 0 <= i < |rs| && RewriteRefs(rs, comp, S)[i] == r;
      assert rs[i] in rs;
    }
  }

  // ---------------------------------------------------------------------
  // The bindings of one element
  // ---------------------------------------------------------------------

  /** A binding stays on its element, fixed up, exactly when the element does
      not declare its name. */
  lemma KeptSpec(bindings: Bindings, declared: set<string>, comp: Component, S: DeclaredNames)
    ensures Kept(bindings, declared, comp, S).Keys == bindings.Keys - declared
    ensures forall k | k in Kept(bindings, declared, comp, S) ::
              Kept(bindings, declared, comp, S)[k] == Rewrite(bindings[k], comp, S)
  {
  }

  /** A binding moves, fixed up and under its hoisted name, exactly when the
      element declares its name; nothing else is relocated. */
  lemma RelocatedSpec(id: string, bindings: Bindings, declared: set<string>, comp: Component, S: DeclaredNames)
    ensures forall k | k in bindings :: MapName(id, k) in Relocated(id, bindings, declared, comp, S) <==> k in declared
    ensures forall k | k in bindings && k in declared ::
              Relocated(id, bindings, declared, comp, S)[MapName(id, k)] == Rewrite(bindings[k], comp, S)
    ensures forall q | q in Relocated(id, bindings, declared, comp, S) ::
              exists k | k in bindings && k in declared :: q == MapName(id, k)
  {
    RenamedEntries(id, Part(bindings, declared, true, comp, S));
    MapNameInjective(id);
  }

  /** Splitting the bindings of an element loses none and duplicates none. */
  lemma PartitionSize(id: string, bindings: Bindings, declared: set<string>, comp: Component, S: DeclaredNames)
    ensures |Kept(bindings, declared, comp, S)| + |Relocated(id, bindings, declared, comp, S)| == |bindings|
  {
    var kept, moving := Kept(bindings, declared, comp, S), Part(bindings, declared, true, comp, S);
    RenamedSize(id, moving);
    assert kept.Keys == bindings.Keys - declared;
    assert moving.Keys == bindings.Keys * declared;
    assert bindings.Keys == (bindings.Keys - declared) + (bindings.Keys * declared);
  }

  /** An element that declares nothing keeps every binding and relocates none;
      the root is such an element while the bindings are fixed up. */
  lemma NothingDeclared(n: Element, B: BindingsSnapshot, comp: Component, S: DeclaredNames)
    requires Names(S, n) == {}
    ensures RelocatedOf(n, B, comp, S) == map[]
    ensures KeptOf(n, B, comp, S).Keys == BindingsAt(B, n).Keys
  {
    assert Part(BindingsAt(B, n), Names(S, n), true, comp, S) == map[];
  }

  /** The names the fixup reads: none for the root, whose declarations are
      already taken, the original ones for the other live elements, and those
      together with the builtin properties for an optimized element. */
  lemma NamesAtFixupOf(U: set<Element>, root: Element, optimized: set<Element>, D: DeclarationsSnapshot,
                       T: BaseTypeSnapshot, m: Element)
    requires m in U
    ensures Names(NamesAtFixup(U, root, optimized, D, T), m)
         == if m == root then {}
            else if m in optimized then DeclarationsAt(D, m).Keys + BaseDeclarations(BaseTypeAt(T, m)).Keys
            else DeclarationsAt(D, m).Keys
  {
  }

  /** A simplified optimized element with a builtin base type declares every
      property of that builtin with its type and default metadata, on top of
      its own declarations; any other simplified element keeps its own. */
  lemma SimplifiedDeclarations(n: Element, D: DeclarationsSnapshot, T: BaseTypeSnapshot)
    requires Simplified(n, D, T)
    ensures n.baseType == Invalid
    ensures BaseTypeAt(T, n).Builtin? ==>
              && n.propertyDeclarations.Keys == DeclarationsAt(D, n).Keys + BaseTypeAt(T, n).builtin.properties.Keys
              && forall k | k in BaseTypeAt(T, n).builtin.properties ::
                   n.propertyDeclarations[k] == PropertyDeclaration(BaseTypeAt(T, n).builtin.properties[k], DefaultMetadata)
    ensures !BaseTypeAt(T, n).Builtin? ==> n.propertyDeclarations == DeclarationsAt(D, n)
  {
  }

  // ---------------------------------------------------------------------
  // Where hoisted declarations come from
  // ---------------------------------------------------------------------

  /** Every entry of the hoisted declarations of a tree is a declaration of one
      of its elements, under that element's hoisted name. */
  lemma {:induction false} HoistedTreeOrigin(n: Element, D: DeclarationsSnapshot, k: string)
    returns (m: Element, p: string)
    requires n.Valid() && k in HoistedTree(n, D)
    ensures m in n.repr && p in DeclarationsAt(D, m)
    ensures k == MapName(m.id, p) && HoistedTree(n, D)[k] == DeclarationsAt(D, m)[p]
    decreases n.repr, |n.children| + 1
  {
    if k in HoistedChildren(n, |n.children|, D) {
      m, p := HoistedChildrenOrigin(n, |n.children|, D, k);
    } else {
      RenamedEntries(n.id, DeclarationsAt(D, n));
      m := n;
      p :| p in DeclarationsAt(D, n) && k == MapName(n.id, p);
      assert n in n.repr;
    }
  }

  lemma {:induction false} HoistedChildrenOrigin(n: Element, i: nat, D: DeclarationsSnapshot, k: string)
    returns (m: Element, p: string)
    requires n.Valid() && i <= |n.children| && k in HoistedChildren(n, i, D)
    ensures m in n.repr - {n} && p in DeclarationsAt(D, m)
    ensures k == MapName(m.id, p) && HoistedChildren(n, i, D)[k] == DeclarationsAt(D, m)[p]
    decreases n.repr, i
  {
    assert i != 0;
    ChildInRepr(n, i - 1);
    var c := n.children[i - 1];
    if k in HoistedTree(c, D) {
      m, p := HoistedTreeOrigin(c, D, k);
    } else {
      m, p := HoistedChildrenOrigin(n, i - 1, D, k);
    }
  }

  /** Every declaration of an element of a tree appears, under its hoisted
      name, among the hoisted declarations of the tree. */
  lemma {:induction false} HoistedTreeCovers(n: Element, D: DeclarationsSnapshot, m: Element, p: string)
    requires n.Valid() && m in n.repr && p in DeclarationsAt(D, m)
    ensures MapName(m.id, p) in HoistedTree(n, D)
    decreases n.repr, |n.children| + 1
  {
    if m == n {
      RenamedEntries(n.id, DeclarationsAt(D, n));
    } else {
      ChildrenRepr(n);
      assert n.children[..|n.children|] == n.children;
      HoistedChildrenCovers(n, |n.children|, D, m, p);
    }
  }

  lemma {:induction false} HoistedChildrenCovers(n: Element, i: nat, D: DeclarationsSnapshot, m: Element, p: string)
    requires n.Valid() && i <= |n.children| && m in ForestRepr(n.children[..i]) && p in DeclarationsAt(D, m)
    ensures MapName(m.id, p) in HoistedChildren(n, i, D)
    decreases n.repr, i
  {
    assert n.children[..i] != [];
    ChildInRepr(n, i - 1);
    var c := n.children[i - 1];
    assert n.children[..i][..i - 1] == n.children[..i - 1];
    if m in c.repr {
      HoistedTreeCovers(c, D, m, p);
    } else {
      HoistedChildrenCovers(n, i - 1, D, m, p);
    }
  }

  /** Without clashing ids, the hoisted declarations of the descendants of `n`
      hold every declaration of every descendant, unchanged, under its hoisted
      name. */
  lemma HoistedExact(n: Element, D: DeclarationsSnapshot, m: Element, p: string)
    requires n.Valid() && CollisionFree(n.repr)
    requires m in n.repr - {n} && p in DeclarationsAt(D, m)
    ensures MapName(m.id, p) in HoistedChildren(n, |n.children|, D)
    ensures HoistedChildren(n, |n.children|, D)[MapName(m.id, p)] == DeclarationsAt(D, m)[p]
  {
    ChildrenRepr(n);
    assert n.children[..|n.children|] == n.children;
    HoistedChildrenCovers(n, |n.children|, D, m, p);
    var m', p' := HoistedChildrenOrigin(n, |n.children|, D, MapName(m.id, p));
    MapNameUnique(m'.id, p', m.id, p);
  }

  // ---------------------------------------------------------------------
  // Where relocated bindings come from
  // ---------------------------------------------------------------------

  /** Every relocated binding of a tree is the fixed-up binding of a name that
      one of its elements declares, under that element's hoisted name. */
  lemma {:induction false} RelocatedTreeOrigin(n: Element, B: BindingsSnapshot, comp: Component, S: DeclaredNames,
                                               k: string)
    returns (m: Element, p: string)
    requires n.Valid() && k in RelocatedTree(n, B, comp, S)
    ensures m in n.repr && p in BindingsAt(B, m) && p in Names(S, m)
    ensures k == MapName(m.id, p) && RelocatedTree(n, B, comp, S)[k] == Rewrite(BindingsAt(B, m)[p], comp, S)
    decreases n.repr, |n.children| + 1
  {
    if k in RelocatedChildren(n, |n.children|, B, comp, S) {
      m, p := RelocatedChildrenOrigin(n, |n.children|, B, comp, S, k);
    } else {
      RelocatedSpec(n.id, BindingsAt(B, n), Names(S, n), comp, S);
      m := n;
      p :| p in BindingsAt(B, n) && p in Names(S, n) && k == MapName(n.id, p);
      assert n in n.repr;
    }
  }

  lemma {:induction false} RelocatedChildrenOrigin(n: Element, i: nat, B: BindingsSnapshot, comp: Component,
                                                   S: DeclaredNames, k: string)
    returns (m: Element, p: string)
    requires n.Valid() && i <= |n.children| && k in RelocatedChildren(n, i, B, comp, S)
    ensures m in n.repr - {n} && p in BindingsAt(B, m) && p in Names(S, m)
    ensures k == MapName(m.id, p) && RelocatedChildren(n, i, B, comp, S)[k] == Rewrite(BindingsAt(B, m)[p], comp, S)
    decreases n.repr, i
  {
    assert i != 0;
    ChildInRepr(n, i - 1);
    var c := n.children[i - 1];
    if k in RelocatedTree(c, B, comp, S) {
      m, p := RelocatedTreeOrigin(c, B, comp, S, k);
    } else {
      m, p := RelocatedChildrenOrigin(n, i - 1, B, comp, S, k);
    }
  }

  /** Every binding of a declared name of an element of a tree is relocated,
      under its hoisted name. */
  lemma {:induction false} RelocatedTreeCovers(n: Element, B: BindingsSnapshot, comp: Component, S: DeclaredNames,
                                               m: Element, p: string)
    requires n.Valid() && m in n.repr && p in BindingsAt(B, m) && p in Names(S, m)
    ensures MapName(m.id, p) in RelocatedTree(n, B, comp, S)
    decreases n.repr, |n.children| + 1
  {
    if m == n {
      RelocatedSpec(n.id, BindingsAt(B, n), Names(S, n), comp, S);
    } else {
      ChildrenRepr(n);
      assert n.children[..|n.children|] == n.children;
      RelocatedChildrenCovers(n, |n.children|, B, comp, S, m, p);
    }
  }

  lemma {:induction false} RelocatedChildrenCovers(n: Element, i: nat, B: BindingsSnapshot, comp: Component,
                                                   S: DeclaredNames, m: Element, p: string)
    requires n.Valid() && i <= |n.children| && m in ForestRepr(n.children[..i])
    requires p in BindingsAt(B, m) && p in Names(S, m)
    ensures MapName(m.id, p) in RelocatedChildren(n, i, B, comp, S)
    decreases n.repr, i
  {
    assert n.children[..i] != [];
    ChildInRepr(n, i - 1);
    var c := n.children[i - 1];
    assert n.children[..i][..i - 1] == n.children[..i - 1];
    if m in c.repr {
      RelocatedTreeCovers(c, B, comp, S, m, p);
    } else {
      RelocatedChildrenCovers(n, i - 1, B, comp, S, m, p);
    }
  }

  /** Without clashing ids, the relocated bindings of a tree hold the fixed-up
      binding of every declared name of every element, under its hoisted name. */
  lemma RelocatedExact(n: Element, B: BindingsSnapshot, comp: Component, S: DeclaredNames, m: Element, p: string)
    requires n.Valid() && CollisionFree(n.repr)
    requires m in n.repr && p in BindingsAt(B, m) && p in Names(S, m)
    ensures MapName(m.id, p) in RelocatedTree(n, B, comp, S)
    ensures RelocatedTree(n, B, comp, S)[MapName(m.id, p)] == Rewrite(BindingsAt(B, m)[p], comp, S)
  {
    RelocatedTreeCovers(n, B, comp, S, m, p);
    var m', p' := RelocatedTreeOrigin(n, B, comp, S, MapName(m.id, p));
    MapNameUnique(m'.id, p', m.id, p);
  }

  // ---------------------------------------------------------------------
  // The live tree once the pass has run
  // ---------------------------------------------------------------------

  /** After the pass a descendant of the root declares nothing and keeps
      exactly the fixed-up bindings of the names it did not declare. */
  lemma MovedDescendant(root: Element, comp: Component, decl: Declarations, S: DeclaredNames, B: BindingsSnapshot,
                        D: DeclarationsSnapshot, m: Element)
    requires root.Valid() && Moved(root, comp, decl, S, B, D)
    requires m in root.repr && m != root
    ensures m.propertyDeclarations == map[]
    ensures m.bindings.Keys == BindingsAt(B, m).Keys - Names(S, m)
    ensures forall k | k in m.bindings :: m.bindings[k] == Rewrite(BindingsAt(B, m)[k], comp, S)
  {
    assert m in root.repr;
    KeptSpec(BindingsAt(B, m), Names(S, m), comp, S);
  }

  /** After the pass, without clashing ids, the root holds every declaration of
      every descendant under its hoisted name, and with it the fixed-up binding
      of that name, if the descendant had one. */
  lemma MovedToRoot(root: Element, comp: Component, decl: Declarations, S: DeclaredNames, B: BindingsSnapshot,
                    D: DeclarationsSnapshot, m: Element, p: string)
    requires root.Valid() && Moved(root, comp, decl, S, B, D) && CollisionFree(root.repr)
    requires m in root.repr && m != root && p in DeclarationsAt(D, m)
    ensures MapName(m.id, p) in root.propertyDeclarations
    ensures root.propertyDeclarations[MapName(m.id, p)] == DeclarationsAt(D, m)[p]
    ensures p in BindingsAt(B, m) && p in Names(S, m) ==>
              MapName(m.id, p) in root.bindings && root.bindings[MapName(m.id, p)] == Rewrite(BindingsAt(B, m)[p], comp, S)
  {
    assert root in root.repr;
    HoistedExact(root, D, m, p);
    if p in BindingsAt(B, m) && p in Names(S, m) {
      RelocatedExact(root, B, comp, S, m, p);
    }
  }

  /** After the pass every declaration of the root is one it had, or the
      declaration of a descendant under its hoisted name. */
  lemma MovedRootDeclarationOrigin(root: Element, comp: Component, decl: Declarations, S: DeclaredNames,
                                   B: BindingsSnapshot, D: DeclarationsSnapshot, k: string)
    returns (m: Element, p: string)
    requires root.Valid() && Moved(root, comp, decl, S, B, D)
    requires k in root.propertyDeclarations && k !in decl
    ensures m in root.repr - {root} && p in DeclarationsAt(D, m) && k == MapName(m.id, p)
    ensures root.propertyDeclarations[k] == DeclarationsAt(D, m)[p]
  {
    assert root in root.repr;
    m, p := HoistedChildrenOrigin(root, |root.children|, D, k);
  }

  /** After the pass the root keeps its own declarations and, when it declared
      nothing during the fixup, its own fixed-up bindings, except where a
      hoisted name overwrites them; names without an underscore never clash. */
  lemma MovedRootKeeps(root: Element, comp: Component, decl: Declarations, S: DeclaredNames, B: BindingsSnapshot,
                       D: DeclarationsSnapshot, k: string)
    requires root.Valid() && Moved(root, comp, decl, S, B, D)
    requires '_' !in k
    ensures k in decl ==> k in root.propertyDeclarations && root.propertyDeclarations[k] == decl[k]
    ensures Names(S, root) == {} && k in BindingsAt(B, root) ==>
              k in root.bindings && root.bindings[k] == Rewrite(BindingsAt(B, root)[k], comp, S)
  {
    assert root in root.repr;
    if k in HoistedChildren(root, |root.children|, D) {
      var m, p := HoistedChildrenOrigin(root, |root.children|, D, k);
      MapNameHasUnderscore(m.id, p);
    }
    if k in RelocatedTree(root, B, comp, S) {
      var m, p := RelocatedTreeOrigin(root, B, comp, S, k);
      MapNameHasUnderscore(m.id, p);
    }
    if Names(S, root) == {} && k in BindingsAt(B, root) {
      KeptSpec(BindingsAt(B, root), Names(S, root), comp, S);
    }
  }

  // ---------------------------------------------------------------------
  // References to the declarations of optimized elements
  // ---------------------------------------------------------------------

  /** As written, the fixup redirects a reference to a declaration of an
      optimized element to the root, under the hoisted name, but only the
      declarations of the live tree are hoisted: unless the root declared that
      name itself, and without clashing ids, the root has no such declaration
      after the pass and the redirected reference dangles. */
  lemma DanglingAfterPass(comp: Component, optimized: set<Element>, B: BindingsSnapshot, D: DeclarationsSnapshot,
                          T: BaseTypeSnapshot, m: Element, p: string)
    requires comp.root.Valid() && comp.root.repr !! optimized && m in optimized && m in comp.elements
    requires Moved(comp.root, comp, DeclarationsAt(D, comp.root),
                   NamesAtFixup(comp.elements, comp.root, optimized, D, T), B, D)
    requires CollisionFree(comp.root.repr + {m})
    requires p in DeclarationsAt(D, m).Keys + BaseDeclarations(BaseTypeAt(T, m)).Keys
    requires MapName(m.id, p) !in DeclarationsAt(D, comp.root)
    ensures RewriteRef(NamedReference(comp, m, p), comp, NamesAtFixup(comp.elements, comp.root, optimized, D, T))
         == NamedReference(comp, comp.root, MapName(m.id, p))
    ensures MapName(m.id, p) !in comp.root.propertyDeclarations
  {
    var root, k := comp.root, MapName(m.id, p);
    NamesAtFixupOf(comp.elements, root, optimized, D, T, m);
    assert root in root.repr;
    if k in HoistedChildren(root, |root.children|, D) {
      var m', p' := HoistedChildrenOrigin(root, |root.children|, D, k);
      MapNameUnique(m'.id, p', m.id, p);
      assert false;
    }
  }

  /** Every declaration of an element of a forest appears, under its hoisted
      name, among the hoisted declarations of the forest. */
  lemma {:induction false} HoistedForestCovers(items: seq<Element>, D: DeclarationsSnapshot, m: Element, p: string)
    requires forall i | 0 <= i < |items| :: items[i].Valid()
    requires m in ForestRepr(items) && p in DeclarationsAt(D, m)
    ensures MapName(m.id, p) in HoistedForest(items, D)
    decreases |items|
  {
    assert items != [];
    var last := items[|items| - 1];
    if m in last.repr {
      HoistedTreeCovers(last, D, m, p);
    } else {
      HoistedForestCovers(items[..|items| - 1], D, m, p);
    }
  }

  /** A name the fixup redirects to the root is among the names the intended
      pass gives the root: the root's own, the hoisted ones of the simplified
      optimized trees and those of the live descendants. */
  lemma IntendedCovers(elements: set<Element>, root: Element, items: seq<Element>, D: DeclarationsSnapshot,
                       T: BaseTypeSnapshot, m: Element, p: string)
    requires root.Valid() && forall i | 0 <= i < |items| :: items[i].Valid()
    requires elements == root.repr + ForestRepr(items)
    requires p in Names(NamesAtFixup(elements, root, ForestRepr(items), D, T), m)
    ensures MapName(m.id, p) in DeclarationsAt(D, root) + HoistedForest(items, SimplifiedSnapshot(ForestRepr(items), D, T))
                                + HoistedChildren(root, |root.children|, D)
  {
    var optimized := ForestRepr(items);
    assert m in elements;
    NamesAtFixupOf(elements, root, optimized, D, T, m);
    if m in optimized {
      HoistedForestCovers(items, SimplifiedSnapshot(optimized, D, T), m, p);
    } else {
      assert m in root.repr - {root};
      ChildrenRepr(root);
      assert root.children[..|root.children|] == root.children;
      HoistedChildrenCovers(root, |root.children|, D, m, p);
    }
  }

  /** With the declarations of the simplified optimized elements hoisted as
      well, every reference the fixup redirects names a declaration of the
      root after the pass. `items` is the list of optimized trees on entry. */
  lemma IntendedResolves(comp: Component, items: seq<Element>, B: BindingsSnapshot, D: DeclarationsSnapshot,
                         T: BaseTypeSnapshot, r: NamedReference)
    requires comp.root.Valid() && forall i | 0 <= i < |items| :: items[i].Valid()
    requires comp.elements == comp.root.repr + ForestRepr(items)
    requires Moved(comp.root, comp,
                   DeclarationsAt(D, comp.root) + HoistedForest(items, SimplifiedSnapshot(ForestRepr(items), D, T)),
                   NamesAtFixup(comp.elements, comp.root, ForestRepr(items), D, T), B, D)
    requires Moves(r, comp, NamesAtFixup(comp.elements, comp.root, ForestRepr(items), D, T))
    ensures RewriteRef(r, comp, NamesAtFixup(comp.elements, comp.root, ForestRepr(items), D, T)).element == comp.root
    ensures RewriteRef(r, comp, NamesAtFixup(comp.elements, comp.root, ForestRepr(items), D, T)).name
            in comp.root.propertyDeclarations
  {
    IntendedCovers(comp.elements, comp.root, items, D, T, r.element, r.name);
    assert comp.root in comp.root.repr;
  }
}
