/**
 The move-declarations pass: every property and signal declaration of a
 component's element tree is moved to the root element, renamed
 `<element id>_<name>`; every reference to a moved declaration is redirected to
 the root under its new name, and every binding of a moved property moves to
 the root with it.
 */
module MoveDeclarations {
  import opened ObjectTree

  type Declarations = map<string, PropertyDeclaration>
  type Bindings = map<string, Expr>

  /** A snapshot of which names each element declares. */
  type DeclaredNames = map<Element, set<string>>

  // ---------------------------------------------------------------------
  // Names
  // ---------------------------------------------------------------------

  /** The name a declaration `s` of the element with id `id` gets on the root. */
  function MapName(id: string, s: string): string
  {
    id + "_" + s
  }

  /** The hoisted name is the element's id, an underscore, and the original name. */
  lemma MapNameLayout(id: string, s: string)
    ensures |MapName(id, s)| == |id| + 1 + |s|
    ensures MapName(id, s)[..|id|] == id && MapName(id, s)[|id|] == '_' && MapName(id, s)[|id| + 1..] == s
  {
  }

  /** For one element, distinct names get distinct hoisted names. */
  lemma MapNameInjective(id: string)
    ensures forall a, b | MapName(id, a) == MapName(id, b) :: a == b
  {
    forall a, b | MapName(id, a) == MapName(id, b) ensures a == b {
      MapNameLayout(id, a);
      MapNameLayout(id, b);
    }
  }

  function Names(S: DeclaredNames, e: Element?): set<string>
  {
    if e != null && e in S then S[e] else {}
  }

  /** The names every element of `U` declares now. */
  ghost function Declared(U: set<Element>): (S: DeclaredNames)
    reads U`propertyDeclarations
    ensures S.Keys == U
  {
    map e | e in U :: e.propertyDeclarations.Keys
  }

  // ---------------------------------------------------------------------
  // Rewriting references
  // ---------------------------------------------------------------------

  /** A reference is redirected to the root when it points into the component
      being processed and its element declares the referenced name. */
  ghost predicate Moves(r: NamedReference, comp: Component, S: DeclaredNames)
  {
    r.component == comp && r.element != null && r.name in Names(S, r.element)
  }

  ghost function RewriteRef(r: NamedReference, comp: Component, S: DeclaredNames): NamedReference
  {
    if Moves(r, comp, S) then NamedReference(r.component, comp.root, MapName(r.element.id, r.name)) else r
  }

  /** The rewrite of every reference of an expression, on a snapshot of the
      declared names. This is the reference definition of `Fixup`. */
  ghost function Rewrite(x: Expr, comp: Component, S: DeclaredNames): Expr
    decreases x, 1
  {
    match x
    case PropertyReference(ref) => PropertyReference(RewriteRef(ref, comp, S))
    case SignalReference(ref) => SignalReference(RewriteRef(ref, comp, S))
    case Operation(op, xs) => Operation(op, RewriteAll(xs, comp, S))
  }

  ghost function RewriteAll(xs: seq<Expr>, comp: Component, S: DeclaredNames): seq<Expr>
    decreases xs, 0
  {
    if xs == [] then [] else [Rewrite(xs[0], comp, S)] + RewriteAll(xs[1..], comp, S)
  }

  /** fixup_bindings: rewrites the references of a binding expression, reading
      the declarations of the referenced elements as they are now. */
  function Fixup(x: Expr, comp: Component): (r: Expr)
    requires Linked(x, comp)
    reads comp.elements`propertyDeclarations
    ensures r == Rewrite(x, comp, Declared(comp.elements))
    decreases x, 1
  {
    match x
    case PropertyReference(ref) =>
      if ref.component == comp && ref.name in ref.element.propertyDeclarations
      then PropertyReference(NamedReference(ref.component, comp.root, MapName(ref.element.id, ref.name)))
      else x
    case SignalReference(ref) =>
      if ref.component == comp && ref.name in ref.element.propertyDeclarations
      then SignalReference(NamedReference(ref.component, comp.root, MapName(ref.element.id, ref.name)))
      else x
    case Operation(op, xs) => Operation(op, FixupAll(xs, comp))
  }

  function FixupAll(xs: seq<Expr>, comp: Component): (rs: seq<Expr>)
    requires LinkedAll(xs, comp)
    reads comp.elements`propertyDeclarations
    ensures rs == RewriteAll(xs, comp, Declared(comp.elements))
    decreases xs, 0
  {
    if xs == [] then [] else [Fixup(xs[0], comp)] + FixupAll(xs[1..], comp)
  }

  // ---------------------------------------------------------------------
  // Snapshots of the fields the pass rewrites
  // ---------------------------------------------------------------------

  type BindingsSnapshot = map<Element, Bindings>
  type DeclarationsSnapshot = map<Element, Declarations>

  function BindingsAt(B: BindingsSnapshot, e: Element): Bindings
  {
    if e in B then B[e] else map[]
  }

  function DeclarationsAt(D: DeclarationsSnapshot, e: Element): Declarations
  {
    if e in D then D[e] else map[]
  }

  type BaseTypeSnapshot = map<Element, BaseType>

  /** Every element of `U` has the base type that `T` records for it. */
  ghost predicate BaseTypesFrom(U: set<Element>, T: BaseTypeSnapshot)
    reads U`baseType
  {
    forall n | n in U :: n in T && n.baseType == T[n]
  }

  function BaseTypeAt(T: BaseTypeSnapshot, e: Element): BaseType
  {
    if e in T then T[e] else Invalid
  }

  // ---------------------------------------------------------------------
  // Partitioning the bindings of one element
  // ---------------------------------------------------------------------

  /** The fixed-up bindings of the names that are in `declared` exactly when
      `moving` holds. */
  ghost function Part(bindings: Bindings, declared: set<string>, moving: bool, comp: Component, S: DeclaredNames)
    : Bindings
  {
    map k | k in bindings && (k in declared) == moving :: Rewrite(bindings[k], comp, S)
  }

  /** The bindings that stay on their element: those of names it does not declare. */
  ghost function Kept(bindings: Bindings, declared: set<string>, comp: Component, S: DeclaredNames): Bindings
  {
    Part(bindings, declared, false, comp, S)
  }

  /** The bindings that move to the root with their declaration, renamed. */
  ghost function Relocated(id: string, bindings: Bindings, declared: set<string>, comp: Component, S: DeclaredNames)
    : Bindings
  {
    Renamed(id, Part(bindings, declared, true, comp, S))
  }

  ghost function KeptOf(n: Element, B: BindingsSnapshot, comp: Component, S: DeclaredNames): Bindings
  {
    Kept(BindingsAt(B, n), Names(S, n), comp, S)
  }

  ghost function RelocatedOf(n: Element, B: BindingsSnapshot, comp: Component, S: DeclaredNames): Bindings
  {
    Relocated(n.id, BindingsAt(B, n), Names(S, n), comp, S)
  }

  /** The relocated bindings of a whole tree, in the order the pass inserts
      them: the element first, then each child's tree in turn. A later entry
      overwrites an earlier one with the same key. */
  ghost function RelocatedTree(n: Element, B: BindingsSnapshot, comp: Component, S: DeclaredNames): Bindings
    requires n.Valid()
    decreases n.repr, |n.children| + 1
  {
    RelocatedOf(n, B, comp, S) + RelocatedChildren(n, |n.children|, B, comp, S)
  }

  /** The relocated bindings of the trees of the first `i` children of `n`. */
  ghost function RelocatedChildren(n: Element, i: nat, B: BindingsSnapshot, comp: Component, S: DeclaredNames): Bindings
    requires n.Valid() && i <= |n.children|
    decreases n.repr, i
  {
    if i == 0 then map[]
    else
      ChildInRepr(n, i - 1);
      RelocatedChildren(n, i - 1, B, comp, S) + RelocatedTree(n.children[i - 1], B, comp, S)
  }

  // ---------------------------------------------------------------------
  // Hoisting declarations
  // ---------------------------------------------------------------------

  /** The entries of element `id`, renamed for the root. */
  function Renamed<V>(id: string, m: map<string, V>): map<string, V>
  {
    MapNameInjective(id);
    map p | p in m :: MapName(id, p) := m[p]
  }

  /** The renamed declarations of a whole tree, in the order the pass merges them. */
  ghost function HoistedTree(n: Element, D: DeclarationsSnapshot): Declarations
    requires n.Valid()
    decreases n.repr, |n.children| + 1
  {
    Renamed(n.id, DeclarationsAt(D, n)) + HoistedChildren(n, |n.children|, D)
  }

  /** The renamed declarations of the trees of the first `i` children of `n`. */
  ghost function HoistedChildren(n: Element, i: nat, D: DeclarationsSnapshot): Declarations
    requires n.Valid() && i <= |n.children|
    decreases n.repr, i
  {
    if i == 0 then map[]
    else
      ChildInRepr(n, i - 1);
      HoistedChildren(n, i - 1, D) + HoistedTree(n.children[i - 1], D)
  }

  // ---------------------------------------------------------------------
  // Optimized elements
  // ---------------------------------------------------------------------

  /** The declaration a builtin property gets: its type, every other field default. */
  function DefaultDeclarations(b: BuiltinElement): Declarations
  {
    map k | k in b.properties :: PropertyDeclaration(b.properties[k], DefaultMetadata)
  }

  /** What simplifying an element with base type `t` adds to its declarations. */
  ghost function BaseDeclarations(t: BaseType): Declarations
  {
    if t.Builtin? then DefaultDeclarations(t.builtin) else map[]
  }

  /** The declared names every element of a component has while the bindings
      are fixed up: the root's declarations are already taken and each optimized
      element has been simplified. */
  ghost function NamesAtFixup(U: set<Element>, root: Element, optimized: set<Element>, D: DeclarationsSnapshot,
                              T: BaseTypeSnapshot): (S: DeclaredNames)
    ensures S.Keys == U
  {
    map e | e in U ::
      if e == root then {}
      else if e in optimized then DeclarationsAt(D, e).Keys + BaseDeclarations(BaseTypeAt(T, e)).Keys
      else DeclarationsAt(D, e).Keys
  }

  /** The names declared when the bindings are fixed up are those of `NamesAtFixup`. */
  lemma DeclaredAtFixup(U: set<Element>, root: Element, optimized: set<Element>, D: DeclarationsSnapshot,
                        T: BaseTypeSnapshot)
    requires root in U && root !in optimized && optimized <= U
    requires root.propertyDeclarations == map[]
    requires AllSimplified(optimized, D, T)
    requires DeclarationsFrom(U - {root} - optimized, D)
    ensures Declared(U) == NamesAtFixup(U, root, optimized, D, T)
  {
    var S, S' := Declared(U), NamesAtFixup(U, root, optimized, D, T);
    forall e | e in U ensures S[e] == S'[e] {
      if e != root && e !in optimized {
        assert e in U - {root} - optimized;
      }
    }
  }

  lemma EmptyUnion<K, V>(m: map<K, V>)
    ensures map[] + m == m
  {
  }

  lemma UnionAssoc<K, V>(a: map<K, V>, b: map<K, V>, c: map<K, V>)
    ensures (a + b) + c == a + (b + c)
  {
  }

  // ---------------------------------------------------------------------
  // The pass
  // ---------------------------------------------------------------------

  /** Declarations::take_from_element */
  method TakeFromElement(e: Element) returns (d: Declarations)
    modifies e`propertyDeclarations
    ensures d == old(e.propertyDeclarations)
    ensures e.propertyDeclarations == map[]
  {
    d := e.propertyDeclarations;
    e.propertyDeclarations := map[];
  }

  /** An element of an optimized tree not yet simplified: its base type and
      declarations are those of the snapshots `T` and `D`. */
  ghost predicate Unsimplified(n: Element, D: DeclarationsSnapshot, T: BaseTypeSnapshot)
    reads n`baseType, n`propertyDeclarations
  {
    n.baseType == BaseTypeAt(T, n) && n.propertyDeclarations == DeclarationsAt(D, n)
  }

  /** An element of an optimized tree once simplified: its base type is taken,
      and the properties of that base type are among its declarations. */
  ghost predicate Simplified(n: Element, D: DeclarationsSnapshot, T: BaseTypeSnapshot)
    reads n`baseType, n`propertyDeclarations
  {
    n.baseType == Invalid && n.propertyDeclarations == DeclarationsAt(D, n) + BaseDeclarations(BaseTypeAt(T, n))
  }

  /** The body of the loop of simplify_optimized_items for one element: take its
      base type and, while it is a builtin, declare that builtin's properties. */
  method SimplifyElement(elem: Element, ghost D: DeclarationsSnapshot, ghost T: BaseTypeSnapshot)
    requires !BaseTypeAt(T, elem).ComponentType? && Settled(elem, D, T)
    modifies elem`propertyDeclarations, elem`baseType
    ensures Simplified(elem, D, T)
  {
    ghost var decls0, type0 := DeclarationsAt(D, elem), BaseTypeAt(T, elem);
    var baseTypeIt := elem.baseType;
    elem.baseType := Invalid;
    while true
      invariant elem.baseType == Invalid
      invariant baseTypeIt == type0 || baseTypeIt == Invalid
      invariant || elem.propertyDeclarations == decls0 + BaseDeclarations(type0)
                || (elem.propertyDeclarations == decls0 && baseTypeIt == type0)
      decreases if baseTypeIt.Builtin? then 1 else 0
    {
      match baseTypeIt
      case ComponentType(_) =>
        // copying a component's declarations ends in a todo! panic
        assert false;
      case Builtin(b) =>
        elem.propertyDeclarations := elem.propertyDeclarations + DefaultDeclarations(b);
        baseTypeIt := Invalid;
      case _ =>
        break;
    }
  }

  /** An element of an optimized tree before or after its simplification. */
  ghost predicate Settled(n: Element, D: DeclarationsSnapshot, T: BaseTypeSnapshot)
    reads n`baseType, n`propertyDeclarations
  {
    Unsimplified(n, D, T) || Simplified(n, D, T)
  }

  /** Every element of `U` is settled and has no component base type. */
  ghost predicate AllSettled(U: set<Element>, D: DeclarationsSnapshot, T: BaseTypeSnapshot)
    reads U`baseType, U`propertyDeclarations
  {
    forall n | n in U :: !BaseTypeAt(T, n).ComponentType? && Settled(n, D, T)
  }

  /** Every element of `U` is simplified. */
  ghost predicate AllSimplified(U: set<Element>, D: DeclarationsSnapshot, T: BaseTypeSnapshot)
    reads U`baseType, U`propertyDeclarations
  {
    forall n | n in U :: Simplified(n, D, T)
  }

  /** simplify_optimized_items: every element of the optimized trees gets the
      properties of its builtin base type as its own declarations, and loses its
      base type. Items may share elements: simplifying an element twice is the
      same as simplifying it once, because its base type is taken the first time. */
  method SimplifyOptimizedItems(items: seq<Element>, ghost D: DeclarationsSnapshot, ghost T: BaseTypeSnapshot)
    requires forall i | 0 <= i < |items| :: items[i].Valid()
    requires AllSettled(ForestRepr(items), D, T)
    modifies ForestRepr(items)`propertyDeclarations, ForestRepr(items)`baseType
    ensures AllSimplified(ForestRepr(items), D, T)
    decreases ForestRepr(items), 1
  {
    ForestAllocated(items);
    for i := 0 to |items|
      invariant AllSettled(ForestRepr(items), D, T)
      invariant AllSimplified(ForestRepr(items[..i]), D, T)
    {
      ForestPrefix(items, i);
      SimplifyTree(items[i], D, T);
    }
    assert items[..|items|] == items;
  }

  /** One turn of the loop of simplify_optimized_items: the element itself,
      then the items that are its children. */
  method SimplifyTree(elem: Element, ghost D: DeclarationsSnapshot, ghost T: BaseTypeSnapshot)
    requires elem.Valid() && AllSettled(elem.repr, D, T)
    modifies elem.repr`propertyDeclarations, elem.repr`baseType
    ensures AllSimplified(elem.repr, D, T)
    decreases elem.repr, 0
  {
    ChildrenRepr(elem);
    SimplifyElement(elem, D, T);
    SimplifyOptimizedItems(elem.children, D, T);
  }

  /** The loop of fixup_bindings_recursive over the bindings of one element:
      each binding is fixed up, then either stays or, if the element declares
      its name, is inserted into the root bindings under its hoisted name. */
  method PartitionBindings(elem: Element, bindings: Bindings, comp: Component, ghost S: DeclaredNames,
                           newRootBindings: Bindings)
    returns (kept: Bindings, rootBindings: Bindings)
    requires elem in comp.elements
    requires S == Declared(comp.elements)
    requires forall k | k in bindings :: Linked(bindings[k], comp)
    ensures kept == Kept(bindings, Names(S, elem), comp, S)
    ensures rootBindings == newRootBindings + Relocated(elem.id, bindings, Names(S, elem), comp, S)
  {
    kept := map[];
    rootBindings := newRootBindings;
    var pending := bindings.Keys;
    while pending != {}
      invariant pending <= bindings.Keys
      invariant kept == Kept(bindings - pending, Names(S, elem), comp, S)
      invariant rootBindings == newRootBindings + Relocated(elem.id, bindings - pending, Names(S, elem), comp, S)
      decreases pending
    {
      var k :| k in pending;
      var e := Fixup(bindings[k], comp);
      var willBeMoved := k in elem.propertyDeclarations;
      PartStep(bindings, pending, k, Names(S, elem), false, comp, S);
      PartStep(bindings, pending, k, Names(S, elem), true, comp, S);
      RenamedUpdate(elem.id, Part(bindings - pending, Names(S, elem), true, comp, S), k, e);
      UpdateUnion(newRootBindings, Relocated(elem.id, bindings - pending, Names(S, elem), comp, S),
                  MapName(elem.id, k), e);
      if willBeMoved {
        rootBindings := rootBindings[MapName(elem.id, k) := e];
      } else {
        kept := kept[k := e];
      }
      pending := pending - {k};
    }
    assert bindings - {} == bindings;
  }

  /** Taking one more binding `k` out of `pending` adds it to the side its
      declaration decides. */
  lemma PartStep(bindings: Bindings, pending: set<string>, k: string, declared: set<string>, moving: bool,
                 comp: Component, S: DeclaredNames)
    requires k in pending && pending <= bindings.Keys
    ensures Part(bindings - (pending - {k}), declared, moving, comp, S)
         == if (k in declared) == moving
            then Part(bindings - pending, declared, moving, comp, S)[k := Rewrite(bindings[k], comp, S)]
            else Part(bindings - pending, declared, moving, comp, S)
  {
    assert (bindings - (pending - {k})).Keys == (bindings - pending).Keys + {k};
  }

  /** Renaming commutes with inserting an entry. */
  lemma RenamedUpdate<V>(id: string, m: map<string, V>, k: string, v: V)
    ensures Renamed(id, m[k := v]) == Renamed(id, m)[MapName(id, k) := v]
  {
    var r, u := Renamed(id, m[k := v]), Renamed(id, m)[MapName(id, k) := v];
    MapNameInjective(id);
    forall j | j in r ensures j in u && r[j] == u[j] {
      var q :| q in m[k := v] && j == MapName(id, q);
    }
    assert r.Keys == u.Keys;
  }

  /** Inserting into the accumulated map and then merging is merging then inserting. */
  lemma UpdateUnion<K, V>(a: map<K, V>, b: map<K, V>, k: K, v: V)
    ensures a + b[k := v] == (a + b)[k := v]
  {
  }

  /** Every element of `U` holds the bindings that `B` records for it. */
  ghost predicate BindingsFrom(U: set<Element>, B: BindingsSnapshot)
    reads U`bindings
  {
    forall n | n in U :: n in B && n.bindings == B[n]
  }

  /** Every binding that `B` records for an element of `U` is linked. */
  ghost predicate AllLinked(U: set<Element>, B: BindingsSnapshot, comp: Component)
  {
    forall n, k | n in U && k in BindingsAt(B, n) :: Linked(BindingsAt(B, n)[k], comp)
  }

  /** Every element of `U` holds exactly its kept, fixed-up bindings. */
  ghost predicate AllKept(U: set<Element>, B: BindingsSnapshot, comp: Component, S: DeclaredNames)
    reads U`bindings
  {
    forall n | n in U :: n.bindings == KeptOf(n, B, comp, S)
  }

  /** Every element of `U` holds the declarations that `D` records for it. */
  ghost predicate DeclarationsFrom(U: set<Element>, D: DeclarationsSnapshot)
    reads U`propertyDeclarations
  {
    forall n | n in U :: n in D && n.propertyDeclarations == D[n]
  }

  /** No element of `U` declares anything. */
  ghost predicate AllEmpty(U: set<Element>)
    reads U`propertyDeclarations
  {
    forall n | n in U :: n.propertyDeclarations == map[]
  }

  /** fixup_bindings_recursive: rewrites every binding of the tree at `elem`;
      the bindings of names an element declares leave it and are inserted, under
      their hoisted name, into the root bindings being collected. `B` holds the
      bindings of the tree on entry, `S` the names its elements declare. */
  method FixupBindingsRecursive(elem: Element, comp: Component, ghost S: DeclaredNames, ghost B: BindingsSnapshot,
                                newRootBindings: Bindings)
    returns (rootBindings: Bindings)
    requires elem.Valid() && elem.repr <= comp.elements
    requires S == Declared(comp.elements)
    requires BindingsFrom(elem.repr, B) && AllLinked(elem.repr, B, comp)
    modifies elem.repr`bindings
    ensures rootBindings == newRootBindings + RelocatedTree(elem, B, comp, S)
    ensures AllKept(elem.repr, B, comp, S)
    decreases elem.repr, 2
  {
    assert elem in elem.repr && elem.bindings == BindingsAt(B, elem);
    assert BindingsFrom(elem.repr - {elem}, B);
    rootBindings := FixupElementBindings(elem, comp, S, B, newRootBindings);
    rootBindings := FixupChildrenBindings(elem, comp, S, B, rootBindings);
    UnionAssoc(newRootBindings, RelocatedOf(elem, B, comp, S), RelocatedChildren(elem, |elem.children|, B, comp, S));
  }

  /** The first half of fixup_bindings_recursive: the bindings of `elem` itself
      are taken, fixed up and split between `elem` and the root bindings. */
  method FixupElementBindings(elem: Element, comp: Component, ghost S: DeclaredNames, ghost B: BindingsSnapshot,
                              newRootBindings: Bindings)
    returns (rootBindings: Bindings)
    requires elem in comp.elements && S == Declared(comp.elements)
    requires elem.bindings == BindingsAt(B, elem)
    requires forall k | k in BindingsAt(B, elem) :: Linked(BindingsAt(B, elem)[k], comp)
    modifies elem`bindings
    ensures elem.bindings == KeptOf(elem, B, comp, S)
    ensures rootBindings == newRootBindings + RelocatedOf(elem, B, comp, S)
  {
    var bindings := elem.bindings;
    elem.bindings := map[];
    var newBindings;
    newBindings, rootBindings := PartitionBindings(elem, bindings, comp, S, newRootBindings);
    elem.bindings := newBindings;
  }

  /** The state of the loop of fixup_bindings_recursive over the children of
      `elem` once the first `i` are done: `done` is their trees, whose elements
      hold their kept bindings while the others still hold those of `B`, and
      the relocated bindings of those trees are merged into `rootBindings`. */
  ghost predicate FixupLoop(elem: Element, i: nat, done: set<Element>, rootBindings: Bindings,
                            newRootBindings: Bindings, B: BindingsSnapshot, comp: Component, S: DeclaredNames)
    requires elem.Valid() && i <= |elem.children|
    reads (elem.repr - {elem})`bindings
  {
    && done == ForestRepr(elem.children[..i]) && done <= elem.repr - {elem}
    && rootBindings == newRootBindings + RelocatedChildren(elem, i, B, comp, S)
    && AllKept(done, B, comp, S)
    && BindingsFrom(elem.repr - {elem} - done, B)
  }

  /** The loop of fixup_bindings_recursive over the children of `elem`. */
  method FixupChildrenBindings(elem: Element, comp: Component, ghost S: DeclaredNames, ghost B: BindingsSnapshot,
                               newRootBindings: Bindings)
    returns (rootBindings: Bindings)
    requires elem.Valid() && elem.repr <= comp.elements
    requires S == Declared(comp.elements)
    requires BindingsFrom(elem.repr - {elem}, B) && AllLinked(elem.repr, B, comp)
    modifies (elem.repr - {elem})`bindings
    ensures rootBindings == newRootBindings + RelocatedChildren(elem, |elem.children|, B, comp, S)
    ensures AllKept(elem.repr - {elem}, B, comp, S)
    decreases elem.repr, 1
  {
    rootBindings := newRootBindings;
    ChildrenRepr(elem);
    ghost var done: set<Element> := {};
    for i := 0 to |elem.children|
      invariant FixupLoop(elem, i, done, rootBindings, newRootBindings, B, comp, S)
    {
      ChildInRepr(elem, i);
      rootBindings := FixupChild(elem, i, done, comp, S, B, rootBindings, newRootBindings);
      done := done + elem.children[i].repr;
    }
    assert elem.children[..|elem.children|] == elem.children;
  }

  /** One turn of the loop of fixup_bindings_recursive over the children:
      child `i`'s tree is fixed up. */
  method FixupChild(elem: Element, i: nat, ghost done: set<Element>, comp: Component, ghost S: DeclaredNames,
                    ghost B: BindingsSnapshot, rootBindings: Bindings, ghost newRootBindings: Bindings)
    returns (rootBindings': Bindings)
    requires elem.Valid() && i < |elem.children| && elem.repr <= comp.elements
    requires S == Declared(comp.elements) && AllLinked(elem.repr, B, comp)
    requires FixupLoop(elem, i, done, rootBindings, newRootBindings, B, comp, S)
    modifies elem.children[i].repr`bindings
    ensures FixupLoop(elem, i + 1, done + elem.children[i].repr, rootBindings', newRootBindings, B, comp, S)
    decreases elem.repr, 0
  {
    var c := elem.children[i];
    ChildrenPrefix(elem, i);
    assert BindingsFrom(c.repr, B) && AllLinked(c.repr, B, comp);
    assert BindingsFrom(elem.repr - {elem} - done - c.repr, B);
    rootBindings' := FixupBindingsRecursive(c, comp, S, B, rootBindings);
    UnionAssoc(newRootBindings, RelocatedChildren(elem, i, B, comp, S), RelocatedTree(c, B, comp, S));
  }

  /** The state of the loop of move_declarations_recursive once the first `i`
      children of `elem` are done: `done` is their trees, whose elements
      declare nothing any more while the others still hold the declarations
      of `D`, and `decl'` is `decl` with the hoisted declarations of those trees. */
  ghost predicate HoistLoop(elem: Element, i: nat, done: set<Element>, decl': Declarations, decl: Declarations,
                            D: DeclarationsSnapshot)
    requires elem.Valid() && i <= |elem.children|
    reads (elem.repr - {elem})`propertyDeclarations
  {
    && done == ForestRepr(elem.children[..i]) && done <= elem.repr - {elem}
    && decl' == decl + HoistedChildren(elem, i, D)
    && AllEmpty(done)
    && DeclarationsFrom(elem.repr - {elem} - done, D)
  }

  /** move_declarations_recursive: takes the declarations of every descendant
      of `elem` and merges them, renamed, into `decl`. `D` holds the
      declarations of the tree on entry. */
  method MoveDeclarationsRecursive(elem: Element, ghost D: DeclarationsSnapshot, decl: Declarations)
    returns (decl': Declarations)
    requires elem.Valid() && DeclarationsFrom(elem.repr - {elem}, D)
    modifies (elem.repr - {elem})`propertyDeclarations
    ensures decl' == decl + HoistedChildren(elem, |elem.children|, D)
    ensures AllEmpty(elem.repr - {elem})
    decreases elem.repr, 1
  {
    decl' := decl;
    ChildrenRepr(elem);
    ghost var done: set<Element> := {};
    for i := 0 to |elem.children|
      invariant HoistLoop(elem, i, done, decl', decl, D)
    {
      ChildInRepr(elem, i);
      decl' := HoistChild(elem, i, done, D, decl, decl');
      done := done + elem.children[i].repr;
    }
    assert elem.children[..|elem.children|] == elem.children;
  }

  /** One turn of the loop of move_declarations_recursive: child `i`'s own
      declarations are taken and merged under their hoisted names, then those
      of its descendants. */
  method HoistChild(elem: Element, i: nat, ghost done: set<Element>, ghost D: DeclarationsSnapshot,
                    ghost decl: Declarations, decl': Declarations)
    returns (decl'': Declarations)
    requires elem.Valid() && i < |elem.children|
    requires HoistLoop(elem, i, done, decl', decl, D)
    modifies elem.children[i].repr`propertyDeclarations
    ensures HoistLoop(elem, i + 1, done + elem.children[i].repr, decl'', decl, D)
    decreases elem.repr, 0
  {
    var c := elem.children[i];
    ChildrenPrefix(elem, i);
    HoistStep(elem, i, D, decl);
    assert c.propertyDeclarations == DeclarationsAt(D, c);
    assert DeclarationsFrom(c.repr - {c}, D);
    assert DeclarationsFrom(elem.repr - {elem} - done - c.repr, D);
    var elemDecl := TakeFromElement(c);
    decl'' := decl' + Renamed(c.id, elemDecl);
    decl'' := MoveDeclarationsRecursive(c, D, decl'');
  }

  /** One turn of the loop of move_declarations_recursive: child `i`'s own
      declarations and then those of its descendants are merged. */
  lemma HoistStep(elem: Element, i: nat, D: DeclarationsSnapshot, decl: Declarations)
    requires elem.Valid() && i < |elem.children|
    ensures elem.children[i].Valid()
    ensures decl + HoistedChildren(elem, i + 1, D)
         == ((decl + HoistedChildren(elem, i, D)) + Renamed(elem.children[i].id, DeclarationsAt(D, elem.children[i])))
          + HoistedChildren(elem.children[i], |elem.children[i].children|, D)
  {
    var c := elem.children[i];
    ChildInRepr(elem, i);
    UnionAssoc(decl + HoistedChildren(elem, i, D), Renamed(c.id, DeclarationsAt(D, c)), HoistedChildren(c, |c.children|, D));
    UnionAssoc(decl, HoistedChildren(elem, i, D), HoistedTree(c, D));
  }

  /** The state of the live tree at `root` once the pass has run: the root
      holds `decl` and the hoisted declarations of its descendants, which hold
      none; every element keeps the fixed-up bindings of the names it does not
      declare, and the root also holds the relocated ones. `S` is the snapshot
      of declared names the fixup reads. */
  ghost predicate Moved(root: Element, comp: Component, decl: Declarations, S: DeclaredNames,
                        B: BindingsSnapshot, D: DeclarationsSnapshot)
    requires root.Valid()
    reads root.repr`bindings, root.repr`propertyDeclarations
  {
    forall n | n in root.repr ::
      && n.propertyDeclarations == (if n == root then decl + HoistedChildren(root, |root.children|, D) else map[])
      && n.bindings == (if n == root then KeptOf(root, B, comp, S) + RelocatedTree(root, B, comp, S)
                        else KeptOf(n, B, comp, S))
  }

  /** The part of move_declarations that runs once the optimized items are
      simplified and the root's own declarations `decl` are taken: every
      binding of the live tree is fixed up, the descendants' declarations are
      hoisted, both are written into the root, and the list of optimized
      elements is emptied. */
  method HoistIntoRoot(comp: Component, decl: Declarations, ghost S: DeclaredNames, ghost B: BindingsSnapshot,
                       ghost D: DeclarationsSnapshot)
    requires comp.root.Valid() && comp.root.repr <= comp.elements
    requires S == Declared(comp.elements)
    requires BindingsFrom(comp.root.repr, B) && AllLinked(comp.root.repr, B, comp)
    requires DeclarationsFrom(comp.root.repr - {comp.root}, D)
    modifies comp`optimized, comp.root.repr`bindings, comp.root.repr`propertyDeclarations
    ensures comp.optimized == []
    ensures Moved(comp.root, comp, decl, S, B, D)
  {
    var root := comp.root;
    var newRootBindings := FixupBindingsRecursive(root, comp, S, B, map[]);
    EmptyUnion(RelocatedTree(root, B, comp, S));
    assert root in root.repr;
    StoreIntoRoot(root, comp, decl, newRootBindings, S, B, D);
    comp.optimized := [];
  }

  /** The end of move_declarations, once the bindings are fixed up: the
      descendants' declarations are hoisted into `decl`, which becomes the
      root's declarations, and the relocated bindings `newRootBindings` are
      merged into the root's bindings. */
  method StoreIntoRoot(root: Element, comp: Component, decl: Declarations, newRootBindings: Bindings,
                       ghost S: DeclaredNames, ghost B: BindingsSnapshot, ghost D: DeclarationsSnapshot)
    requires root.Valid() && DeclarationsFrom(root.repr - {root}, D)
    requires root.bindings == KeptOf(root, B, comp, S) && AllKept(root.repr - {root}, B, comp, S)
    requires newRootBindings == RelocatedTree(root, B, comp, S)
    modifies root.repr`propertyDeclarations, root`bindings
    ensures Moved(root, comp, decl, S, B, D)
  {
    var decl' := MoveDeclarationsRecursive(root, D, decl);
    root.propertyDeclarations := decl';
    root.bindings := root.bindings + newRootBindings;
    MovedFrom(root, comp, decl, S, B, D);
  }

  /** `Moved` from what the root holds and what its descendants hold. */
  lemma MovedFrom(root: Element, comp: Component, decl: Declarations, S: DeclaredNames, B: BindingsSnapshot,
                  D: DeclarationsSnapshot)
    requires root.Valid()
    requires root.propertyDeclarations == decl + HoistedChildren(root, |root.children|, D)
    requires root.bindings == KeptOf(root, B, comp, S) + RelocatedTree(root, B, comp, S)
    requires AllEmpty(root.repr - {root}) && AllKept(root.repr - {root}, B, comp, S)
    ensures Moved(root, comp, decl, S, B, D)
  {
    forall n | n in root.repr
      ensures n.propertyDeclarations == (if n == root then decl + HoistedChildren(root, |root.children|, D) else map[])
      ensures n.bindings == (if n == root then KeptOf(root, B, comp, S) + RelocatedTree(root, B, comp, S)
                             else KeptOf(n, B, comp, S))
    {
      if n != root {
        assert n in root.repr - {root};
      }
    }
  }

  /** What the snapshots of a component's fields say about its live tree and
      its optimized trees on entry to the pass. */
  lemma SnapshotFacts(comp: Component, B: BindingsSnapshot, D: DeclarationsSnapshot, T: BaseTypeSnapshot)
    requires comp.Valid()
    requires BindingsFrom(comp.elements, B) && DeclarationsFrom(comp.elements, D) && BaseTypesFrom(comp.elements, T)
    requires forall n | n in ForestRepr(comp.optimized) :: !BaseTypeAt(T, n).ComponentType?
    ensures comp.root in comp.elements && comp.root !in ForestRepr(comp.optimized)
    ensures comp.root.propertyDeclarations == DeclarationsAt(D, comp.root)
    ensures AllSettled(ForestRepr(comp.optimized), D, T)
    ensures BindingsFrom(comp.root.repr, B)
    ensures DeclarationsFrom(comp.elements - {comp.root} - ForestRepr(comp.optimized), D)
  {
    assert comp.root in comp.root.repr;
  }

  /** move_declarations: the whole pass over one component. `B`, `D` and `T`
      record the bindings, declarations and base types of its elements on entry. */
  method MoveDeclarations(comp: Component, ghost B: BindingsSnapshot, ghost D: DeclarationsSnapshot,
                          ghost T: BaseTypeSnapshot)
    requires comp.Valid()
    requires BindingsFrom(comp.elements, B) && DeclarationsFrom(comp.elements, D) && BaseTypesFrom(comp.elements, T)
    requires AllLinked(comp.root.repr, B, comp)
    requires forall n | n in ForestRepr(comp.optimized) :: !BaseTypeAt(T, n).ComponentType?
    modifies comp`optimized, comp.root.repr`bindings, comp.root.repr`propertyDeclarations
    modifies ForestRepr(comp.optimized)`propertyDeclarations, ForestRepr(comp.optimized)`baseType
    ensures comp.optimized == []
    ensures Moved(comp.root, comp, DeclarationsAt(D, comp.root),
                  NamesAtFixup(comp.elements, comp.root, old(ForestRepr(comp.optimized)), D, T), B, D)
    ensures AllSimplified(old(ForestRepr(comp.optimized)), D, T)
  {
    var root, items := comp.root, comp.optimized;
    ghost var optimized := ForestRepr(items);
    ghost var S := NamesAtFixup(comp.elements, root, optimized, D, T);
    SnapshotFacts(comp, B, D, T);
    ForestAllocated(items);
    assert root.repr !! optimized;
    SimplifyOptimizedItems(items, D, T);
    var decl := TakeFromElement(root);
    assert decl == DeclarationsAt(D, root);
    DeclaredAtFixup(comp.elements, root, optimized, D, T);
    assert DeclarationsFrom(root.repr - {root}, D);
    HoistIntoRoot(comp, decl, S, B, D);
  }

  // ---------------------------------------------------------------------
  // The pass as its comment on simplify_optimized_items intends it
  // ---------------------------------------------------------------------

  /** The declarations each element of `U` holds once simplified. */
  ghost function SimplifiedSnapshot(U: set<Element>, D: DeclarationsSnapshot, T: BaseTypeSnapshot)
    : DeclarationsSnapshot
  {
    map n | n in U :: DeclarationsAt(D, n) + BaseDeclarations(BaseTypeAt(T, n))
  }

  /** Simplified elements hold the declarations of `SimplifiedSnapshot`. */
  lemma SimplifiedFrom(U: set<Element>, D: DeclarationsSnapshot, T: BaseTypeSnapshot)
    requires AllSimplified(U, D, T)
    ensures DeclarationsFrom(U, SimplifiedSnapshot(U, D, T))
  {
  }

  /** The renamed declarations of the trees of `items`, in list order. */
  ghost function HoistedForest(items: seq<Element>, D: DeclarationsSnapshot): Declarations
    requires forall i | 0 <= i < |items| :: items[i].Valid()
  {
    if items == [] then map[] else HoistedForest(items[..|items| - 1], D) + HoistedTree(items[|items| - 1], D)
  }

  /** The renamed declarations of the tree at `n`, read in place: the
      traversal of move_declarations_recursive without the takes. */
  method CollectTree(n: Element, ghost D: DeclarationsSnapshot) returns (r: Declarations)
    requires n.Valid() && DeclarationsFrom(n.repr, D)
    ensures r == HoistedTree(n, D)
    decreases n.repr
  {
    assert n in n.repr;
    r := Renamed(n.id, n.propertyDeclarations);
    ChildrenRepr(n);
    for i := 0 to |n.children|
      invariant r == Renamed(n.id, DeclarationsAt(D, n)) + HoistedChildren(n, i, D)
    {
      var c := n.children[i];
      ChildInRepr(n, i);
      assert DeclarationsFrom(c.repr, D);
      var t := CollectTree(c, D);
      UnionAssoc(Renamed(n.id, DeclarationsAt(D, n)), HoistedChildren(n, i, D), t);
      r := r + t;
    }
  }

  /** The declarations of the optimized trees, renamed. They are read rather
      than taken: the optimized elements are released once the list is emptied. */
  method CollectOptimized(items: seq<Element>, ghost D: DeclarationsSnapshot) returns (extra: Declarations)
    requires forall i | 0 <= i < |items| :: items[i].Valid()
    requires DeclarationsFrom(ForestRepr(items), D)
    ensures extra == HoistedForest(items, D)
  {
    extra := map[];
    for i := 0 to |items|
      invariant extra == HoistedForest(items[..i], D)
    {
      HoistedForestStep(items, i, D);
      var t := CollectTree(items[i], D);
      extra := extra + t;
    }
    assert items[..|items|] == items;
  }

  /** The trees of the first `i + 1` items hoist those of the first `i` and
      then the tree of item `i`, whose declarations `D` records. */
  lemma HoistedForestStep(items: seq<Element>, i: nat, D: DeclarationsSnapshot)
    requires i < |items| && forall j | 0 <= j < |items| :: items[j].Valid()
    requires DeclarationsFrom(ForestRepr(items), D)
    ensures DeclarationsFrom(items[i].repr, D)
    ensures HoistedForest(items[..i + 1], D) == HoistedForest(items[..i], D) + HoistedTree(items[i], D)
  {
    ForestPrefix(items, i);
    assert items[..i + 1][..i] == items[..i];
  }

  /** move_declarations with the declarations of the simplified optimized
      elements also merged, renamed, into the root, as the comment on
      simplify_optimized_items says they should be: every reference that the
      fixup redirects to the root then names a declaration of the root. */
  method MoveDeclarationsIntended(comp: Component, ghost B: BindingsSnapshot, ghost D: DeclarationsSnapshot,
                                  ghost T: BaseTypeSnapshot)
    requires comp.Valid()
    requires BindingsFrom(comp.elements, B) && DeclarationsFrom(comp.elements, D) && BaseTypesFrom(comp.elements, T)
    requires AllLinked(comp.root.repr, B, comp)
    requires forall n | n in ForestRepr(comp.optimized) :: !BaseTypeAt(T, n).ComponentType?
    modifies comp`optimized, comp.root.repr`bindings, comp.root.repr`propertyDeclarations
    modifies ForestRepr(comp.optimized)`propertyDeclarations, ForestRepr(comp.optimized)`baseType
    ensures comp.optimized == []
    ensures Moved(comp.root, comp,
                  DeclarationsAt(D, comp.root)
                  + HoistedForest(old(comp.optimized), SimplifiedSnapshot(old(ForestRepr(comp.optimized)), D, T)),
                  NamesAtFixup(comp.elements, comp.root, old(ForestRepr(comp.optimized)), D, T), B, D)
  {
    var root, items := comp.root, comp.optimized;
    ghost var optimized := ForestRepr(items);
    ghost var S := NamesAtFixup(comp.elements, root, optimized, D, T);
    SnapshotFacts(comp, B, D, T);
    ForestAllocated(items);
    SimplifyOptimizedItems(items, D, T);
    var decl := TakeFromElement(root);
    assert decl == DeclarationsAt(D, root);
    DeclaredAtFixup(comp.elements, root, optimized, D, T);
    assert DeclarationsFrom(root.repr - {root}, D);
    SimplifiedFrom(optimized, D, T);
    var extra := CollectOptimized(items, SimplifiedSnapshot(optimized, D, T));
    HoistIntoRoot(comp, decl + extra, S, B, D);
  }
}
