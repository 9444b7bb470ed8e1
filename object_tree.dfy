/**
 The part of the compiler's object tree that the move-declarations pass reads and
 writes: elements with their declarations, bindings, children and base type;
 components with a root element and a side list of optimized elements; and
 binding expressions whose property and signal references point back, weakly,
 at a component and an element.
 */
module ObjectTree {

  /** The type of a property. The compiler's type enumeration is kept abstract:
      the pass only copies property types around. */
  datatype PropType = PropType(name: string)

  /** The fields of a property declaration other than its type. The pass never
      inspects them; it only creates declarations with their default value. */
  datatype DeclarationMetadata = DefaultMetadata | SourceMetadata(node: nat)

  datatype PropertyDeclaration = PropertyDeclaration(propertyType: PropType, metadata: DeclarationMetadata)

  /** A builtin element type: a static table from property names to types. */
  datatype BuiltinElement = BuiltinElement(name: string, properties: map<string, PropType>)

  /** The base type of an element. `OtherType` stands for every other variant
      of the compiler's type enumeration; `Invalid` is its default value. */
  datatype BaseType =
    | Invalid
    | ComponentType(component: Component)
    | Builtin(builtin: BuiltinElement)
    | OtherType(name: string)

  /** A weak handle to a component and an element, with a property or signal
      name. A null handle is one that no longer upgrades. */
  datatype NamedReference = NamedReference(component: Component?, element: Element?, name: string)

  /** Binding expressions. Only the two reference kinds matter to the pass;
      every other expression is an operator over its immediate sub-expressions. */
  datatype Expr =
    | PropertyReference(ref: NamedReference)
    | SignalReference(ref: NamedReference)
    | Operation(operator: string, operands: seq<Expr>)

  /** The references of an expression, left to right. */
  ghost function References(x: Expr): seq<NamedReference>
  {
    match x
    case PropertyReference(r) => [r]
    case SignalReference(r) => [r]
    case Operation(_, xs) => ReferencesAll(xs)
  }

  ghost function ReferencesAll(xs: seq<Expr>): seq<NamedReference>
  {
    if xs == [] then [] else References(xs[0]) + ReferencesAll(xs[1..])
  }

  /** An expression with the target of every reference forgotten (its element
      and name); the kind of each reference and its component are kept. */
  function Erase(x: Expr): Expr
  {
    match x
    case PropertyReference(r) => PropertyReference(NamedReference(r.component, null, ""))
    case SignalReference(r) => SignalReference(NamedReference(r.component, null, ""))
    case Operation(op, xs) => Operation(op, EraseAll(xs))
  }

  function EraseAll(xs: seq<Expr>): seq<Expr>
  {
    if xs == [] then [] else [Erase(xs[0])] + EraseAll(xs[1..])
  }

  /** Every weak handle in a reference upgrades, and a reference into `comp`
      names an element that `comp` owns. */
  ghost predicate LinkedRef(r: NamedReference, comp: Component)
  {
    r.component != null && r.element != null && (r.component == comp ==> r.element in comp.elements)
  }

  ghost predicate Linked(x: Expr, comp: Component)
  {
    match x
    case PropertyReference(r) => LinkedRef(r, comp)
    case SignalReference(r) => LinkedRef(r, comp)
    case Operation(_, xs) => LinkedAll(xs, comp)
  }

  ghost predicate LinkedAll(xs: seq<Expr>, comp: Component)
  {
    xs == [] || (Linked(xs[0], comp) && LinkedAll(xs[1..], comp))
  }

  /** Every element of the trees rooted at `cs`. */
  ghost function ForestRepr(cs: seq<Element>): set<Element>
  {
    if cs == [] then {} else ForestRepr(cs[..|cs| - 1]) + cs[|cs| - 1].repr
  }

  class Element {
    const id: string
    var baseType: BaseType
    var propertyDeclarations: map<string, PropertyDeclaration>
    var bindings: map<string, Expr>
    /** The pass never changes the shape of the tree, so the children are constant. */
    const children: seq<Element>
    /** This element and all its descendants. */
    ghost const repr: set<Element>

    /** The element is the root of a finite tree: the children's subtrees are
        pairwise disjoint and do not contain this element. */
    ghost predicate Valid()
      decreases repr
    {
      && repr == {this} + ForestRepr(children)
      && (forall i | 0 <= i < |children| :: this !in children[i].repr)
      && (forall i, j | 0 <= i < j < |children| :: children[i].repr !! children[j].repr)
      && (forall i | 0 <= i < |children| :: children[i].repr < repr && children[i].Valid())
    }

    constructor (id: string, baseType: BaseType, propertyDeclarations: map<string, PropertyDeclaration>,
                 bindings: map<string, Expr>, children: seq<Element>)
      requires forall i | 0 <= i < |children| :: children[i].Valid()
      requires forall i, j | 0 <= i < j < |children| :: children[i].repr !! children[j].repr
      ensures Valid()
      ensures this.id == id && this.baseType == baseType && this.children == children
      ensures this.propertyDeclarations == propertyDeclarations && this.bindings == bindings
      ensures repr == {this} + ForestRepr(children)
    {
      this.id := id;
      this.baseType := baseType;
      this.propertyDeclarations := propertyDeclarations;
      this.bindings := bindings;
      this.children := children;
      this.repr := {this} + ForestRepr(children);
      forall i | 0 <= i < |children| ensures children[i].repr <= ForestRepr(children) {
        InForest(children, i);
      }
    }
  }

  class Component {
    /** The root of the live element tree. */
    const root: Element
    /** Elements removed from the live tree by inlining, still reachable through references. */
    var optimized: seq<Element>
    /** Every element this component owns: the live tree and the optimized trees. */
    ghost const elements: set<Element>

    ghost predicate Valid()
      reads this
    {
      && root.Valid()
      && (forall i | 0 <= i < |optimized| :: optimized[i].Valid())
      && root.repr !! ForestRepr(optimized)
      && root.repr <= elements
      && ForestRepr(optimized) <= elements
    }

    constructor (root: Element, optimized: seq<Element>)
      requires root.Valid()
      requires forall i | 0 <= i < |optimized| :: optimized[i].Valid()
      requires root.repr !! ForestRepr(optimized)
      ensures Valid()
      ensures this.root == root && this.optimized == optimized
      ensures elements == root.repr + ForestRepr(optimized)
    {
      this.root := root;
      this.optimized := optimized;
      this.elements := root.repr + ForestRepr(optimized);
    }
  }

  /** Facts about the trees that the traversals need. */
  lemma {:induction false} InForest(cs: seq<Element>, i: int)
    requires 0 <= i < |cs|
    ensures cs[i].repr <= ForestRepr(cs)
  {
    if i < |cs| - 1 {
      InForest(cs[..|cs| - 1], i);
    }
  }

  lemma {:induction false} ForestMember(cs: seq<Element>, n: Element) returns (i: int)
    requires n in ForestRepr(cs)
    ensures 0 <= i < |cs| && n in cs[i].repr
  {
    if n !in cs[|cs| - 1].repr {
      i := ForestMember(cs[..|cs| - 1], n);
    } else {
      i := |cs| - 1;
    }
  }

  lemma {:induction false} ForestAllocated(cs: seq<Element>)
    ensures forall n | n in ForestRepr(cs) :: allocated(n)
  {
    if cs != [] {
      ForestAllocated(cs[..|cs| - 1]);
    }
  }

  lemma ChildInRepr(n: Element, i: int)
    requires n.Valid() && 0 <= i < |n.children|
    ensures n.children[i].Valid()
    ensures n.children[i].repr <= n.repr - {n}
    ensures n.children[i] in n.children[i].repr
  {
    InForest(n.children, i);
  }

  lemma ChildrenRepr(n: Element)
    requires n.Valid()
    ensures ForestRepr(n.children) == n.repr - {n}
    ensures forall i | 0 <= i < |n.children| :: n.children[i].Valid() && n.children[i].repr <= n.repr - {n}
  {
    forall i | 0 <= i < |n.children| ensures n.children[i].Valid() && n.children[i].repr <= n.repr - {n} {
      ChildInRepr(n, i);
    }
    forall m | m in ForestRepr(n.children) ensures m != n {
      var i := ForestMember(n.children, m);
    }
  }

  /** The trees of the first `i + 1` items are those of the first `i` and the
      tree of item `i`. */
  lemma ForestPrefix(cs: seq<Element>, i: int)
    requires 0 <= i < |cs|
    ensures ForestRepr(cs[..i + 1]) == ForestRepr(cs[..i]) + cs[i].repr
    ensures ForestRepr(cs[..i]) <= ForestRepr(cs)
    ensures cs[i].repr <= ForestRepr(cs)
  {
    assert cs[..i + 1][..i] == cs[..i];
    InForest(cs, i);
    forall m | m in ForestRepr(cs[..i]) ensures m in ForestRepr(cs) {
      var j := ForestMember(cs[..i], m);
      InForest(cs, j);
    }
  }

  /** For the children of a tree, child `i`'s tree is moreover disjoint from
      the trees of the children before it. */
  lemma ChildrenPrefix(n: Element, i: int)
    requires n.Valid() && 0 <= i < |n.children|
    ensures n.children[i].Valid() && n.children[i] in n.children[i].repr
    ensures n.children[i].repr <= n.repr - {n}
    ensures ForestRepr(n.children[..i + 1]) == ForestRepr(n.children[..i]) + n.children[i].repr
    ensures ForestRepr(n.children[..i]) !! n.children[i].repr
    ensures ForestRepr(n.children[..i]) <= ForestRepr(n.children)
    ensures n.children[i].repr <= ForestRepr(n.children)
  {
    var cs := n.children;
    ChildInRepr(n, i);
    ForestPrefix(cs, i);
    forall m | m in ForestRepr(cs[..i]) ensures m !in cs[i].repr {
      var j := ForestMember(cs[..i], m);
    }
  }
}
