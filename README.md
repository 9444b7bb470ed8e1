# Move declarations: a verified model

This project models the compiler pass in
`sixtyfps_compiler/passes/move_declarations.rs`. The pass runs on one
component. Every property and signal declaration of the elements of the
component's live tree moves to the root element. Each moved declaration is
renamed `<element id>_<name>`.

The pass works in four steps:

1. **Simplify the optimized elements.** These are elements that inlining
   removed from the tree but that references may still point at. Each one
   takes its base type, and when that type is a builtin it declares every
   builtin property with default metadata.
2. **Take the root's own declarations.** They keep their names.
3. **Fix up every binding of the live tree.** A property or signal reference
   into this component is redirected to the root under the hoisted name when
   the referenced element declares the name. The binding of a declared name
   then leaves its element and goes to the root under the hoisted name.
4. **Hoist the declarations.** The descendants' declarations are merged into
   the root's, renamed, in depth-first order. The relocated bindings are
   merged into the root's bindings, and the component's list of optimized
   elements is emptied.

When two entries get the same key, the later one silently overwrites the
earlier one, exactly as Rust's `HashMap::extend` and `insert` do. The code has
no collision check, and hoisted names clash when an id contains an underscore:
element `a` with property `b_c` and element `a_b` with property `c` both give
`a_b_c` (`MapNameCollision`). The model overwrites, as the code does, so the
traversal order decides which entry survives. The model keeps the code's
order: the element first, then each child's tree in turn. Exact-content lemmas
such as `HoistedExact` and `MovedToRoot` carry the hypothesis `CollisionFree`:
distinct ids with no underscore.

Step 1 simplifies the optimized elements so that their properties can be
moved to the root, as the comment on `simplify_optimized_items` says, and
step 3 redirects references to those properties to the root. Step 4,
however, walks only the live tree, so the root never receives them
(`DanglingAfterPass`, under "Findings"). `MoveDeclarationsIntended` also
hoists the declarations of the simplified optimized elements, and with it
every redirected reference names a declaration of the root
(`IntendedResolves`).

## Files and design

- **`object_tree.dfy` (module `ObjectTree`):** the part of the object tree
  the pass touches. The compiler's own `object_tree.rs` is not part of this
  model, so its shape is inferred from how the pass uses it.
  - `Element` is a class. `baseType`, `propertyDeclarations` and `bindings`
    are mutable fields; `id` and `children` are constants, since the pass
    never writes them.
  - The ghost field `repr` (the element and its descendants) and `Valid()`
    make the element the root of a finite tree.
  - `Component` has a constant root, a mutable `optimized` list, and the ghost
    set `elements` of every element it owns.
  - References hold nullable handles to a component and an element. A null
    handle is a weak pointer that no longer upgrades.
  - Expressions are property references, signal references, and operators
    over sub-expressions.
- **`move_declarations.dfy` (module `MoveDeclarations`):** the pass.
  - `MapName` and `Fixup` are functions. `Fixup` reads the current
    declarations and is proved equal to the pure `Rewrite`, which works on a
    snapshot of declared names.
  - The rest is imperative and mirrors the source's loops and recursion:
    `TakeFromElement`, `SimplifyOptimizedItems`, `FixupBindingsRecursive`,
    `MoveDeclarationsRecursive` and `MoveDeclarations`. Each loop body and each
    block of the source is a method of its own, specified by the loop state it
    keeps (`FixupLoop`, `HoistLoop`).
  - The ghost parameters `B`, `D` and `T` snapshot the bindings, declarations
    and base types on entry. The results are stated against them with the
    specification functions:
    - `Kept` and `Relocated` split one element's bindings;
    - `RelocatedTree` and `HoistedChildren` merge a tree's relocated bindings
      and hoisted declarations in traversal order;
    - `NamesAtFixup` gives the names declared while the bindings are fixed up;
    - `Moved` is the final state of the live tree.
  - `MoveDeclarationsIntended` is the corrected pass described under
    "Findings". `CollectOptimized` and `CollectTree` read the optimized trees'
    declarations, and `HoistedForest` specifies the result.
- **`move_declarations_lemmas.dfy` (module `MoveDeclarationsLemmas`):**
  properties of those specification functions, and of the final state that
  `Moved` describes.

## Model

| member | source | states |
|---|---|---|
| `MoveDeclarations.TakeFromElement` | sixtyfps_compiler/passes/move_declarations.rs:11-13 | returns the element's old declarations and leaves it with none |
| `MoveDeclarations.MoveDeclarations` | sixtyfps_compiler/passes/move_declarations.rs:16-69 | the optimized list ends empty and every optimized element is simplified; on the live tree, with the names `NamesAtFixup` gives: the root holds its original declarations merged with every descendant's hoisted declarations; each descendant declares nothing and keeps its fixed-up bindings of undeclared names; the root also gains the relocated bindings of the whole tree, a later entry overwriting an equal key |
| `MoveDeclarations.DeclaredAtFixup` | sixtyfps_compiler/passes/move_declarations.rs:17-19 | once the optimized items are simplified and the root's declarations taken, the names every element declares are exactly `NamesAtFixup` |
| `MoveDeclarations.SnapshotFacts` | sixtyfps_compiler/passes/move_declarations.rs:16-19 | on entry the root is live, not optimized, and holds its snapshot declarations; every optimized element is settled (`AllSettled`: not yet simplified, or already in its simplified form), the state `SimplifyOptimizedItems` starts from |
| `MoveDeclarations.FixupBindingsRecursive` | sixtyfps_compiler/passes/move_declarations.rs:21-42 | every element of the tree keeps exactly its fixed-up bindings of undeclared names; the accumulated root bindings gain the tree's relocated bindings, element first and then each child's tree |
| `MoveDeclarations.FixupElementBindings` | sixtyfps_compiler/passes/move_declarations.rs:27-38 | the element's bindings are taken, split and written back as the kept part; the relocated part is inserted into the root bindings |
| `MoveDeclarations.PartitionBindings` | sixtyfps_compiler/passes/move_declarations.rs:28-37 | the loop over one element's bindings returns the fixed-up bindings of undeclared names, and the root bindings with the fixed-up bindings of declared names inserted under their hoisted names |
| `MoveDeclarations.FixupChildrenBindings` | sixtyfps_compiler/passes/move_declarations.rs:39-41 | every descendant keeps its own kept bindings; the root bindings gain the children's trees' relocated bindings in child order |
| `MoveDeclarations.FixupChild` | sixtyfps_compiler/passes/move_declarations.rs:40 | one turn of the children loop extends the loop state by child `i`'s tree |
| `MoveDeclarations.MoveDeclarationsRecursive` | sixtyfps_compiler/passes/move_declarations.rs:47-55 | every descendant ends with no declarations; the accumulator gains every descendant's declarations, renamed, in depth-first order, a later key overwriting an earlier one |
| `MoveDeclarations.HoistChild` | sixtyfps_compiler/passes/move_declarations.rs:49-53 | taking child `i`'s declarations, merging them renamed and recursing extends the loop state by child `i`'s tree |
| `MoveDeclarations.HoistStep` | sixtyfps_compiler/passes/move_declarations.rs:48-54 | merging child `i`'s renamed declarations and then its descendants' is the same as merging the hoisted declarations of child `i`'s tree |
| `MoveDeclarations.HoistIntoRoot` | sixtyfps_compiler/passes/move_declarations.rs:44-68 | after the fixup, the hoisting and the stores into the root, the live tree is in the `Moved` state and the optimized list is empty |
| `MoveDeclarations.StoreIntoRoot` | sixtyfps_compiler/passes/move_declarations.rs:57-63 | the root's declarations become its own merged with the hoisted ones; its bindings are extended by the relocated ones, which overwrite on equal keys |
| `MoveDeclarations.MapNameLayout` | sixtyfps_compiler/passes/move_declarations.rs:71-73 | a hoisted name is the element id, one underscore, then the original name |
| `MoveDeclarations.MapNameInjective` | sixtyfps_compiler/passes/move_declarations.rs:71-73 | for a fixed element, distinct names get distinct hoisted names |
| `MoveDeclarations.Fixup` | sixtyfps_compiler/passes/move_declarations.rs:75-96 | reading the declarations in place gives the same expression as the reference rewrite `Rewrite` on a snapshot of the declared names |
| `MoveDeclarations.FixupAll` | sixtyfps_compiler/passes/move_declarations.rs:95 | the same, for every sub-expression visited, in order |
| `MoveDeclarations.SimplifyOptimizedItems` | sixtyfps_compiler/passes/move_declarations.rs:101-141 | every element of the optimized trees ends with base type `Invalid`, and with its builtin base type's default declarations merged into its own |
| `MoveDeclarations.SimplifyTree` | sixtyfps_compiler/passes/move_declarations.rs:103-139 | one item and, recursively, its children are simplified |
| `MoveDeclarations.SimplifyElement` | sixtyfps_compiler/passes/move_declarations.rs:103-138 | the base-type loop: a builtin adds one declaration per builtin property and then stops on `Invalid`; any other type but a component adds nothing |
| `MoveDeclarations.RenamedUpdate` | sixtyfps_compiler/passes/move_declarations.rs:33 | inserting an entry and then renaming equals renaming and then inserting it under its hoisted name |
| `MoveDeclarations.MoveDeclarationsIntended` | sixtyfps_compiler/passes/move_declarations.rs:98-100 | the pass with the declarations of the simplified optimized elements also merged, renamed, into the root: the live tree ends in the `Moved` state whose root declarations are the root's own, then the optimized trees' hoisted declarations in list order, then the live descendants' |
| `MoveDeclarations.CollectOptimized` | sixtyfps_compiler/passes/move_declarations.rs:101-102 | reading the optimized trees in list order gives their hoisted declarations, taken from their simplified declarations |
| `MoveDeclarations.CollectTree` | sixtyfps_compiler/passes/move_declarations.rs:47-55 | the depth-first walk of `move_declarations_recursive`, reading instead of taking, gives the tree's hoisted declarations: the element's, then each child's tree in turn |
| `MoveDeclarations.HoistedForestStep` | sixtyfps_compiler/passes/move_declarations.rs:101-102 | the hoisted declarations of the first `i + 1` trees are those of the first `i` followed by tree `i`'s |
| `MoveDeclarations.MovedFrom` | sixtyfps_compiler/passes/move_declarations.rs:57-63 | the root holding its declarations with the hoisted ones and its bindings with the relocated ones, and every descendant emptied and holding its kept bindings, is the `Moved` state |
| `MoveDeclarationsLemmas.MapNameCollision` | sixtyfps_compiler/passes/move_declarations.rs:71-73 | distinct elements can produce the same hoisted name: `a`/`b_c` and `a_b`/`c` |
| `MoveDeclarationsLemmas.MapNameHasUnderscore` | sixtyfps_compiler/passes/move_declarations.rs:72 | every hoisted name contains an underscore |
| `MoveDeclarationsLemmas.MapNameUnique` | sixtyfps_compiler/passes/move_declarations.rs:71-73 | when neither id contains an underscore, the hoisted name determines both the id and the name |
| `MoveDeclarationsLemmas.RenamedEntries` | sixtyfps_compiler/passes/move_declarations.rs:50-51 | renaming moves every entry `p` to `MapName(id, p)` with its value and adds no other key |
| `MoveDeclarationsLemmas.RenamedSize` | sixtyfps_compiler/passes/move_declarations.rs:50-51 | renaming one element's map keeps the number of entries |
| `MoveDeclarationsLemmas.RewriteRefMoves` | sixtyfps_compiler/passes/move_declarations.rs:80-83 | a reference changes if and only if it points into this component at an element that declares its name; it then points at the root under the hoisted name |
| `MoveDeclarationsLemmas.RewriteReferences` | sixtyfps_compiler/passes/move_declarations.rs:75-96 | the references of the rewritten expression are the originals, each rewritten, in the same order |
| `MoveDeclarationsLemmas.RewriteAllReferences` | sixtyfps_compiler/passes/move_declarations.rs:95 | the same for a sequence of sub-expressions |
| `MoveDeclarationsLemmas.RewriteKeepsShape` | sixtyfps_compiler/passes/move_declarations.rs:75-96 | rewriting changes only reference targets: the operators, reference kinds and components stay |
| `MoveDeclarationsLemmas.RewriteUnmoved` | sixtyfps_compiler/passes/move_declarations.rs:80-93 | an expression none of whose references moves is left unchanged |
| `MoveDeclarationsLemmas.OptimizedUnreferenced` | sixtyfps_compiler/passes/move_declarations.rs:143-151 | if every reference to an optimized element names a property the element declares, the rewritten expression refers to no optimized element |
| `MoveDeclarationsLemmas.KeptSpec` | sixtyfps_compiler/passes/move_declarations.rs:31-35 | a caller-friendly restatement of the definition of `Kept`: an element keeps exactly the bindings of the names it does not declare, each fixed up |
| `MoveDeclarationsLemmas.RelocatedSpec` | sixtyfps_compiler/passes/move_declarations.rs:31-33 | a binding goes to the root under its hoisted name if and only if the element declares its name, with its fixed-up value; nothing else is relocated |
| `MoveDeclarationsLemmas.PartitionSize` | sixtyfps_compiler/passes/move_declarations.rs:28-37 | the kept and relocated bindings together are as many as the element's bindings: none lost, none duplicated |
| `MoveDeclarationsLemmas.NothingDeclared` | sixtyfps_compiler/passes/move_declarations.rs:19-31 | an element declaring nothing, as the root is during the fixup, keeps all its bindings and relocates none |
| `MoveDeclarationsLemmas.NamesAtFixupOf` | sixtyfps_compiler/passes/move_declarations.rs:17-19 | a caller-friendly restatement of the definition of `NamesAtFixup`, read through `Names`: during the fixup the root declares nothing, a live element its own names, and an optimized element its own names plus its builtin properties; that these are the names declared in place is `DeclaredAtFixup` |
| `MoveDeclarationsLemmas.SimplifiedDeclarations` | sixtyfps_compiler/passes/move_declarations.rs:121-136 | a caller-friendly restatement of the definition of `Simplified`: a simplified element with a builtin base type declares every builtin property with default metadata, on top of its own declarations; any other keeps its own |
| `MoveDeclarationsLemmas.HoistedTreeOrigin` | sixtyfps_compiler/passes/move_declarations.rs:47-55 | every entry of a tree's hoisted declarations is some element's declaration under that element's hoisted name |
| `MoveDeclarationsLemmas.HoistedChildrenOrigin` | sixtyfps_compiler/passes/move_declarations.rs:48-54 | the same for the trees of the first `i` children, whose entries come from descendants only |
| `MoveDeclarationsLemmas.HoistedTreeCovers` | sixtyfps_compiler/passes/move_declarations.rs:47-55 | every declaration of every element of a tree has its hoisted name among the hoisted declarations |
| `MoveDeclarationsLemmas.HoistedChildrenCovers` | sixtyfps_compiler/passes/move_declarations.rs:48-54 | the same for the trees of the first `i` children |
| `MoveDeclarationsLemmas.HoistedExact` | sixtyfps_compiler/passes/move_declarations.rs:47-55 | without id clashes, the hoisted declarations hold every descendant's declaration unchanged under its hoisted name |
| `MoveDeclarationsLemmas.RelocatedTreeOrigin` | sixtyfps_compiler/passes/move_declarations.rs:21-42 | every relocated binding of a tree is the fixed-up binding of a name that some element declares, under its hoisted name |
| `MoveDeclarationsLemmas.RelocatedChildrenOrigin` | sixtyfps_compiler/passes/move_declarations.rs:39-41 | the same for the trees of the first `i` children |
| `MoveDeclarationsLemmas.RelocatedTreeCovers` | sixtyfps_compiler/passes/move_declarations.rs:21-42 | every binding of a declared name in a tree is relocated under its hoisted name |
| `MoveDeclarationsLemmas.RelocatedChildrenCovers` | sixtyfps_compiler/passes/move_declarations.rs:39-41 | the same for the trees of the first `i` children |
| `MoveDeclarationsLemmas.RelocatedExact` | sixtyfps_compiler/passes/move_declarations.rs:21-42 | without id clashes, each such binding is relocated with its fixed-up value |
| `MoveDeclarationsLemmas.MovedDescendant` | sixtyfps_compiler/passes/move_declarations.rs:38-49 | after the pass a descendant declares nothing and holds exactly the fixed-up bindings of the names it did not declare |
| `MoveDeclarationsLemmas.MovedToRoot` | sixtyfps_compiler/passes/move_declarations.rs:59-63 | after the pass, without id clashes, the root holds each descendant declaration under its hoisted name, and, when that name had a binding, the fixed-up binding too |
| `MoveDeclarationsLemmas.MovedRootDeclarationOrigin` | sixtyfps_compiler/passes/move_declarations.rs:59-61 | after the pass, every root declaration not among the root's own is a descendant's declaration under its hoisted name |
| `MoveDeclarationsLemmas.MovedRootKeeps` | sixtyfps_compiler/passes/move_declarations.rs:59-62 | after the pass, a root declaration or binding whose name has no underscore is never overwritten by a hoisted entry |
| `MoveDeclarationsLemmas.DanglingAfterPass` | sixtyfps_compiler/passes/move_declarations.rs:47-57 | as written, a reference to a declared or builtin property of an optimized element is redirected to the root under the hoisted name, yet without id clashes, and unless the root declared that name itself, the root has no such declaration after the pass |
| `MoveDeclarationsLemmas.HoistedForestCovers` | sixtyfps_compiler/passes/move_declarations.rs:98-102 | every declaration of every element of the optimized trees has its hoisted name among their hoisted declarations |
| `MoveDeclarationsLemmas.IntendedCovers` | sixtyfps_compiler/passes/move_declarations.rs:98-100 | every name the fixup redirects is the hoisted name of a declaration of the root, of an optimized tree or of a live descendant |
| `MoveDeclarationsLemmas.IntendedResolves` | sixtyfps_compiler/passes/move_declarations.rs:98-100 | after the intended pass every reference that the fixup redirects points at the root and names one of the root's declarations |

## Left out

- The windowing backend files under `internal/backends/baseview/` are not
  part of this model. The pass does not use them.
- Reference counts are not modelled, so the debug check
  `assert_optized_item_unused` (strong count 1, weak count 0) is left out.
  `OptimizedUnreferenced` states the property it relies on: after the fixup,
  no expression refers to an optimized element whose referenced names it
  declares.
- A component base type on an optimized element is excluded by
  precondition (`MoveDeclarations`, `SimplifyOptimizedItems`,
  `SimplifyElement`). In the source that arm copies the component's
  declarations and then reaches `todo!`, a panic.
- Weak handles that no longer upgrade are excluded by the precondition
  `Linked`. In the source, `unwrap` panics on them. `Linked` (through
  `LinkedRef`) also asks that a reference into this component name an
  element in its `elements`. The source does not check this; it relies on the
  compiler's invariant that a component's references stay within its own
  elements.
- Only the reference expressions of the compiler's expression type are
  modelled. Every other expression is an operator over its sub-expressions,
  which stands in for the traversal that `visit_mut` performs.
- `Type` and the fields of `PropertyDeclaration` other than its type are
  abstract. The pass only copies them or creates them with default values.
- `HashMap` iteration order is not modelled. `PartitionBindings` takes the
  keys in an arbitrary order (`:|`), and its result does not depend on that
  order because one element's hoisted names are distinct. The order between
  elements, which decides collisions, is the traversal order and is modelled.
- The bindings of optimized elements are not fixed up, and in
  `MoveDeclarations` their declarations are not hoisted, because the pass
  walks only the live tree (see "Findings"). The modifies clause of
  `MoveDeclarations` leaves their bindings untouched.
- `MoveDeclarations`: does not state the final declarations and bindings of
  the live tree directly. It states them through `Moved`, and the content
  facts are the separate lemmas `MovedDescendant`, `MovedToRoot`,
  `MovedRootDeclarationOrigin` and `MovedRootKeeps`.
- `MovedToRoot`: states the exact content of the root only when ids are
  distinct and contain no underscore (`CollisionFree`). Otherwise the source
  lets a later entry overwrite an earlier one, as `MapNameCollision` shows.
- `MoveDeclarationsIntended` reads the declarations of the optimized elements
  instead of taking them, so they keep their simplified declarations; the
  optimized list is emptied all the same.

## Findings

| source | as written | input that shows it | evidently intended | confidence | as-written member | corrected member |
|---|---|---|---|---|---|---|
| sixtyfps_compiler/passes/move_declarations.rs:47-57 | only the live tree's declarations are hoisted into the root, though the fixup redirects references to the declarations of optimized elements to the root | an optimized element `r` with a builtin base type having property `width`, referenced by a live binding as `r.width`: the reference becomes `root.r_width`, which the root does not declare | the comment at lines 98-100: the optimized elements' declarations are moved to the root as well, so every redirected reference names a root declaration (`IntendedResolves`) | medium, not executed | `MoveDeclarationsLemmas.DanglingAfterPass` | `MoveDeclarations.MoveDeclarationsIntended` |
