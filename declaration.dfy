/** The part of the declaration graph the marker reads: a finite tree of declarations,
    each with its kind, its access level and whether that level was written, its written
    modifier tokens, whether the compiler synthesised it, and its nested declarations. */
module Declaration {
  import opened AccessLevel

  /** Identity of a declaration object in the graph. */
  type DeclId = nat

  /** The declaration kinds that the marker and its tests distinguish. */
  datatype Kind =
    | Class | Struct | Enum | Protocol | EnumElement
    | VarInstance | VarStatic | FunctionMethodInstance | FunctionMethodStatic
    | ExtensionClass | ExtensionStruct | ExtensionEnum | ExtensionProtocol
    | Other

  /** The kinds of extension declarations. */
  const ExtensionKinds: set<Kind> := {ExtensionClass, ExtensionStruct, ExtensionEnum, ExtensionProtocol}

  /** `kind.isExtensionKind`: the kind is one of the four extension kinds. */
  predicate IsExtensionKind(k: Kind): (r: bool)
    ensures r <==> k in ExtensionKinds
  {
    k.ExtensionClass? || k.ExtensionStruct? || k.ExtensionEnum? || k.ExtensionProtocol?
  }

  /** `decl.accessibility`: the effective level and whether it was written in source. */
  datatype DeclarationAccessibility = DeclarationAccessibility(value: Accessibility, isExplicit: bool)

  datatype Decl = Decl(
    id: DeclId,
    kind: Kind,
    accessibility: DeclarationAccessibility,
    modifiers: seq<string>,
    isImplicit: bool,
    declarations: seq<Decl>)

  /** Ids of `d` and of everything nested in it. */
  function SubtreeIds(d: Decl): (r: set<DeclId>)
    ensures d.id in r
    decreases d
  {
    {d.id} + ForestIds(d.declarations)
  }

  /** Ids of every declaration in the trees `ds`. */
  function ForestIds(ds: seq<Decl>): (r: set<DeclId>)
    ensures forall i :: 0 <= i < |ds| ==> ds[i].id in r
    decreases ds
  {
    if ds == [] then {} else SubtreeIds(ds[0]) + ForestIds(ds[1..])
  }

  /** `d` and every declaration nested in it. */
  function Nodes(d: Decl): (r: set<Decl>)
    ensures d in r
    ensures forall a :: a in r ==> a.id in SubtreeIds(d)
    decreases d
  {
    {d} + ForestNodes(d.declarations)
  }

  /** Every declaration in the trees `ds`. */
  function ForestNodes(ds: seq<Decl>): (r: set<Decl>)
    ensures forall i :: 0 <= i < |ds| ==> ds[i] in r
    ensures forall a :: a in r ==> a.id in ForestIds(ds)
    decreases ds
  {
    if ds == [] then {} else Nodes(ds[0]) + ForestNodes(ds[1..])
  }

  /** No id occurs twice in the tree `d`: each declaration is its own object. */
  predicate UniqueTree(d: Decl)
    decreases d
  {
    d.id !in ForestIds(d.declarations) && UniqueForest(d.declarations)
  }

  /** No id occurs twice in the trees `ds`, within one tree or across two. */
  predicate UniqueForest(ds: seq<Decl>)
    decreases ds
  {
    ds == [] ||
    (UniqueTree(ds[0]) && SubtreeIds(ds[0]) !! ForestIds(ds[1..]) && UniqueForest(ds[1..]))
  }

  /** In a forest without repeated ids, the trees at two different positions share no id. */
  lemma {:induction false} UniqueForestDisjoint(ds: seq<Decl>, i: nat, j: nat)
    requires UniqueForest(ds) && i < |ds| && j < |ds| && i != j
    ensures UniqueTree(ds[i])
    ensures SubtreeIds(ds[i]) !! SubtreeIds(ds[j])
    decreases ds
  {
    if i == 0 {
      ForestIdsContains(ds[1..], j - 1);
    } else if j == 0 {
      ForestIdsContains(ds[1..], i - 1);
      UniqueForestTree(ds[1..], i - 1);
    } else {
      UniqueForestDisjoint(ds[1..], i - 1, j - 1);
    }
  }

  /** Every tree of a forest without repeated ids has none either. */
  lemma {:induction false} UniqueForestTree(ds: seq<Decl>, i: nat)
    requires UniqueForest(ds) && i < |ds|
    ensures UniqueTree(ds[i])
    decreases ds
  {
    if i > 0 {
      UniqueForestTree(ds[1..], i - 1);
    }
  }

  /** The ids of one tree of a forest are ids of the forest. */
  lemma {:induction false} ForestIdsContains(ds: seq<Decl>, i: nat)
    requires i < |ds|
    ensures SubtreeIds(ds[i]) <= ForestIds(ds)
    decreases ds
  {
    if i > 0 {
      ForestIdsContains(ds[1..], i - 1);
    }
  }

  /** The declarations of one tree of a forest are declarations of the forest. */
  lemma {:induction false} ForestNodesContains(ds: seq<Decl>, i: nat)
    requires i < |ds|
    ensures Nodes(ds[i]) <= ForestNodes(ds)
    decreases ds
  {
    if i > 0 {
      ForestNodesContains(ds[1..], i - 1);
    }
  }

  /** In a tree without repeated ids, an id names one declaration. */
  lemma {:induction false} UniqueTreeNodes(d: Decl, a: Decl, b: Decl)
    requires UniqueTree(d) && a in Nodes(d) && b in Nodes(d) && a.id == b.id
    ensures a == b
    decreases d, 1
  {
    if a != d && b != d {
      UniqueForestNodes(d.declarations, a, b);
    } else if a != d || b != d {
      assert false;
    }
  }

  /** In a forest without repeated ids, an id names one declaration. */
  lemma {:induction false} UniqueForestNodes(ds: seq<Decl>, a: Decl, b: Decl)
    requires UniqueForest(ds) && a in ForestNodes(ds) && b in ForestNodes(ds) && a.id == b.id
    ensures a == b
    decreases ds, 0
  {
    var d := ds[0];
    if a in Nodes(d) && b in Nodes(d) {
      UniqueTreeNodes(d, a, b);
    } else if a in Nodes(d) || b in Nodes(d) {
      assert false;
    } else {
      UniqueForestNodes(ds[1..], a, b);
    }
  }
}
