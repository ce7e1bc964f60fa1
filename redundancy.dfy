/** What the redundant-accessibility pass decides: the per-member decision and, as pure
    functions, the set of declaration ids the whole pass marks. The class in
    `marker.dfy` is proved to add exactly these ids to the graph. */
module Redundancy {
  import opened Wrappers
  import opened Text
  import opened AccessLevel
  import opened Declaration

  /** The text that identifies a setter-specific modifier such as `private(set)`. */
  const SetterMarker: string := "(set)"

  /** `modifiers.first { $0.contains("(set)") }`. */
  function FirstSetterModifier(modifiers: seq<string>): (r: Option<string>)
    ensures r.None? <==> forall i :: 0 <= i < |modifiers| ==> !Contains(modifiers[i], SetterMarker)
    ensures r.Some? ==>
      exists i :: 0 <= i < |modifiers| && modifiers[i] == r.value && Contains(modifiers[i], SetterMarker) &&
        forall j :: 0 <= j < i ==> !Contains(modifiers[j], SetterMarker)
    decreases |modifiers|
  {
    if modifiers == [] then None
    else if Contains(modifiers[0], SetterMarker) then Some(modifiers[0])
    else FirstSetterModifier(modifiers[1..])
  }

  /** The level a declaration's setter modifier names, read as an access level: the first
      modifier containing `(set)`, with `(set)` removed, parsed as a raw value. */
  function SetterAccess(modifiers: seq<string>): (r: Option<Accessibility>)
    ensures r.Some? ==>
      FirstSetterModifier(modifiers).Some? &&
      RemoveAll(FirstSetterModifier(modifiers).value, SetterMarker) == RawValue(r.value)
    ensures r.None? ==>
      FirstSetterModifier(modifiers).None? ||
      forall a :: RawValue(a) != RemoveAll(FirstSetterModifier(modifiers).value, SetterMarker)
  {
    match FirstSetterModifier(modifiers)
    case None => None
    case Some(m) => ParseRawValue(RemoveAll(m, SetterMarker))
  }

  /** `hasRedundantSetterModifier`: the setter modifier, with `(set)` removed, is the raw
      value of the child's own level. */
  function HasRedundantSetterModifier(child: Decl): (r: bool)
    ensures r <==> SetterAccess(child.modifiers) == Some(child.accessibility.value)
  {
    match FirstSetterModifier(child.modifiers)
    case None => false
    case Some(setterModifier) =>
      var setterAccessLevel := RemoveAll(setterModifier, SetterMarker);
      ParseRawValueRoundTrip(child.accessibility.value);
      setterAccessLevel == RawValue(child.accessibility.value)
  }

  /** `shouldFlag` for a child of a scope whose level is `parent`. A public or open child is
      never flagged; any other is flagged when its setter modifier repeats its own level
      (whatever the parent) or when its level is written and equals the parent's. */
  function ShouldFlag(child: Decl, parent: Accessibility): (r: bool)
    ensures r ==> child.accessibility.value != Public && child.accessibility.value != Open
    ensures r <==>
      Rank(child.accessibility.value) <= 2 &&
      (SetterAccess(child.modifiers) == Some(child.accessibility.value) ||
       (child.accessibility.isExplicit && child.accessibility.value == parent))
  {
    if child.accessibility.value != Public && child.accessibility.value != Open then
      HasRedundantSetterModifier(child) ||
      (child.accessibility.isExplicit && child.accessibility.value == parent)
    else
      false
  }

  // ----- The marks of one scan (markRedundantAccessDescendants) -----

  /** The mark a visited child contributes for itself. */
  function SelfMark(parent: Accessibility, child: Decl, isRetained: DeclId -> bool): (r: set<DeclId>)
    ensures r <= {child.id}
    ensures child.id in r <==> ShouldFlag(child, parent) && !isRetained(child.id)
  {
    if ShouldFlag(child, parent) && !isRetained(child.id) then {child.id} else {}
  }

  /** Everything one child of a `parent`-level scope contributes: nothing if it is implicit,
      otherwise its own mark and the marks of a scan of its members in its own context. */
  function ChildMarks(parent: Accessibility, child: Decl, isRetained: DeclId -> bool): (r: set<DeclId>)
    ensures r <= SubtreeIds(child)
    ensures forall x :: x in r ==> !isRetained(x)
    decreases child, 1
  {
    if child.isImplicit then {}
    else SelfMark(parent, child, isRetained) + Scan(child, isRetained)
  }

  /** The marks of scanning the children `cs` of a `parent`-level scope. */
  function ScanChildren(parent: Accessibility, cs: seq<Decl>, isRetained: DeclId -> bool): (r: set<DeclId>)
    ensures r <= ForestIds(cs)
    ensures forall x :: x in r ==> !isRetained(x)
    decreases cs
  {
    if cs == [] then {}
    else ChildMarks(parent, cs[0], isRetained) + ScanChildren(parent, cs[1..], isRetained)
  }

  /** The marks of `markRedundantAccessDescendants(from: decl)`: `decl` itself is never among
      them when its ids are unique. */
  function Scan(decl: Decl, isRetained: DeclId -> bool): (r: set<DeclId>)
    ensures r <= ForestIds(decl.declarations)
    ensures forall x :: x in r ==> !isRetained(x)
    ensures UniqueTree(decl) ==> decl.id !in r
    decreases decl, 0
  {
    ScanChildren(decl.accessibility.value, decl.declarations, isRetained)
  }

  // ----- Extensions and roots (validateExtension, mutate) -----

  /** The self-check of `validateExtension`: an explicit extension whose extended declaration
      resolves to one of the same level, that level being neither public nor open. A failed
      lookup (`None`) only skips this check. */
  function ExtensionSelfMark(ext: Decl, isRetained: DeclId -> bool, extendedDeclaration: Decl -> Option<Decl>): (r: set<DeclId>)
    ensures r <= {ext.id}
    ensures ext.id in r <==>
      ext.accessibility.isExplicit && extendedDeclaration(ext).Some? &&
      ext.accessibility.value == extendedDeclaration(ext).value.accessibility.value &&
      Rank(ext.accessibility.value) <= 2 && !isRetained(ext.id)
  {
    if ext.accessibility.isExplicit &&
       (match extendedDeclaration(ext)
        case None => false
        case Some(extendedDecl) =>
          ext.accessibility.value == extendedDecl.accessibility.value &&
          ext.accessibility.value != Public && ext.accessibility.value != Open) &&
       !isRetained(ext.id)
    then {ext.id} else {}
  }

  /** The marks one root declaration yields: an extension gets its self-check and a scan of
      its members; any other root only the scan of its members. */
  function RootMarks(root: Decl, isRetained: DeclId -> bool, extendedDeclaration: Decl -> Option<Decl>): (r: set<DeclId>)
    ensures r <= SubtreeIds(root)
    ensures forall x :: x in r ==> !isRetained(x)
    ensures Scan(root, isRetained) <= r
  {
    if IsExtensionKind(root.kind) then ExtensionSelfMark(root, isRetained, extendedDeclaration) + Scan(root, isRetained)
    else Scan(root, isRetained)
  }

  /** The marks of all root declarations `roots`. */
  function MarksOf(roots: seq<Decl>, isRetained: DeclId -> bool, extendedDeclaration: Decl -> Option<Decl>): (r: set<DeclId>)
    ensures r <= ForestIds(roots)
    ensures forall x :: x in r ==> !isRetained(x)
    decreases roots
  {
    if roots == [] then {}
    else RootMarks(roots[0], isRetained, extendedDeclaration) + MarksOf(roots[1..], isRetained, extendedDeclaration)
  }

  /** The ids the pass adds to the graph: none when the analysis is disabled. */
  function PassMarks(disabled: bool, roots: seq<Decl>, isRetained: DeclId -> bool, extendedDeclaration: Decl -> Option<Decl>): (r: set<DeclId>)
    ensures disabled ==> r == {}
    ensures r <= ForestIds(roots)
    ensures forall x :: x in r ==> !isRetained(x)
  {
    if disabled then {} else MarksOf(roots, isRetained, extendedDeclaration)
  }

  /** `rootDeclarations.filter { !$0.kind.isExtensionKind }`. */
  function NonExtensions(roots: seq<Decl>): (r: seq<Decl>)
    ensures |r| <= |roots|
    ensures forall d :: d in r <==> d in roots && !IsExtensionKind(d.kind)
    decreases roots
  {
    if roots == [] then []
    else (if IsExtensionKind(roots[0].kind) then [] else [roots[0]]) + NonExtensions(roots[1..])
  }

  /** `rootDeclarations.filter(\.kind.isExtensionKind)`. */
  function Extensions(roots: seq<Decl>): (r: seq<Decl>)
    ensures |r| <= |roots|
    ensures forall d :: d in r <==> d in roots && IsExtensionKind(d.kind)
    decreases roots
  {
    if roots == [] then []
    else (if IsExtensionKind(roots[0].kind) then [roots[0]] else []) + Extensions(roots[1..])
  }
}
