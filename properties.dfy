/** Properties of the pass, stated over the specification functions of `Redundancy`. */
module Properties {
  import opened Wrappers
  import opened AccessLevel
  import opened Declaration
  import opened Redundancy

  // ----- The per-member decision against Swift's default-member-access rule -----

  /** A member flagged for its main level (not for its setter) wrote exactly the level it
      would have had by default in that scope, and that is the scope's own level. */
  lemma FlaggedMainAccessIsDefault(child: Decl, parent: Accessibility)
    requires ShouldFlag(child, parent) && !HasRedundantSetterModifier(child)
    ensures child.accessibility.isExplicit
    ensures child.accessibility.value == parent == MemberDefault(parent)
  {
  }

  /** In a private, fileprivate or internal scope, writing the default level is flagged. */
  lemma DefaultAccessFlaggedInRestrictedScope(child: Decl, parent: Accessibility)
    requires Rank(parent) <= 2
    requires child.accessibility.isExplicit && child.accessibility.value == MemberDefault(parent)
    ensures ShouldFlag(child, parent)
  {
  }

  /** In a public or open scope no explicit main level is flagged, not even `internal`,
      which is what members there default to: only a redundant setter modifier is. */
  lemma PublicScopeFlagsOnlySetters(child: Decl, parent: Accessibility)
    requires parent == Public || parent == Open
    ensures ShouldFlag(child, parent) <==> HasRedundantSetterModifier(child) && Rank(child.accessibility.value) <= 2
  {
  }

  /** A setter modifier that repeats the member's own level flags the member whatever the
      enclosing scope, as long as the member is neither public nor open. */
  lemma RedundantSetterIgnoresParent(child: Decl, parent: Accessibility, other: Accessibility)
    requires HasRedundantSetterModifier(child)
    ensures ShouldFlag(child, parent) == ShouldFlag(child, other)
    ensures ShouldFlag(child, parent) <==> Rank(child.accessibility.value) <= 2
  {
  }

  /** Without a setter modifier, a level that was not written is never flagged. */
  lemma InferredAccessNotFlagged(child: Decl, parent: Accessibility)
    requires !child.accessibility.isExplicit && FirstSetterModifier(child.modifiers).None?
    ensures !ShouldFlag(child, parent)
  {
  }

  /** An extension is self-marked only when writing its level changes nothing: its members
      get the same default as members of the type it extends. */
  lemma ExtensionSelfMarkIsRedundant(ext: Decl, isRetained: DeclId -> bool, extendedDeclaration: Decl -> Option<Decl>)
    requires ext.id in ExtensionSelfMark(ext, isRetained, extendedDeclaration)
    ensures extendedDeclaration(ext).Some?
    ensures MemberDefault(ext.accessibility.value) == ext.accessibility.value
    ensures MemberDefault(ext.accessibility.value) == MemberDefault(extendedDeclaration(ext).value.accessibility.value)
  {
  }

  // ----- Structure of a scan -----

  /** Scanning two runs of children one after the other marks the union of their marks. */
  lemma {:induction false} ScanChildrenConcat(parent: Accessibility, a: seq<Decl>, b: seq<Decl>, isRetained: DeclId -> bool)
    ensures ScanChildren(parent, a + b, isRetained) == ScanChildren(parent, a, isRetained) + ScanChildren(parent, b, isRetained)
    decreases a
  {
    if a == [] {
      assert a + b == b;
    } else {
      assert (a + b)[0] == a[0];
      assert (a + b)[1..] == a[1..] + b;
      ScanChildrenConcat(parent, a[1..], b, isRetained);
    }
  }

  /** An id is marked by a scan of `cs` exactly when some child contributes it. */
  lemma {:induction false} ScanChildrenMembership(parent: Accessibility, cs: seq<Decl>, isRetained: DeclId -> bool, x: DeclId)
    ensures x in ScanChildren(parent, cs, isRetained) <==>
      exists i :: 0 <= i < |cs| && x in ChildMarks(parent, cs[i], isRetained)
    decreases cs
  {
    if cs != [] {
      ScanChildrenMembership(parent, cs[1..], isRetained, x);
      if x in ScanChildren(parent, cs[1..], isRetained) {
        var i :| 0 <= i < |cs[1..]| && x in ChildMarks(parent, cs[1..][i], isRetained);
        assert cs[i + 1] == cs[1..][i];
      }
      if i :| 0 < i < |cs| && x in ChildMarks(parent, cs[i], isRetained) {
        assert cs[1..][i - 1] == cs[i];
      }
    }
  }

  /** The order of the children does not matter (in the graph they form a set). */
  lemma ScanChildrenOrderIrrelevant(parent: Accessibility, cs: seq<Decl>, ds: seq<Decl>, isRetained: DeclId -> bool)
    requires forall d :: d in cs <==> d in ds
    ensures ScanChildren(parent, cs, isRetained) == ScanChildren(parent, ds, isRetained)
  {
    forall x ensures x in ScanChildren(parent, cs, isRetained) ==> x in ScanChildren(parent, ds, isRetained) {
      ScanChildrenMembership(parent, cs, isRetained, x);
      ScanChildrenMembership(parent, ds, isRetained, x);
      if x in ScanChildren(parent, cs, isRetained) {
        var i :| 0 <= i < |cs| && x in ChildMarks(parent, cs[i], isRetained);
        assert cs[i] in ds;
      }
    }
    forall x ensures x in ScanChildren(parent, ds, isRetained) ==> x in ScanChildren(parent, cs, isRetained) {
      ScanChildrenMembership(parent, cs, isRetained, x);
      ScanChildrenMembership(parent, ds, isRetained, x);
      if x in ScanChildren(parent, ds, isRetained) {
        var i :| 0 <= i < |ds| && x in ChildMarks(parent, ds[i], isRetained);
        assert ds[i] in cs;
      }
    }
  }

  /** An implicit child is skipped with everything below it: removing it from the children
      changes nothing. */
  lemma ImplicitChildSkipped(parent: Accessibility, cs: seq<Decl>, k: nat, isRetained: DeclId -> bool)
    requires k < |cs| && cs[k].isImplicit
    ensures ScanChildren(parent, cs, isRetained) == ScanChildren(parent, cs[..k] + cs[k + 1..], isRetained)
  {
    assert cs == cs[..k] + ([cs[k]] + cs[k + 1..]);
    ScanChildrenConcat(parent, cs[..k], [cs[k]] + cs[k + 1..], isRetained);
    ScanChildrenConcat(parent, [cs[k]], cs[k + 1..], isRetained);
    ScanChildrenConcat(parent, cs[..k], cs[k + 1..], isRetained);
    assert ScanChildren(parent, [cs[k]], isRetained) == {};
  }

  /** Everything one child contributes is marked by the scan of all the children. */
  lemma {:induction false} ChildMarksWithinScan(parent: Accessibility, cs: seq<Decl>, k: nat, isRetained: DeclId -> bool)
    requires k < |cs|
    ensures ChildMarks(parent, cs[k], isRetained) <= ScanChildren(parent, cs, isRetained)
    decreases cs
  {
    if k > 0 {
      ChildMarksWithinScan(parent, cs[1..], k - 1, isRetained);
      assert cs[1..][k - 1] == cs[k];
    }
  }

  /** Marking never prunes: every mark of a scan of a non-implicit child's own members,
      made with that child's level as context, is a mark of the scan of its parent, and
      the child itself is marked when the decision says so. */
  lemma FlaggingNeverPrunes(parent: Accessibility, cs: seq<Decl>, k: nat, isRetained: DeclId -> bool)
    requires k < |cs| && !cs[k].isImplicit
    ensures ScanChildren(cs[k].accessibility.value, cs[k].declarations, isRetained) <= ScanChildren(parent, cs, isRetained)
    ensures ShouldFlag(cs[k], parent) && !isRetained(cs[k].id) ==> cs[k].id in ScanChildren(parent, cs, isRetained)
  {
    ChildMarksWithinScan(parent, cs, k, isRetained);
    assert ChildMarks(parent, cs[k], isRetained) == SelfMark(parent, cs[k], isRetained) + Scan(cs[k], isRetained);
  }

  /** With unique ids, a non-implicit child is marked by its parent's scan exactly when the
      per-member decision flags it and it is not retained. */
  lemma ChildMarkedIff(parent: Accessibility, cs: seq<Decl>, k: nat, isRetained: DeclId -> bool)
    requires UniqueForest(cs) && k < |cs| && !cs[k].isImplicit
    ensures cs[k].id in ScanChildren(parent, cs, isRetained) <==> ShouldFlag(cs[k], parent) && !isRetained(cs[k].id)
  {
    var x := cs[k].id;
    FlaggingNeverPrunes(parent, cs, k, isRetained);
    ScanChildrenMembership(parent, cs, isRetained, x);
    if x in ScanChildren(parent, cs, isRetained) {
      var i :| 0 <= i < |cs| && x in ChildMarks(parent, cs[i], isRetained);
      if i != k {
        UniqueForestDisjoint(cs, i, k);
        assert false;
      }
      UniqueForestTree(cs, k);
    }
  }

  // ----- Roots -----

  /** Running the roots in two batches marks the union of the batches' marks. */
  lemma {:induction false} MarksOfConcat(a: seq<Decl>, b: seq<Decl>, isRetained: DeclId -> bool, extendedDeclaration: Decl -> Option<Decl>)
    ensures MarksOf(a + b, isRetained, extendedDeclaration) ==
      MarksOf(a, isRetained, extendedDeclaration) + MarksOf(b, isRetained, extendedDeclaration)
    decreases a
  {
    if a == [] {
      assert a + b == b;
    } else {
      assert (a + b)[0] == a[0];
      assert (a + b)[1..] == a[1..] + b;
      MarksOfConcat(a[1..], b, isRetained, extendedDeclaration);
    }
  }

  /** Handling one more root adds that root's marks. */
  lemma MarksOfPrefix(roots: seq<Decl>, i: nat, isRetained: DeclId -> bool, extendedDeclaration: Decl -> Option<Decl>)
    requires i < |roots|
    ensures MarksOf(roots[..i + 1], isRetained, extendedDeclaration) ==
      MarksOf(roots[..i], isRetained, extendedDeclaration) + RootMarks(roots[i], isRetained, extendedDeclaration)
  {
    assert roots[..i + 1] == roots[..i] + [roots[i]];
    MarksOfConcat(roots[..i], [roots[i]], isRetained, extendedDeclaration);
  }

  /** An id is marked by the pass over `roots` exactly when some root yields it. */
  lemma {:induction false} MarksOfMembership(roots: seq<Decl>, isRetained: DeclId -> bool, extendedDeclaration: Decl -> Option<Decl>, x: DeclId)
    ensures x in MarksOf(roots, isRetained, extendedDeclaration) <==>
      exists i :: 0 <= i < |roots| && x in RootMarks(roots[i], isRetained, extendedDeclaration)
    decreases roots
  {
    if roots != [] {
      MarksOfMembership(roots[1..], isRetained, extendedDeclaration, x);
      if x in MarksOf(roots[1..], isRetained, extendedDeclaration) {
        var i :| 0 <= i < |roots[1..]| && x in RootMarks(roots[1..][i], isRetained, extendedDeclaration);
        assert roots[i + 1] == roots[1..][i];
      }
      if i :| 0 < i < |roots| && x in RootMarks(roots[i], isRetained, extendedDeclaration) {
        assert roots[1..][i - 1] == roots[i];
      }
    }
  }

  /** Handling the non-extension roots first and the extensions afterwards, as the pass
      does, marks the same ids as handling the roots in their own order. */
  lemma {:induction false} PartitionPreservesMarks(roots: seq<Decl>, isRetained: DeclId -> bool, extendedDeclaration: Decl -> Option<Decl>)
    ensures MarksOf(NonExtensions(roots), isRetained, extendedDeclaration) +
            MarksOf(Extensions(roots), isRetained, extendedDeclaration) ==
            MarksOf(roots, isRetained, extendedDeclaration)
    decreases roots
  {
    if roots != [] {
      var head := roots[0];
      var tail := roots[1..];
      PartitionPreservesMarks(tail, isRetained, extendedDeclaration);
      if IsExtensionKind(head.kind) {
        assert NonExtensions(roots) == NonExtensions(tail);
        assert Extensions(roots) == [head] + Extensions(tail);
        MarksOfConcat([head], Extensions(tail), isRetained, extendedDeclaration);
      } else {
        assert NonExtensions(roots) == [head] + NonExtensions(tail);
        assert Extensions(roots) == Extensions(tail);
        MarksOfConcat([head], NonExtensions(tail), isRetained, extendedDeclaration);
      }
      assert MarksOf([head], isRetained, extendedDeclaration) == RootMarks(head, isRetained, extendedDeclaration);
    }
  }

  /** The order of the roots does not matter (in the graph they form a set). */
  lemma MarksOfOrderIrrelevant(roots: seq<Decl>, others: seq<Decl>, isRetained: DeclId -> bool, extendedDeclaration: Decl -> Option<Decl>)
    requires forall d :: d in roots <==> d in others
    ensures MarksOf(roots, isRetained, extendedDeclaration) == MarksOf(others, isRetained, extendedDeclaration)
  {
    forall x ensures x in MarksOf(roots, isRetained, extendedDeclaration) <==> x in MarksOf(others, isRetained, extendedDeclaration) {
      MarksOfMembership(roots, isRetained, extendedDeclaration, x);
      MarksOfMembership(others, isRetained, extendedDeclaration, x);
      if x in MarksOf(roots, isRetained, extendedDeclaration) {
        var i :| 0 <= i < |roots| && x in RootMarks(roots[i], isRetained, extendedDeclaration);
        assert roots[i] in others;
      }
      if x in MarksOf(others, isRetained, extendedDeclaration) {
        var i :| 0 <= i < |others| && x in RootMarks(others[i], isRetained, extendedDeclaration);
        assert others[i] in roots;
      }
    }
  }

  /** With unique ids, the id of root `k` is marked only through root `k` itself. */
  lemma RootIdOnlyFromItself(roots: seq<Decl>, k: nat, isRetained: DeclId -> bool, extendedDeclaration: Decl -> Option<Decl>)
    requires UniqueForest(roots) && k < |roots|
    ensures UniqueTree(roots[k])
    ensures roots[k].id in MarksOf(roots, isRetained, extendedDeclaration) <==>
      roots[k].id in RootMarks(roots[k], isRetained, extendedDeclaration)
  {
    var x := roots[k].id;
    UniqueForestTree(roots, k);
    MarksOfMembership(roots, isRetained, extendedDeclaration, x);
    if x in MarksOf(roots, isRetained, extendedDeclaration) {
      var i :| 0 <= i < |roots| && x in RootMarks(roots[i], isRetained, extendedDeclaration);
      if i != k {
        UniqueForestDisjoint(roots, i, k);
        assert false;
      }
    }
  }

  /** A root that is not an extension is never marked; only its members can be. */
  lemma RootNeverMarked(roots: seq<Decl>, k: nat, isRetained: DeclId -> bool, extendedDeclaration: Decl -> Option<Decl>)
    requires UniqueForest(roots) && k < |roots| && !IsExtensionKind(roots[k].kind)
    ensures roots[k].id !in MarksOf(roots, isRetained, extendedDeclaration)
  {
    RootIdOnlyFromItself(roots, k, isRetained, extendedDeclaration);
  }

  /** An extension root is marked exactly when it is explicit, its extended declaration
      resolves to one of the same level, that level is neither public nor open, and it is
      not retained. */
  lemma ExtensionMarkedIff(roots: seq<Decl>, k: nat, isRetained: DeclId -> bool, extendedDeclaration: Decl -> Option<Decl>)
    requires UniqueForest(roots) && k < |roots| && IsExtensionKind(roots[k].kind)
    ensures roots[k].id in MarksOf(roots, isRetained, extendedDeclaration) <==>
      roots[k].accessibility.isExplicit && extendedDeclaration(roots[k]).Some? &&
      roots[k].accessibility.value == extendedDeclaration(roots[k]).value.accessibility.value &&
      roots[k].accessibility.value != Public && roots[k].accessibility.value != Open &&
      !isRetained(roots[k].id)
  {
    RootIdOnlyFromItself(roots, k, isRetained, extendedDeclaration);
  }

  /** Every root's members are scanned in the root's own context; for an extension this
      holds whether or not its extended declaration resolves. */
  lemma MembersOfEveryRootScanned(roots: seq<Decl>, k: nat, isRetained: DeclId -> bool, extendedDeclaration: Decl -> Option<Decl>)
    requires k < |roots|
    ensures ScanChildren(roots[k].accessibility.value, roots[k].declarations, isRetained) <=
      MarksOf(roots, isRetained, extendedDeclaration)
  {
    forall x | x in Scan(roots[k], isRetained)
      ensures x in MarksOf(roots, isRetained, extendedDeclaration)
    {
      MarksOfMembership(roots, isRetained, extendedDeclaration, x);
    }
  }

  // ----- The whole pass, at every depth -----

  /** A declaration the pass visits, together with the level of the scope it is visited in. */
  datatype Visit = Visit(scope: Accessibility, decl: Decl)

  /** The visits a scan of the members `cs` of a `parent`-level scope makes: every member that
      is not implicit, in the scope's context, and then, in that member's own context,
      everything a scan of its members visits. */
  function Visited(parent: Accessibility, cs: seq<Decl>): (r: set<Visit>)
    ensures forall v :: v in r ==> !v.decl.isImplicit && v.decl in ForestNodes(cs)
    ensures forall i :: 0 <= i < |cs| && !cs[i].isImplicit ==> Visit(parent, cs[i]) in r
    decreases cs
  {
    if cs == [] then {}
    else
      (if cs[0].isImplicit then {}
       else {Visit(parent, cs[0])} + Visited(cs[0].accessibility.value, cs[0].declarations)) +
      Visited(parent, cs[1..])
  }

  /** The visit `v` is of a declaration with id `x`, flagged in the context of the visit and
      not retained: exactly what makes the scan mark `x`. */
  predicate MarkingVisit(v: Visit, x: DeclId, isRetained: DeclId -> bool) {
    v.decl.id == x && ShouldFlag(v.decl, v.scope) && !isRetained(x)
  }

  /** A scan marks exactly the ids of the declarations it visits that are flagged in the
      context they are visited in and are not retained. */
  lemma {:induction false} ScanChildrenExact(parent: Accessibility, cs: seq<Decl>, isRetained: DeclId -> bool, x: DeclId)
    ensures x in ScanChildren(parent, cs, isRetained) <==>
      exists v :: v in Visited(parent, cs) && MarkingVisit(v, x, isRetained)
    decreases cs
  {
    if cs != [] {
      var c, rest := cs[0], cs[1..];
      var inner := if c.isImplicit then {} else {Visit(parent, c)} + Visited(c.accessibility.value, c.declarations);
      assert Visited(parent, cs) == inner + Visited(parent, rest);
      assert ScanChildren(parent, cs, isRetained) == ChildMarks(parent, c, isRetained) + ScanChildren(parent, rest, isRetained);
      ScanChildrenExact(parent, rest, isRetained, x);
      if c.isImplicit {
        assert ChildMarks(parent, c, isRetained) == {};
      } else {
        ScanChildrenExact(c.accessibility.value, c.declarations, isRetained, x);
        assert ChildMarks(parent, c, isRetained) ==
          SelfMark(parent, c, isRetained) + ScanChildren(c.accessibility.value, c.declarations, isRetained);
        assert x in SelfMark(parent, c, isRetained) <==> MarkingVisit(Visit(parent, c), x, isRetained);
        if x in ChildMarks(parent, c, isRetained) {
          if x in SelfMark(parent, c, isRetained) {
            assert Visit(parent, c) in Visited(parent, cs);
          }
        }
        if v :| v in inner && MarkingVisit(v, x, isRetained) {
          if v == Visit(parent, c) {
            assert x in SelfMark(parent, c, isRetained);
          }
        }
      }
    }
  }

  /** The visits of the whole pass: each root's members are scanned in the root's context. */
  function PassVisits(roots: seq<Decl>): (r: set<Visit>)
    ensures forall v :: v in r ==> !v.decl.isImplicit && v.decl in ForestNodes(roots)
    decreases roots
  {
    if roots == [] then {}
    else
      ForestNodesContains(roots, 0);
      Visited(roots[0].accessibility.value, roots[0].declarations) + PassVisits(roots[1..])
  }

  /** The marks the extension roots make for themselves. */
  function RootSelfMarks(roots: seq<Decl>, isRetained: DeclId -> bool, extendedDeclaration: Decl -> Option<Decl>): (r: set<DeclId>)
    ensures forall x :: x in r ==> exists k :: 0 <= k < |roots| && x == roots[k].id
    decreases roots
  {
    if roots == [] then {}
    else
      (if IsExtensionKind(roots[0].kind) then ExtensionSelfMark(roots[0], isRetained, extendedDeclaration) else {}) +
      RootSelfMarks(roots[1..], isRetained, extendedDeclaration)
  }

  /** The roots' handling marks an id exactly when some visit marks it or some extension
      root's self-check does. */
  lemma {:induction false} MarksOfExact(roots: seq<Decl>, isRetained: DeclId -> bool, extendedDeclaration: Decl -> Option<Decl>, x: DeclId)
    ensures x in MarksOf(roots, isRetained, extendedDeclaration) <==>
      (exists v :: v in PassVisits(roots) && MarkingVisit(v, x, isRetained)) ||
      x in RootSelfMarks(roots, isRetained, extendedDeclaration)
    decreases roots
  {
    if roots != [] {
      var root, rest := roots[0], roots[1..];
      MarksOfExact(rest, isRetained, extendedDeclaration, x);
      ScanChildrenExact(root.accessibility.value, root.declarations, isRetained, x);
      assert MarksOf(roots, isRetained, extendedDeclaration) ==
        RootMarks(root, isRetained, extendedDeclaration) + MarksOf(rest, isRetained, extendedDeclaration);
      assert PassVisits(roots) == Visited(root.accessibility.value, root.declarations) + PassVisits(rest);
    }
  }

  /** With unique ids, a declaration below a root is marked by the pass exactly when the pass
      visits it in some scope in whose context it is flagged, and it is not retained. */
  lemma DescendantMarkedIff(roots: seq<Decl>, k: nat, d: Decl, isRetained: DeclId -> bool, extendedDeclaration: Decl -> Option<Decl>)
    requires UniqueForest(roots) && k < |roots| && d in ForestNodes(roots[k].declarations)
    ensures d.id in PassMarks(false, roots, isRetained, extendedDeclaration) <==>
      exists q :: Visit(q, d) in PassVisits(roots) && ShouldFlag(d, q) && !isRetained(d.id)
  {
    var x := d.id;
    MarksOfExact(roots, isRetained, extendedDeclaration, x);
    ForestNodesContains(roots, k);
    assert d in ForestNodes(roots);
    assert x in SubtreeIds(roots[k]);
    if x in RootSelfMarks(roots, isRetained, extendedDeclaration) {
      var j :| 0 <= j < |roots| && x == roots[j].id;
      if j == k {
        UniqueForestTree(roots, k);
        assert false;
      } else {
        UniqueForestDisjoint(roots, j, k);
        assert false;
      }
    }
    if v :| v in PassVisits(roots) && MarkingVisit(v, x, isRetained) {
      UniqueForestNodes(roots, v.decl, d);
      assert Visit(v.scope, d) in PassVisits(roots);
    }
  }

  /** With unique ids, no public or open declaration below a root is ever marked, whatever
      its scope. */
  lemma PublicOrOpenDescendantNeverMarked(disabled: bool, roots: seq<Decl>, k: nat, d: Decl, isRetained: DeclId -> bool, extendedDeclaration: Decl -> Option<Decl>)
    requires UniqueForest(roots) && k < |roots| && d in ForestNodes(roots[k].declarations)
    requires d.accessibility.value == Public || d.accessibility.value == Open
    ensures d.id !in PassMarks(disabled, roots, isRetained, extendedDeclaration)
  {
    DescendantMarkedIff(roots, k, d, isRetained, extendedDeclaration);
  }

  /** With unique ids, no implicit declaration below a root is ever marked. */
  lemma ImplicitDescendantNeverMarked(disabled: bool, roots: seq<Decl>, k: nat, d: Decl, isRetained: DeclId -> bool, extendedDeclaration: Decl -> Option<Decl>)
    requires UniqueForest(roots) && k < |roots| && d in ForestNodes(roots[k].declarations)
    requires d.isImplicit
    ensures d.id !in PassMarks(disabled, roots, isRetained, extendedDeclaration)
  {
    DescendantMarkedIff(roots, k, d, isRetained, extendedDeclaration);
  }
}
