/** The graph mutator itself: the graph object it writes its marks into and the marker
    class whose methods walk the declaration tree. Each method is proved to add exactly
    the ids that the specification functions of `Redundancy` give. */
module Marker {
  import opened Wrappers
  import opened AccessLevel
  import opened Declaration
  import opened Redundancy
  import Properties

  /** The part of the source graph the marker uses: its root declarations, the two
      lookups it asks (retention and extension resolution) and the set of declarations
      marked as having redundant accessibility. */
  class SourceGraph {
    const rootDeclarations: seq<Decl>
    /** `isRetained(_:)`: whether some other analysis protects the declaration. */
    const isRetained: DeclId -> bool
    /** `try? extendedDeclaration(forExtension:)`: `None` when the lookup fails or throws. */
    const extendedDeclaration: Decl -> Option<Decl>
    var redundantAccessibility: set<DeclId>

    constructor (rootDeclarations: seq<Decl>, isRetained: DeclId -> bool, extendedDeclaration: Decl -> Option<Decl>)
      ensures this.rootDeclarations == rootDeclarations
      ensures this.isRetained == isRetained && this.extendedDeclaration == extendedDeclaration
      ensures redundantAccessibility == {}
    {
      this.rootDeclarations := rootDeclarations;
      this.isRetained := isRetained;
      this.extendedDeclaration := extendedDeclaration;
      redundantAccessibility := {};
    }

    /** `markRedundantAccessibility(_:file:)`: records the declaration; marking it again
        changes nothing. */
    method MarkRedundantAccessibility(decl: Decl)
      modifies this
      ensures redundantAccessibility == old(redundantAccessibility) + {decl.id}
    {
      redundantAccessibility := redundantAccessibility + {decl.id};
    }
  }

  class RedundantAccessibilityMarker {
    const graph: SourceGraph
    /** `configuration.disableRedundantAccessAnalysis`. */
    const disableRedundantAccessAnalysis: bool

    constructor (graph: SourceGraph, disableRedundantAccessAnalysis: bool)
      ensures this.graph == graph && this.disableRedundantAccessAnalysis == disableRedundantAccessAnalysis
    {
      this.graph := graph;
      this.disableRedundantAccessAnalysis := disableRedundantAccessAnalysis;
    }

    /** Runs the pass: nothing when it is disabled; otherwise scans the members of every
        non-extension root, then validates every extension root. Only marks are added. */
    method Mutate()
      modifies graph
      ensures graph.redundantAccessibility ==
        old(graph.redundantAccessibility) +
        PassMarks(disableRedundantAccessAnalysis, graph.rootDeclarations, graph.isRetained, graph.extendedDeclaration)
    {
      if disableRedundantAccessAnalysis {
        return;
      }
      var nonExtensionKinds := NonExtensions(graph.rootDeclarations);
      var extensionKinds := Extensions(graph.rootDeclarations);

      for i := 0 to |nonExtensionKinds|
        invariant graph.redundantAccessibility ==
          old(graph.redundantAccessibility) + MarksOf(nonExtensionKinds[..i], graph.isRetained, graph.extendedDeclaration)
      {
        var decl := nonExtensionKinds[i];
        assert decl in nonExtensionKinds;
        MarkRedundantAccessDescendants(decl);
        Properties.MarksOfPrefix(nonExtensionKinds, i, graph.isRetained, graph.extendedDeclaration);
      }
      assert nonExtensionKinds[..|nonExtensionKinds|] == nonExtensionKinds;

      for j := 0 to |extensionKinds|
        invariant graph.redundantAccessibility ==
          old(graph.redundantAccessibility) + MarksOf(nonExtensionKinds, graph.isRetained, graph.extendedDeclaration) +
          MarksOf(extensionKinds[..j], graph.isRetained, graph.extendedDeclaration)
      {
        var decl := extensionKinds[j];
        assert decl in extensionKinds;
        ValidateExtension(decl);
        Properties.MarksOfPrefix(extensionKinds, j, graph.isRetained, graph.extendedDeclaration);
      }
      assert extensionKinds[..|extensionKinds|] == extensionKinds;
      Properties.PartitionPreservesMarks(graph.rootDeclarations, graph.isRetained, graph.extendedDeclaration);
    }

    /** The extension's self-check, then a scan of its members in its own context. */
    method ValidateExtension(decl: Decl)
      modifies graph
      ensures graph.redundantAccessibility ==
        old(graph.redundantAccessibility) +
        ExtensionSelfMark(decl, graph.isRetained, graph.extendedDeclaration) + Scan(decl, graph.isRetained)
    {
      if decl.accessibility.isExplicit {
        var extendedDecl := graph.extendedDeclaration(decl);
        if extendedDecl.Some? &&
           decl.accessibility.value == extendedDecl.value.accessibility.value &&
           decl.accessibility.value != Public &&
           decl.accessibility.value != Open
        {
          Mark(decl);
        }
      }
      MarkRedundantAccessDescendants(decl);
    }

    /** Marks the declaration unless the graph retains it. */
    method Mark(decl: Decl)
      modifies graph
      ensures graph.redundantAccessibility ==
        old(graph.redundantAccessibility) + (if graph.isRetained(decl.id) then {} else {decl.id})
    {
      if graph.isRetained(decl.id) {
        return;
      }
      graph.MarkRedundantAccessibility(decl);
    }

    /** Visits every non-implicit child, marks it when the decision flags it and it is not
        retained, and always descends into it. */
    method MarkRedundantAccessDescendants(decl: Decl)
      modifies graph
      ensures graph.redundantAccessibility == old(graph.redundantAccessibility) + Scan(decl, graph.isRetained)
      decreases decl
    {
      var children := decl.declarations;
      for i := 0 to |children|
        invariant graph.redundantAccessibility ==
          old(graph.redundantAccessibility) + ScanChildren(decl.accessibility.value, children[..i], graph.isRetained)
      {
        var child := children[i];
        assert children[..i + 1] == children[..i] + [child];
        Properties.ScanChildrenConcat(decl.accessibility.value, children[..i], [child], graph.isRetained);
        if !child.isImplicit {
          var shouldFlag := ShouldFlag(child, decl.accessibility.value);
          if shouldFlag && !graph.isRetained(child.id) {
            Mark(child);
          }
          MarkRedundantAccessDescendants(child);
        }
      }
      assert children[..|children|] == children;
    }
  }
}
