# Redundant accessibility marker

This project models periphery's `RedundantAccessibilityMarker` and proves properties of the model. The marker is a source-graph mutator. It finds declarations whose explicitly written Swift access modifier changes nothing, and records them as having redundant accessibility.

Swift has five access levels: `private`, `fileprivate`, `internal`, `public` and `open`. A member of a private, fileprivate or internal type gets the type's own level by default. A member of a public or open type gets `internal` by default.

For every non-implicit member of a declaration, the marker decides `shouldFlag` from three things:
- the member's own level: a public or open member is never flagged;
- the member's first modifier that contains `(set)`: with `(set)` removed, does it name the member's own level?
- whether the member's written level equals the enclosing declaration's level.

A flagged member is marked unless the graph retains it. The marker then always descends into the member, using the member's own level as the new scope.

Root declarations are treated in two groups:
- Root types are never marked themselves; only their members are scanned.
- An extension root is marked when all of these hold: its level is written, the declaration it extends resolves, both have the same level, and that level is neither public nor open. Its members are scanned in every case.

The project has these modules:

- `Wrappers`: the `Option` type.
- `Text`: Swift's `String.contains` and `replacingOccurrences(of:with:)` with an empty replacement, written out on character sequences.
- `AccessLevel`: the five levels, their raw values, parsing of a raw value, and the default member level of a scope.
- `Declaration`: the declaration tree. Each declaration has an id standing for object identity, plus its kind, accessibility, written modifiers, implicitness and members. It also defines what "unique ids" means for a forest of declarations.
- `Redundancy`: the specification. The per-member decision and the set of ids the whole pass marks are written as functions.
- `Properties`: lemmas about that specification.
- `Marker`: the mutator as a class. It walks the tree with loops and recursion and writes marks into a `SourceGraph` object. Each method is proved to add exactly what the specification functions give.
- `Scenarios`: declaration trees taken from the repository's test fixture, plus a few built for the extension lookup, implicit members and retention, with the marks the pass makes in them.

The source file's own comments and the fixture's comments disagree with the code in several places. The model follows the code, and the tests agree with the code:
- Fixture lines 118 and 130-131 call a member whose setter differs from its level "NOT redundant". The code flags each of them because its written level equals the scope's.
- Fixture line 156 calls `private private(set)` in a private class "NOT redundant". Its setter repeats its own level, so the code flags it on both counts.
- The tests at `Tests/AccessibilityTests/RedundantAccessibilityTest.swift:144-177` expect all of these flagged.
- Line 8 of the source says members of public types default to `internal`. The code nevertheless never flags an explicit `internal` member of a public or open type for its main level (fixture line 58 expects exactly that). Only a setter modifier that repeats the member's own level gets it flagged there, as in `internal internal(set)`. `Properties.PublicScopeFlagsOnlySetters` states this behaviour, and `Scenarios.InternalSetterInPublicScope` shows both cases.

## Model

| member | source | states |
|---|---|---|
| AccessLevel.Rank | Sources/SourceGraph/Mutators/RedundantAccessibilityMarker.swift:6-8 | a level's rank is below 5; rank 2 is exactly `internal`, and ranks above 2 are exactly `public` and `open`, the levels whose members default to `internal` |
| AccessLevel.RawValue | Sources/SourceGraph/Mutators/RedundantAccessibilityMarker.swift:79 | a level's raw value is a non-empty keyword without `(` |
| AccessLevel.ParseRawValue | Sources/SourceGraph/Mutators/RedundantAccessibilityMarker.swift:79 | comparing a string with `rawValue` is parsing it: a parsed string is the raw value of its result, and an unparsed string is no level's raw value |
| AccessLevel.ParseRawValueRoundTrip | Sources/SourceGraph/Mutators/RedundantAccessibilityMarker.swift:79 | parsing a level's raw value gives back that level |
| AccessLevel.MemberDefault | Sources/SourceGraph/Mutators/RedundantAccessibilityMarker.swift:6-8 | members of private, fileprivate and internal scopes default to the scope's level, members of public and open scopes to internal; the default never exceeds the scope or internal |
| Text.ContainsAtSomePosition | Sources/SourceGraph/Mutators/RedundantAccessibilityMarker.swift:73 | `contains` holds exactly when the pattern starts at some position of the string |
| Text.RemoveAll | Sources/SourceGraph/Mutators/RedundantAccessibilityMarker.swift:77 | removing every occurrence never lengthens the string, and leaves a string without an occurrence unchanged |
| Text.NoFirstCharNoOccurrence | Sources/SourceGraph/Mutators/RedundantAccessibilityMarker.swift:73 | a string lacking the pattern's first character does not contain the pattern, so a bare keyword is not a setter modifier |
| Text.RemoveTrailing | Sources/SourceGraph/Mutators/RedundantAccessibilityMarker.swift:73-77 | `x(set)` contains `(set)`, and removing `(set)` from it gives back `x` when `x` has no `(` |
| Redundancy.FirstSetterModifier | Sources/SourceGraph/Mutators/RedundantAccessibilityMarker.swift:73 | there is no result exactly when no modifier contains `(set)`; otherwise the result is a modifier containing `(set)` with none before it |
| Redundancy.SetterAccess | Sources/SourceGraph/Mutators/RedundantAccessibilityMarker.swift:73-79 | a setter level is found exactly when there is a setter modifier and removing `(set)` from it leaves that level's raw value; otherwise there is no setter modifier or what remains is no level's raw value |
| Redundancy.HasRedundantSetterModifier | Sources/SourceGraph/Mutators/RedundantAccessibilityMarker.swift:72-82 | the setter is redundant exactly when the first setter modifier, with `(set)` removed, names the member's own level |
| Redundancy.ShouldFlag | Sources/SourceGraph/Mutators/RedundantAccessibilityMarker.swift:84-95 | a member is flagged exactly when it is neither public nor open and either its setter is redundant or its written level equals the scope's |
| Redundancy.SelfMark | Sources/SourceGraph/Mutators/RedundantAccessibilityMarker.swift:64-68 | a member contributes at most its own id, and does so exactly when it is flagged and not retained |
| Redundancy.ChildMarks | Sources/SourceGraph/Mutators/RedundantAccessibilityMarker.swift:71-101 | a child contributes only ids from its own subtree, and never a retained one |
| Redundancy.ScanChildren | Sources/SourceGraph/Mutators/RedundantAccessibilityMarker.swift:71-102 | scanning members marks only ids from the members' subtrees, and never a retained one |
| Redundancy.Scan | Sources/SourceGraph/Mutators/RedundantAccessibilityMarker.swift:70-103 | a scan marks only ids strictly below the declaration, never a retained one, and with unique ids never the declaration itself |
| Redundancy.ExtensionSelfMark | Sources/SourceGraph/Mutators/RedundantAccessibilityMarker.swift:49-58 | an extension marks itself exactly when its level is written, the extended declaration resolves with the same level, that level is neither public nor open, and it is not retained |
| Redundancy.RootMarks | Sources/SourceGraph/Mutators/RedundantAccessibilityMarker.swift:40-46 | a root marks only ids of its own subtree and no retained id, and always at least the scan of its members |
| Redundancy.MarksOf | Sources/SourceGraph/Mutators/RedundantAccessibilityMarker.swift:40-46 | the roots together mark only ids of their subtrees, and no retained id |
| Redundancy.PassMarks | Sources/SourceGraph/Mutators/RedundantAccessibilityMarker.swift:24-47 | a disabled pass marks nothing; otherwise it marks only ids of the roots' subtrees, and no retained id (which ids exactly: `Properties.MarksOfExact`, `Properties.DescendantMarkedIff`) |
| Declaration.IsExtensionKind | Sources/SourceGraph/Mutators/RedundantAccessibilityMarker.swift:27-28 | a kind is an extension kind exactly when it is one of the four extension kinds |
| Redundancy.NonExtensions | Sources/SourceGraph/Mutators/RedundantAccessibilityMarker.swift:27 | keeps exactly the roots that are not extensions |
| Redundancy.Extensions | Sources/SourceGraph/Mutators/RedundantAccessibilityMarker.swift:28 | keeps exactly the roots that are extensions |
| Properties.FlaggedMainAccessIsDefault | Sources/SourceGraph/Mutators/RedundantAccessibilityMarker.swift:4-8 | a member flagged for its main level wrote that level, and it is both the scope's level and the scope's default member level |
| Properties.DefaultAccessFlaggedInRestrictedScope | Sources/SourceGraph/Mutators/RedundantAccessibilityMarker.swift:4-8 | in a private, fileprivate or internal scope, writing the default member level is always flagged |
| Properties.PublicScopeFlagsOnlySetters | Sources/SourceGraph/Mutators/RedundantAccessibilityMarker.swift:84-95 | in a public or open scope a member is flagged only for a redundant setter: an explicit `internal` is not flagged |
| Properties.RedundantSetterIgnoresParent | Sources/SourceGraph/Mutators/RedundantAccessibilityMarker.swift:88-90 | a redundant setter flags its member in every scope, provided the member is neither public nor open |
| Properties.InferredAccessNotFlagged | Sources/SourceGraph/Mutators/RedundantAccessibilityMarker.swift:11 | without a setter modifier, a level that was not written is never flagged |
| Properties.ExtensionSelfMarkIsRedundant | Sources/SourceGraph/Mutators/RedundantAccessibilityMarker.swift:14 | a marked extension resolves, and its members get the same default level as members of the extended type |
| Properties.ScanChildrenConcat | Sources/SourceGraph/Mutators/RedundantAccessibilityMarker.swift:71 | scanning two runs of members marks the union of the two scans |
| Properties.ScanChildrenMembership | Sources/SourceGraph/Mutators/RedundantAccessibilityMarker.swift:71-102 | an id is marked exactly when some member contributes it |
| Properties.ScanChildrenOrderIrrelevant | Sources/SourceGraph/Mutators/RedundantAccessibilityMarker.swift:71 | the order in which members are visited does not change the marks |
| Properties.ImplicitChildSkipped | Sources/SourceGraph/Mutators/RedundantAccessibilityMarker.swift:71 | an implicit member and everything below it add nothing |
| Properties.FlaggingNeverPrunes | Sources/SourceGraph/Mutators/RedundantAccessibilityMarker.swift:97-101 | a non-implicit member's own scan is always part of its scope's marks, and the member itself is marked when flagged and not retained |
| Properties.ChildMarkedIff | Sources/SourceGraph/Mutators/RedundantAccessibilityMarker.swift:85-99 | with unique ids, a non-implicit member is marked exactly when flagged and not retained |
| Properties.MarksOfConcat | Sources/SourceGraph/Mutators/RedundantAccessibilityMarker.swift:40-46 | handling two runs of roots marks the union of their marks |
| Properties.MarksOfPrefix | Sources/SourceGraph/Mutators/RedundantAccessibilityMarker.swift:40-46 | handling one more root adds exactly that root's marks |
| Properties.MarksOfMembership | Sources/SourceGraph/Mutators/RedundantAccessibilityMarker.swift:40-46 | an id is marked exactly when some root yields it |
| Properties.PartitionPreservesMarks | Sources/SourceGraph/Mutators/RedundantAccessibilityMarker.swift:27-46 | handling non-extensions first and extensions afterwards marks the same ids as handling the roots in their own order |
| Properties.MarksOfOrderIrrelevant | Sources/SourceGraph/Mutators/RedundantAccessibilityMarker.swift:27-28 | the order of the roots does not change the marks |
| Properties.RootIdOnlyFromItself | Sources/SourceGraph/Mutators/RedundantAccessibilityMarker.swift:37-46 | with unique ids, a root's id is marked exactly when that root's own handling marks it |
| Properties.RootNeverMarked | Sources/SourceGraph/Mutators/RedundantAccessibilityMarker.swift:37-42 | with unique ids, a root that is not an extension is never marked |
| Properties.ExtensionMarkedIff | Sources/SourceGraph/Mutators/RedundantAccessibilityMarker.swift:49-58 | with unique ids, an extension root is marked exactly when its self-check passes and it is not retained |
| Properties.MembersOfEveryRootScanned | Sources/SourceGraph/Mutators/RedundantAccessibilityMarker.swift:40-46 | the members of every root are scanned in the root's context, whether or not an extension resolves |
| Properties.Visited | Sources/SourceGraph/Mutators/RedundantAccessibilityMarker.swift:70-103 | every visited declaration is non-implicit and lies in the scanned trees, and every non-implicit member is visited in the scope's context |
| Properties.ScanChildrenExact | Sources/SourceGraph/Mutators/RedundantAccessibilityMarker.swift:70-103 | at any depth, a scan marks an id exactly when it visits a declaration with that id that is flagged in the context of the visit and not retained |
| Properties.PassVisits | Sources/SourceGraph/Mutators/RedundantAccessibilityMarker.swift:40-61 | the pass visits only non-implicit declarations of the roots' trees |
| Properties.RootSelfMarks | Sources/SourceGraph/Mutators/RedundantAccessibilityMarker.swift:49-58 | an extension's self-mark is always a root's id |
| Properties.MarksOfExact | Sources/SourceGraph/Mutators/RedundantAccessibilityMarker.swift:24-103 | the pass marks an id exactly when some visit marks it or an extension root marks itself |
| Properties.DescendantMarkedIff | Sources/SourceGraph/Mutators/RedundantAccessibilityMarker.swift:24-103 | with unique ids, a declaration below a root is marked by the pass exactly when it is visited in a scope in whose context it is flagged, and it is not retained |
| Properties.PublicOrOpenDescendantNeverMarked | Sources/SourceGraph/Mutators/RedundantAccessibilityMarker.swift:85-86 | with unique ids, no public or open declaration below a root is ever marked |
| Properties.ImplicitDescendantNeverMarked | Sources/SourceGraph/Mutators/RedundantAccessibilityMarker.swift:71 | with unique ids, no implicit declaration below a root is ever marked |
| Marker.RedundantAccessibilityMarker.constructor | Sources/SourceGraph/Mutators/RedundantAccessibilityMarker.swift:19-22 | the marker keeps the graph it was given and the configuration flag |
| Marker.SourceGraph.MarkRedundantAccessibility | Sources/SourceGraph/Mutators/RedundantAccessibilityMarker.swift:67 | the graph records the declaration's id and keeps every earlier mark |
| Marker.RedundantAccessibilityMarker.Mutate | Sources/SourceGraph/Mutators/RedundantAccessibilityMarker.swift:24-47 | the run adds exactly the pass's marks to the graph, and nothing when disabled |
| Marker.RedundantAccessibilityMarker.ValidateExtension | Sources/SourceGraph/Mutators/RedundantAccessibilityMarker.swift:49-62 | adds the extension's self-mark and the scan of its members |
| Marker.RedundantAccessibilityMarker.Mark | Sources/SourceGraph/Mutators/RedundantAccessibilityMarker.swift:64-68 | adds the declaration's id unless it is retained |
| Marker.RedundantAccessibilityMarker.MarkRedundantAccessDescendants | Sources/SourceGraph/Mutators/RedundantAccessibilityMarker.swift:70-103 | adds exactly the scan of the declaration's members |
| Scenarios.NestedFileprivateMarked | Tests/AccessibilityTests/RedundantAccessibilityTest.swift:124-134 | in nested fileprivate classes the inner class and its fileprivate property are marked, and the outer class is not |
| Scenarios.RetainedClassStillScanned | Sources/SourceGraph/Mutators/RedundantAccessibilityMarker.swift:97-101 | a retained nested class is not marked, but its property still is |
| Scenarios.DisabledMarksNothing | Sources/SourceGraph/Mutators/RedundantAccessibilityMarker.swift:25 | with the analysis disabled nothing is marked |
| Scenarios.FileprivateClassMarks | Tests/AccessibilityTests/RedundantAccessibilityTest.swift:194-204 | `fileprivate fileprivate(set)` and `fileprivate private(set)` in a fileprivate class are marked |
| Scenarios.InternalClassWithSettersMarks | Tests/AccessibilityTests/RedundantAccessibilityTest.swift:206-234 | in an internal class, four setter-modified properties are marked and `fileprivate private(set)` is not |
| Scenarios.SetterNextToScopeLevelDecisions | Tests/AccessibilityTests/RedundantAccessibilityTest.swift:138-178 | a written scope level is flagged even next to a different setter, and `private private(set)` is flagged |
| Scenarios.DifferentLevelDecisions | Tests/AccessibilityTests/RedundantAccessibilityTest.swift:110-120 | a written level below the scope's is not flagged |
| Scenarios.InternalEnumMarks | Tests/AccessibilityTests/RedundantAccessibilityTest.swift:35-38 | in an internal enum the `internal static` method is marked and the case is not |
| Scenarios.PublicClassMarks | Tests/AccessibilityTests/RedundantAccessibilityTest.swift:54-64 | nothing in a public class is marked, including its `private var` (test lines 104-108) |
| Scenarios.InternalSetterInPublicScope | Sources/SourceGraph/Mutators/RedundantAccessibilityMarker.swift:73-92 | in a public scope an explicit `internal` member is not flagged, but `internal internal(set)` is, for its setter |
| Scenarios.PublicNestedClassMarks | Tests/AccessibilityTests/RedundantAccessibilityTest.swift:180-190 | nothing in a public class is marked, setters included |
| Scenarios.PublicStructMarks | Tests/AccessibilityTests/RedundantAccessibilityTest.swift:42-52 | nothing in a public struct is marked, not even its explicit `internal var` |
| Scenarios.ImplicitAndMixedMarks | Tests/AccessibilityTests/RedundantAccessibilityTest.swift:82-102 | implicit levels and levels that differ from the scope's are not marked |
| Scenarios.PublicExtensionMarks | Tests/AccessibilityTests/RedundantAccessibilityTest.swift:68-78 | neither a public extension of a public struct nor its public method is marked |
| Scenarios.FileprivateExtensionMarks | Sources/SourceGraph/Mutators/RedundantAccessibilityMarker.swift:49-61 | a fileprivate extension of a fileprivate type is marked, together with its fileprivate member |
| Scenarios.UnresolvedExtensionMarks | Sources/SourceGraph/Mutators/RedundantAccessibilityMarker.swift:52 | when the extended type does not resolve, only the extension's member is marked |
| Scenarios.ImplicitMemberSkipped | Sources/SourceGraph/Mutators/RedundantAccessibilityMarker.swift:71 | an implicit member is not marked, and neither is anything below it |

## Left out

- The file and location passed with each mark (`decl.location.file`) are not modelled. The graph's redundant-accessibility record is a set of declaration ids.
- `isRetained(_:)` and `extendedDeclaration(forExtension:)` are graph queries whose code is not part of this model. They are parameters. A lookup that throws (`try?`) becomes `None`.
- Building the source graph and the rest of `Configuration` are not modelled. Only `disableRedundantAccessAnalysis` is kept, as a boolean.
- `mutate()` and `validateExtension(_:)` are declared `throws`, but nothing they call can throw. The model has no error path for them.
- The members and roots of the graph are Swift sets; the model keeps them as sequences. The lemmas `Properties.ScanChildrenOrderIrrelevant` and `Properties.MarksOfOrderIrrelevant` show that the order does not affect the marks.
- Declaration identity is an integer id. Properties that depend on distinct objects assume unique ids (`Declaration.UniqueForest`).
- Swift string comparison uses Unicode canonical equivalence. The model compares strings character by character, which agrees on the ASCII modifier keywords.
- The declaration kinds are reduced to the ones the fixture uses, plus `Other`.
- The constructor `init(graph:configuration:swiftVersion:)` ignores the Swift version; the model's constructor has no such parameter.
