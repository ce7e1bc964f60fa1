/** Concrete declaration trees from the test fixture and what the pass marks in them. */
module Scenarios {
  import opened Wrappers
  import opened Text
  import opened AccessLevel
  import opened Declaration
  import opened Redundancy
  import Properties

  /** A declaration with the given written modifiers and members. */
  function D(id: DeclId, kind: Kind, value: Accessibility, isExplicit: bool, modifiers: seq<string>, members: seq<Decl>): Decl {
    Decl(id, kind, DeclarationAccessibility(value, isExplicit), modifiers, false, members)
  }

  /** The modifier token `x(set)` for the level `x`. */
  function SetterToken(a: Accessibility): string {
    RawValue(a) + SetterMarker
  }

  const NoExtendedDeclaration: Decl -> Option<Decl> := (d: Decl) => None

  /** How the first setter modifier is read for the token shapes the fixture uses:
      a lone keyword has none; `x(set)`, alone or after a keyword, names `x`. */
  lemma SetterAccessOfTokens(a: Accessibility, b: Accessibility)
    ensures SetterAccess([]) == None
    ensures SetterAccess([RawValue(a)]) == None
    ensures SetterAccess([SetterToken(b)]) == Some(b)
    ensures SetterAccess([RawValue(a), SetterToken(b)]) == Some(b)
  {
    NoFirstCharNoOccurrence(RawValue(a), SetterMarker);
    RemoveTrailing(RawValue(b), SetterMarker);
    ParseRawValueRoundTrip(b);
    assert [RawValue(a), SetterToken(b)][1..] == [SetterToken(b)];
  }

  /** How the modifier tokens are spelled. */
  lemma TokenSpelling()
    ensures SetterToken(Private) == "private(set)"
    ensures SetterToken(Fileprivate) == "fileprivate(set)"
    ensures SetterToken(Internal) == "internal(set)"
    ensures SetterToken(Public) == "public(set)"
    ensures SetterToken(Open) == "open(set)"
  {
  }

  /** A member whose modifiers are at most its own keyword is flagged exactly when its level
      is written, equals the scope's, and is neither public nor open. */
  lemma KeywordOnlyDecision(c: Decl, parent: Accessibility)
    requires c.modifiers == [] || c.modifiers == [RawValue(c.accessibility.value)]
    ensures ShouldFlag(c, parent) <==>
      Rank(c.accessibility.value) <= 2 && c.accessibility.isExplicit && c.accessibility.value == parent
  {
    SetterAccessOfTokens(c.accessibility.value, c.accessibility.value);
  }

  /** A member carrying the setter modifier `b(set)` is flagged exactly when it is neither
      public nor open and either `b` is its own level or its written level equals the scope's. */
  lemma SetterDecision(c: Decl, parent: Accessibility, b: Accessibility)
    requires c.modifiers == [SetterToken(b)] || c.modifiers == [RawValue(c.accessibility.value), SetterToken(b)]
    ensures ShouldFlag(c, parent) <==>
      Rank(c.accessibility.value) <= 2 &&
      (b == c.accessibility.value || (c.accessibility.isExplicit && c.accessibility.value == parent))
  {
    SetterAccessOfTokens(c.accessibility.value, b);
  }

  /** Modifiers none of which has a `(` have no setter modifier, so only the written level
      can get a member flagged. */
  lemma NoParenthesisDecision(c: Decl, parent: Accessibility)
    requires forall i :: 0 <= i < |c.modifiers| ==> '(' !in c.modifiers[i]
    ensures ShouldFlag(c, parent) <==>
      Rank(c.accessibility.value) <= 2 && c.accessibility.isExplicit && c.accessibility.value == parent
  {
    forall i | 0 <= i < |c.modifiers|
      ensures !Contains(c.modifiers[i], SetterMarker)
    {
      NoFirstCharNoOccurrence(c.modifiers[i], SetterMarker);
    }
  }

  /** A scan of `[c] + cs` marks what `c` contributes and what the scan of `cs` marks. */
  lemma ScanCons(parent: Accessibility, c: Decl, cs: seq<Decl>, isRetained: DeclId -> bool)
    ensures ScanChildren(parent, [c] + cs, isRetained) == ChildMarks(parent, c, isRetained) + ScanChildren(parent, cs, isRetained)
  {
    assert ([c] + cs)[0] == c;
    assert ([c] + cs)[1..] == cs;
  }

  /** A scan of `[c]` marks what `c` contributes. */
  lemma ScanSingle(parent: Accessibility, c: Decl, isRetained: DeclId -> bool)
    ensures ScanChildren(parent, [c], isRetained) == ChildMarks(parent, c, isRetained)
  {
    assert [c][1..] == [];
  }

  /** A scan of three members marks what each of them contributes. */
  lemma ScanThree(parent: Accessibility, a: Decl, b: Decl, c: Decl, isRetained: DeclId -> bool)
    ensures ScanChildren(parent, [a, b, c], isRetained) ==
      ChildMarks(parent, a, isRetained) + ChildMarks(parent, b, isRetained) + ChildMarks(parent, c, isRetained)
  {
    ScanSingle(parent, c, isRetained);
    assert [b, c] == [b] + [c];
    ScanCons(parent, b, [c], isRetained);
    assert [a, b, c] == [a] + [b, c];
    ScanCons(parent, a, [b, c], isRetained);
  }

  /** A scan of six members marks what each of them contributes. */
  lemma ScanSix(parent: Accessibility, a: Decl, b: Decl, c: Decl, d: Decl, e: Decl, f: Decl, isRetained: DeclId -> bool)
    ensures ScanChildren(parent, [a, b, c, d, e, f], isRetained) ==
      ChildMarks(parent, a, isRetained) + ChildMarks(parent, b, isRetained) + ChildMarks(parent, c, isRetained) +
      ChildMarks(parent, d, isRetained) + ChildMarks(parent, e, isRetained) + ChildMarks(parent, f, isRetained)
  {
    ScanThree(parent, a, b, c, isRetained);
    ScanThree(parent, d, e, f, isRetained);
    assert [a, b, c, d, e, f] == [a, b, c] + [d, e, f];
    Properties.ScanChildrenConcat(parent, [a, b, c], [d, e, f], isRetained);
  }

  /** The marks of a single root. */
  lemma MarksOfSingle(root: Decl, isRetained: DeclId -> bool, extendedDeclaration: Decl -> Option<Decl>)
    ensures MarksOf([root], isRetained, extendedDeclaration) == RootMarks(root, isRetained, extendedDeclaration)
  {
    assert [root][1..] == [];
  }

  /** The marks of two roots. */
  lemma MarksOfTwo(first: Decl, second: Decl, isRetained: DeclId -> bool, extendedDeclaration: Decl -> Option<Decl>)
    ensures MarksOf([first, second], isRetained, extendedDeclaration) ==
      RootMarks(first, isRetained, extendedDeclaration) + RootMarks(second, isRetained, extendedDeclaration)
  {
    assert [first, second][1..] == [second];
    MarksOfSingle(second, isRetained, extendedDeclaration);
  }

  /** A member without members of its own contributes at most its own mark. */
  lemma LeafMarks(parent: Accessibility, c: Decl, isRetained: DeclId -> bool)
    requires c.declarations == []
    ensures ChildMarks(parent, c, isRetained) == if c.isImplicit then {} else SelfMark(parent, c, isRetained)
  {
    assert Scan(c, isRetained) == {};
  }

  // ----- fixture lines 100-104: nested fileprivate classes -----

  const DeeplyNestedVar := D(3, VarInstance, Fileprivate, true, ["fileprivate"], [])
  const InnerFilePrivateClass := D(2, Class, Fileprivate, true, ["fileprivate"], [DeeplyNestedVar])
  const OuterFilePrivateClass := D(1, Class, Fileprivate, true, ["fileprivate"], [InnerFilePrivateClass])

  lemma NestedFileprivateDecisions()
    ensures ShouldFlag(DeeplyNestedVar, Fileprivate) && ShouldFlag(InnerFilePrivateClass, Fileprivate)
  {
    TokenSpelling();
    KeywordOnlyDecision(DeeplyNestedVar, Fileprivate);
    KeywordOnlyDecision(InnerFilePrivateClass, Fileprivate);
  }

  /** The scan of the outer class marks the nested class and its property. */
  lemma NestedFileprivateScan(isRetained: DeclId -> bool)
    requires forall id :: !isRetained(id)
    ensures Scan(OuterFilePrivateClass, isRetained) == {2, 3}
  {
    NestedFileprivateDecisions();
    LeafMarks(Fileprivate, DeeplyNestedVar, isRetained);
    ScanSingle(Fileprivate, DeeplyNestedVar, isRetained);
    ScanSingle(Fileprivate, InnerFilePrivateClass, isRetained);
  }

  /** Both the nested fileprivate class and the fileprivate property inside it are marked;
      the root is not. */
  lemma NestedFileprivateMarked(isRetained: DeclId -> bool)
    requires forall id :: !isRetained(id)
    ensures PassMarks(false, [OuterFilePrivateClass], isRetained, NoExtendedDeclaration) == {2, 3}
  {
    NestedFileprivateScan(isRetained);
    MarksOfSingle(OuterFilePrivateClass, isRetained, NoExtendedDeclaration);
  }

  /** Retaining the nested class leaves only it unmarked: its property is still visited, in
      the class's context, and marked. */
  lemma RetainedClassStillScanned()
    ensures PassMarks(false, [OuterFilePrivateClass], (id: DeclId) => id == 2, NoExtendedDeclaration) == {3}
  {
    NestedFileprivateDecisions();
    var ret := (id: DeclId) => id == 2;
    LeafMarks(Fileprivate, DeeplyNestedVar, ret);
    ScanSingle(Fileprivate, DeeplyNestedVar, ret);
    ScanSingle(Fileprivate, InnerFilePrivateClass, ret);
    assert Scan(OuterFilePrivateClass, ret) == {3};
  }

  /** With the analysis disabled nothing is marked. */
  lemma DisabledMarksNothing(isRetained: DeclId -> bool)
    requires forall id :: !isRetained(id)
    ensures PassMarks(true, [OuterFilePrivateClass], isRetained, NoExtendedDeclaration) == {}
  {
  }

  // ----- fixture lines 181-191: setter modifiers in a fileprivate class -----

  const FileprivateRedundantSetterAndAccess := D(12, VarInstance, Fileprivate, true, ["fileprivate", "fileprivate(set)"], [])
  const FileprivateRedundantAccessOnly := D(13, VarInstance, Fileprivate, true, ["fileprivate", "private(set)"], [])
  const FileprivateUse := D(14, FunctionMethodInstance, Fileprivate, false, [], [])
  const FileprivateClass := D(11, Class, Fileprivate, true, ["fileprivate"],
    [FileprivateRedundantSetterAndAccess, FileprivateRedundantAccessOnly, FileprivateUse])

  lemma FileprivateClassDecisions()
    ensures ShouldFlag(FileprivateRedundantSetterAndAccess, Fileprivate)
    ensures ShouldFlag(FileprivateRedundantAccessOnly, Fileprivate)
    ensures !ShouldFlag(FileprivateUse, Fileprivate)
  {
    TokenSpelling();
    SetterDecision(FileprivateRedundantSetterAndAccess, Fileprivate, Fileprivate);
    SetterDecision(FileprivateRedundantAccessOnly, Fileprivate, Private);
    KeywordOnlyDecision(FileprivateUse, Fileprivate);
  }

  /** What each member of `FileprivateClass` contributes. */
  lemma FileprivateClassMembers(isRetained: DeclId -> bool)
    requires forall id :: !isRetained(id)
    ensures ChildMarks(Fileprivate, FileprivateRedundantSetterAndAccess, isRetained) == {12}
    ensures ChildMarks(Fileprivate, FileprivateRedundantAccessOnly, isRetained) == {13}
    ensures ChildMarks(Fileprivate, FileprivateUse, isRetained) == {}
  {
    FileprivateClassDecisions();
    LeafMarks(Fileprivate, FileprivateRedundantSetterAndAccess, isRetained);
    LeafMarks(Fileprivate, FileprivateRedundantAccessOnly, isRetained);
    LeafMarks(Fileprivate, FileprivateUse, isRetained);
  }

  /** `fileprivate fileprivate(set)` and `fileprivate private(set)` in a fileprivate class are
      both marked; the method whose level was not written is not. */
  lemma FileprivateClassMarks(isRetained: DeclId -> bool)
    requires forall id :: !isRetained(id)
    ensures Scan(FileprivateClass, isRetained) == {12, 13}
  {
    FileprivateClassMembers(isRetained);
    ScanThree(Fileprivate, FileprivateRedundantSetterAndAccess, FileprivateRedundantAccessOnly, FileprivateUse, isRetained);
  }

  // ----- fixture lines 193-208: setter modifiers in an internal class -----

  const FileprivateRedundantSetter := D(16, VarInstance, Fileprivate, true, ["fileprivate", "fileprivate(set)"], [])
  const InternalRedundantSetterAndAccess := D(17, VarInstance, Internal, true, ["internal", "internal(set)"], [])
  const InternalRedundantSetterImplicitAccess := D(18, VarInstance, Internal, false, ["internal(set)"], [])
  const InternalRedundantAccessOnly := D(19, VarInstance, Internal, true, ["internal", "private(set)"], [])
  const FileprivatePrivateSetNonRedundant := D(20, VarInstance, Fileprivate, true, ["fileprivate", "private(set)"], [])
  const InternalUse := D(21, FunctionMethodInstance, Internal, false, [], [])
  const InternalClassWithSetters := D(15, Class, Internal, true, ["internal"],
    [FileprivateRedundantSetter, InternalRedundantSetterAndAccess, InternalRedundantSetterImplicitAccess,
     InternalRedundantAccessOnly, FileprivatePrivateSetNonRedundant, InternalUse])

  lemma InternalClassWithSettersDecisions()
    ensures ShouldFlag(FileprivateRedundantSetter, Internal)
    ensures ShouldFlag(InternalRedundantSetterAndAccess, Internal)
    ensures ShouldFlag(InternalRedundantSetterImplicitAccess, Internal)
    ensures ShouldFlag(InternalRedundantAccessOnly, Internal)
    ensures !ShouldFlag(FileprivatePrivateSetNonRedundant, Internal)
    ensures !ShouldFlag(InternalUse, Internal)
  {
    TokenSpelling();
    SetterDecision(FileprivateRedundantSetter, Internal, Fileprivate);
    SetterDecision(InternalRedundantSetterAndAccess, Internal, Internal);
    SetterDecision(InternalRedundantSetterImplicitAccess, Internal, Internal);
    SetterDecision(InternalRedundantAccessOnly, Internal, Private);
    SetterDecision(FileprivatePrivateSetNonRedundant, Internal, Private);
    KeywordOnlyDecision(InternalUse, Internal);
  }

  /** What each member of `InternalClassWithSetters` contributes. */
  lemma InternalClassWithSettersMembers(isRetained: DeclId -> bool)
    requires forall id :: !isRetained(id)
    ensures ChildMarks(Internal, FileprivateRedundantSetter, isRetained) == {16}
    ensures ChildMarks(Internal, InternalRedundantSetterAndAccess, isRetained) == {17}
    ensures ChildMarks(Internal, InternalRedundantSetterImplicitAccess, isRetained) == {18}
    ensures ChildMarks(Internal, InternalRedundantAccessOnly, isRetained) == {19}
    ensures ChildMarks(Internal, FileprivatePrivateSetNonRedundant, isRetained) == {}
    ensures ChildMarks(Internal, InternalUse, isRetained) == {}
  {
    InternalClassWithSettersDecisions();
    LeafMarks(Internal, FileprivateRedundantSetter, isRetained);
    LeafMarks(Internal, InternalRedundantSetterAndAccess, isRetained);
    LeafMarks(Internal, InternalRedundantSetterImplicitAccess, isRetained);
    LeafMarks(Internal, InternalRedundantAccessOnly, isRetained);
    LeafMarks(Internal, FileprivatePrivateSetNonRedundant, isRetained);
    LeafMarks(Internal, InternalUse, isRetained);
  }

  /** Inside an internal class every property but `fileprivatePrivateSetNonRedundant` is
      marked: `fileprivate fileprivate(set)` and `internal(set)` on an implicitly internal
      property for their setters, the explicit `internal` ones for their level. */
  lemma InternalClassWithSettersMarks(isRetained: DeclId -> bool)
    requires forall id :: !isRetained(id)
    ensures Scan(InternalClassWithSetters, isRetained) == {16, 17, 18, 19}
  {
    InternalClassWithSettersScan(isRetained);
  }

  /** Six members of an internal scope of which the first four contribute their own ids
      16 to 19 and the last two nothing mark exactly those four ids. */
  lemma SixMembersOfInternalClass(a: Decl, b: Decl, c: Decl, d: Decl, e: Decl, f: Decl, isRetained: DeclId -> bool)
    requires ChildMarks(Internal, a, isRetained) == {16}
    requires ChildMarks(Internal, b, isRetained) == {17}
    requires ChildMarks(Internal, c, isRetained) == {18}
    requires ChildMarks(Internal, d, isRetained) == {19}
    requires ChildMarks(Internal, e, isRetained) == {}
    requires ChildMarks(Internal, f, isRetained) == {}
    ensures ScanChildren(Internal, [a, b, c, d, e, f], isRetained) == {16, 17, 18, 19}
  {
    ScanSix(Internal, a, b, c, d, e, f, isRetained);
  }

  /** The scan of `InternalClassWithSetters`'s members. */
  lemma InternalClassWithSettersScan(isRetained: DeclId -> bool)
    requires forall id :: !isRetained(id)
    ensures ScanChildren(Internal, InternalClassWithSetters.declarations, isRetained) == {16, 17, 18, 19}
  {
    InternalClassWithSettersMembers(isRetained);
    SixMembersOfInternalClass( FileprivateRedundantSetter, InternalRedundantSetterAndAccess, InternalRedundantSetterImplicitAccess,
      InternalRedundantAccessOnly, FileprivatePrivateSetNonRedundant, InternalUse, isRetained);
  }

  // ----- fixture lines 116-137 and 154-162: a written level next to a different setter -----

  const FileprivateRedundantProp := D(90, VarInstance, Fileprivate, true, ["fileprivate"], [])
  const FileprivateWithPrivateSet := D(91, VarInstance, Fileprivate, true, ["fileprivate", "private(set)"], [])
  const InternalRedundantProp := D(92, VarInstance, Internal, true, ["internal"], [])
  const InternalWithPrivateSet := D(93, VarInstance, Internal, true, ["internal", "private(set)"], [])
  const InternalWithFileprivateSet := D(94, VarInstance, Internal, true, ["internal", "fileprivate(set)"], [])
  const PrivateRedundantProp := D(95, VarInstance, Private, true, ["private"], [])
  const PrivateWithPrivateSet := D(96, VarInstance, Private, true, ["private", "private(set)"], [])

  /** Every one of these properties is flagged in its own class: the written main level equals
      the class's, and a differing setter does not save it; `private private(set)` is flagged
      as well, its setter being redundant too. */
  lemma SetterNextToScopeLevelDecisions()
    ensures ShouldFlag(FileprivateRedundantProp, Fileprivate)
    ensures ShouldFlag(FileprivateWithPrivateSet, Fileprivate)
    ensures ShouldFlag(InternalRedundantProp, Internal)
    ensures ShouldFlag(InternalWithPrivateSet, Internal)
    ensures ShouldFlag(InternalWithFileprivateSet, Internal)
    ensures ShouldFlag(PrivateRedundantProp, Private)
    ensures ShouldFlag(PrivateWithPrivateSet, Private)
  {
    TokenSpelling();
    KeywordOnlyDecision(FileprivateRedundantProp, Fileprivate);
    SetterDecision(FileprivateWithPrivateSet, Fileprivate, Private);
    KeywordOnlyDecision(InternalRedundantProp, Internal);
    SetterDecision(InternalWithPrivateSet, Internal, Private);
    SetterDecision(InternalWithFileprivateSet, Internal, Fileprivate);
    KeywordOnlyDecision(PrivateRedundantProp, Private);
    SetterDecision(PrivateWithPrivateSet, Private, Private);
  }

  // ----- fixture lines 8-14 and 24-31: members whose level differs from the scope's -----

  const PrivateVarInFileprivateStruct := D(97, VarInstance, Private, true, ["private"], [])
  const FileprivateVarInInternalClass := D(98, VarInstance, Fileprivate, true, ["fileprivate"], [])

  /** A written level below the scope's is not flagged. */
  lemma DifferentLevelDecisions()
    ensures !ShouldFlag(PrivateVarInFileprivateStruct, Fileprivate)
    ensures !ShouldFlag(FileprivateVarInInternalClass, Internal)
  {
    KeywordOnlyDecision(PrivateVarInFileprivateStruct, Fileprivate);
    KeywordOnlyDecision(FileprivateVarInInternalClass, Internal);
  }

  // ----- fixture lines 40-44: an internal enum with a case and a static method -----

  const SomeCase := D(101, EnumElement, Internal, false, [], [])
  const InternalStaticMethodInInternalEnum := D(102, FunctionMethodStatic, Internal, true, ["internal", "static"], [])
  const InternalEnumWithRedundantMembers := D(100, Enum, Internal, true, ["internal"],
    [SomeCase, InternalStaticMethodInInternalEnum])

  lemma InternalEnumDecisions()
    ensures !ShouldFlag(SomeCase, Internal)
    ensures ShouldFlag(InternalStaticMethodInInternalEnum, Internal)
  {
    NoParenthesisDecision(SomeCase, Internal);
    NoParenthesisDecision(InternalStaticMethodInInternalEnum, Internal);
  }

  /** In an internal enum the `internal static` method is marked; the case, whose level was
      not written, is not. */
  lemma InternalEnumMarks(isRetained: DeclId -> bool)
    requires forall id :: !isRetained(id)
    ensures PassMarks(false, [InternalEnumWithRedundantMembers], isRetained, NoExtendedDeclaration) == {102}
  {
    InternalEnumDecisions();
    var a, b := SomeCase, InternalStaticMethodInInternalEnum;
    LeafMarks(Internal, a, isRetained);
    LeafMarks(Internal, b, isRetained);
    ScanSingle(Internal, b, isRetained);
    assert [a, b] == [a] + [b];
    ScanCons(Internal, a, [b], isRetained);
    assert Scan(InternalEnumWithRedundantMembers, isRetained) == {102};
    MarksOfSingle(InternalEnumWithRedundantMembers, isRetained, NoExtendedDeclaration);
  }

  // ----- fixture lines 62-68: a public class -----

  const PublicVarInPublicClass := D(111, VarInstance, Public, true, ["public"], [])
  const PublicFuncInPublicClass := D(112, FunctionMethodInstance, Public, true, ["public"], [])
  const PrivateVarInPublicClass := D(113, VarInstance, Private, true, ["private"], [])
  const PublicClassWithExplicitMembers := D(110, Class, Public, true, ["public"],
    [PublicVarInPublicClass, PublicFuncInPublicClass, PrivateVarInPublicClass])

  lemma PublicClassDecisions()
    ensures !ShouldFlag(PublicVarInPublicClass, Public)
    ensures !ShouldFlag(PublicFuncInPublicClass, Public)
    ensures !ShouldFlag(PrivateVarInPublicClass, Public)
  {
    KeywordOnlyDecision(PrivateVarInPublicClass, Public);
  }

  /** Nothing in a public class is marked: neither its public members nor its private var. */
  lemma PublicClassMarks(isRetained: DeclId -> bool)
    requires forall id :: !isRetained(id)
    ensures PassMarks(false, [PublicClassWithExplicitMembers], isRetained, NoExtendedDeclaration) == {}
  {
    PublicClassDecisions();
    LeafMarks(Public, PublicVarInPublicClass, isRetained);
    LeafMarks(Public, PublicFuncInPublicClass, isRetained);
    LeafMarks(Public, PrivateVarInPublicClass, isRetained);
    ScanThree(Public, PublicVarInPublicClass, PublicFuncInPublicClass, PrivateVarInPublicClass, isRetained);
    assert Scan(PublicClassWithExplicitMembers, isRetained) == {};
    MarksOfSingle(PublicClassWithExplicitMembers, isRetained, NoExtendedDeclaration);
  }

  // ----- an internal member of a public scope -----

  const InternalVarInPublicScope := D(120, VarInstance, Internal, true, ["internal"], [])
  const InternalSetterVarInPublicScope := D(121, VarInstance, Internal, true, ["internal", "internal(set)"], [])

  /** In a public scope an explicit `internal` member is not flagged for its level, but one
      whose setter modifier repeats that level is. */
  lemma InternalSetterInPublicScope()
    ensures !ShouldFlag(InternalVarInPublicScope, Public)
    ensures ShouldFlag(InternalSetterVarInPublicScope, Public)
  {
    TokenSpelling();
    KeywordOnlyDecision(InternalVarInPublicScope, Public);
    SetterDecision(InternalSetterVarInPublicScope, Public, Internal);
  }

  // ----- fixture lines 141-151: a public class with setter modifiers -----

  const PublicNotRedundantProp := D(41, VarInstance, Public, true, ["public"], [])
  const PublicWithInternalSet := D(42, VarInstance, Public, true, ["public", "internal(set)"], [])
  const PublicWithPrivateSet := D(43, VarInstance, Public, true, ["public", "private(set)"], [])
  const PublicNestedClass := D(40, Class, Public, true, ["public"],
    [PublicNotRedundantProp, PublicWithInternalSet, PublicWithPrivateSet])

  lemma PublicNestedClassDecisions()
    ensures !ShouldFlag(PublicNotRedundantProp, Public)
    ensures !ShouldFlag(PublicWithInternalSet, Public)
    ensures !ShouldFlag(PublicWithPrivateSet, Public)
  {
    TokenSpelling();
  }

  /** Nothing in a public class is marked: neither `public var` nor `public internal(set)` nor
      `public private(set)`. */
  lemma PublicNestedClassMarks(isRetained: DeclId -> bool)
    requires forall id :: !isRetained(id)
    ensures Scan(PublicNestedClass, isRetained) == {}
  {
    PublicNestedClassDecisions();
    var a, b, c := PublicNotRedundantProp, PublicWithInternalSet, PublicWithPrivateSet;
    LeafMarks(Public, a, isRetained);
    LeafMarks(Public, b, isRetained);
    LeafMarks(Public, c, isRetained);
    ScanSingle(Public, c, isRetained);
    assert [b, c] == [b] + [c];
    ScanCons(Public, b, [c], isRetained);
    assert [a, b, c] == [a] + [b, c];
    ScanCons(Public, a, [b, c], isRetained);
    assert PublicNestedClass.declarations == [a, b, c];
  }

  // ----- fixture lines 53-60: a public struct -----

  const PublicVarInPublicStruct := D(31, VarInstance, Public, true, ["public"], [])
  const InternalVarInPublicStruct := D(32, VarInstance, Internal, true, ["internal"], [])
  const PrivateVarInPublicStruct := D(33, VarInstance, Private, true, ["private"], [])
  const PublicStructWithExplicitMembers := D(30, Struct, Public, true, ["public"],
    [PublicVarInPublicStruct, InternalVarInPublicStruct, PrivateVarInPublicStruct])

  lemma PublicStructDecisions()
    ensures !ShouldFlag(PublicVarInPublicStruct, Public)
    ensures !ShouldFlag(InternalVarInPublicStruct, Public)
    ensures !ShouldFlag(PrivateVarInPublicStruct, Public)
  {
    TokenSpelling();
    KeywordOnlyDecision(InternalVarInPublicStruct, Public);
    KeywordOnlyDecision(PrivateVarInPublicStruct, Public);
  }

  /** Nothing in a public struct is marked, including its explicit `internal var`, the level
      its members would have had anyway. */
  lemma PublicStructMarks(isRetained: DeclId -> bool)
    requires forall id :: !isRetained(id)
    ensures PassMarks(false, [PublicStructWithExplicitMembers], isRetained, NoExtendedDeclaration) == {}
  {
    PublicStructDecisions();
    var a, b, c := PublicVarInPublicStruct, InternalVarInPublicStruct, PrivateVarInPublicStruct;
    LeafMarks(Public, a, isRetained);
    LeafMarks(Public, b, isRetained);
    LeafMarks(Public, c, isRetained);
    ScanSingle(Public, c, isRetained);
    assert [b, c] == [b] + [c];
    ScanCons(Public, b, [c], isRetained);
    assert [a, b, c] == [a] + [b, c];
    ScanCons(Public, a, [b, c], isRetained);
    assert PublicStructWithExplicitMembers.declarations == [a, b, c];
    assert Scan(PublicStructWithExplicitMembers, isRetained) == {};
    MarksOfSingle(PublicStructWithExplicitMembers, isRetained, NoExtendedDeclaration);
  }

  // ----- fixture lines 82-91: implicit levels and mixed levels -----

  const ImplicitInternalVar := D(51, VarInstance, Internal, false, [], [])
  const InternalStructWithImplicitMembers := D(50, Struct, Internal, true, ["internal"], [ImplicitInternalVar])
  const PublicVarInPrivateStruct := D(53, VarInstance, Public, true, ["public"], [])
  const InternalVarInPrivateStruct := D(54, VarInstance, Internal, true, ["internal"], [])
  const ImplicitPrivateVar := D(55, VarInstance, Private, false, [], [])
  const PrivateStructWithMixedAccess := D(52, Struct, Private, true, ["private"],
    [PublicVarInPrivateStruct, InternalVarInPrivateStruct, ImplicitPrivateVar])

  lemma ImplicitAndMixedDecisions()
    ensures !ShouldFlag(ImplicitInternalVar, Internal)
    ensures !ShouldFlag(PublicVarInPrivateStruct, Private)
    ensures !ShouldFlag(InternalVarInPrivateStruct, Private)
    ensures !ShouldFlag(ImplicitPrivateVar, Private)
  {
    TokenSpelling();
    KeywordOnlyDecision(ImplicitInternalVar, Internal);
    KeywordOnlyDecision(InternalVarInPrivateStruct, Private);
    KeywordOnlyDecision(ImplicitPrivateVar, Private);
  }

  /** An implicitly internal property of an internal struct is not marked, nor is any member
      of a private struct whose level differs from the struct's or was not written. */
  lemma ImplicitAndMixedMarks(isRetained: DeclId -> bool)
    requires forall id :: !isRetained(id)
    ensures PassMarks(false, [InternalStructWithImplicitMembers, PrivateStructWithMixedAccess], isRetained, NoExtendedDeclaration) == {}
  {
    ImplicitAndMixedDecisions();
    var a, b, c := PublicVarInPrivateStruct, InternalVarInPrivateStruct, ImplicitPrivateVar;
    LeafMarks(Internal, ImplicitInternalVar, isRetained);
    ScanSingle(Internal, ImplicitInternalVar, isRetained);
    assert Scan(InternalStructWithImplicitMembers, isRetained) == {};
    LeafMarks(Private, a, isRetained);
    LeafMarks(Private, b, isRetained);
    LeafMarks(Private, c, isRetained);
    ScanSingle(Private, c, isRetained);
    assert [b, c] == [b] + [c];
    ScanCons(Private, b, [c], isRetained);
    assert [a, b, c] == [a] + [b, c];
    ScanCons(Private, a, [b, c], isRetained);
    assert PrivateStructWithMixedAccess.declarations == [a, b, c];
    assert Scan(PrivateStructWithMixedAccess, isRetained) == {};
    MarksOfTwo(InternalStructWithImplicitMembers, PrivateStructWithMixedAccess, isRetained, NoExtendedDeclaration);
  }

  // ----- fixture lines 72-78: a public extension of a public struct -----

  const SomeVar := D(61, VarInstance, Public, true, ["public"], [])
  const PublicStructWithPublicExtension := D(60, Struct, Public, true, ["public"], [SomeVar])
  const PublicFuncInPublicExtension := D(63, FunctionMethodInstance, Public, true, ["public"], [])
  const PublicExtension := D(62, ExtensionStruct, Public, true, ["public"], [PublicFuncInPublicExtension])

  /** The extension resolves to the struct it extends. */
  const ResolvePublicExtension: Decl -> Option<Decl> :=
    (d: Decl) => if d.id == 62 then Some(PublicStructWithPublicExtension) else None

  /** Neither the public extension of a public struct nor its public method is marked. */
  lemma PublicExtensionMarks(isRetained: DeclId -> bool)
    requires forall id :: !isRetained(id)
    ensures PassMarks(false, [PublicStructWithPublicExtension, PublicExtension], isRetained, ResolvePublicExtension) == {}
  {
    assert !ShouldFlag(SomeVar, Public) && !ShouldFlag(PublicFuncInPublicExtension, Public);
    LeafMarks(Public, SomeVar, isRetained);
    ScanSingle(Public, SomeVar, isRetained);
    LeafMarks(Public, PublicFuncInPublicExtension, isRetained);
    ScanSingle(Public, PublicFuncInPublicExtension, isRetained);
    assert ExtensionSelfMark(PublicExtension, isRetained, ResolvePublicExtension) == {};
    assert RootMarks(PublicExtension, isRetained, ResolvePublicExtension) == {};
    assert RootMarks(PublicStructWithPublicExtension, isRetained, ResolvePublicExtension) == {};
    MarksOfTwo(PublicStructWithPublicExtension, PublicExtension, isRetained, ResolvePublicExtension);
  }

  // ----- a fileprivate extension of a fileprivate type -----

  const FileprivateType := D(70, Struct, Fileprivate, true, ["fileprivate"], [])
  const FileprivateMember := D(72, FunctionMethodInstance, Fileprivate, true, ["fileprivate"], [])
  const FileprivateExtension := D(71, ExtensionStruct, Fileprivate, true, ["fileprivate"], [FileprivateMember])

  const ResolveFileprivateExtension: Decl -> Option<Decl> :=
    (d: Decl) => if d.id == 71 then Some(FileprivateType) else None

  /** The scans below the fileprivate type and below its extension. */
  lemma FileprivateExtensionScans(isRetained: DeclId -> bool)
    requires forall id :: !isRetained(id)
    ensures Scan(FileprivateType, isRetained) == {}
    ensures Scan(FileprivateExtension, isRetained) == {72}
  {
    KeywordOnlyDecision(FileprivateMember, Fileprivate);
    LeafMarks(Fileprivate, FileprivateMember, isRetained);
    ScanSingle(Fileprivate, FileprivateMember, isRetained);
  }

  /** A fileprivate extension of a fileprivate type is marked, and so is its explicitly
      fileprivate member. */
  lemma FileprivateExtensionMarks(isRetained: DeclId -> bool)
    requires forall id :: !isRetained(id)
    ensures PassMarks(false, [FileprivateType, FileprivateExtension], isRetained, ResolveFileprivateExtension) == {71, 72}
  {
    FileprivateExtensionScans(isRetained);
    assert ExtensionSelfMark(FileprivateExtension, isRetained, ResolveFileprivateExtension) == {71};
    MarksOfTwo(FileprivateType, FileprivateExtension, isRetained, ResolveFileprivateExtension);
  }

  /** When the extended type cannot be resolved only the extension's member is marked. */
  lemma UnresolvedExtensionMarks(isRetained: DeclId -> bool)
    requires forall id :: !isRetained(id)
    ensures PassMarks(false, [FileprivateType, FileprivateExtension], isRetained, NoExtendedDeclaration) == {72}
  {
    FileprivateExtensionScans(isRetained);
    assert ExtensionSelfMark(FileprivateExtension, isRetained, NoExtendedDeclaration) == {};
    MarksOfTwo(FileprivateType, FileprivateExtension, isRetained, NoExtendedDeclaration);
  }

  // ----- a compiler-synthesised member is skipped with everything below it -----

  const NestedInImplicit := D(82, VarInstance, Fileprivate, true, ["fileprivate"], [])
  const SynthesisedMember := Decl(81, FunctionMethodInstance, DeclarationAccessibility(Fileprivate, true), [], true, [NestedInImplicit])
  const ScopeWithSynthesisedMember := D(80, Class, Fileprivate, true, ["fileprivate"], [SynthesisedMember])

  /** An implicit member is not marked even when its level matches, and nothing below it is. */
  lemma ImplicitMemberSkipped(isRetained: DeclId -> bool)
    requires forall id :: !isRetained(id)
    ensures Scan(ScopeWithSynthesisedMember, isRetained) == {}
  {
    ScanSingle(Fileprivate, SynthesisedMember, isRetained);
  }
}
