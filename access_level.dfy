/** Swift's five access levels, as the `Accessibility` enum of the declaration graph
    (string raw values), and the default-member-access rule the marker enforces. */
module AccessLevel {
  import opened Wrappers

  /** From most restrictive to most permissive. */
  datatype Accessibility = Private | Fileprivate | Internal | Public | Open

  /** Position in the permissiveness order (0 = `private` ... 4 = `open`). */
  function Rank(a: Accessibility): (r: nat)
    ensures r < 5
    ensures a == Internal <==> r == 2
    ensures (a == Public || a == Open) <==> r > 2
  {
    match a
    case Private => 0
    case Fileprivate => 1
    case Internal => 2
    case Public => 3
    case Open => 4
  }

  /** The enum's `rawValue`: the keyword as written in source. */
  function RawValue(a: Accessibility): (r: string)
    ensures r != [] && '(' !in r
  {
    match a
    case Private => "private"
    case Fileprivate => "fileprivate"
    case Internal => "internal"
    case Public => "public"
    case Open => "open"
  }

  /** `Accessibility(rawValue:)`: the level a keyword names, if any. */
  function ParseRawValue(s: string): (r: Option<Accessibility>)
    ensures r.Some? ==> RawValue(r.value) == s
    ensures r.None? ==> forall a: Accessibility :: RawValue(a) != s
  {
    if s == "private" then Some(Private)
    else if s == "fileprivate" then Some(Fileprivate)
    else if s == "internal" then Some(Internal)
    else if s == "public" then Some(Public)
    else if s == "open" then Some(Open)
    else None
  }

  /** Raw values are distinct, so parsing inverts `RawValue`. */
  lemma ParseRawValueRoundTrip(a: Accessibility)
    ensures ParseRawValue(RawValue(a)) == Some(a)
  {
  }

  /** The default access of an unannotated member of a scope whose level is `scope`:
      private, fileprivate and internal scopes pass their own level down; public and
      open scopes give their members internal. */
  function MemberDefault(scope: Accessibility): (r: Accessibility)
    ensures Rank(r) <= Rank(scope)
    ensures Rank(r) <= 2
    ensures Rank(scope) <= 2 ==> r == scope
    ensures Rank(scope) > 2 ==> r == Internal
  {
    if scope == Public || scope == Open then Internal else scope
  }
}
