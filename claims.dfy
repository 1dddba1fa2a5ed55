/** Claims of a token and of a signed-in principal, and `FindFirst(type)`.
    The claim type names are those of RFC 7519 (section 4.1.2 `sub`,
    section 4.1.7 `jti`) and of .NET's `ClaimTypes`. */
module Claims {
  import opened Wrappers
  import Tables
  import Text

  datatype Claim = Claim(kind: string, value: string)

  const Sub: string := "sub"
  const Email: string := "email"
  const Jti: string := "jti"
  const NameIdentifier: string := "http://schemas.xmlsoap.org/ws/2005/05/identity/claims/nameidentifier"
  const Role: string := "http://schemas.microsoft.com/ws/2008/06/identity/claims/role"

  /** Two claim types are the same type when they agree up to the case of
      ASCII letters, as `FindFirst(type)` compares them. */
  predicate SameKind(a: string, b: string) {
    Text.ToLower(a) == Text.ToLower(b)
  }

  /** The five claim types are different types, even ignoring letter case. */
  lemma KindsDistinct()
    ensures !SameKind(Sub, NameIdentifier) && !SameKind(Sub, Email) && !SameKind(Sub, Role) && !SameKind(Sub, Jti)
    ensures !SameKind(NameIdentifier, Email) && !SameKind(NameIdentifier, Role) && !SameKind(NameIdentifier, Jti)
    ensures !SameKind(Email, Role) && !SameKind(Email, Jti) && !SameKind(Role, Jti)
  {
    assert Text.ToLower(Sub)[0] == 's' && Text.ToLower(Jti)[0] == 'j';
    assert |NameIdentifier| != |Role|;
  }

  /** `principal.FindFirst(kind)`: the first claim whose type is `kind` up to letter case, if any. */
  function FindFirst(claims: seq<Claim>, kind: string): (r: Option<Claim>)
    ensures r.None? <==> forall i :: 0 <= i < |claims| ==> !SameKind(claims[i].kind, kind)
    ensures r.Some? ==> exists i :: 0 <= i < |claims| && claims[i] == r.value && SameKind(r.value.kind, kind)
                                    && forall j :: 0 <= j < i ==> !SameKind(claims[j].kind, kind)
  {
    Tables.FirstMatch(claims, (c: Claim) => SameKind(c.kind, kind))
  }

  /** `principal.FindFirst(kind)?.Value`. */
  function FirstValue(claims: seq<Claim>, kind: string): Option<string> {
    match FindFirst(claims, kind)
    case None => None
    case Some(c) => Some(c.value)
  }

  /** `FindFirst` looks at the front claim first, then at the rest. */
  lemma FindFirstCons(c: Claim, rest: seq<Claim>)
    ensures forall kind :: FindFirst([c] + rest, kind) == if SameKind(c.kind, kind) then Some(c) else FindFirst(rest, kind)
  {
    assert ([c] + rest)[1..] == rest;
  }

  /** Two types that differ only in letter case find the same claim. */
  lemma {:induction false} FindFirstIgnoresCase(claims: seq<Claim>, kind: string, other: string)
    requires SameKind(kind, other)
    ensures FindFirst(claims, kind) == FindFirst(claims, other)
    decreases |claims|
  {
    if |claims| > 0 {
      FindFirstCons(claims[0], claims[1..]);
      assert [claims[0]] + claims[1..] == claims;
      FindFirstIgnoresCase(claims[1..], kind, other);
    }
  }

  /** An upper-case `sub` is the `sub` type. */
  lemma UpperSubIsSub()
    ensures "SUB" != Sub && SameKind("SUB", Sub)
  {
    assert "SUB"[0] != Sub[0];
    assert Text.ToLower("SUB") == Sub;
  }

  /** `claims.FirstOrDefault(c => c.Type == kind)`: the first claim whose
      type is exactly `kind`, letter case included. */
  function FindExact(claims: seq<Claim>, kind: string): (r: Option<Claim>)
    ensures r.None? <==> forall i :: 0 <= i < |claims| ==> claims[i].kind != kind
    ensures r.Some? ==> exists i :: 0 <= i < |claims| && claims[i] == r.value && r.value.kind == kind
                                    && forall j :: 0 <= j < i ==> claims[j].kind != kind
  {
    Tables.FirstMatch(claims, (c: Claim) => c.kind == kind)
  }

  /** Whenever the exact lookup finds a claim, `FindFirst` finds one too,
      possibly an earlier one whose type differs in letter case. */
  lemma ExactFoundIsFound(claims: seq<Claim>, kind: string)
    requires FindExact(claims, kind).Some?
    ensures FindFirst(claims, kind).Some?
  {
    var i :| 0 <= i < |claims| && claims[i].kind == kind;
    assert SameKind(claims[i].kind, kind);
  }
}
