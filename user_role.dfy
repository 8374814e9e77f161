/**
 * The `UserRole` enum of the server's common enums: four constants, each
 * declared with the Spring Security authority string it stands for. The
 * authority is a `final` field set once by the enum constructor, so here it
 * is a function of the constant.
 */
module Enums {
  import opened Wrappers

  /** The four constants, in declaration order. */
  datatype UserRole = ADMIN | CHIEF | TEACHER | STUDENT

  /** Spring Security's prefix for role authorities. */
  const RolePrefix: string := "ROLE_"

  /** `name()`: the constant's identifier. */
  function Name(role: UserRole): (name: string)
    ensures |name| > 0 && forall k :: 0 <= k < |name| ==> 'A' <= name[k] <= 'Z'
  {
    match role
    case ADMIN => "ADMIN"
    case CHIEF => "CHIEF"
    case TEACHER => "TEACHER"
    case STUDENT => "STUDENT"
  }

  /** `values()`: every constant, each once. */
  function Values(): (roles: seq<UserRole>)
    ensures |roles| == 4
    ensures forall role: UserRole :: role in roles
    ensures forall i, j :: 0 <= i < j < |roles| ==> roles[i] != roles[j]
  {
    var roles := [ADMIN, CHIEF, TEACHER, STUDENT];
    assert forall role: UserRole :: role in roles by {
      forall role: UserRole ensures role in roles {
        assert role == roles[0] || role == roles[1] || role == roles[2] || role == roles[3];
      }
    }
    roles
  }

  /** `getAuthority`: the string each constant is declared with. */
  function Authority(role: UserRole): (authority: string)
    ensures authority == RolePrefix + Name(role)
  {
    match role
    case ADMIN => "ROLE_ADMIN"
    case CHIEF => "ROLE_CHIEF"
    case TEACHER => "ROLE_TEACHER"
    case STUDENT => "ROLE_STUDENT"
  }

  /** Every authority starts with "ROLE_" and has a name after it. */
  lemma AuthorityHasRolePrefix(role: UserRole)
    ensures |Authority(role)| > |RolePrefix| && Authority(role)[..|RolePrefix|] == RolePrefix
  {
  }

  /** Different constants have different names. */
  lemma NameInjective(a: UserRole, b: UserRole)
    requires Name(a) == Name(b)
    ensures a == b
  {
  }

  /** Different constants have different authorities. */
  lemma AuthorityInjective(a: UserRole, b: UserRole)
    requires Authority(a) == Authority(b)
    ensures a == b
  {
  }

  /** The first constant among `roles` whose authority is `authority`, if any. */
  function FindByAuthority(roles: seq<UserRole>, authority: string): (r: Option<UserRole>)
    ensures r.Some? ==> r.value in roles && Authority(r.value) == authority
    ensures r.None? ==> forall role :: role in roles ==> Authority(role) != authority
  {
    if roles == [] then None
    else if Authority(roles[0]) == authority then Some(roles[0])
    else FindByAuthority(roles[1..], authority)
  }

  /** The constant whose authority is `authority`, or None for a string no constant is declared with. */
  function RoleOf(authority: string): (r: Option<UserRole>)
    ensures r.Some? ==> Authority(r.value) == authority
    ensures r.None? <==> forall role: UserRole :: Authority(role) != authority
  {
    FindByAuthority(Values(), authority)
  }

  /** `getAuthority` is invertible on its image: the authority leads back to its constant. */
  lemma RoleOfAuthority(role: UserRole)
    ensures RoleOf(Authority(role)) == Some(role)
  {
  }
}
