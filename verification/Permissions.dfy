/** Role permissions: the seeding script expands `a.b.*` by string prefix, while checking a permission walks
    the dotted prefixes of its code. */
module Permissions {
  import opened CodeUnits

  const ALL_PERMISSIONS: Text := [STAR]
  const WILDCARD_END: Text := [DOT, STAR]

  predicate IsWildcard(pattern: Text) {
    EndsWith(pattern, WILDCARD_END)
  }

  /** The code starts with the pattern up to its star. */
  predicate Covers(pattern: Text, code: Text) {
    IsWildcard(pattern) && StartsWith(code, pattern[..|pattern| - 1])
  }

  /** What a set of permission codes grants. */
  ghost predicate Grants(codes: set<Text>, code: Text) {
    code in codes || ALL_PERMISSIONS in codes || exists pattern :: pattern in codes && Covers(pattern, code)
  }

  // ----- the dotted walk -----

  lemma {:induction false} SplitConcat(p: Text, rest: Text)
    ensures SplitOn(p + [DOT] + rest, DOT) == SplitOn(p, DOT) + SplitOn(rest, DOT)
  {
    var s := p + [DOT] + rest;
    if p == [] {
      assert s[1..] == rest;
    } else {
      assert s[1..] == p[1..] + [DOT] + rest;
      SplitConcat(p[1..], rest);
    }
  }

  lemma {:induction false} JoinConcat(a: seq<Text>, b: seq<Text>)
    requires a != [] && b != []
    ensures Join(a + b, [DOT]) == Join(a, [DOT]) + [DOT] + Join(b, [DOT])
  {
    if |a| == 1 {
      assert (a + b)[1..] == b;
    } else {
      assert (a + b)[1..] == a[1..] + b;
      JoinConcat(a[1..], b);
    }
  }

  /** The wildcard built from the first `i` parts of a code. */
  function WalkedWildcard(code: Text, i: nat): Text
    requires i <= |SplitOn(code, DOT)|
  {
    Join(SplitOn(code, DOT)[..i], [DOT]) + WILDCARD_END
  }

  lemma WalkIsCovered(code: Text, i: nat)
    requires 0 < i < |SplitOn(code, DOT)|
    ensures Covers(WalkedWildcard(code, i), code)
  {
    var parts := SplitOn(code, DOT);
    JoinSplit(code, DOT);
    JoinConcat(parts[..i], parts[i..]);
    assert parts[..i] + parts[i..] == parts;
    var prefix := Join(parts[..i], [DOT]);
    assert WalkedWildcard(code, i) == prefix + [DOT] + [STAR];
  }

  lemma CoveredIsWalked(pattern: Text, code: Text)
    requires Covers(pattern, code)
    ensures exists i :: 0 < i < |SplitOn(code, DOT)| && WalkedWildcard(code, i) == pattern
  {
    var prefix := pattern[..|pattern| - 2];
    var rest := code[|pattern| - 1..];
    assert pattern == prefix + WILDCARD_END;
    assert pattern[..|pattern| - 1] == prefix + [DOT];
    assert code == prefix + [DOT] + rest;
    SplitConcat(prefix, rest);
    JoinSplit(prefix, DOT);
    var i := |SplitOn(prefix, DOT)|;
    assert SplitOn(code, DOT)[..i] == SplitOn(prefix, DOT);
    assert WalkedWildcard(code, i) == pattern;
  }

  // ----- the tables -----

  datatype Assignment = Assignment(role: nat, code: Text)
  datatype RoleData = RoleData(role: nat, permissions: seq<Text>)

  /** What one role pattern seeds: the known codes under a wildcard's prefix, else the code itself when known. */
  predicate Seeds(pattern: Text, known: set<Text>, code: Text) {
    code in known && if IsWildcard(pattern) then Covers(pattern, code) else code == pattern
  }

  function CodesOf(rows: seq<Assignment>, roles: set<nat>): set<Text> {
    set i | 0 <= i < |rows| && rows[i].role in roles :: rows[i].code
  }

  function Elements(codes: seq<Text>): set<Text> {
    set code | code in codes
  }

  ghost predicate IsSeeded(rows: seq<Assignment>, known: set<Text>, data: RoleData) {
    forall code :: Assignment(data.role, code) in rows <==>
      exists k :: 0 <= k < |data.permissions| && Seeds(data.permissions[k], known, code)
  }

  class RoleTables {
    var rolePermissions: seq<Assignment>

    /** `hasPermission`, for a user with these roles. */
    method HasPermission(roles: set<nat>, permissionCode: Text) returns (granted: bool)
      ensures granted <==> Grants(CodesOf(rolePermissions, roles), permissionCode)
    {
      hide IsWildcard, StartsWith, EndsWith, Covers, SplitOn, Join;
      var permissionCodes := CodesOf(rolePermissions, roles);
      if permissionCode in permissionCodes {
        return true;
      }
      var parts := SplitOn(permissionCode, DOT);
      var i := |parts| - 1;
      while i > 0
        invariant 0 <= i < |parts|
        invariant forall k :: i < k < |parts| ==> WalkedWildcard(permissionCode, k) !in permissionCodes
      {
        var wildcard := Join(parts[..i], [DOT]) + WILDCARD_END;
        if wildcard in permissionCodes {
          WalkIsCovered(permissionCode, i);
          return true;
        }
        i := i - 1;
      }
      if pattern :| pattern in permissionCodes && Covers(pattern, permissionCode) {
        CoveredIsWalked(pattern, permissionCode);
        assert false;
      }
      return ALL_PERMISSIONS in permissionCodes;
    }

    /** Clears the rows of one role and expands its patterns over the created permissions. */
    method SeedRole(created: seq<Text>, data: RoleData)
      modifies this
      ensures IsSeeded(rolePermissions, Elements(created), data)
      ensures forall row: Assignment :: row.role != data.role ==>
        (row in rolePermissions <==> row in old(rolePermissions))
    {
      hide Covers, IsWildcard, StartsWith;
      ghost var known := Elements(created);
      ghost var before := rolePermissions;
      DeleteRole(data.role);
      for k := 0 to |data.permissions|
        invariant forall row: Assignment :: row.role != data.role ==> (row in rolePermissions <==> row in before)
        invariant forall code :: Assignment(data.role, code) in rolePermissions <==>
          exists j :: 0 <= j < k && Seeds(data.permissions[j], known, code)
      {
        var permCode := data.permissions[k];
        ghost var earlier := rolePermissions;
        if IsWildcard(permCode) {
          for n := 0 to |created|
            invariant forall row :: row in rolePermissions <==>
              row in earlier || (row.role == data.role && row.code in created[..n] && Covers(permCode, row.code))
          {
            assert created[..n + 1] == created[..n] + [created[n]];
            if Covers(permCode, created[n]) {
              rolePermissions := rolePermissions + [Assignment(data.role, created[n])];
            }
          }
          assert created[..|created|] == created;
        } else if permCode in created {
          rolePermissions := rolePermissions + [Assignment(data.role, permCode)];
        }
        assert forall code :: Assignment(data.role, code) in rolePermissions <==>
          Assignment(data.role, code) in earlier || Seeds(permCode, known, code);
      }
    }

    method DeleteRole(role: nat)
      modifies this
      ensures forall row :: row in rolePermissions <==> row in old(rolePermissions) && row.role != role
    {
      var rest: seq<Assignment> := [];
      for i := 0 to |rolePermissions|
        invariant rolePermissions == old(rolePermissions)
        invariant forall row :: row in rest <==> row in rolePermissions[..i] && row.role != role
      {
        assert rolePermissions[..i + 1] == rolePermissions[..i] + [rolePermissions[i]];
        if rolePermissions[i].role != role {
          rest := rest + [rolePermissions[i]];
        }
      }
      assert rolePermissions[..|rolePermissions|] == rolePermissions;
      rolePermissions := rest;
    }

    /** `initializeRBAC`: every default role is seeded; the rows of other roles stay. */
    method InitializeRBAC(created: seq<Text>, defaultRoles: seq<RoleData>)
      requires forall i, j :: 0 <= i < j < |defaultRoles| ==> defaultRoles[i].role != defaultRoles[j].role
      modifies this
      ensures forall i :: 0 <= i < |defaultRoles| ==> IsSeeded(rolePermissions, Elements(created), defaultRoles[i])
      ensures forall row: Assignment :: (forall i :: 0 <= i < |defaultRoles| ==> defaultRoles[i].role != row.role) ==>
        (row in rolePermissions <==> row in old(rolePermissions))
    {
      hide Seeds;
      for i := 0 to |defaultRoles|
        invariant forall k :: 0 <= k < i ==> IsSeeded(rolePermissions, Elements(created), defaultRoles[k])
        invariant forall row: Assignment :: (forall k :: 0 <= k < i ==> defaultRoles[k].role != row.role) ==>
          (row in rolePermissions <==> row in old(rolePermissions))
      {
        ghost var earlier := rolePermissions;
        SeedRole(created, defaultRoles[i]);
        forall k | 0 <= k < i ensures IsSeeded(rolePermissions, Elements(created), defaultRoles[k]) {
          assert IsSeeded(earlier, Elements(created), defaultRoles[k]);
          assert forall code :: Assignment(defaultRoles[k].role, code) in rolePermissions <==>
            Assignment(defaultRoles[k].role, code) in earlier;
        }
      }
    }
  }

  // ----- seeding and checking agree -----

  function Expansion(patterns: set<Text>, known: set<Text>): set<Text> {
    set code | code in known && exists pattern :: pattern in patterns && Seeds(pattern, known, code)
  }

  /** The raw patterns of some of the default roles. */
  function PatternsOf(defaultRoles: seq<RoleData>, roles: set<nat>): set<Text> {
    set i, k | 0 <= i < |defaultRoles| && defaultRoles[i].role in roles && 0 <= k < |defaultRoles[i].permissions| ::
      defaultRoles[i].permissions[k]
  }

  lemma WildcardEnd(pattern: Text)
    requires IsWildcard(pattern)
    ensures |pattern| >= 2 && pattern[|pattern| - 2] == DOT && pattern[|pattern| - 1] == STAR
  {
    assert pattern[|pattern| - 2..][0] == DOT;
  }

  lemma CoversTransitive(outer: Text, inner: Text, code: Text)
    requires Covers(outer, inner) && Covers(inner, code)
    ensures Covers(outer, code)
  {
    var n := |outer| - 1;
    WildcardEnd(outer);
    WildcardEnd(inner);
    assert outer[..n][n - 1] == inner[..n][n - 1] == DOT;
    assert code[..n] == code[..|inner| - 1][..n];
    assert inner[..n] == inner[..|inner| - 1][..n];
  }

  lemma StarIsPlain(pattern: Text, code: Text)
    ensures !IsWildcard(ALL_PERMISSIONS) && !Covers(pattern, ALL_PERMISSIONS)
    ensures IsWildcard(code) ==> Covers(code, code)
  {
    if IsWildcard(pattern) {
      WildcardEnd(pattern);
      assert pattern[..|pattern| - 1][|pattern| - 2] == DOT;
    }
  }

  /** Seeding never widens what the patterns say, for any code. */
  lemma SeedingNeverWidens(patterns: set<Text>, known: set<Text>, code: Text)
    requires Grants(Expansion(patterns, known), code)
    ensures Grants(patterns, code)
  {
    hide Covers, IsWildcard;
    var seeded := Expansion(patterns, known);
    StarIsPlain([], code);
    if code in seeded {
    } else if ALL_PERMISSIONS in seeded {
      var pattern :| pattern in patterns && Seeds(pattern, known, ALL_PERMISSIONS);
      StarIsPlain(pattern, pattern);
    } else {
      var inner :| inner in seeded && Covers(inner, code);
      var outer :| outer in patterns && Seeds(outer, known, inner);
      if IsWildcard(outer) {
        CoversTransitive(outer, inner, code);
      }
    }
  }

  /** For a known code the seeded permissions and the raw patterns agree, except for a code that only `*`
      grants when `*` is not itself a permission. */
  lemma SeedingAgreesExactly(patterns: set<Text>, known: set<Text>, code: Text)
    requires code in known
    ensures (Grants(Expansion(patterns, known), code) <==> Grants(patterns, code))
      <==> !(ALL_PERMISSIONS in patterns && ALL_PERMISSIONS !in known && !Grants(patterns - {ALL_PERMISSIONS}, code))
  {
    hide Covers, IsWildcard;
    var seeded, plain := Expansion(patterns, known), patterns - {ALL_PERMISSIONS};
    StarIsPlain([], code);
    StarIsPlain(ALL_PERMISSIONS, ALL_PERMISSIONS);
    if Grants(seeded, code) {
      SeedingNeverWidens(patterns, known, code);
    }
    if Grants(plain, code) {
      GrantedIsSeeded(plain, patterns, known, code);
    }
    if ALL_PERMISSIONS in patterns && ALL_PERMISSIONS in known {
      assert Seeds(ALL_PERMISSIONS, known, ALL_PERMISSIONS);
      assert ALL_PERMISSIONS in seeded;
    }
    if ALL_PERMISSIONS !in known && Grants(seeded, code) {
      assert ALL_PERMISSIONS !in seeded;
      SeededWithoutStar(patterns, known, code);
    }
    assert ALL_PERMISSIONS !in patterns ==> plain == patterns;
    assert ALL_PERMISSIONS in patterns ==> Grants(patterns, code);
  }

  lemma GrantedIsSeeded(plain: set<Text>, patterns: set<Text>, known: set<Text>, code: Text)
    requires plain <= patterns && ALL_PERMISSIONS !in plain && code in known && Grants(plain, code)
    ensures code in Expansion(patterns, known)
  {
    hide Covers, IsWildcard;
    StarIsPlain([], code);
    if code in plain {
      assert Seeds(code, known, code);
    } else {
      var pattern :| pattern in plain && Covers(pattern, code);
      CoversIsWildcard(pattern, code);
      assert Seeds(pattern, known, code);
    }
  }

  lemma CoversIsWildcard(pattern: Text, code: Text)
    requires Covers(pattern, code)
    ensures IsWildcard(pattern)
  {
  }

  lemma SeededWithoutStar(patterns: set<Text>, known: set<Text>, code: Text)
    requires ALL_PERMISSIONS !in known && Grants(Expansion(patterns, known), code)
    ensures Grants(patterns - {ALL_PERMISSIONS}, code)
  {
    hide Covers, IsWildcard;
    var plain := patterns - {ALL_PERMISSIONS};
    assert Expansion(patterns, known) == Expansion(plain, known) by {
      StarIsPlain([], ALL_PERMISSIONS);
      assert forall c :: !Seeds(ALL_PERMISSIONS, known, c);
    }
    SeedingNeverWidens(plain, known, code);
  }

  /** A code that is known and reachable only through an unknown `*` is lost by seeding. */
  lemma UnknownStarIsLost()
    ensures exists patterns, known, code ::
      code in known && Grants(patterns, code) && !Grants(Expansion(patterns, known), code)
  {
    var code: Text := [SPACE];
    var patterns, known := {ALL_PERMISSIONS}, {code};
    SeedingAgreesExactly(patterns, known, code);
    assert patterns - {ALL_PERMISSIONS} == {};
    assert Grants(patterns, code);
  }

  lemma SeededCodes(rows: seq<Assignment>, known: set<Text>, defaultRoles: seq<RoleData>, roles: set<nat>)
    requires forall i :: 0 <= i < |defaultRoles| ==> IsSeeded(rows, known, defaultRoles[i])
    requires forall role :: role in roles ==> exists i :: 0 <= i < |defaultRoles| && defaultRoles[i].role == role
    ensures CodesOf(rows, roles) == Expansion(PatternsOf(defaultRoles, roles), known)
  {
    hide Seeds;
    var codes, patterns := CodesOf(rows, roles), PatternsOf(defaultRoles, roles);
    forall code | code in codes ensures code in Expansion(patterns, known) {
      var n :| 0 <= n < |rows| && rows[n].role in roles && rows[n].code == code;
      var i :| 0 <= i < |defaultRoles| && defaultRoles[i].role == rows[n].role;
      assert rows[n] == Assignment(defaultRoles[i].role, code);
      var k :| 0 <= k < |defaultRoles[i].permissions| && Seeds(defaultRoles[i].permissions[k], known, code);
      SeedsKnown(defaultRoles[i].permissions[k], known, code);
    }
    forall code | code in Expansion(patterns, known) ensures code in codes {
      var pattern :| pattern in patterns && Seeds(pattern, known, code);
      var i, k :| 0 <= i < |defaultRoles| && defaultRoles[i].role in roles && 0 <= k < |defaultRoles[i].permissions|
        && defaultRoles[i].permissions[k] == pattern;
      assert Assignment(defaultRoles[i].role, code) in rows;
    }
  }

  lemma SeedsKnown(pattern: Text, known: set<Text>, code: Text)
    requires Seeds(pattern, known, code)
    ensures code in known
  {
  }

  /** After seeding, what a user with default roles is granted is what the raw patterns of those roles grant:
      for every known code when `*` is a permission, as in the default list. */
  lemma SeededUsersAgree(rows: seq<Assignment>, known: set<Text>, defaultRoles: seq<RoleData>, roles: set<nat>,
    code: Text)
    requires forall i :: 0 <= i < |defaultRoles| ==> IsSeeded(rows, known, defaultRoles[i])
    requires forall role :: role in roles ==> exists i :: 0 <= i < |defaultRoles| && defaultRoles[i].role == role
    ensures Grants(CodesOf(rows, roles), code) ==> Grants(PatternsOf(defaultRoles, roles), code)
    ensures code in known && (ALL_PERMISSIONS in known || ALL_PERMISSIONS !in PatternsOf(defaultRoles, roles)) ==>
      (Grants(CodesOf(rows, roles), code) <==> Grants(PatternsOf(defaultRoles, roles), code))
  {
    hide Grants, Expansion, CodesOf, PatternsOf, IsSeeded;
    SeededCodes(rows, known, defaultRoles, roles);
    var patterns := PatternsOf(defaultRoles, roles);
    if Grants(CodesOf(rows, roles), code) {
      SeedingNeverWidens(patterns, known, code);
    }
    if code in known {
      SeedingAgreesExactly(patterns, known, code);
    }
  }
}
