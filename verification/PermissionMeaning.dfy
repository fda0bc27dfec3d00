/** What roles grant and what seeding writes, stated on the texts of patterns and codes. */
module PermissionMeaning {
  import opened CodeUnits
  import opened Permissions

  /** `pattern` ends in `.*`, and `code` starts with what stands before the star. */
  ghost predicate IsUnder(pattern: Text, code: Text) {
    exists prefix, rest :: pattern == prefix + Ascii(".*") && code == prefix + Ascii(".") + rest
  }

  lemma PatternWords()
    ensures Ascii("*") == ALL_PERMISSIONS && Ascii(".*") == WILDCARD_END && Ascii(".") == [DOT]
  {
  }

  lemma UnderExactly(pattern: Text, code: Text)
    ensures Covers(pattern, code) <==> IsUnder(pattern, code)
  {
    hide Ascii;
    PatternWords();
    if Covers(pattern, code) {
      WildcardEnd(pattern);
      var n := |pattern| - 1;
      var prefix, rest := pattern[..n - 1], code[n..];
      assert pattern == prefix + WILDCARD_END;
      assert pattern[..n] == prefix + [DOT];
      assert code == code[..n] + rest;
    }
    if prefix, rest :| pattern == prefix + Ascii(".*") && code == prefix + Ascii(".") + rest {
      var n := |pattern| - 1;
      assert pattern[|pattern| - 2..] == WILDCARD_END;
      assert pattern[..n] == prefix + [DOT] == code[..n];
    }
  }

  /** A code is granted by itself, by `*`, or by a pattern it stands under. */
  lemma GrantsExactly(codes: set<Text>, code: Text)
    ensures Grants(codes, code)
       <==> code in codes || Ascii("*") in codes || exists pattern :: pattern in codes && IsUnder(pattern, code)
  {
    hide Covers, IsUnder, Ascii;
    PatternWords();
    forall pattern
      ensures Covers(pattern, code) <==> IsUnder(pattern, code)
    {
      UnderExactly(pattern, code);
    }
  }

  /** A pattern seeds the known codes that it names or that stand under it, and no other. */
  lemma SeedsExactly(pattern: Text, known: set<Text>, code: Text)
    ensures Seeds(pattern, known, code) <==> code in known && (code == pattern || IsUnder(pattern, code))
  {
    hide Covers, IsUnder, IsWildcard;
    UnderExactly(pattern, code);
    StarIsPlain(pattern, pattern);
    if Covers(pattern, code) {
      CoversIsWildcard(pattern, code);
    }
  }

  /** The codes that the rows of the roles hold. */
  lemma CodesExactly(rows: seq<Assignment>, roles: set<nat>)
    ensures forall code :: code in CodesOf(rows, roles) <==>
      exists role :: role in roles && Assignment(role, code) in rows
  {
    forall code | exists role :: role in roles && Assignment(role, code) in rows
      ensures code in CodesOf(rows, roles)
    {
      var role :| role in roles && Assignment(role, code) in rows;
      var i :| 0 <= i < |rows| && rows[i] == Assignment(role, code);
    }
    forall code | code in CodesOf(rows, roles)
      ensures exists role :: role in roles && Assignment(role, code) in rows
    {
      var i :| 0 <= i < |rows| && rows[i].role in roles && rows[i].code == code;
      assert rows[i] == Assignment(rows[i].role, code);
    }
  }

  /** The rows of a seeded role are exactly the known codes that its patterns name or cover. */
  lemma SeededExactly(rows: seq<Assignment>, known: set<Text>, data: RoleData)
    ensures IsSeeded(rows, known, data)
       <==> forall code ::
         Assignment(data.role, code) in rows <==>
         code in known && exists k :: 0 <= k < |data.permissions|
                                      && (code == data.permissions[k] || IsUnder(data.permissions[k], code))
  {
    hide Seeds, IsUnder;
    forall code, k | 0 <= k < |data.permissions|
      ensures Seeds(data.permissions[k], known, code)
         <==> code in known && (code == data.permissions[k] || IsUnder(data.permissions[k], code))
    {
      SeedsExactly(data.permissions[k], known, code);
    }
  }
}
