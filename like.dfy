/** The string matching of the SQL `LIKE` operator, as the Search query uses
    it: `%` stands for any run of characters, `_` for any one character, and
    every other character for itself. */
module SqlLike {

  predicate Like(s: string, p: string)
    decreases |s| + |p|
  {
    if p == [] then s == []
    else if p[0] == '%' then Like(s, p[1..]) || (s != [] && Like(s[1..], p))
    else s != [] && (p[0] == '_' || p[0] == s[0]) && Like(s[1..], p[1..])
  }

  /** A value with no wildcard character in it. */
  predicate WildcardFree(v: string) {
    forall k | 0 <= k < |v| :: v[k] != '%' && v[k] != '_'
  }

  /** `v` occurs in `s` starting at position `k`. */
  predicate OccursAt(s: string, v: string, k: nat) {
    k + |v| <= |s| && s[k..k + |v|] == v
  }

  /** `v` occurs in `s` as a contiguous substring. */
  predicate Contains(s: string, v: string) {
    exists k: nat | k <= |s| :: OccursAt(s, v, k)
  }

  /** The pattern Search builds from its value: `%value%`. */
  function Wrap(v: string): string {
    "%" + v + "%"
  }

  /** `%` alone matches every string. */
  lemma {:induction false} PercentMatchesAll(s: string)
    ensures Like(s, "%")
    decreases |s|
  {
    if s != [] {
      PercentMatchesAll(s[1..]);
    }
  }

  /** For a wildcard-free `v`, `v%` matches exactly the strings `v` begins. */
  lemma {:induction false} TrailingPercent(s: string, v: string)
    requires WildcardFree(v)
    ensures Like(s, v + "%") <==> v <= s
    decreases |v|
  {
    if v == [] {
      assert v + "%" == "%";
      PercentMatchesAll(s);
    } else {
      var p := v + "%";
      assert p[0] == v[0] && p[1..] == v[1..] + "%";
      assert WildcardFree(v[1..]) by {
        forall k | 0 <= k < |v[1..]| ensures v[1..][k] != '%' && v[1..][k] != '_' {
          assert v[1..][k] == v[k + 1];
        }
      }
      if s != [] {
        TrailingPercent(s[1..], v[1..]);
        assert v <= s <==> v[0] == s[0] && v[1..] <= s[1..];
      }
    }
  }

  /** A leading `%` lets the rest of the pattern match any suffix. */
  lemma {:induction false} LeadingPercent(s: string, q: string)
    ensures Like(s, "%" + q) <==> exists k | 0 <= k <= |s| :: Like(s[k..], q)
    decreases |s|
  {
    var p := "%" + q;
    assert p[0] == '%' && p[1..] == q;
    assert s[0..] == s;
    if s != [] {
      LeadingPercent(s[1..], q);
      forall k | 0 <= k <= |s[1..]| ensures s[1..][k..] == s[k + 1..] { }
      if Like(s, p) && !Like(s, q) {
        var k :| 0 <= k <= |s[1..]| && Like(s[1..][k..], q);
        assert Like(s[k + 1..], q);
      }
      if exists k | 0 <= k <= |s| :: Like(s[k..], q) {
        var k :| 0 <= k <= |s| && Like(s[k..], q);
        if k > 0 {
          assert Like(s[1..][k - 1..], q);
        }
      }
    }
  }

  /** For a wildcard-free value, `%value%` matches exactly the strings that
      contain the value: LIKE then is plain substring search. */
  lemma WrappedIsSubstring(s: string, v: string)
    requires WildcardFree(v)
    ensures Like(s, Wrap(v)) <==> Contains(s, v)
  {
    assert Wrap(v) == "%" + (v + "%");
    LeadingPercent(s, v + "%");
    forall k | 0 <= k <= |s| ensures Like(s[k..], v + "%") <==> v <= s[k..] {
      TrailingPercent(s[k..], v);
    }
    if Contains(s, v) {
      var k: nat :| k <= |s| && OccursAt(s, v, k);
      assert v <= s[k..];
    }
    if exists k | 0 <= k <= |s| :: v <= s[k..] {
      var k :| 0 <= k <= |s| && v <= s[k..];
      assert OccursAt(s, v, k);
    }
  }

  /** Every pattern character matches itself (`%` the empty run before the
      next character, `_` and the rest one character), so `v%` matches every
      string `v` begins, whatever wildcards `v` holds. */
  lemma {:induction false} PrefixMatchesSelf(s: string, v: string)
    requires v <= s
    ensures Like(s, v + "%")
    decreases |v|
  {
    if v == [] {
      assert v + "%" == "%";
      PercentMatchesAll(s);
    } else {
      var p := v + "%";
      assert p[0] == v[0] && p[1..] == v[1..] + "%";
      assert v[1..] <= s[1..];
      PrefixMatchesSelf(s[1..], v[1..]);
      if v[0] == '%' {
        // the `%` takes the character s[0], then stands for the empty run
        assert Like(s[1..], p);
      }
    }
  }

  /** A string that contains the value matches `%value%`, whatever wildcards
      the value holds. */
  lemma ContainedMatchesWrapped(s: string, v: string)
    requires Contains(s, v)
    ensures Like(s, Wrap(v))
  {
    assert Wrap(v) == "%" + (v + "%");
    LeadingPercent(s, v + "%");
    var k: nat :| k <= |s| && OccursAt(s, v, k);
    assert v <= s[k..];
    PrefixMatchesSelf(s[k..], v);
  }

  /** The pattern built from the empty value, `%%`, matches every string. */
  lemma {:induction false} EmptyValueMatchesAll(s: string)
    ensures Like(s, Wrap(""))
  {
    assert WildcardFree("");
    WrappedIsSubstring(s, "");
    assert OccursAt(s, "", 0);
  }
}
