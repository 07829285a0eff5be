/**
 * SQLite's built-in `LIKE` operator without an ESCAPE clause: in the pattern
 * `%` matches any run of characters, `_` matches exactly one character, and
 * every other character matches itself with upper and lower case identified
 * for ASCII letters only.
 */
module SqlLike {

  /** Case folding as the default `LIKE` does it: ASCII letters only. */
  function AsciiLower(c: char): char {
    if 'A' <= c <= 'Z' then ((c as int) - ('A' as int) + ('a' as int)) as char else c
  }

  /** `s LIKE pattern`. */
  predicate Like(pattern: string, s: string)
    decreases |pattern| + |s|
  {
    if pattern == [] then s == []
    else if pattern[0] == '%' then Like(pattern[1..], s) || (s != [] && Like(pattern, s[1..]))
    else if s == [] then false
    else if pattern[0] == '_' then Like(pattern[1..], s[1..])
    else AsciiLower(pattern[0]) == AsciiLower(s[0]) && Like(pattern[1..], s[1..])
  }

  /** A keyword in which neither `%` nor `_` occurs. */
  predicate NoWildcards(k: string) {
    forall i :: 0 <= i < |k| ==> k[i] != '%' && k[i] != '_'
  }

  predicate EqualIgnoringAsciiCase(a: string, b: string) {
    |a| == |b| && forall i :: 0 <= i < |a| ==> AsciiLower(a[i]) == AsciiLower(b[i])
  }

  /** `k` occurs in `s` at position `i`, ASCII case ignored. */
  predicate OccursAtIgnoringCase(s: string, k: string, i: int) {
    0 <= i && i + |k| <= |s| && EqualIgnoringAsciiCase(s[i..i + |k|], k)
  }

  /** `k` is a substring of `s`, ASCII case ignored. */
  predicate ContainsIgnoringCase(s: string, k: string) {
    exists i :: 0 <= i <= |s| && OccursAtIgnoringCase(s, k, i)
  }

  /** The pattern `%` matches every string. */
  lemma {:induction false} PercentMatchesAll(s: string)
    ensures Like("%", s)
  {
    if s != [] {
      PercentMatchesAll(s[1..]);
    }
  }

  /** A wildcard-free `k` followed by `%` matches exactly the strings that
      start with `k`, ASCII case ignored. */
  lemma {:induction false} LikePrefix(k: string, s: string)
    requires NoWildcards(k)
    ensures Like(k + "%", s) <==> |k| <= |s| && EqualIgnoringAsciiCase(s[..|k|], k)
    decreases |k|
  {
    if k == [] {
      assert k + "%" == "%";
      PercentMatchesAll(s);
    } else {
      assert (k + "%")[1..] == k[1..] + "%";
      if s != [] {
        LikePrefix(k[1..], s[1..]);
        if |k| <= |s| && AsciiLower(k[0]) == AsciiLower(s[0]) {
          assert s[1..][..|k| - 1] == s[1..|k|];
          if EqualIgnoringAsciiCase(s[1..|k|], k[1..]) {
            forall i | 0 <= i < |k| ensures AsciiLower(s[..|k|][i]) == AsciiLower(k[i]) {
              if i > 0 {
                assert s[..|k|][i] == s[1..|k|][i - 1];
              }
            }
          }
          if EqualIgnoringAsciiCase(s[..|k|], k) {
            forall i | 0 <= i < |k| - 1 ensures AsciiLower(s[1..|k|][i]) == AsciiLower(k[1..][i]) {
              assert s[1..|k|][i] == s[..|k|][i + 1];
            }
          }
        }
        if |k| <= |s| && EqualIgnoringAsciiCase(s[..|k|], k) {
          assert s[..|k|][0] == s[0];
        }
      }
    }
  }

  /** A leading `%` lets the rest of the pattern match any suffix. */
  lemma {:induction false} LikeLeadingPercent(q: string, s: string)
    ensures Like("%" + q, s) <==> exists i :: 0 <= i <= |s| && Like(q, s[i..])
    decreases |s|
  {
    var p := "%" + q;
    assert p[1..] == q;
    assert s[0..] == s;
    if s != [] {
      LikeLeadingPercent(q, s[1..]);
      if Like(p, s[1..]) {
        var i :| 0 <= i <= |s[1..]| && Like(q, s[1..][i..]);
        assert s[1..][i..] == s[i + 1..];
      }
      if exists i :: 0 <= i <= |s| && Like(q, s[i..]) {
        var i :| 0 <= i <= |s| && Like(q, s[i..]);
        if i > 0 {
          assert s[1..][i - 1..] == s[i..];
        }
      }
    }
  }

  /** The query pattern `%k%` built from a wildcard-free keyword is a
      substring test, ASCII case ignored. */
  lemma LikeSubstring(k: string, s: string)
    requires NoWildcards(k)
    ensures Like("%" + k + "%", s) <==> ContainsIgnoringCase(s, k)
  {
    assert "%" + k + "%" == "%" + (k + "%");
    LikeLeadingPercent(k + "%", s);
    if Like("%" + k + "%", s) {
      var i :| 0 <= i <= |s| && Like(k + "%", s[i..]);
      LikePrefix(k, s[i..]);
      assert s[i..][..|k|] == s[i..i + |k|];
      assert OccursAtIgnoringCase(s, k, i);
    }
    if ContainsIgnoringCase(s, k) {
      var i :| 0 <= i <= |s| && OccursAtIgnoringCase(s, k, i);
      LikePrefix(k, s[i..]);
      assert s[i..][..|k|] == s[i..i + |k|];
    }
  }

  /** An unescaped `_` keyword is a wildcard: `%_%` matches every non-empty
      string. */
  lemma UnderscoreKeywordMatchesNonEmpty(s: string)
    ensures Like("%" + "_" + "%", s) <==> s != []
  {
    var p := "%" + "_" + "%";
    LikeLeadingPercent("_%", s);
    assert p == "%" + "_%";
    if s != [] {
      PercentMatchesAll(s[1..]);
      assert s[0..] == s;
    }
  }
}
