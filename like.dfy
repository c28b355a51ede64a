/** The SQL `<like predicate>` of ISO/IEC 9075-2, subclause 8.5, without an ESCAPE clause:
    in the pattern, '%' matches any sequence of characters (including none), '_' matches
    exactly one character, and every other character matches itself. Case-sensitive. */
module Like {

  function LikeMatch(s: string, p: string): (r: bool)
    decreases |s| + |p|
    ensures r && '%' !in p ==> |s| == |p|
  {
    if p == [] then s == []
    else if p[0] == '%' then LikeMatch(s, p[1..]) || (s != [] && LikeMatch(s[1..], p))
    else s != [] && (p[0] == '_' || p[0] == s[0]) && LikeMatch(s[1..], p[1..])
  }

  /** `x` holds neither of the two wildcard characters. */
  predicate NoWildcards(x: string) {
    forall i :: 0 <= i < |x| ==> x[i] != '%' && x[i] != '_'
  }

  /** `x` occurs in `s` starting at position `i`. */
  predicate OccursAt(x: string, s: string, i: nat) {
    i + |x| <= |s| && s[i..i + |x|] == x
  }

  /** `x` occurs in `s` as a contiguous block. */
  ghost predicate IsSubstring(x: string, s: string) {
    exists i: nat :: OccursAt(x, s, i)
  }

  /** A pattern without wildcards matches exactly itself. */
  lemma {:induction false} LiteralMatchesItself(s: string, x: string)
    requires NoWildcards(x)
    ensures LikeMatch(s, x) <==> s == x
  {
    if x != [] && s != [] {
      LiteralMatchesItself(s[1..], x[1..]);
      assert s == [s[0]] + s[1..];
      assert x == [x[0]] + x[1..];
    }
  }

  /** A single '%' matches every string. */
  lemma {:induction false} PercentMatchesAll(s: string)
    ensures LikeMatch(s, "%")
  {
    if s != [] {
      PercentMatchesAll(s[1..]);
    }
  }

  /** A literal prefix in the pattern consumes the same prefix of the string. */
  lemma {:induction false} LiteralPrefix(s: string, x: string, q: string)
    requires NoWildcards(x)
    ensures LikeMatch(s, x + q) <==> |x| <= |s| && s[..|x|] == x && LikeMatch(s[|x|..], q)
  {
    if x != [] {
      assert (x + q)[1..] == x[1..] + q;
      if s != [] {
        LiteralPrefix(s[1..], x[1..], q);
        if |x| <= |s| {
          assert s[1..][|x| - 1..] == s[|x|..];
          assert s[..|x|] == [s[0]] + s[1..][..|x| - 1];
          assert x == [x[0]] + x[1..];
        }
      }
    } else {
      assert x + q == q;
    }
  }

  /** A leading '%' lets the rest of the pattern match any suffix of the string. */
  lemma {:induction false} LeadingPercent(s: string, q: string)
    ensures LikeMatch(s, "%" + q) <==> exists i :: 0 <= i <= |s| && LikeMatch(s[i..], q)
  {
    var p := "%" + q;
    assert p[1..] == q;
    if s == [] {
      assert s[0..] == s;
    } else {
      LeadingPercent(s[1..], q);
      if LikeMatch(s, p) {
        if LikeMatch(s, q) {
          assert s[0..] == s;
        } else {
          var i :| 0 <= i <= |s[1..]| && LikeMatch(s[1..][i..], q);
          assert s[1..][i..] == s[i + 1..];
        }
      } else {
        forall i | 0 <= i <= |s| ensures !LikeMatch(s[i..], q) {
          if i == 0 {
            assert s[0..] == s;
          } else {
            assert s[1..][i - 1..] == s[i..];
          }
        }
      }
    }
  }

  /** The list handler's pattern "%" + x + "%" selects exactly the names containing x,
      provided x brings no wildcard of its own. */
  lemma SurroundingPercentsMatchSubstring(s: string, x: string)
    requires NoWildcards(x)
    ensures LikeMatch(s, "%" + x + "%") <==> IsSubstring(x, s)
  {
    if LikeMatch(s, "%" + x + "%") {
      MatchGivesSubstring(s, x);
    }
    if IsSubstring(x, s) {
      var i: nat :| OccursAt(x, s, i);
      SubstringGivesMatch(s, x, i);
    }
  }

  /** The only-if direction: a match places `x` somewhere in `s`. */
  lemma MatchGivesSubstring(s: string, x: string)
    requires NoWildcards(x)
    requires LikeMatch(s, "%" + x + "%")
    ensures IsSubstring(x, s)
  {
    assert "%" + x + "%" == "%" + (x + "%");
    LeadingPercent(s, x + "%");
    var i :| 0 <= i <= |s| && LikeMatch(s[i..], x + "%");
    LiteralPrefix(s[i..], x, "%");
    assert s[i..][..|x|] == s[i..i + |x|];
    assert OccursAt(x, s, i);
  }

  /** The if direction: an occurrence of `x` at `i` gives a match. */
  lemma SubstringGivesMatch(s: string, x: string, i: nat)
    requires NoWildcards(x)
    requires OccursAt(x, s, i)
    ensures LikeMatch(s, "%" + x + "%")
  {
    assert "%" + x + "%" == "%" + (x + "%");
    LiteralPrefix(s[i..], x, "%");
    assert s[i..][..|x|] == s[i..i + |x|];
    PercentMatchesAll(s[i..][|x|..]);
    LeadingPercent(s, x + "%");
  }

  /** The wildcards in a user-supplied name are not escaped: the name "%" turns the
      list handler's pattern into "%%%", which selects every row. */
  lemma PercentNameMatchesEveryName(s: string)
    ensures LikeMatch(s, "%" + "%" + "%")
  {
    PercentMatchesAll(s);
    assert ("%" + "%" + "%")[1..] == "%%";
    assert "%%"[1..] == "%";
  }
}
