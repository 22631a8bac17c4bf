/**
 * SQLite's LIKE operator as the search statement uses it: `%` matches any run
 * of characters, `_` exactly one, and letters compare ASCII case-insensitively.
 * No ESCAPE clause is involved.
 */
module SqlLike {
  import opened Text

  predicate IsWildcard(c: char)
  {
    c == '%' || c == '_'
  }

  predicate NoWildcards(q: string)
  {
    forall i :: 0 <= i < |q| ==> !IsWildcard(q[i])
  }

  /** `s LIKE p`. */
  predicate Like(s: string, p: string)
    decreases |p|, |s|
  {
    if p == [] then s == []
    else if p[0] == '%' then Like(s, p[1..]) || (s != [] && Like(s[1..], p))
    else s != [] && (p[0] == '_' || LowerChar(s[0]) == LowerChar(p[0])) && Like(s[1..], p[1..])
  }

  /** A lone `%` matches every string, and so does `%%`, the pattern an
      empty keyword gives. */
  lemma {:induction false} PercentMatchesAll(s: string)
    ensures Like(s, "%")
    ensures Like(s, "%%")
    decreases |s|
  {
    if s != [] {
      PercentMatchesAll(s[1..]);
    }
    assert "%%"[1..] == "%";
  }

  /** Without wildcards, `s LIKE q || '%'` says that `q` starts `s`, ignoring ASCII case. */
  lemma {:induction false} LikePrefix(s: string, q: string)
    requires NoWildcards(q)
    ensures Like(s, q + "%") <==> IsPrefix(Lower(q), Lower(s))
    decreases |q|
  {
    if q == [] {
      assert q + "%" == "%";
      PercentMatchesAll(s);
    } else {
      assert (q + "%")[1..] == q[1..] + "%";
      PrefixPointwise(Lower(q), Lower(s));
      assert !IsWildcard((q + "%")[0]);
      if s != [] {
        LikePrefix(s[1..], q[1..]);
        PrefixPointwise(Lower(q[1..]), Lower(s[1..]));
        if IsPrefix(Lower(q), Lower(s)) {
          forall i | 0 <= i < |q| - 1
            ensures Lower(q[1..])[i] == Lower(s[1..])[i]
          {
            assert Lower(q)[i + 1] == Lower(s)[i + 1];
          }
          assert IsPrefix(Lower(q[1..]), Lower(s[1..]));
          assert Lower(q)[0] == Lower(s)[0];
          assert (q + "%")[0] == q[0];
        }
      }
    }
  }

  lemma PrefixPointwise(p: string, s: string)
    ensures IsPrefix(p, s) <==> |p| <= |s| && forall i :: 0 <= i < |p| ==> p[i] == s[i]
  {
    if |p| <= |s| && forall i :: 0 <= i < |p| ==> p[i] == s[i] {
      assert s[..|p|] == p;
    }
  }

  /** The search pattern `%q%` (with `q` free of wildcards) matches exactly the
      strings that contain `q`, ignoring ASCII case. */
  lemma {:induction false} LikeInfix(s: string, q: string)
    requires NoWildcards(q)
    ensures Like(s, "%" + q + "%") <==> Contains(Lower(s), Lower(q))
    decreases |s|
  {
    var p := "%" + q + "%";
    assert p[1..] == q + "%";
    LikePrefix(s, q);
    if s != [] {
      LikeInfix(s[1..], q);
      assert Lower(s)[1..] == Lower(s[1..]);
    }
  }
}
