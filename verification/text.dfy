/**
 * String primitives the bot relies on: JavaScript's `trim`, ASCII lower-casing
 * (what SQLite's LOWER does) and plain substring containment.
 */
module Text {

  /** The code points JavaScript's String.prototype.trim removes: the WhiteSpace
      and LineTerminator productions of ECMA-262 (sections 12.2 and 12.3). */
  predicate IsJsSpace(c: char)
  {
    var n := c as int;
    n == 0x09 || n == 0x0A || n == 0x0B || n == 0x0C || n == 0x0D || n == 0x20
    || n == 0xA0 || n == 0x1680 || (0x2000 <= n <= 0x200A)
    || n == 0x2028 || n == 0x2029 || n == 0x202F || n == 0x205F
    || n == 0x3000 || n == 0xFEFF
  }

  /** Drops leading white space. */
  function TrimStart(s: string): (r: string)
    ensures |r| <= |s| && r == s[|s| - |r|..]
    ensures forall i :: 0 <= i < |s| - |r| ==> IsJsSpace(s[i])
    ensures r == [] || !IsJsSpace(r[0])
  {
    if |s| > 0 && IsJsSpace(s[0]) then TrimStart(s[1..]) else s
  }

  /** Drops trailing white space. */
  function TrimEnd(s: string): (r: string)
    ensures |r| <= |s| && r == s[..|r|]
    ensures forall i :: |r| <= i < |s| ==> IsJsSpace(s[i])
    ensures r == [] || !IsJsSpace(r[|r| - 1])
  {
    if |s| > 0 && IsJsSpace(s[|s| - 1]) then TrimEnd(s[..|s| - 1]) else s
  }

  /** `r` sits in `s` at offset `lead` with only white space around it. */
  ghost predicate PaddedBy(s: string, r: string, lead: int)
  {
    && 0 <= lead <= |s| - |r|
    && r == s[lead..lead + |r|]
    && (forall i :: 0 <= i < lead ==> IsJsSpace(s[i]))
    && (forall i :: lead + |r| <= i < |s| ==> IsJsSpace(s[i]))
  }

  /** JavaScript's `s.trim()`: the infix of `s` left once the white space at
      both ends is cut away; it neither starts nor ends with white space. */
  function Trim(s: string): (r: string)
    ensures r == [] || (!IsJsSpace(r[0]) && !IsJsSpace(r[|r| - 1]))
    ensures exists lead :: PaddedBy(s, r, lead)
  {
    var a := TrimStart(s);
    var r := TrimEnd(a);
    assert PaddedBy(s, r, |s| - |a|);
    r
  }

  /** Trimming a trimmed string changes nothing. */
  lemma TrimIdempotent(s: string)
    ensures Trim(Trim(s)) == Trim(s)
  {
    var r := Trim(s);
    assert TrimStart(r) == r;
    assert TrimEnd(r) == r;
  }

  /** `trim()` yields the empty string exactly for all-white-space input. */
  lemma TrimEmptyIff(s: string)
    ensures Trim(s) == [] <==> forall i :: 0 <= i < |s| ==> IsJsSpace(s[i])
  {
    var r := Trim(s);
    if r != [] {
      var lead :| PaddedBy(s, r, lead);
      assert s[lead] == r[0];
    }
  }

  /** SQLite's LOWER and case-folding in LIKE only touch the ASCII letters. */
  function LowerChar(c: char): (d: char)
    ensures 'A' <= c <= 'Z' ==> d as int == c as int + 32
    ensures !('A' <= c <= 'Z') ==> d == c
    ensures !('A' <= d <= 'Z')
  {
    if 'A' <= c <= 'Z' then (c as int + 32) as char else c
  }

  function Lower(s: string): (r: string)
    ensures |r| == |s|
    ensures forall i :: 0 <= i < |s| ==> r[i] == LowerChar(s[i])
  {
    seq(|s|, i requires 0 <= i < |s| => LowerChar(s[i]))
  }

  /** Lower-casing is idempotent, so a pattern that is lower-cased in JavaScript
      and again by LIKE's case folding is unaffected by the second pass. */
  lemma LowerIdempotent(s: string)
    ensures Lower(Lower(s)) == Lower(s)
  {
  }

  /** Trimming a lower-case string leaves it lower-case. */
  lemma TrimKeepsLowerCase(s: string)
    requires Lower(s) == s
    ensures Lower(Trim(s)) == Trim(s)
  {
    var a := TrimStart(s);
    var r := TrimEnd(a);
    var lead := |s| - |a|;
    forall i | 0 <= i < |r|
      ensures LowerChar(r[i]) == r[i]
    {
      assert r[i] == a[i] == s[lead + i];
      assert Lower(s)[lead + i] == LowerChar(s[lead + i]);
    }
    assert Lower(r) == r;
  }

  predicate IsPrefix(p: string, s: string)
  {
    |p| <= |s| && s[..|p|] == p
  }

  /** `q` occurs in `s` starting at index `i`. */
  ghost predicate OccursAt(s: string, q: string, i: int)
  {
    0 <= i <= |s| - |q| && s[i..i + |q|] == q
  }

  /** `q` occurs somewhere in `s`. */
  predicate Contains(s: string, q: string)
    decreases |s|
  {
    IsPrefix(q, s) || (|s| > 0 && Contains(s[1..], q))
  }

  /** The recursive containment test agrees with "some infix of `s` equals `q`". */
  lemma {:induction false} ContainsIffInfix(s: string, q: string)
    ensures Contains(s, q) <==> exists i :: OccursAt(s, q, i)
    decreases |s|
  {
    if IsPrefix(q, s) {
      assert OccursAt(s, q, 0);
    } else if |s| > 0 {
      ContainsIffInfix(s[1..], q);
      if Contains(s, q) {
        var i :| OccursAt(s[1..], q, i);
        assert s[i + 1..i + 1 + |q|] == s[1..][i..i + |q|];
        assert OccursAt(s, q, i + 1);
      } else {
        forall i | 0 <= i <= |s| - |q|
          ensures !OccursAt(s, q, i)
        {
          if i == 0 {
            assert s[i..i + |q|] == s[..|q|];
          } else {
            assert s[i..i + |q|] == s[1..][i - 1..i - 1 + |q|];
            assert !OccursAt(s[1..], q, i - 1);
          }
        }
      }
    }
  }
}
