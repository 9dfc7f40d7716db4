/** The string operations the backend relies on: Java's String.trim, the
    case-insensitive comparisons of equalsIgnoreCase and of the IgnoreCase finders,
    and substring containment. Case folding covers the ASCII letters only. */
module Text {

  /** String.trim strips every char at or below U+0020 (space and the control chars). */
  predicate IsTrimmable(c: char)
  {
    c <= ' '
  }

  predicate AllTrimmable(s: string)
  {
    forall k :: 0 <= k < |s| ==> IsTrimmable(s[k])
  }

  /** The number of trimmable chars at the front of s. */
  function LeadingTrimmable(s: string): (n: nat)
    ensures n <= |s|
    ensures AllTrimmable(s[..n])
    ensures n < |s| ==> !IsTrimmable(s[n])
  {
    if s == [] || !IsTrimmable(s[0]) then 0
    else
      var n := 1 + LeadingTrimmable(s[1..]);
      assert s[..n] == [s[0]] + s[1..][..n - 1];
      n
  }

  /** The number of trimmable chars at the back of s. */
  function TrailingTrimmable(s: string): (n: nat)
    ensures n <= |s|
    ensures forall k :: |s| - n <= k < |s| ==> IsTrimmable(s[k])
    ensures n < |s| ==> !IsTrimmable(s[|s| - 1 - n])
  {
    if s == [] || !IsTrimmable(s[|s| - 1]) then 0
    else
      var init := s[..|s| - 1];
      var m := TrailingTrimmable(init);
      assert forall k :: |s| - 1 - m <= k < |s| - 1 ==> s[k] == init[k];
      1 + m
  }

  /** Java's String.trim: the slice of s left after dropping trimmable chars at both
      ends. The result is the slice of s that starts after the leading trimmable
      chars, everything dropped is trimmable, and the result neither starts nor ends
      with a trimmable char. */
  function Trim(s: string): (r: string)
    ensures LeadingTrimmable(s) + |r| <= |s|
    ensures r == s[LeadingTrimmable(s)..LeadingTrimmable(s) + |r|]
    ensures forall k :: LeadingTrimmable(s) + |r| <= k < |s| ==> IsTrimmable(s[k])
    ensures r != [] ==> !IsTrimmable(r[0]) && !IsTrimmable(r[|r| - 1])
  {
    var i := LeadingTrimmable(s);
    var tail := s[i..];
    var j := |tail| - TrailingTrimmable(tail);
    assert forall k :: i + j <= k < |s| ==> s[k] == tail[k - i];
    tail[..j]
  }

  /** `s == null || s.trim().isEmpty()` for a present string: it holds exactly when
      every char of s is trimmable. */
  function IsBlank(s: string): (b: bool)
    ensures b <==> AllTrimmable(s)
  {
    BlankIffAllTrimmable(s);
    Trim(s) == []
  }

  /** A string trims to nothing exactly when every one of its chars is trimmable. */
  lemma BlankIffAllTrimmable(s: string)
    ensures Trim(s) == [] <==> AllTrimmable(s)
  {
    var i := LeadingTrimmable(s);
    if Trim(s) == [] {
      assert i == |s|;
      assert s[..i] == s;
    } else {
      var r := Trim(s);
      assert r[0] in s;
    }
  }

  /** Upper-casing of one char, ASCII letters only. */
  function UpperChar(c: char): char
  {
    if 'a' <= c <= 'z' then (c as int - 32) as char else c
  }

  function Fold(s: string): string
  {
    seq(|s|, k requires 0 <= k < |s| => UpperChar(s[k]))
  }

  /** An upper-case ASCII letter is the fold of itself and of its lower-case form only. */
  lemma FoldsTo(c: char, up: char)
    requires 'A' <= up <= 'Z'
    ensures UpperChar(c) == up <==> c == up || c as int == up as int + 32
  {
  }

  /** String.equalsIgnoreCase, for ASCII letters: equal lengths, and the chars at
      each position agree once upper-cased. */
  function EqualsIgnoreCase(a: string, b: string): (r: bool)
    ensures r <==> |a| == |b| && forall k :: 0 <= k < |a| ==> UpperChar(a[k]) == UpperChar(b[k])
  {
    if |a| == |b| then
      assert forall k :: 0 <= k < |a| ==> Fold(a)[k] == UpperChar(a[k]) && Fold(b)[k] == UpperChar(b[k]);
      Fold(a) == Fold(b)
    else false
  }

  predicate StartsWith(s: string, prefix: string)
  {
    |prefix| <= |s| && s[..|prefix|] == prefix
  }

  /** sub occurs in s starting at position i. */
  predicate OccursAt(s: string, sub: string, i: nat)
  {
    i + |sub| <= |s| && s[i..i + |sub|] == sub
  }

  /** Whether sub occurs in s, tried at each position of s in turn. */
  predicate Contains(s: string, sub: string)
    decreases |s|
  {
    StartsWith(s, sub) || (s != [] && Contains(s[1..], sub))
  }

  /** Contains agrees with "some slice of s equals sub". */
  lemma {:induction false} ContainsIffSlice(s: string, sub: string)
    ensures Contains(s, sub) <==> exists i: nat :: OccursAt(s, sub, i)
    decreases |s|
  {
    if StartsWith(s, sub) {
      assert OccursAt(s, sub, 0);
    }
    if s != [] {
      ContainsIffSlice(s[1..], sub);
      if Contains(s[1..], sub) {
        var i: nat :| OccursAt(s[1..], sub, i);
        assert s[1..][i..i + |sub|] == s[i + 1..i + 1 + |sub|];
        assert OccursAt(s, sub, i + 1);
      }
      if i: nat :| OccursAt(s, sub, i) {
        if i > 0 {
          assert s[1..][i - 1..i - 1 + |sub|] == s[i..i + |sub|];
          assert OccursAt(s[1..], sub, i - 1);
        } else {
          assert StartsWith(s, sub);
        }
      }
    }
  }

  /** The `LIKE %text%` test of the IgnoreCase finders. */
  function ContainsIgnoreCase(s: string, sub: string): (r: bool)
    ensures r <==> exists i: nat :: OccursAt(Fold(s), Fold(sub), i)
  {
    ContainsIffSlice(Fold(s), Fold(sub));
    Contains(Fold(s), Fold(sub))
  }
}
