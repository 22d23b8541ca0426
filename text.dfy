/** Ordinal string comparison with an ASCII case fold, standing in for
    .NET's ToUpper(), Contains and StringComparison.OrdinalIgnoreCase. */
module Text {

  /** Upper-cases an ASCII letter and leaves every other character alone. */
  function UpperChar(c: char): char
  {
    if 'a' <= c <= 'z' then (c as int - 32) as char else c
  }

  /** ToUpper() under the ASCII fold: same length, no lower-case ASCII
      letter left, each lower-case letter replaced by its capital and every
      other character kept. */
  function Upper(s: string): (u: string)
    ensures |u| == |s|
    ensures forall i :: 0 <= i < |u| ==> !('a' <= u[i] <= 'z')
    ensures forall i :: 0 <= i < |s| && 'a' <= s[i] <= 'z' ==>
      'A' <= u[i] <= 'Z' && u[i] as int - 'A' as int == s[i] as int - 'a' as int
    ensures forall i :: 0 <= i < |s| && !('a' <= s[i] <= 'z') ==> u[i] == s[i]
  {
    seq(|s|, i requires 0 <= i < |s| => UpperChar(s[i]))
  }

  /** Upper-casing twice is upper-casing once. */
  lemma UpperIdempotent(s: string)
    ensures Upper(Upper(s)) == Upper(s)
  {
  }

  /** Reference meaning of "sub occurs in s at position i". */
  ghost predicate OccursAt(s: string, sub: string, i: int)
  {
    0 <= i && i + |sub| <= |s| && s[i..i + |sub|] == sub
  }

  lemma OccursAtShift(s: string, sub: string, i: int)
    requires s != [] && 0 <= i
    ensures OccursAt(s[1..], sub, i) <==> OccursAt(s, sub, i + 1)
  {
  }

  /** Ordinal string.Contains: true exactly when sub occurs somewhere in s
      (the empty string occurs everywhere). */
  function Contains(s: string, sub: string): (b: bool)
    ensures b <==> exists i :: OccursAt(s, sub, i)
    decreases |s|
  {
    if sub <= s then
      assert OccursAt(s, sub, 0);
      true
    else if s == [] then
      assert forall i :: !OccursAt(s, sub, i);
      false
    else
      var b := Contains(s[1..], sub);
      assert (exists i :: OccursAt(s, sub, i)) <==> (exists j :: OccursAt(s[1..], sub, j)) by {
        forall i | OccursAt(s, sub, i) ensures OccursAt(s[1..], sub, i - 1) {
          assert i != 0;
          OccursAtShift(s, sub, i - 1);
        }
        forall j | OccursAt(s[1..], sub, j) ensures OccursAt(s, sub, j + 1) {
          OccursAtShift(s, sub, j);
        }
      }
      b
  }

  /** string.Equals(a, b, StringComparison.OrdinalIgnoreCase): the same
      length, and the characters agree position by position once folded. */
  predicate EqualsIgnoreCase(a: string, b: string): (e: bool)
    ensures e <==> |a| == |b| && forall i :: 0 <= i < |a| ==> UpperChar(a[i]) == UpperChar(b[i])
  {
    assert |a| == |b| ==> (Upper(a) == Upper(b) <==> forall i :: 0 <= i < |a| ==> Upper(a)[i] == Upper(b)[i]);
    Upper(a) == Upper(b)
  }

  /** Reference meaning of "sub occurs in s at position i, ignoring case":
      each character of sub matches the one it lies over once both are
      folded. */
  ghost predicate OccursAtIgnoringCase(s: string, sub: string, i: int)
  {
    0 <= i && i + |sub| <= |s| && forall k :: 0 <= k < |sub| ==> UpperChar(s[i + k]) == UpperChar(sub[k])
  }

  lemma OccursAtFolded(s: string, sub: string, i: int)
    ensures OccursAt(Upper(s), Upper(sub), i) <==> OccursAtIgnoringCase(s, sub, i)
  {
    if 0 <= i && i + |sub| <= |s| {
      var slice := Upper(s)[i..i + |sub|];
      assert forall k :: 0 <= k < |sub| ==> slice[k] == UpperChar(s[i + k]);
      assert slice == Upper(sub) <==> forall k :: 0 <= k < |sub| ==> slice[k] == Upper(sub)[k];
    }
  }

  /** s.Contains(sub, StringComparison.OrdinalIgnoreCase): sub occurs in s
      at some position, ignoring case. */
  predicate ContainsIgnoreCase(s: string, sub: string): (b: bool)
    ensures b <==> exists i :: OccursAtIgnoringCase(s, sub, i)
  {
    assert forall i :: OccursAt(Upper(s), Upper(sub), i) <==> OccursAtIgnoringCase(s, sub, i) by {
      forall i {
        OccursAtFolded(s, sub, i);
      }
    }
    Contains(Upper(s), Upper(sub))
  }
}
