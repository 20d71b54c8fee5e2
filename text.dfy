/** The string operations the checker and its front end rely on. */
module Text {

  ghost predicate OccursAt(s: string, sub: string, i: int) {
    0 <= i && i + |sub| <= |s| && s[i..i + |sub|] == sub
  }

  /** Python's `sub in s`. */
  function Contains(s: string, sub: string): (b: bool)
    ensures b <==> exists i :: OccursAt(s, sub, i)
    decreases |s|
  {
    if |sub| > |s| then
      false
    else if s[..|sub|] == sub then
      assert OccursAt(s, sub, 0);
      true
    else
      var b := Contains(s[1..], sub);
      ShiftOccurrence(s, sub);
      b
  }

  /** An occurrence after the first position is an occurrence in the tail, and conversely. */
  lemma ShiftOccurrence(s: string, sub: string)
    requires |s| > 0
    requires !OccursAt(s, sub, 0)
    ensures (exists i :: OccursAt(s, sub, i)) <==> (exists i :: OccursAt(s[1..], sub, i))
  {
    forall i | OccursAt(s, sub, i)
      ensures OccursAt(s[1..], sub, i - 1)
    {
      assert s[1..][i - 1..i - 1 + |sub|] == s[i..i + |sub|];
    }
    forall i | OccursAt(s[1..], sub, i)
      ensures OccursAt(s, sub, i + 1)
    {
      assert s[1..][i..i + |sub|] == s[i + 1..i + 1 + |sub|];
    }
  }

  function Max(a: int, b: int): int {
    if a < b then b else a
  }

  /** Python's `s.ljust(width)` (the `:<width` format spec): pads with spaces, never truncates. */
  function PadRight(s: string, width: nat): (r: string)
    ensures |r| == Max(|s|, width)
    ensures r[..|s|] == s
    ensures forall j :: |s| <= j < |r| ==> r[j] == ' '
  {
    if |s| < width then s + seq(width - |s|, _ => ' ') else s
  }

  /** The position of the first `c` in `s`, or `|s|` when there is none. */
  function IndexOf(s: string, c: char): (r: nat)
    ensures r <= |s|
    ensures r < |s| ==> s[r] == c
    ensures forall j :: 0 <= j < r ==> s[j] != c
  {
    if s == [] then 0 else if s[0] == c then 0 else 1 + IndexOf(s[1..], c)
  }

  /**
    Appending to a string that holds no occurrence of a two-character pattern,
    and does not end in that pattern's first character, creates no occurrence
    across the join.
  */
  lemma {:induction false} ContainsAfterPrefix(a: string, b: string, sub: string)
    requires |sub| == 2
    requires !Contains(a, sub)
    requires a == [] || a[|a| - 1] != sub[0]
    ensures Contains(a + b, sub) <==> Contains(b, sub)
  {
    if Contains(b, sub) {
      var i :| OccursAt(b, sub, i);
      assert (a + b)[|a| + i..|a| + i + 2] == b[i..i + 2];
      assert OccursAt(a + b, sub, |a| + i);
    }
    forall i | 0 <= i < |a|
      ensures !OccursAt(a + b, sub, i)
    {
      if i + 2 <= |a| {
        assert (a + b)[i..i + 2] == a[i..i + 2];
        assert !OccursAt(a, sub, i);
      } else {
        assert (a + b)[i] == a[i];
      }
    }
    if Contains(a + b, sub) {
      var i :| OccursAt(a + b, sub, i);
      assert b[i - |a|..i - |a| + 2] == (a + b)[i..i + 2];
      assert OccursAt(b, sub, i - |a|);
    }
  }
}
