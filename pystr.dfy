/** Python's substring test `needle in haystack` on str values. */
module PyStr {

  /** `needle` stands in `haystack` starting at position `i`. */
  ghost predicate OccursAt(needle: string, haystack: string, i: int) {
    0 <= i && i + |needle| <= |haystack| && haystack[i..i + |needle|] == needle
  }

  /** `needle` occurs in `haystack` at some position. */
  ghost predicate Occurs(needle: string, haystack: string) {
    exists i :: OccursAt(needle, haystack, i)
  }

  lemma SliceOfTail(s: string, j: nat, n: nat)
    requires 0 < |s| && j + n <= |s| - 1
    ensures s[1..][j..j + n] == s[j + 1..j + 1 + n]
  {
    var l, r := s[1..][j..j + n], s[j + 1..j + 1 + n];
    forall k | 0 <= k < n ensures l[k] == r[k] {
      assert s[1..][j + k] == s[j + 1 + k];
    }
  }

  /** `b` stands in `a + b + c` right after `a`. */
  lemma OccursBetween(a: string, b: string, c: string)
    ensures OccursAt(b, a + b + c, |a|)
  {
    var s := a + b + c;
    forall k | 0 <= k < |b| ensures s[|a|..|a| + |b|][k] == b[k] {
      assert s[|a| + k] == b[k];
    }
  }

  /** `b` stands at the front of `b + c`. */
  lemma OccursAtFront(b: string, c: string)
    ensures OccursAt(b, b + c, 0)
  {
    OccursBetween([], b, c);
    assert [] + b + c == b + c;
  }

  /** `b` stands at the end of `a + b`. */
  lemma OccursAtEnd(a: string, b: string)
    ensures OccursAt(b, a + b, |a|)
  {
    OccursBetween(a, b, []);
    assert a + b + [] == a + b;
  }

  /** An occurrence is either at the front or somewhere in the rest. */
  lemma OccursSplit(needle: string, haystack: string)
    requires |needle| <= |haystack| && |haystack| > 0
    ensures Occurs(needle, haystack) <==>
      haystack[..|needle|] == needle || Occurs(needle, haystack[1..])
  {
    var n, rest := |needle|, haystack[1..];
    if Occurs(needle, haystack) {
      var i :| OccursAt(needle, haystack, i);
      if i > 0 {
        SliceOfTail(haystack, i - 1, n);
        assert OccursAt(needle, rest, i - 1);
      }
    }
    if haystack[..n] == needle {
      assert OccursAt(needle, haystack, 0);
    }
    if Occurs(needle, rest) {
      var j :| OccursAt(needle, rest, j);
      SliceOfTail(haystack, j, n);
      assert OccursAt(needle, haystack, j + 1);
    }
  }

  /** `needle in haystack`, by trying each starting position from the left. */
  function Contains(haystack: string, needle: string): (r: bool)
    ensures r <==> Occurs(needle, haystack)
  {
    if |needle| > |haystack| then
      false
    else if |haystack| == 0 then
      assert OccursAt(needle, haystack, 0);
      true
    else
      OccursSplit(needle, haystack);
      haystack[..|needle|] == needle || Contains(haystack[1..], needle)
  }
}
