/** Python's built-in `sorted(items, key=lambda x: x[1], reverse=...)` over the items of a
    dict whose values are integers. Python's sort is stable, and `reverse=True` sorts "as if
    each comparison were reversed": items with equal values keep their original order in
    both directions. */
module PySorted {

  /** One entry of `dict.items()`: a key and its value. */
  type Item = (string, int)

  /** The sort key, `lambda x: x[1]`. */
  function Key(x: Item): int {
    x.1
  }

  /** `x` may stand before `y` in the output. */
  predicate InOrder(x: Item, y: Item, reverse: bool) {
    if reverse then Key(y) <= Key(x) else Key(x) <= Key(y)
  }

  /** Non-decreasing by value, or non-increasing when `reverse`. */
  predicate Ordered(s: seq<Item>, reverse: bool) {
    forall i, j :: 0 <= i < j < |s| ==> InOrder(s[i], s[j], reverse)
  }

  /** The items of `s` whose value is `v`, in the order they appear in `s`. */
  function WithValue(s: seq<Item>, v: int): seq<Item> {
    if s == [] then []
    else (if Key(s[0]) == v then [s[0]] else []) + WithValue(s[1..], v)
  }

  /** `r` keeps every run of equal values in the order `s` has it. */
  ghost predicate Stable(r: seq<Item>, s: seq<Item>) {
    forall v :: WithValue(r, v) == WithValue(s, v)
  }

  /** No key appears twice, as in any dict. */
  predicate DistinctKeys(s: seq<Item>) {
    forall i, j :: 0 <= i < j < |s| ==> s[i].0 != s[j].0
  }

  /** Places `x` before the first item it may precede, that is, in front of every
      item with the same value. */
  function Insert(x: Item, s: seq<Item>, reverse: bool): seq<Item> {
    if s == [] || InOrder(x, s[0], reverse) then [x] + s
    else [s[0]] + Insert(x, s[1..], reverse)
  }

  /** The sort: an insertion sort that inserts each head into the sorted rest. The
      result is a permutation of the input, ordered by value in the requested direction. */
  function SortByValue(s: seq<Item>, reverse: bool): (r: seq<Item>)
    ensures multiset(r) == multiset(s)
    ensures Ordered(r, reverse)
  {
    if s == [] then []
    else
      var t := SortByValue(s[1..], reverse);
      InsertPermutes(s[0], t, reverse);
      InsertOrdered(s[0], t, reverse);
      assert s == [s[0]] + s[1..];
      Insert(s[0], t, reverse)
  }

  lemma {:induction false} InsertPermutes(x: Item, s: seq<Item>, reverse: bool)
    ensures multiset(Insert(x, s, reverse)) == multiset(s) + multiset{x}
  {
    if s != [] && !InOrder(x, s[0], reverse) {
      InsertPermutes(x, s[1..], reverse);
      assert s == [s[0]] + s[1..];
    }
  }

  /** An item that may precede every item of an ordered sequence can be put in front. */
  lemma OrderedCons(x: Item, s: seq<Item>, reverse: bool)
    requires Ordered(s, reverse)
    requires forall k :: 0 <= k < |s| ==> InOrder(x, s[k], reverse)
    ensures Ordered([x] + s, reverse)
  {
    var r := [x] + s;
    forall i, j | 0 <= i < j < |r| ensures InOrder(r[i], r[j], reverse) {
      assert r[j] == s[j - 1];
      if i > 0 {
        assert r[i] == s[i - 1];
      }
    }
  }

  /** Every item of `Insert(x, s)` is `x` or an item of `s`. */
  lemma InsertFrom(x: Item, s: seq<Item>, reverse: bool, k: nat)
    requires k < |Insert(x, s, reverse)|
    ensures Insert(x, s, reverse)[k] == x || Insert(x, s, reverse)[k] in s
  {
    InsertPermutes(x, s, reverse);
    var t := Insert(x, s, reverse);
    assert t[k] in multiset(t);
  }

  lemma {:induction false} InsertOrdered(x: Item, s: seq<Item>, reverse: bool)
    requires Ordered(s, reverse)
    ensures Ordered(Insert(x, s, reverse), reverse)
  {
    if s == [] || InOrder(x, s[0], reverse) {
      forall k | 0 <= k < |s| ensures InOrder(x, s[k], reverse) {
        if k > 0 {
          assert InOrder(s[0], s[k], reverse);
        }
      }
      OrderedCons(x, s, reverse);
    } else {
      var t := Insert(x, s[1..], reverse);
      InsertOrdered(x, s[1..], reverse);
      forall k | 0 <= k < |t| ensures InOrder(s[0], t[k], reverse) {
        InsertFrom(x, s[1..], reverse, k);
      }
      OrderedCons(s[0], t, reverse);
    }
  }

  lemma WithValueCons(x: Item, s: seq<Item>, v: int)
    ensures WithValue([x] + s, v) == (if Key(x) == v then [x] else []) + WithValue(s, v)
  {
    assert ([x] + s)[0] == x && ([x] + s)[1..] == s;
  }

  lemma {:induction false} InsertWithValue(x: Item, s: seq<Item>, reverse: bool, v: int)
    ensures Key(x) == v ==> WithValue(Insert(x, s, reverse), v) == [x] + WithValue(s, v)
    ensures Key(x) != v ==> WithValue(Insert(x, s, reverse), v) == WithValue(s, v)
  {
    if s == [] || InOrder(x, s[0], reverse) {
      WithValueCons(x, s, v);
    } else {
      // s[0] goes strictly before x, so the two values differ
      var t := Insert(x, s[1..], reverse);
      assert Insert(x, s, reverse) == [s[0]] + t;
      assert s == [s[0]] + s[1..];
      InsertWithValue(x, s[1..], reverse, v);
      WithValueCons(s[0], t, v);
      WithValueCons(s[0], s[1..], v);
      if Key(s[0]) == v {
        assert WithValue(Insert(x, s, reverse), v) == [s[0]] + WithValue(s[1..], v);
      } else if Key(x) == v {
        assert WithValue(Insert(x, s, reverse), v) == [x] + WithValue(s[1..], v);
      }
    }
  }

  /** An item whose key is new can be put in front of a sequence with distinct keys. */
  lemma DistinctKeysCons(x: Item, s: seq<Item>)
    requires DistinctKeys(s)
    requires forall k :: 0 <= k < |s| ==> s[k].0 != x.0
    ensures DistinctKeys([x] + s)
  {
    var r := [x] + s;
    forall i, j | 0 <= i < j < |r| ensures r[i].0 != r[j].0 {
      assert r[j] == s[j - 1];
      if i > 0 {
        assert r[i] == s[i - 1];
      }
    }
  }

  lemma {:induction false} InsertKeepsKeysDistinct(x: Item, s: seq<Item>, reverse: bool)
    requires DistinctKeys(s)
    requires forall k :: 0 <= k < |s| ==> s[k].0 != x.0
    ensures DistinctKeys(Insert(x, s, reverse))
  {
    if s == [] || InOrder(x, s[0], reverse) {
      DistinctKeysCons(x, s);
    } else {
      var t := Insert(x, s[1..], reverse);
      assert DistinctKeys(s[1..]);
      InsertKeepsKeysDistinct(x, s[1..], reverse);
      forall k | 0 <= k < |t| ensures t[k].0 != s[0].0 {
        InsertFrom(x, s[1..], reverse, k);
      }
      DistinctKeysCons(s[0], t);
    }
  }

  /** Items with equal values keep their original relative order. */
  lemma {:induction false} SortIsStable(s: seq<Item>, reverse: bool, v: int)
    ensures WithValue(SortByValue(s, reverse), v) == WithValue(s, v)
  {
    if s != [] {
      var t := SortByValue(s[1..], reverse);
      SortIsStable(s[1..], reverse, v);
      InsertWithValue(s[0], t, reverse, v);
      assert SortByValue(s, reverse) == Insert(s[0], t, reverse);
      assert WithValue(s, v) == (if Key(s[0]) == v then [s[0]] else []) + WithValue(s[1..], v);
    }
  }

  /** Sorting the items of a dict yields no key twice. */
  lemma {:induction false} SortKeepsKeysDistinct(s: seq<Item>, reverse: bool)
    requires DistinctKeys(s)
    ensures DistinctKeys(SortByValue(s, reverse))
  {
    if s != [] {
      var t := SortByValue(s[1..], reverse);
      SortKeepsKeysDistinct(s[1..], reverse);
      forall k | 0 <= k < |t| ensures t[k].0 != s[0].0 {
        assert t[k] in multiset(t);
        var m :| 0 <= m < |s[1..]| && s[1..][m] == t[k];
        assert s[m + 1] == t[k];
      }
      InsertKeepsKeysDistinct(s[0], t, reverse);
    }
  }

  /** Everything the call `sorted(items, key=..., reverse=...)` promises, in one place. */
  lemma SortCorrect(s: seq<Item>, reverse: bool)
    ensures multiset(SortByValue(s, reverse)) == multiset(s)
    ensures Ordered(SortByValue(s, reverse), reverse)
    ensures Stable(SortByValue(s, reverse), s)
    ensures DistinctKeys(s) ==> DistinctKeys(SortByValue(s, reverse))
  {
    forall v ensures WithValue(SortByValue(s, reverse), v) == WithValue(s, v) {
      SortIsStable(s, reverse, v);
    }
    if DistinctKeys(s) {
      SortKeepsKeysDistinct(s, reverse);
    }
  }

  /** Two ordered permutations of each other that are stable with respect to each other
      start with the same item: both heads carry the extreme value, and among the items with
      that value the first is the same in both. */
  lemma HeadsAgree(a: seq<Item>, b: seq<Item>, reverse: bool)
    requires a != [] && multiset(a) == multiset(b)
    requires Ordered(a, reverse) && Ordered(b, reverse)
    requires Stable(a, b)
    ensures b != [] && a[0] == b[0]
  {
    assert |multiset(b)| == |a| > 0;
    assert a[0] in multiset(b) && b[0] in multiset(a);
    var m :| 0 <= m < |b| && b[m] == a[0];
    var n :| 0 <= n < |a| && a[n] == b[0];
    assert InOrder(b[0], b[m], reverse) by { if m > 0 { assert 0 < m; } }
    assert InOrder(a[0], a[n], reverse) by { if n > 0 { assert 0 < n; } }
    var v := Key(a[0]);
    assert Key(b[0]) == v;
    assert WithValue(a, v) == [a[0]] + WithValue(a[1..], v);
    assert WithValue(b, v) == [b[0]] + WithValue(b[1..], v);
    assert WithValue(a, v) == WithValue(b, v);
    assert a[0] == WithValue(a, v)[0] == WithValue(b, v)[0] == b[0];
  }

  lemma DropEqualHead(a: seq<Item>, b: seq<Item>, w: int)
    requires a != [] && b != [] && a[0] == b[0]
    requires WithValue(a, w) == WithValue(b, w)
    ensures WithValue(a[1..], w) == WithValue(b[1..], w)
  {
    if Key(a[0]) == w {
      assert WithValue(a, w) == [a[0]] + WithValue(a[1..], w);
      assert WithValue(b, w) == [a[0]] + WithValue(b[1..], w);
      assert WithValue(a, w)[1..] == WithValue(a[1..], w);
      assert WithValue(b, w)[1..] == WithValue(b[1..], w);
    } else {
      assert WithValue(a, w) == WithValue(a[1..], w);
      assert WithValue(b, w) == WithValue(b[1..], w);
    }
  }

  lemma TailMultiset(s: seq<Item>)
    requires s != []
    ensures multiset(s[1..]) == multiset(s) - multiset{s[0]}
  {
    assert s == [s[0]] + s[1..];
  }

  /** Dropping an equal head keeps both the permutation and the stability relation. */
  lemma TailsAgree(a: seq<Item>, b: seq<Item>)
    requires a != [] && b != [] && a[0] == b[0]
    requires multiset(a) == multiset(b)
    requires Stable(a, b)
    ensures multiset(a[1..]) == multiset(b[1..])
    ensures Stable(a[1..], b[1..])
  {
    TailMultiset(a);
    TailMultiset(b);
    forall w ensures WithValue(a[1..], w) == WithValue(b[1..], w) {
      DropEqualHead(a, b, w);
    }
  }

  /** Being ordered, stable and a permutation of the input pins the output down: no other
      arrangement of the items meets all three. */
  lemma {:induction false} OrderedStablePermutationIsUnique(a: seq<Item>, b: seq<Item>, reverse: bool)
    requires multiset(a) == multiset(b)
    requires Ordered(a, reverse) && Ordered(b, reverse)
    requires Stable(a, b)
    ensures a == b
  {
    if a == [] {
      assert |multiset(b)| == 0;
    } else {
      HeadsAgree(a, b, reverse);
      TailsAgree(a, b);
      OrderedStablePermutationIsUnique(a[1..], b[1..], reverse);
      assert a == [a[0]] + a[1..] && b == [b[0]] + b[1..];
    }
  }

  function Reverse(s: seq<Item>): seq<Item> {
    if s == [] then [] else Reverse(s[1..]) + [s[0]]
  }

  lemma {:induction false} ReverseAt(s: seq<Item>, k: nat)
    requires k < |s|
    ensures |Reverse(s)| == |s| && Reverse(s)[k] == s[|s| - 1 - k]
  {
    if |s| > 1 {
      ReverseAt(s[1..], if k < |s| - 1 then k else 0);
    }
  }

  lemma {:induction false} ReverseLength(s: seq<Item>)
    ensures |Reverse(s)| == |s|
  {
    if s != [] {
      ReverseAt(s, 0);
    }
  }

  lemma ReverseReverse(s: seq<Item>)
    ensures Reverse(Reverse(s)) == s
  {
    ReverseLength(s);
    ReverseLength(Reverse(s));
    forall k | 0 <= k < |s| ensures Reverse(Reverse(s))[k] == s[k] {
      ReverseAt(Reverse(s), k);
      ReverseAt(s, |s| - 1 - k);
    }
  }

  lemma {:induction false} ReversePermutes(s: seq<Item>)
    ensures multiset(Reverse(s)) == multiset(s)
  {
    if s != [] {
      ReversePermutes(s[1..]);
      assert s == [s[0]] + s[1..];
    }
  }

  lemma ReverseOrdered(s: seq<Item>, reverse: bool)
    requires Ordered(s, reverse)
    ensures Ordered(Reverse(s), !reverse)
  {
    ReverseLength(s);
    var r := Reverse(s);
    forall i, j | 0 <= i < j < |r| ensures InOrder(r[i], r[j], !reverse) {
      ReverseAt(s, i);
      ReverseAt(s, j);
      assert InOrder(s[|s| - 1 - j], s[|s| - 1 - i], reverse);
    }
  }

  lemma {:induction false} ReverseWithValue(s: seq<Item>, v: int)
    ensures WithValue(Reverse(s), v) == Reverse(WithValue(s, v))
  {
    if s != [] {
      ReverseWithValue(s[1..], v);
      WithValueAppend(Reverse(s[1..]), [s[0]], v);
      assert WithValue([s[0]], v) == if Key(s[0]) == v then [s[0]] else [];
      var head := if Key(s[0]) == v then [s[0]] else [];
      if head != [] {
        assert (head + WithValue(s[1..], v))[1..] == WithValue(s[1..], v);
      } else {
        assert head + WithValue(s[1..], v) == WithValue(s[1..], v);
      }
    }
  }

  lemma {:induction false} WithValueAppend(s: seq<Item>, t: seq<Item>, v: int)
    ensures WithValue(s + t, v) == WithValue(s, v) + WithValue(t, v)
  {
    if s != [] {
      WithValueAppend(s[1..], t, v);
      assert (s + t)[1..] == s[1..] + t;
    } else {
      assert s + t == t;
    }
  }

  /** CPython implements `reverse=True` by reversing, sorting stably ascending and reversing
      back; that yields exactly the descending stable sort modelled here. */
  lemma DescendingIsReversedAscendingOfReversed(s: seq<Item>)
    ensures SortByValue(s, true) == Reverse(SortByValue(Reverse(s), false))
  {
    var a := SortByValue(s, true);
    var t := SortByValue(Reverse(s), false);
    var b := Reverse(t);
    SortCorrect(s, true);
    SortCorrect(Reverse(s), false);
    ReversePermutes(s);
    ReversePermutes(t);
    ReverseOrdered(t, false);
    forall v ensures WithValue(a, v) == WithValue(b, v) {
      ReverseWithValue(t, v);
      ReverseWithValue(s, v);
      ReverseReverse(WithValue(s, v));
    }
    OrderedStablePermutationIsUnique(a, b, true);
  }
}

