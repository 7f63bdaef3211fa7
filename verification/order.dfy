/** Canonical list form: duplicate-free and strictly ascending.
    The sort order is lexicographic on characters, with a proper prefix sorting
    first, which is how `Array.prototype.sort` orders strings without a
    comparator (on UTF-16 code units; here on `char`). */
module Order {

  /** The set of members of a list. */
  function Elems(s: seq<string>): set<string>
  {
    set x | x in s
  }

  lemma HeadInElems(s: seq<string>)
    ensures |s| > 0 ==> s[0] in Elems(s)
  {
  }

  /** Strict lexicographic order on strings. */
  predicate Less(a: string, b: string)
  {
    if |a| == 0 then |b| > 0
    else if |b| == 0 then false
    else a[0] < b[0] || (a[0] == b[0] && Less(a[1..], b[1..]))
  }

  lemma {:induction false} LessIrreflexive(a: string)
    ensures !Less(a, a)
  {
    if |a| > 0 {
      LessIrreflexive(a[1..]);
    }
  }

  lemma {:induction false} LessAsymmetric(a: string, b: string)
    requires Less(a, b)
    ensures !Less(b, a)
  {
    if |a| > 0 && a[0] == b[0] {
      LessAsymmetric(a[1..], b[1..]);
    }
  }

  lemma {:induction false} LessTransitive(a: string, b: string, c: string)
    requires Less(a, b) && Less(b, c)
    ensures Less(a, c)
  {
    if |a| > 0 && a[0] == b[0] && b[0] == c[0] {
      LessTransitive(a[1..], b[1..], c[1..]);
    }
  }

  /** Any two different strings are ordered one way or the other. */
  lemma {:induction false} LessTotal(a: string, b: string)
    requires a != b
    ensures Less(a, b) || Less(b, a)
  {
    if |a| > 0 && |b| > 0 && a[0] == b[0] {
      assert a == [a[0]] + a[1..] && b == [b[0]] + b[1..];
      LessTotal(a[1..], b[1..]);
    }
  }

  /** Every earlier member is strictly below every later one. */
  ghost predicate StrictlySorted(s: seq<string>)
  {
    forall i, j :: 0 <= i < j < |s| ==> Less(s[i], s[j])
  }

  /** A strictly sorted list holds no member twice. */
  lemma SortedDistinct(s: seq<string>)
    requires StrictlySorted(s)
    ensures forall i, j :: 0 <= i < j < |s| ==> s[i] != s[j]
  {
    forall i, j | 0 <= i < j < |s|
      ensures s[i] != s[j]
    {
      LessIrreflexive(s[i]);
    }
  }

  /** In a strictly sorted list, the head is below every member of the tail. */
  lemma SortedHeadBelowTail(s: seq<string>)
    requires StrictlySorted(s) && |s| > 0
    ensures forall y :: y in s[1..] ==> Less(s[0], y)
  {
    forall y | y in s[1..]
      ensures Less(s[0], y)
    {
      var k :| 0 <= k < |s[1..]| && s[1..][k] == y;
      assert s[k + 1] == y;
    }
  }

  /** The tail of a strictly sorted list holds every member but the head. */
  lemma SortedTailElems(s: seq<string>)
    requires StrictlySorted(s) && |s| > 0
    ensures Elems(s[1..]) == Elems(s) - {s[0]}
  {
    SortedHeadBelowTail(s);
    LessIrreflexive(s[0]);
    assert s == [s[0]] + s[1..];
  }

  /** Insert `x` into a strictly sorted list at its place, unless it is already there. */
  function Insert(s: seq<string>, x: string): (r: seq<string>)
    requires StrictlySorted(s)
    ensures StrictlySorted(r)
    ensures Elems(r) == Elems(s) + {x}
  {
    if |s| == 0 then [x]
    else if x == s[0] then s
    else if Less(x, s[0]) then
      SortedHeadBelowTail(s);
      assert forall y :: y in s ==> y == s[0] || y in s[1..] by {
        assert s == [s[0]] + s[1..];
      }
      BelowHeadBelowAll(x, s[0], s);
      [x] + s
    else
      LessTotal(x, s[0]);
      SortedHeadBelowTail(s);
      var t := Insert(s[1..], x);
      assert s == [s[0]] + s[1..];
      assert forall y :: y in t ==> Less(s[0], y) by {
        forall y | y in t
          ensures Less(s[0], y)
        {
          assert y in Elems(t);
          if y != x {
            assert y in Elems(s[1..]);
          }
        }
      }
      assert Elems([s[0]] + t) == {s[0]} + Elems(t);
      [s[0]] + t
  }

  /** If `x` is below the head of a strictly sorted list, it is below every member. */
  lemma BelowHeadBelowAll(x: string, h: string, s: seq<string>)
    requires Less(x, h)
    requires forall y :: y in s ==> y == h || Less(h, y)
    ensures forall y :: y in s ==> Less(x, y)
  {
    forall y | y in s
      ensures Less(x, y)
    {
      if y != h {
        LessTransitive(x, h, y);
      }
    }
  }

  /** `uniqSorted`: `Array.from(new Set(arr)).sort()` — the same members,
      each once, in ascending order. */
  function UniqSorted(s: seq<string>): (r: seq<string>)
    ensures StrictlySorted(r)
    ensures Elems(r) == Elems(s)
  {
    if |s| == 0 then []
    else
      var n := |s| - 1;
      assert s == s[..n] + [s[n]];
      Insert(UniqSorted(s[..n]), s[n])
  }

  /** Two strictly sorted lists with the same members are the same list:
      canonical form is unique. */
  lemma {:induction false} SortedUnique(a: seq<string>, b: seq<string>)
    requires StrictlySorted(a) && StrictlySorted(b)
    requires Elems(a) == Elems(b)
    ensures a == b
  {
    if |a| > 0 {
      assert a[0] in Elems(b);
      assert b != [];
      if a[0] != b[0] {
        assert b[0] in Elems(a);
        SortedHeadBelowTail(a);
        SortedHeadBelowTail(b);
        assert b[0] in a[1..] by { assert a == [a[0]] + a[1..]; }
        assert a[0] in b[1..] by { assert b == [b[0]] + b[1..]; }
        LessAsymmetric(a[0], b[0]);
        assert false;
      }
      SortedTailElems(a);
      SortedTailElems(b);
      SortedUnique(a[1..], b[1..]);
      assert a == [a[0]] + a[1..] && b == [b[0]] + b[1..];
    } else {
      HeadInElems(b);
    }
  }

  /** A list already in canonical form is left as it is. */
  lemma UniqSortedKeepsCanonical(s: seq<string>)
    requires StrictlySorted(s)
    ensures UniqSorted(s) == s
  {
    SortedUnique(UniqSorted(s), s);
  }

  /** Canonicalising twice is canonicalising once. */
  lemma UniqSortedIdempotent(s: seq<string>)
    ensures UniqSorted(UniqSorted(s)) == UniqSorted(s)
  {
    UniqSortedKeepsCanonical(UniqSorted(s));
  }

  /** Insertion order and repetitions are not observable: lists with the same
      members canonicalise to the same list. */
  lemma UniqSortedOrderInsensitive(a: seq<string>, b: seq<string>)
    requires Elems(a) == Elems(b)
    ensures UniqSorted(a) == UniqSorted(b)
  {
    SortedUnique(UniqSorted(a), UniqSorted(b));
  }

  /** The canonical list is duplicate-free and holds one entry per distinct member. */
  lemma UniqSortedDistinct(s: seq<string>)
    ensures forall i, j :: 0 <= i < j < |UniqSorted(s)| ==> UniqSorted(s)[i] != UniqSorted(s)[j]
  {
    SortedDistinct(UniqSorted(s));
  }
}
