/** The ordering both stages re-sort by: person identifier first, compared
    as text (character by character, a proper prefix first), then the
    activity's position in the person's plan. */
module Order {
  import Sorting

  /** Lexicographic order on strings. */
  predicate StrLe(a: string, b: string)
    decreases |a|
  {
    |a| == 0 || (|b| > 0 && (a[0] < b[0] || (a[0] == b[0] && StrLe(a[1..], b[1..]))))
  }

  lemma {:induction false} StrLeTotal(a: string, b: string)
    ensures StrLe(a, b) || StrLe(b, a)
    decreases |a|
  {
    if |a| > 0 && |b| > 0 && a[0] == b[0] {
      StrLeTotal(a[1..], b[1..]);
    }
  }

  lemma {:induction false} StrLeTransitive(a: string, b: string, c: string)
    requires StrLe(a, b) && StrLe(b, c)
    ensures StrLe(a, c)
    decreases |a|
  {
    if |a| > 0 && a[0] == b[0] && b[0] == c[0] {
      StrLeTransitive(a[1..], b[1..], c[1..]);
    }
  }

  lemma {:induction false} StrLeAntisymmetric(a: string, b: string)
    requires StrLe(a, b) && StrLe(b, a)
    ensures a == b
    decreases |a|
  {
    if |a| > 0 {
      StrLeAntisymmetric(a[1..], b[1..]);
      assert a == [a[0]] + a[1..] && b == [b[0]] + b[1..];
    }
  }

  /** Order on (person, activity index) keys, as a two-column sort does it. */
  predicate KeyLe(p1: string, i1: int, p2: string, i2: int)
  {
    if p1 == p2 then i1 <= i2 else StrLe(p1, p2)
  }

  lemma KeyLeTotal(p1: string, i1: int, p2: string, i2: int)
    ensures KeyLe(p1, i1, p2, i2) || KeyLe(p2, i2, p1, i1)
  {
    StrLeTotal(p1, p2);
  }

  lemma KeyLeTransitive(p1: string, i1: int, p2: string, i2: int, p3: string, i3: int)
    requires KeyLe(p1, i1, p2, i2) && KeyLe(p2, i2, p3, i3)
    ensures KeyLe(p1, i1, p3, i3)
  {
    if p1 != p2 && p2 != p3 {
      StrLeTransitive(p1, p2, p3);
      if p1 == p3 {
        StrLeAntisymmetric(p1, p2);
      }
    } else if p1 == p2 && p2 != p3 {
    } else if p1 != p2 && p2 == p3 {
    }
  }

  /** A key order lifted to any record through a projection is a total
      preorder, so it can drive the stable sort. */
  lemma KeyOrderIsPreorder<T(!new)>(person: T -> string, index: T -> int, le: (T, T) -> bool)
    requires forall a, b :: le(a, b) == KeyLe(person(a), index(a), person(b), index(b))
    ensures Sorting.TotalPreorder(le)
  {
    forall a, b
      ensures le(a, b) || le(b, a)
    {
      KeyLeTotal(person(a), index(a), person(b), index(b));
    }
    forall a, b, c | le(a, b) && le(b, c)
      ensures le(a, c)
    {
      KeyLeTransitive(person(a), index(a), person(b), index(b), person(c), index(c));
    }
  }
}
