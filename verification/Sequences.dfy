/** Sequences without duplicates, and stable sorting by a key. */
module Sequences {

  ghost predicate NoDuplicates<T>(s: seq<T>) {
    forall i, j :: 0 <= i < j < |s| ==> s[i] != s[j]
  }

  lemma NoDuplicatesAppend<T>(s: seq<T>, x: T)
    requires NoDuplicates(s) && x !in s
    ensures NoDuplicates(s + [x]) && forall y :: y in s + [x] <==> y in s || y == x
  {
  }

  /** Some a stands before some b, the first a in the sequence. */
  ghost predicate Precedes<T>(s: seq<T>, a: T, b: T) {
    s != [] && if s[0] == a then b in s[1..] else Precedes(s[1..], a, b)
  }

  lemma {:induction false} PrecedesMembers<T>(s: seq<T>, a: T, b: T)
    ensures Precedes(s, a, b) ==> a in s && b in s
  {
    if s == [] {
    } else if s[0] != a {
      PrecedesMembers(s[1..], a, b);
    }
  }

  // ----- stable sorting, the least key first

  function Insert<T>(x: T, s: seq<T>, key: T -> real): (longer: seq<T>)
    ensures |longer| == |s| + 1
  {
    if s == [] then [x]
    else if key(x) <= key(s[0]) then [x] + s
    else [s[0]] + Insert(x, s[1..], key)
  }

  /** `sorted(s, key=key)`, which keeps the order of equals. */
  function SortedBy<T>(s: seq<T>, key: T -> real): (sorted: seq<T>)
    ensures |sorted| == |s|
  {
    if s == [] then [] else Insert(s[0], SortedBy(s[1..], key), key)
  }

  lemma {:induction false} InsertPermutes<T>(x: T, s: seq<T>, key: T -> real)
    ensures multiset(Insert(x, s, key)) == multiset(s) + multiset{x}
  {
    if s == [] {
    } else {
      assert s == [s[0]] + s[1..];
      if key(x) > key(s[0]) {
        InsertPermutes(x, s[1..], key);
      }
    }
  }

  /** Sorting is a permutation. */
  lemma {:induction false} SortedPermutes<T>(s: seq<T>, key: T -> real)
    ensures multiset(SortedBy(s, key)) == multiset(s)
  {
    if s == [] {
    } else {
      assert s == [s[0]] + s[1..];
      SortedPermutes(s[1..], key);
      InsertPermutes(s[0], SortedBy(s[1..], key), key);
    }
  }

  lemma InsertMembers<T>(h: T, s: seq<T>, key: T -> real, x: T)
    ensures x in Insert(h, s, key) <==> x == h || x in s
  {
    InsertPermutes(h, s, key);
    assert x in Insert(h, s, key) <==> x in multiset(Insert(h, s, key));
    assert x in s <==> x in multiset(s);
  }

  lemma SortedMembers<T>(s: seq<T>, key: T -> real, x: T)
    ensures x in SortedBy(s, key) <==> x in s
  {
    SortedPermutes(s, key);
    assert x in SortedBy(s, key) <==> x in multiset(SortedBy(s, key));
    assert x in s <==> x in multiset(s);
  }

  lemma {:induction false} InsertNoDuplicates<T>(h: T, s: seq<T>, key: T -> real)
    requires NoDuplicates(s) && h !in s
    ensures NoDuplicates(Insert(h, s, key))
  {
    if s == [] {
    } else if key(h) > key(s[0]) {
      InsertNoDuplicates(h, s[1..], key);
      InsertMembers(h, s[1..], key, s[0]);
    }
  }

  lemma {:induction false} SortedNoDuplicates<T>(s: seq<T>, key: T -> real)
    requires NoDuplicates(s)
    ensures NoDuplicates(SortedBy(s, key))
  {
    if s == [] {
    } else {
      SortedNoDuplicates(s[1..], key);
      SortedMembers(s[1..], key, s[0]);
      InsertNoDuplicates(s[0], SortedBy(s[1..], key), key);
    }
  }

  ghost predicate Ascending<T(!new)>(s: seq<T>, key: T -> real) {
    forall i, j :: 0 <= i < j < |s| ==> key(s[i]) <= key(s[j])
  }

  lemma {:induction false} InsertAscending<T(!new)>(h: T, s: seq<T>, key: T -> real)
    requires Ascending(s, key)
    ensures Ascending(Insert(h, s, key), key)
  {
    if s == [] {
    } else if key(h) > key(s[0]) {
      var rest := Insert(h, s[1..], key);
      InsertAscending(h, s[1..], key);
      forall x | x in rest ensures key(s[0]) <= key(x) {
        InsertMembers(h, s[1..], key, x);
      }
    }
  }

  lemma {:induction false} SortedAscending<T(!new)>(s: seq<T>, key: T -> real)
    ensures Ascending(SortedBy(s, key), key)
  {
    if s == [] {
    } else {
      SortedAscending(s[1..], key);
      InsertAscending(s[0], SortedBy(s[1..], key), key);
    }
  }

  /** Inserting h keeps the order of the others. */
  lemma {:induction false} InsertKeepsOrder<T>(h: T, s: seq<T>, key: T -> real, a: T, b: T)
    requires a != h && b != h
    ensures Precedes(Insert(h, s, key), a, b) <==> Precedes(s, a, b)
  {
    if s == [] {
      assert [h][1..] == [];
    } else if key(h) <= key(s[0]) {
      assert ([h] + s)[1..] == s;
    } else {
      var rest := Insert(h, s[1..], key);
      assert ([s[0]] + rest)[1..] == rest;
      InsertKeepsOrder(h, s[1..], key, a, b);
      InsertMembers(h, s[1..], key, b);
    }
  }

  /** h comes before all of the same and of greater keys. */
  lemma {:induction false} InsertPosition<T(!new)>(h: T, s: seq<T>, key: T -> real, b: T)
    requires Ascending(s, key) && h !in s && b in s
    ensures Precedes(Insert(h, s, key), h, b) <==> key(h) <= key(b)
    ensures Precedes(Insert(h, s, key), b, h) <==> key(b) < key(h)
  {
    if key(h) <= key(s[0]) {
      assert ([h] + s)[1..] == s;
      PrecedesMembers(s, b, h);
    } else {
      var rest := Insert(h, s[1..], key);
      assert ([s[0]] + rest)[1..] == rest;
      InsertMembers(h, s[1..], key, h);
      if b in s[1..] {
        InsertPosition(h, s[1..], key, b);
      } else {
        InsertMembers(h, s[1..], key, b);
        PrecedesMembers(rest, h, b);
      }
    }
  }

  /** a comes first: of the lesser key, or of the same and before b already. */
  ghost predicate ComesFirst<T>(s: seq<T>, key: T -> real, a: T, b: T) {
    key(a) < key(b) || (key(a) == key(b) && Precedes(s, a, b))
  }

  lemma HeadOrder<T(!new)>(h: T, rest: seq<T>, key: T -> real, b: T)
    requires h !in rest && b in rest
    ensures var sorted := Insert(h, SortedBy(rest, key), key);
            && (Precedes(sorted, h, b) <==> key(h) <= key(b))
            && (Precedes(sorted, b, h) <==> key(b) < key(h))
  {
    SortedAscending(rest, key);
    SortedMembers(rest, key, h);
    SortedMembers(rest, key, b);
    InsertPosition(h, SortedBy(rest, key), key, b);
  }

  lemma HeadComesFirst<T>(s: seq<T>, key: T -> real, b: T)
    requires s != [] && s[0] !in s[1..] && b in s[1..]
    ensures ComesFirst(s, key, s[0], b) <==> key(s[0]) <= key(b)
    ensures ComesFirst(s, key, b, s[0]) <==> key(b) < key(s[0])
  {
    PrecedesMembers(s[1..], b, s[0]);
  }

  /** Sorting puts members in the order of their keys, and of the sequence. */
  lemma {:induction false} SortedOrder<T(!new)>(s: seq<T>, key: T -> real, a: T, b: T)
    requires NoDuplicates(s) && a in s && b in s && a != b
    ensures Precedes(SortedBy(s, key), a, b) <==> ComesFirst(s, key, a, b)
  {
    var h, rest := s[0], s[1..];
    assert h !in rest && NoDuplicates(rest);
    if a == h {
      HeadOrder(h, rest, key, b);
      HeadComesFirst(s, key, b);
    } else if b == h {
      HeadOrder(h, rest, key, a);
      HeadComesFirst(s, key, a);
    } else {
      InsertKeepsOrder(h, SortedBy(rest, key), key, a, b);
      SortedOrder(rest, key, a, b);
    }
  }
}
