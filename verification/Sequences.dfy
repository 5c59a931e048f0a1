/** Orders, sorting and duplicate-free sequences: what the collections of the modelled code rest on. */
module Sequences {

  ghost predicate TotalPreorder<T(!new)>(le: (T, T) -> bool) {
    && (forall a, b :: le(a, b) || le(b, a))
    && (forall a, b, c :: le(a, b) && le(b, c) ==> le(a, c))
  }

  ghost predicate SortedBy<T(!new)>(s: seq<T>, le: (T, T) -> bool) {
    forall i, j :: 0 <= i < j < |s| ==> le(s[i], s[j])
  }

  ghost predicate NoDup<T(!new)>(s: seq<T>) {
    forall i, j :: 0 <= i < j < |s| ==> s[i] != s[j]
  }

  ghost function Elements<T(!new)>(s: seq<T>): (r: set<T>)
    ensures forall x :: x in r <==> x in s
  {
    set x | x in s
  }

  /** A stable insertion of `x` behind everything it does not precede. */
  method Insert<T(!new)>(s: seq<T>, x: T, le: (T, T) -> bool) returns (r: seq<T>)
    requires TotalPreorder(le) && SortedBy(s, le)
    ensures SortedBy(r, le)
    ensures multiset(r) == multiset(s) + multiset{x}
  {
    var i := |s|;
    while i > 0 && !le(s[i - 1], x)
      invariant 0 <= i <= |s|
      invariant forall k :: i <= k < |s| ==> le(x, s[k])
    {
      assert le(x, s[i - 1]);
      i := i - 1;
    }
    r := s[..i] + [x] + s[i..];
    forall k | 0 <= k < i ensures le(s[k], x) {
      if k < i - 1 { Transitive(s[k], s[i - 1], x, le); }
    }
    InsertedInOrder(s, x, i, le);
  }

  lemma Transitive<T(!new)>(a: T, b: T, c: T, le: (T, T) -> bool)
    requires TotalPreorder(le) && le(a, b) && le(b, c)
    ensures le(a, c)
  {
  }

  lemma InsertedInOrder<T(!new)>(s: seq<T>, x: T, i: nat, le: (T, T) -> bool)
    requires SortedBy(s, le) && i <= |s|
    requires forall k :: 0 <= k < i ==> le(s[k], x)
    requires forall k :: i <= k < |s| ==> le(x, s[k])
    ensures SortedBy(s[..i] + [x] + s[i..], le)
    ensures multiset(s[..i] + [x] + s[i..]) == multiset(s) + multiset{x}
  {
    assert s == s[..i] + s[i..];
  }

  /** The library sort the modelled code calls, as a stable insertion sort. */
  method Sort<T(!new)>(s: seq<T>, le: (T, T) -> bool) returns (r: seq<T>)
    requires TotalPreorder(le)
    ensures SortedBy(r, le)
    ensures multiset(r) == multiset(s)
  {
    r := [];
    for i := 0 to |s|
      invariant SortedBy(r, le)
      invariant multiset(r) == multiset(s[..i])
    {
      assert s[..i + 1] == s[..i] + [s[i]];
      r := Insert(r, s[i], le);
    }
    assert s[..|s|] == s;
  }

  lemma PermutationElements<T(!new)>(s: seq<T>, t: seq<T>)
    requires multiset(s) == multiset(t)
    ensures |s| == |t| && Elements(s) == Elements(t)
  {
    assert |multiset(s)| == |s| && |multiset(t)| == |t|;
    forall x ensures x in Elements(s) <==> x in Elements(t) {
      assert x in multiset(s) <==> x in s;
      assert x in multiset(t) <==> x in t;
    }
  }

  /** A list is free of duplicates exactly when its multiset counts nothing twice. */
  lemma {:induction false} NoDupCounts<T(!new)>(s: seq<T>)
    ensures NoDup(s) <==> forall x :: multiset(s)[x] <= 1
  {
    if |s| > 0 {
      var front, last := s[..|s| - 1], s[|s| - 1];
      assert s == front + [last];
      NoDupCounts(front);
      assert forall x :: multiset(s)[x] == multiset(front)[x] + multiset{last}[x];
      assert last in multiset(front) <==> last in front;
      assert NoDup(s) <==> NoDup(front) && last !in front;
      assert multiset(s)[last] == multiset(front)[last] + 1;
    }
  }

  lemma PermutationNoDup<T(!new)>(s: seq<T>, t: seq<T>)
    requires multiset(s) == multiset(t)
    ensures NoDup(s) <==> NoDup(t)
  {
    NoDupCounts(s);
    NoDupCounts(t);
  }

  lemma {:induction false} NoDupLength<T(!new)>(s: seq<T>)
    requires NoDup(s)
    ensures |Elements(s)| == |s|
  {
    if |s| > 0 {
      var front, last := s[..|s| - 1], s[|s| - 1];
      NoDupLength(front);
      assert last !in front;
      assert Elements(s) == Elements(front) + {last};
    }
  }

  // ------------------------------------------------------------------ ascending id lists

  ghost predicate StrictlyAscending(s: seq<nat>) {
    forall i, j :: 0 <= i < j < |s| ==> s[i] < s[j]
  }

  lemma {:induction false} FindLeast(s: set<nat>) returns (m: nat)
    requires s != {}
    ensures m in s && forall x :: x in s ==> m <= x
    decreases |s|
  {
    var first :| first in s;
    var rest := s - {first};
    m := first;
    if rest != {} {
      var least := FindLeast(rest);
      if least < first { m := least; }
      forall x | x in s ensures m <= x {
        assert x == first || x in rest;
      }
    } else {
      assert s == {first};
    }
  }

  lemma {:induction false} AscendingExists(s: set<nat>)
    ensures exists r: seq<nat> :: StrictlyAscending(r) && Elements(r) == s
    decreases |s|
  {
    if s == {} {
      assert StrictlyAscending([]) && Elements<nat>([]) == s;
    } else {
      var m := FindLeast(s);
      AscendingExists(s - {m});
      var rest: seq<nat> :| StrictlyAscending(rest) && Elements(rest) == s - {m};
      var r: seq<nat> := [m] + rest;
      forall j | 0 < j < |r| ensures r[0] < r[j] {
        assert rest[j - 1] in Elements(rest);
      }
      forall x ensures x in r <==> x in s {
        assert x in r <==> x == m || x in Elements(rest);
      }
      assert StrictlyAscending(r) && Elements(r) == s;
    }
  }

  /** The members of a finite id set in ascending order: what iterating a `BTreeMap`'s keys yields. */
  ghost function Ascending(s: set<nat>): (r: seq<nat>)
    ensures StrictlyAscending(r)
    ensures Elements(r) == s
  {
    AscendingExists(s);
    var r: seq<nat> :| StrictlyAscending(r) && Elements(r) == s;
    r
  }

  /** An ascending list is determined by its members. */
  lemma {:induction false} AscendingUnique(s: seq<nat>, t: seq<nat>)
    requires StrictlyAscending(s) && StrictlyAscending(t)
    requires Elements(s) == Elements(t)
    ensures s == t
    decreases |s|
  {
    assert |t| > 0 ==> t[0] in Elements(t);
    assert |s| > 0 ==> s[0] in Elements(s);
    if s != [] {
      assert s[0] in Elements(t) by { assert s[0] in Elements(s); }
      assert t[0] in Elements(s) by { assert t[0] in Elements(t); }
      assert s[0] == t[0];
      forall x ensures x in s[1..] <==> x in t[1..] {
        if x in s[1..] {
          assert x in Elements(s);
          assert x in t;
        }
        if x in t[1..] {
          assert x in Elements(t);
          assert x in s;
        }
      }
      AscendingUnique(s[1..], t[1..]);
      assert s == [s[0]] + s[1..] && t == [t[0]] + t[1..];
    }
  }

  lemma AscendingIs(s: seq<nat>)
    requires StrictlyAscending(s)
    ensures s == Ascending(Elements(s))
  {
    AscendingUnique(s, Ascending(Elements(s)));
  }

  lemma AscendingOfNone()
    ensures Ascending({}) == []
  {
    AscendingIs([]);
    assert Elements<nat>([]) == {};
  }

  method SortedKeys(s: set<nat>) returns (r: seq<nat>)
    ensures r == Ascending(s)
  {
    var listed := ListOf(s);
    r := Sort(listed, (a: nat, b: nat) => a <= b);
    PermutationElements(listed, r);
    PermutationNoDup(listed, r);
    AscendingIs(r);
  }

  /** The members of a set in whatever order a hash table yields them. */
  method ListOf<T(!new, ==)>(s: set<T>) returns (r: seq<T>)
    ensures NoDup(r) && Elements(r) == s
  {
    var rest := s;
    r := [];
    while rest != {}
      invariant rest <= s
      invariant NoDup(r)
      invariant forall x :: x in r <==> x in s && x !in rest
      decreases |rest|
    {
      var x :| x in rest;
      r := r + [x];
      rest := rest - {x};
    }
  }
}
