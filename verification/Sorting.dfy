/** What the sources rely on of sort.Slice and sort.Strings: in place, by a string key, and not stable. */
module Sorting {
  import opened Text

  ghost predicate Sorted<T>(s: seq<T>, key: T -> string) {
    forall i, j :: 0 <= i < j < |s| ==> !Less(key(s[j]), key(s[i]))
  }

  /** Sorted, but for position at, whose element belongs further down. */
  ghost predicate SortedBut<T>(s: seq<T>, key: T -> string, at: nat) {
    && (forall i, j :: 0 <= i < j < |s| && i != at && j != at ==> !Less(key(s[j]), key(s[i])))
    && (forall j :: at < j < |s| && at < |s| ==> !Less(key(s[j]), key(s[at])))
  }

  lemma MovedDown<T>(s: seq<T>, t: seq<T>, key: T -> string, at: nat)
    requires 0 < at < |s| && SortedBut(s, key, at) && Less(key(s[at]), key(s[at - 1]))
    requires t == s[at := s[at - 1]][at - 1 := s[at]]
    ensures SortedBut(t, key, at - 1) && multiset(t) == multiset(s)
  {
    assert s == s[..at - 1] + [s[at - 1], s[at]] + s[at + 1..];
    assert t == s[..at - 1] + [s[at], s[at - 1]] + s[at + 1..];
    LessIsAsymmetric(key(s[at]), key(s[at - 1]));
  }

  lemma InPlace<T>(s: seq<T>, key: T -> string, at: nat)
    requires at < |s| && SortedBut(s, key, at) && (at > 0 ==> !Less(key(s[at]), key(s[at - 1])))
    ensures Sorted(s, key)
  {
    forall i | 0 <= i < at ensures !Less(key(s[at]), key(s[i])) {
      if i < at - 1 {
        NotLessIsTransitive(key(s[i]), key(s[at - 1]), key(s[at]));
      }
    }
  }

  lemma OneMore<T>(s: seq<T>, t: seq<T>, key: T -> string)
    requires Sorted(s, key) && |t| == |s| + 1 && t[..|s|] == s
    ensures SortedBut(t, key, |s|)
  {
    assert forall i :: 0 <= i < |s| ==> t[i] == s[i];
  }

  /** One step down for element j, which is smaller than the one before it. */
  method StepDown<T>(a: array<T>, j: nat, ghost before: seq<T>, i: nat, key: T -> string)
    requires 0 < j < i <= a.Length
    requires Reordered(a[..], before, i) && SortedBut(a[..i], key, j) && Less(key(a[j]), key(a[j - 1]))
    modifies a
    ensures Reordered(a[..], before, i) && SortedBut(a[..i], key, j - 1)
  {
    hide Reordered, SortedBut, Less;
    ghost var s := a[..];
    a[j], a[j - 1] := a[j - 1], a[j];
    assert a[..] == s[j := s[j - 1]][j - 1 := s[j]];
    assert a[..][..i] == a[..i] && s[..i] == old(a[..i]);
    SwapReorders(s, a[..], before, key, i, j);
  }

  /** Elements i and beyond keep their places, and those before are only reordered. */
  ghost predicate Reordered<T>(after: seq<T>, before: seq<T>, i: nat) {
    |after| == |before| && i <= |after| && after[i..] == before[i..] && multiset(after[..i]) == multiset(before[..i])
  }

  lemma SwapReorders<T>(s: seq<T>, t: seq<T>, before: seq<T>, key: T -> string, i: nat, j: nat)
    requires Reordered(s, before, i) && 0 < j < i && t == s[j := s[j - 1]][j - 1 := s[j]]
    requires SortedBut(s[..i], key, j) && Less(key(s[j]), key(s[j - 1]))
    ensures Reordered(t, before, i) && SortedBut(t[..i], key, j - 1)
  {
    hide SortedBut;
    assert t[..i] == s[..i][j := s[..i][j - 1]][j - 1 := s[..i][j]];
    MovedDown(s[..i], t[..i], key, j);
    assert t[i..] == s[i..];
  }

  /** Element i moves down to its place among the sorted ones before it. */
  method Insert<T>(a: array<T>, i: nat, key: T -> string)
    requires i < a.Length && Sorted(a[..i], key)
    modifies a
    ensures Sorted(a[..i + 1], key) && Reordered(a[..], old(a[..]), i + 1)
  {
    hide SortedBut, Sorted, Reordered, Less;
    ghost var before := a[..];
    OneMore(a[..i], a[..i + 1], key);
    Untouched(before, i + 1);
    var j := i;
    while j > 0 && Less(key(a[j]), key(a[j - 1]))
      invariant j <= i
      invariant Reordered(a[..], before, i + 1) && SortedBut(a[..i + 1], key, j)
    {
      StepDown(a, j, before, i + 1, key);
      j := j - 1;
    }
    InPlace(a[..i + 1], key, j);
  }

  lemma Untouched<T>(s: seq<T>, i: nat)
    requires i <= |s|
    ensures Reordered(s, s, i)
  {
  }

  lemma StillPermutation<T>(after: seq<T>, before: seq<T>, i: nat)
    requires Reordered(after, before, i)
    ensures multiset(after) == multiset(before)
  {
    assert after == after[..i] + after[i..] && before == before[..i] + before[i..];
  }

  /** sort.Slice. */
  method SortSlice<T>(a: array<T>, key: T -> string)
    modifies a
    ensures Sorted(a[..], key) && multiset(a[..]) == multiset(old(a[..]))
  {
    hide Sorted, Reordered;
    Nothing(a[..0], key);
    for i := 0 to a.Length
      invariant Sorted(a[..i], key) && multiset(a[..]) == multiset(old(a[..]))
    {
      ghost var s := a[..];
      Insert(a, i, key);
      StillPermutation(a[..], s, i + 1);
    }
    assert a[..a.Length] == a[..];
  }

  lemma Nothing<T>(s: seq<T>, key: T -> string)
    requires s == []
    ensures Sorted(s, key)
  {
  }

  /** A sorted copy: make, copy, sort. */
  method SortedCopy<T>(s: seq<T>, key: T -> string) returns (r: seq<T>)
    ensures Sorted(r, key) && multiset(r) == multiset(s) && |r| == |s|
  {
    var a := new T[|s|](i requires 0 <= i < |s| => s[i]);
    assert a[..] == s;
    SortSlice(a, key);
    r := a[..];
  }

  /** Elements of s with the same key are equal. */
  ghost predicate KeyIdentifies<T>(s: seq<T>, key: T -> string) {
    forall i, j :: 0 <= i < |s| && 0 <= j < |s| && key(s[i]) == key(s[j]) ==> s[i] == s[j]
  }

  lemma WithoutElement<T>(s: seq<T>, j: nat)
    requires j < |s|
    ensures multiset(s[..j] + s[j + 1..]) == multiset(s) - multiset{s[j]}
  {
    assert s == s[..j] + [s[j]] + s[j + 1..];
  }

  lemma WithoutHead<T>(s: seq<T>)
    requires s != []
    ensures multiset(s[1..]) == multiset(s) - multiset{s[0]}
  {
    assert s == [s[0]] + s[1..];
  }

  lemma IndexOf<T>(s: seq<T>, x: T) returns (i: nat)
    requires x in multiset(s)
    ensures i < |s| && s[i] == x
  {
    i :| i < |s| && s[i] == x;
  }

  lemma SameHead<T>(a: seq<T>, b: seq<T>, key: T -> string)
    requires Sorted(a, key) && Sorted(b, key) && multiset(a) == multiset(b) && KeyIdentifies(a, key)
    requires a != [] && b != []
    ensures a[0] == b[0]
  {
    assert a[0] in multiset(b) && b[0] in multiset(a);
    var i := IndexOf(a, b[0]);
    var j := IndexOf(b, a[0]);
    LessIsTotal(key(a[0]), key(b[0]));
    LessIsIrreflexive(key(a[0]));
  }

  /** Where the key identifies the elements, sorting leaves one possible result, stable or not. */
  lemma {:induction false} SortedIsUnique<T>(a: seq<T>, b: seq<T>, key: T -> string)
    requires Sorted(a, key) && Sorted(b, key) && multiset(a) == multiset(b)
    requires KeyIdentifies(a, key)
    ensures a == b
  {
    assert |multiset(a)| == |a| && |multiset(b)| == |b|;
    if a != [] {
      SameHead(a, b, key);
      WithoutHead(a);
      WithoutHead(b);
      SortedIsUnique(a[1..], b[1..], key);
      assert a == [a[0]] + a[1..] && b == [b[0]] + b[1..];
    }
  }

  /** Element by element. */
  function Mapped<T, U>(s: seq<T>, f: T -> U): (r: seq<U>)
    ensures |r| == |s|
    ensures forall i :: 0 <= i < |s| ==> r[i] == f(s[i])
  {
    seq(|s|, i requires 0 <= i < |s| => f(s[i]))
  }

  lemma MappedWithout<T, U>(s: seq<T>, j: nat, f: T -> U)
    requires j < |s|
    ensures multiset(Mapped(s, f)) == multiset(Mapped(s[..j] + s[j + 1..], f)) + multiset{f(s[j])}
  {
    assert Mapped(s[..j] + s[j + 1..], f) == Mapped(s, f)[..j] + Mapped(s, f)[j + 1..];
    WithoutElement(Mapped(s, f), j);
  }

  lemma MappedHead<T, U>(s: seq<T>, f: T -> U)
    requires s != []
    ensures multiset(Mapped(s, f)) == multiset(Mapped(s[1..], f)) + multiset{f(s[0])}
  {
    MappedWithout(s, 0, f);
    assert s[..0] + s[1..] == s[1..];
  }

  lemma Drawn<T>(a: seq<T>, b: seq<T>) returns (j: nat)
    requires a != [] && multiset(a) == multiset(b)
    ensures j < |b| && b[j] == a[0] && multiset(a[1..]) == multiset(b[..j] + b[j + 1..])
  {
    assert a[0] in multiset(b);
    j := IndexOf(b, a[0]);
    WithoutHead(a);
    WithoutElement(b, j);
  }

  /** Permuting the elements permutes their images. */
  lemma {:induction false} MappedPermutation<T, U>(a: seq<T>, b: seq<T>, f: T -> U)
    requires multiset(a) == multiset(b)
    ensures multiset(Mapped(a, f)) == multiset(Mapped(b, f))
  {
    hide Mapped;
    if a == [] {
      assert |multiset(b)| == 0;
      assert a == b;
    } else {
      var j := Drawn(a, b);
      MappedPermutation(a[1..], b[..j] + b[j + 1..], f);
      MappedWithout(b, j, f);
      MappedHead(a, f);
    }
  }
}
