/** Small shared notions: optional values, and lists without duplicates. */
module Collections {

  datatype Option<+T> = None | Some(value: T)

  ghost predicate NoDup<T>(s: seq<T>) { forall i, j :: 0 <= i < j < |s| ==> s[i] != s[j] }

  /** The list with the first occurrence of x unlinked. */
  function Without<T(==)>(s: seq<T>, x: T): seq<T> {
    if s == [] then [] else if s[0] == x then s[1..] else [s[0]] + Without(s[1..], x)
  }

  lemma {:induction false} WithoutElements<T>(s: seq<T>, x: T, y: T)
    requires NoDup(s)
    ensures y in Without(s, x) <==> y in s && y != x
  {
    if s != [] {
      if s[0] != x {
        WithoutElements(s[1..], x, y);
      }
      assert y in s <==> y == s[0] || y in s[1..];
    }
  }

  lemma {:induction false} WithoutNoDup<T>(s: seq<T>, x: T)
    requires NoDup(s)
    ensures NoDup(Without(s, x))
  {
    if s != [] && s[0] != x {
      WithoutNoDup(s[1..], x);
      WithoutElements(s[1..], x, s[0]);
    }
  }

  /** What a search from the head that stops at index i finds to unlink; i is the length
      of the list if the search fails. */
  lemma {:induction false} WithoutAt<T>(s: seq<T>, x: T, i: nat)
    requires i <= |s| && x !in s[..i] && (i < |s| ==> s[i] == x)
    ensures Without(s, x) == if i < |s| then s[..i] + s[i + 1..] else s
  {
    if i > 0 {
      assert s[0] in s[..i];
      WithoutNext(s, x, i);
      WithoutAt(s[1..], x, i - 1);
    }
  }

  lemma WithoutNext<T>(s: seq<T>, x: T, i: nat)
    requires 0 < i <= |s| && x !in s[..i]
    ensures s[1..][..i - 1] == s[..i][1..] && x !in s[1..][..i - 1]
    ensures i < |s| ==> [s[0]] + (s[1..][..i - 1] + s[1..][i..]) == s[..i] + s[i + 1..]
    ensures i == |s| ==> [s[0]] + s[1..] == s
  {
    forall y | y in s[..i][1..] ensures y in s[..i] {
    }
  }
}
