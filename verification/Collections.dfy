/** Optional values, and sequences without repetition. */
module Collections {
  datatype Option<+T> = None | Some(value: T)

  ghost predicate NoDup<T>(s: seq<T>) { forall i, j :: 0 <= i < j < |s| ==> s[i] != s[j] }

  /** s without the first occurrence of x. */
  function Drop<T(==)>(s: seq<T>, x: T): seq<T> {
    if s == [] then [] else if s[0] == x then s[1..] else [s[0]] + Drop(s[1..], x)
  }

  lemma {:induction false} DropMembers<T>(s: seq<T>, x: T)
    requires NoDup(s)
    ensures NoDup(Drop(s, x)) && forall y :: y in Drop(s, x) <==> y in s && y != x
  {
    if s != [] {
      assert s == [s[0]] + s[1..];
      assert s[0] !in s[1..];
      if s[0] != x {
        DropMembers(s[1..], x);
      }
    }
  }

  lemma {:induction false} DropKeeps<T>(s: seq<T>, x: T, y: T)
    requires y != x
    ensures y in Drop(s, x) <==> y in s
  {
    if s != [] && s[0] != x {
      DropKeeps(s[1..], x, y);
    } else if s != [] {
      assert s == [s[0]] + s[1..];
    }
  }

  lemma {:induction false} DropAbsent<T>(s: seq<T>, x: T)
    requires x !in s
    ensures Drop(s, x) == s
  {
    if s != [] {
      DropAbsent(s[1..], x);
    }
  }

  lemma {:induction false} DropAt<T>(s: seq<T>, i: nat)
    requires i < |s| && forall j :: 0 <= j < i ==> s[j] != s[i]
    ensures Drop(s, s[i]) == s[..i] + s[i + 1..]
  {
    if i > 0 {
      DropAt(s[1..], i - 1);
      assert s[..i] + s[i + 1..] == [s[0]] + (s[1..][..i - 1] + s[1..][i..]);
    }
  }
}
