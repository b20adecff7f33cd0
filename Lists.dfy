/** The operations of C#'s List<T> that the search uses on OpenSet and ClosedSet,
    as functions on sequences. Membership (List.Contains) is Dafny's `in`. */
module Lists {

  /** No element occurs twice. */
  predicate NoDup<T(==)>(s: seq<T>) {
    forall a, b :: 0 <= a < b < |s| ==> s[a] != s[b]
  }

  /** List.Remove(x): drops the first occurrence of x, if there is one. */
  function RemoveFirst<T(==)>(s: seq<T>, x: T): (r: seq<T>)
    ensures x in s ==> |r| == |s| - 1
    ensures x !in s ==> r == s
    ensures forall y :: y in r ==> y in s
    ensures forall y :: y in s && y != x ==> y in r
  {
    if s == [] then []
    else if s[0] == x then s[1..]
    else [s[0]] + RemoveFirst(s[1..], x)
  }

  /** Removing the element at the index where it first occurs. */
  lemma {:induction false} RemoveFirstAt<T>(s: seq<T>, x: T, k: nat)
    requires k < |s| && s[k] == x && x !in s[..k]
    ensures RemoveFirst(s, x) == s[..k] + s[k + 1..]
  {
    if k > 0 {
      assert s[0] in s[..k];
      assert x !in s[1..][..k - 1] by { assert s[1..][..k - 1] == s[..k][1..]; }
      RemoveFirstAt(s[1..], x, k - 1);
      assert s[..k] == [s[0]] + s[1..][..k - 1];
      assert s[k + 1..] == s[1..][k..];
    }
  }

  /** In a list without duplicates, Remove takes out every copy of x and keeps the rest. */
  lemma {:induction false} RemoveFirstNoDup<T>(s: seq<T>, x: T)
    requires NoDup(s)
    ensures NoDup(RemoveFirst(s, x))
    ensures x !in RemoveFirst(s, x)
    ensures forall y :: y in RemoveFirst(s, x) <==> y in s && y != x
  {
    if s != [] {
      assert NoDup(s[1..]) by {
        forall a, b | 0 <= a < b < |s[1..]| ensures s[1..][a] != s[1..][b] {
          assert s[1..][a] == s[a + 1] && s[1..][b] == s[b + 1];
        }
      }
      assert s[0] !in s[1..] by {
        forall b | 0 <= b < |s[1..]| ensures s[1..][b] != s[0] { assert s[1..][b] == s[b + 1]; }
      }
      if s[0] != x {
        RemoveFirstNoDup(s[1..], x);
        var t := RemoveFirst(s[1..], x);
        assert RemoveFirst(s, x) == [s[0]] + t;
        forall a, b | 0 <= a < b < |[s[0]] + t| ensures ([s[0]] + t)[a] != ([s[0]] + t)[b] {
          if a == 0 {
            assert ([s[0]] + t)[b] == t[b - 1];
            assert t[b - 1] in s[1..];
          } else {
            assert ([s[0]] + t)[a] == t[a - 1] && ([s[0]] + t)[b] == t[b - 1];
          }
        }
      }
    }
  }

  /** Appending an element that is absent keeps a list duplicate-free. */
  lemma AppendNoDup<T>(s: seq<T>, x: T)
    requires NoDup(s) && x !in s
    ensures NoDup(s + [x])
  {
    forall a, b | 0 <= a < b < |s + [x]| ensures (s + [x])[a] != (s + [x])[b] {
      assert (s + [x])[a] == s[a];
      if b < |s| { assert (s + [x])[b] == s[b]; } else { assert (s + [x])[b] == x; }
    }
  }

  /** In a duplicate-free list, the element at i occurs neither before nor after i. */
  lemma NoDupSplit<T>(s: seq<T>, i: nat)
    requires NoDup(s) && i < |s|
    ensures s[i] !in s[..i] && s[i] !in s[i + 1..]
  {
    forall k | 0 <= k < i ensures s[..i][k] != s[i] { assert s[..i][k] == s[k]; }
    var after := s[i + 1..];
    forall k | 0 <= k < |after| ensures after[k] != s[i] { assert after[k] == s[i + 1 + k]; }
  }

  /** Two duplicate-free lists with no element in common concatenate to a duplicate-free list. */
  lemma ConcatNoDup<T>(s: seq<T>, t: seq<T>)
    requires NoDup(s) && NoDup(t)
    requires forall x :: x in s ==> x !in t
    ensures NoDup(s + t)
  {
    forall a, b | 0 <= a < b < |s + t| ensures (s + t)[a] != (s + t)[b] {
      if b < |s| {
        assert (s + t)[a] == s[a] && (s + t)[b] == s[b];
      } else if a < |s| {
        assert (s + t)[a] == s[a] && (s + t)[b] == t[b - |s|];
        assert s[a] in s && t[b - |s|] in t;
      } else {
        assert (s + t)[a] == t[a - |s|] && (s + t)[b] == t[b - |s|];
      }
    }
  }

  lemma AppendAssoc<T>(a: seq<T>, b: seq<T>, c: seq<T>)
    ensures (a + b) + c == a + (b + c)
  {
  }

  /** A duplicate-free list drawn from a finite set S is no longer than S has elements. */
  lemma {:induction false} NoDupLengthBound<T>(s: seq<T>, S: set<T>)
    requires NoDup(s)
    requires forall x :: x in s ==> x in S
    ensures |s| <= |S|
  {
    if s != [] {
      var last := s[|s| - 1];
      var init := s[..|s| - 1];
      assert NoDup(init) by {
        forall a, b | 0 <= a < b < |init| ensures init[a] != init[b] { assert init[a] == s[a] && init[b] == s[b]; }
      }
      assert last !in init by {
        forall a | 0 <= a < |init| ensures init[a] != last { assert init[a] == s[a]; }
      }
      forall x | x in init ensures x in S - {last} { assert x in s; }
      NoDupLengthBound(init, S - {last});
    }
  }
}
