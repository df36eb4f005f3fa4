/** Optional values: `None` stands for a C# null reference. */
module Wrappers {

  datatype Option<+T> = None | Some(value: T)

  /** The at most one element an optional value holds, as a sequence. */
  function AsSeq<T>(o: Option<T>): (r: seq<T>)
    ensures |r| <= 1
    ensures if o.Some? then r == [o.value] else r == []
  {
    if o.Some? then [o.value] else []
  }

  /** No value occurs twice in `s`. */
  predicate NoDuplicates<T(==)>(s: seq<T>) {
    forall i, j :: 0 <= i < j < |s| ==> s[i] != s[j]
  }

  /** A sequence without duplicates holds every value at most once, as a multiset. */
  lemma {:induction false} NoDuplicatesCount<T>(s: seq<T>)
    requires NoDuplicates(s)
    ensures forall x :: multiset(s)[x] <= 1
  {
    if s != [] {
      var init, last := s[..|s| - 1], s[|s| - 1];
      assert s == init + [last];
      assert NoDuplicates(init);
      NoDuplicatesCount(init);
      assert last !in init by {
        forall k | 0 <= k < |init| ensures init[k] != last {
          assert init[k] == s[k];
        }
      }
    }
  }

  /** Conversely, a sequence that holds every value at most once has no duplicates. */
  lemma CountNoDuplicates<T>(s: seq<T>)
    requires forall x :: multiset(s)[x] <= 1
    ensures NoDuplicates(s)
  {
    forall i, j | 0 <= i < j < |s| ensures s[i] != s[j] {
      assert s == s[..j] + [s[j]] + s[j + 1..];
      assert s[..j][i] == s[i];
      assert multiset(s[..j])[s[i]] >= 1;
      assert multiset(s)[s[i]] >= multiset(s[..j])[s[i]] + (if s[i] == s[j] then 1 else 0);
    }
  }

  /** Two duplicate-free sequences with no common value concatenate to a duplicate-free sequence. */
  lemma NoDuplicatesConcat<T>(a: seq<T>, b: seq<T>)
    requires NoDuplicates(a) && NoDuplicates(b)
    requires forall x :: x in a ==> x !in b
    ensures NoDuplicates(a + b)
  {
    var s := a + b;
    forall i, j | 0 <= i < j < |s| ensures s[i] != s[j] {
      if j >= |a| {
        assert s[j] == b[j - |a|];
        if i < |a| {
          assert s[i] == a[i];
          assert a[i] in a;
        } else {
          assert s[i] == b[i - |a|];
        }
      }
    }
  }

  /** Splitting off the last value of a non-empty sequence, as multisets. */
  lemma MultisetSnoc<T>(s: seq<T>)
    requires s != []
    ensures multiset(s) == multiset(s[..|s| - 1]) + multiset{s[|s| - 1]}
  {
    assert s == s[..|s| - 1] + [s[|s| - 1]];
  }

  /** The first index whose value already occurred before it, or |s| when there is none. */
  function FirstRepeat<T(==)>(s: seq<T>): (k: nat)
    ensures k <= |s|
    ensures forall j :: 0 <= j < k ==> s[j] !in s[..j]
    ensures k < |s| ==> s[k] in s[..k]
  {
    FirstRepeatFrom(s, 0)
  }

  function FirstRepeatFrom<T(==)>(s: seq<T>, i: nat): (k: nat)
    requires i <= |s|
    requires forall j :: 0 <= j < i ==> s[j] !in s[..j]
    ensures i <= k <= |s|
    ensures forall j :: 0 <= j < k ==> s[j] !in s[..j]
    ensures k < |s| ==> s[k] in s[..k]
    decreases |s| - i
  {
    if i == |s| || s[i] in s[..i] then i else FirstRepeatFrom(s, i + 1)
  }

  lemma NoDuplicatesNoRepeat<T>(s: seq<T>)
    requires NoDuplicates(s)
    ensures FirstRepeat(s) == |s|
  {
    forall j | 0 <= j < |s| ensures s[j] !in s[..j] {
      forall i | 0 <= i < j ensures s[..j][i] != s[j] {
        assert s[..j][i] == s[i];
      }
    }
  }

  /** Conversely, a sequence with no repeat has no duplicates. */
  lemma NoRepeatNoDuplicates<T>(s: seq<T>)
    requires FirstRepeat(s) == |s|
    ensures NoDuplicates(s)
  {
    forall i, j | 0 <= i < j < |s| ensures s[i] != s[j] {
      assert s[..j][i] == s[i];
    }
  }
}
