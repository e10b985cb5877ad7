/** Sequence helpers standing in for the Python list and string operations the engine uses. */
module Seqs {
  import opened Outcomes

  predicate Distinct<T(==)>(s: seq<T>)
  {
    forall i, j :: 0 <= i < j < |s| ==> s[i] != s[j]
  }

  /** Python's `list.index(x)`: the position of the first occurrence of `x`. */
  function IndexOf<T(==)>(s: seq<T>, x: T): (i: nat)
    requires x in s
    ensures i < |s| && s[i] == x
    ensures forall j :: 0 <= j < i ==> s[j] != x
  {
    if s[0] == x then 0 else 1 + IndexOf(s[1..], x)
  }

  /** In a sequence without repeats, the index of an element is the only position holding it. */
  lemma IndexOfDistinct<T>(s: seq<T>, k: nat)
    requires Distinct(s) && k < |s|
    ensures IndexOf(s, s[k]) == k
  {
  }

  /** Python's `list.pop(i)`: the sequence without its element at position `i`. */
  function RemoveAt<T>(s: seq<T>, i: nat): (r: seq<T>)
    requires i < |s|
    ensures |r| == |s| - 1
    ensures forall k :: 0 <= k < i ==> r[k] == s[k]
    ensures forall k :: i <= k < |r| ==> r[k] == s[k + 1]
  {
    s[..i] + s[i + 1..]
  }

  function CountTrue(m: seq<bool>): nat
  {
    if m == [] then 0 else (if m[0] then 1 else 0) + CountTrue(m[1..])
  }

  /** The elements of `s` whose position is marked in `m`, in their original order. */
  function FilterBy<T>(s: seq<T>, m: seq<bool>): (r: seq<T>)
    requires |s| == |m|
    ensures |r| == CountTrue(m)
  {
    if s == [] then [] else (if m[0] then [s[0]] else []) + FilterBy(s[1..], m[1..])
  }

  lemma {:induction false} FilterByAllMarked<T>(s: seq<T>, m: seq<bool>)
    requires |s| == |m|
    requires forall i :: 0 <= i < |m| ==> m[i]
    ensures FilterBy(s, m) == s
  {
    if s != [] {
      FilterByAllMarked(s[1..], m[1..]);
    }
  }

  lemma {:induction false} FilterByMembership<T>(s: seq<T>, m: seq<bool>, x: T)
    requires |s| == |m|
    ensures x in FilterBy(s, m) <==> exists i :: 0 <= i < |s| && m[i] && s[i] == x
  {
    if s != [] {
      FilterByMembership(s[1..], m[1..], x);
      if x in FilterBy(s[1..], m[1..]) {
        var i :| 0 <= i < |s| - 1 && m[1..][i] && s[1..][i] == x;
        assert m[i + 1] && s[i + 1] == x;
      }
      if exists i :: 0 <= i < |s| && m[i] && s[i] == x {
        var i :| 0 <= i < |s| && m[i] && s[i] == x;
        if i > 0 {
          assert m[1..][i - 1] && s[1..][i - 1] == x;
        }
      }
    }
  }

  lemma {:induction false} FilterByDistinct<T>(s: seq<T>, m: seq<bool>)
    requires |s| == |m| && Distinct(s)
    ensures Distinct(FilterBy(s, m))
  {
    if s != [] {
      FilterByDistinct(s[1..], m[1..]);
      FilterByMembership(s[1..], m[1..], s[0]);
      forall i | 0 <= i < |s| - 1
        ensures s[1..][i] != s[0]
      {
        assert s[1..][i] == s[i + 1];
      }
    }
  }

  /** A marked element lands at position "number of marks before it" of the filtered sequence. */
  lemma {:induction false} FilterByAt<T>(s: seq<T>, m: seq<bool>, p: nat)
    requires |s| == |m| && p < |s| && m[p]
    ensures CountTrue(m[..p]) < |FilterBy(s, m)|
    ensures FilterBy(s, m)[CountTrue(m[..p])] == s[p]
  {
    if p > 0 {
      FilterByAt(s[1..], m[1..], p - 1);
      assert m[..p][1..] == m[1..][..p - 1];
    }
  }

  /** Unmarking one position of the mask is removing its element from the filtered sequence. */
  lemma {:induction false} FilterByUnmark<T>(s: seq<T>, m: seq<bool>, p: nat)
    requires |s| == |m| && p < |s| && m[p]
    ensures CountTrue(m[..p]) < |FilterBy(s, m)|
    ensures RemoveAt(FilterBy(s, m), CountTrue(m[..p])) == FilterBy(s, m[p := false])
  {
    FilterByAt(s, m, p);
    if p == 0 {
      assert m[p := false][1..] == m[1..];
    } else {
      FilterByUnmark(s[1..], m[1..], p - 1);
      assert m[..p][1..] == m[1..][..p - 1];
      assert m[p := false][1..] == m[1..][p - 1 := false];
      var head := if m[0] then [s[0]] else [];
      RemoveAtAfter(head, FilterBy(s[1..], m[1..]), CountTrue(m[1..][..p - 1]));
    }
  }

  /** Removing an element after a prefix leaves the prefix in place. */
  lemma RemoveAtAfter<T>(head: seq<T>, rest: seq<T>, k: nat)
    requires k < |rest|
    ensures RemoveAt(head + rest, |head| + k) == head + RemoveAt(rest, k)
  {
  }

  /** The prefix of length `m + 1` is the prefix of length `m` followed by element `m`. */
  lemma PrefixSnoc<T>(s: seq<T>, m: nat)
    requires m < |s|
    ensures s[..m] + [s[m]] == s[..m + 1]
  {
  }

  lemma PrefixPrefix<T>(s: seq<T>, m: nat, n: nat)
    requires m <= n <= |s|
    ensures s[..n][..m] == s[..m]
  {
  }

  lemma AppendPrefix<T>(s: seq<T>, t: seq<T>, n: nat)
    requires n <= |s|
    ensures (s + t)[..n] == s[..n]
  {
  }

  lemma WholePrefix<T>(s: seq<T>)
    ensures s[..|s|] == s
  {
  }

  predicate IsPrefix(p: string, s: string)
  {
    |p| <= |s| && s[..|p|] == p
  }

  /** Python's `needle in hay` on strings, which pandas' `filter(like=needle)` applies to each label. */
  predicate Contains(hay: string, needle: string)
    decreases |hay|
  {
    IsPrefix(needle, hay) || (hay != [] && Contains(hay[1..], needle))
  }

  lemma {:induction false} ContainsSuffix(front: string, needle: string)
    ensures Contains(front + needle, needle)
    decreases |front|
  {
    if front == [] {
      assert (front + needle)[..|needle|] == needle;
    } else {
      ContainsSuffix(front[1..], needle);
      assert (front + needle)[1..] == front[1..] + needle;
    }
  }

  /** A string contains only needles no longer than itself. */
  lemma {:induction false} ContainsLength(hay: string, needle: string)
    ensures Contains(hay, needle) ==> |needle| <= |hay|
    decreases |hay|
  {
    if hay != [] {
      ContainsLength(hay[1..], needle);
    }
  }

  /** The position of the first label containing `needle`: `filter(like=needle).columns[0]`. */
  function FirstContaining(labels: seq<string>, needle: string): (r: Option<nat>)
    ensures r.Some? ==> r.value < |labels| && Contains(labels[r.value], needle)
    ensures r.Some? ==> forall j :: 0 <= j < r.value ==> !Contains(labels[j], needle)
    ensures r.None? ==> forall j :: 0 <= j < |labels| ==> !Contains(labels[j], needle)
  {
    if labels == [] then None
    else if Contains(labels[0], needle) then Some(0)
    else match FirstContaining(labels[1..], needle)
      case None => None
      case Some(k) => Some(k + 1)
  }
}
