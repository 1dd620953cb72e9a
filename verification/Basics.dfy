/** Values shared by every module: options, 64-bit counters and ticks, and the
    sequence operations the ledger code is made of. */
module Basics {

  datatype Option<+T> = None | Some(value: T) {
    function GetOr(default: T): T {
      match this
      case Some(v) => v
      case None => default
    }
  }

  datatype Result<+T, +E> = Ok(value: T) | Err(error: E)

  const U64_MAX: int := 0xFFFF_FFFF_FFFF_FFFF

  /** An unsigned 64-bit number: an id, a counter or a tick. */
  type u64 = x: int | 0 <= x <= 0xFFFF_FFFF_FFFF_FFFF

  function SaturatingAdd(a: u64, b: nat): (r: u64)
    ensures r == U64_MAX || r == a + b
    ensures a <= r
  {
    if a + b > U64_MAX then U64_MAX else a + b
  }

  function SaturatingSub(a: u64, b: u64): (r: u64)
  {
    if a < b then 0 else a - b
  }

  function Max(a: int, b: int): (r: int)
  {
    if a < b then b else a
  }

  // ---------------------------------------------------------------------------
  // sequences
  // ---------------------------------------------------------------------------

  /** Position of the first element that satisfies `p`, or `|s|`. */
  function FirstIndex<T>(s: seq<T>, p: T -> bool): (i: nat)
    ensures i <= |s|
    ensures i < |s| ==> p(s[i])
    ensures forall j :: 0 <= j < i ==> !p(s[j])
  {
    if s == [] then 0
    else if p(s[0]) then 0
    else 1 + FirstIndex(s[1..], p)
  }

  lemma {:induction false} FirstIndexGrows<T>(s: seq<T>, x: T, p: T -> bool)
    ensures FirstIndex(s + [x], p) == if FirstIndex(s, p) < |s| then FirstIndex(s, p) else if p(x) then |s| else |s| + 1
  {
    if s != [] {
      FirstIndexGrows(s[1..], x, p);
      assert (s + [x])[1..] == s[1..] + [x];
    }
  }

  /** `s` without the element at position `i`. */
  function RemoveAt<T>(s: seq<T>, i: nat): (r: seq<T>)
    requires i < |s|
    ensures |r| == |s| - 1
  {
    s[..i] + s[i + 1..]
  }

  /** The elements of `s` that satisfy `keep`, in order. */
  function Filter<T>(s: seq<T>, keep: T -> bool): (r: seq<T>)
    ensures |r| <= |s|
    ensures forall x | x in r :: x in s && keep(x)
    ensures forall x | x in s && keep(x) :: x in r
  {
    if s == [] then []
    else if keep(s[0]) then [s[0]] + Filter(s[1..], keep)
    else Filter(s[1..], keep)
  }

  function Map<T, U>(s: seq<T>, f: T -> U): (r: seq<U>)
    ensures |r| == |s|
    ensures forall i :: 0 <= i < |s| ==> r[i] == f(s[i])
  {
    if s == [] then [] else [f(s[0])] + Map(s[1..], f)
  }

  /** The last element that satisfies `p`. */
  function LastWith<T>(s: seq<T>, p: T -> bool): (x: Option<T>)
    ensures x.Some? ==> p(x.value)
  {
    if s == [] then None
    else if p(s[|s| - 1]) then Some(s[|s| - 1])
    else LastWith(s[..|s| - 1], p)
  }

  lemma {:induction false} LastWithFinds<T>(s: seq<T>, p: T -> bool)
    ensures LastWith(s, p).Some? <==> exists x | x in s :: p(x)
    ensures LastWith(s, p).Some? ==> LastWith(s, p).value in s
  {
    if s != [] {
      LastWithFinds(s[..|s| - 1], p);
      assert s == s[..|s| - 1] + [s[|s| - 1]];
    }
  }

  /** The elements after the last one that satisfies `p`. */
  function Since<T>(s: seq<T>, p: T -> bool): (r: seq<T>) {
    if s == [] || p(s[|s| - 1]) then [] else Since(s[..|s| - 1], p) + [s[|s| - 1]]
  }

  lemma LastGrows<T>(s: seq<T>, x: T, p: T -> bool)
    ensures LastWith(s + [x], p) == if p(x) then Some(x) else LastWith(s, p)
    ensures Since(s + [x], p) == if p(x) then [] else Since(s, p) + [x]
  {
    assert (s + [x])[..|s|] == s;
  }

  /** A sequence is what comes before the last such element, that element, and
      what comes after it; or none of it is such an element. */
  lemma {:induction false} SplitAtLast<T>(s: seq<T>, p: T -> bool)
    ensures if LastWith(s, p).None? then Since(s, p) == s
            else exists front :: s == front + [LastWith(s, p).value] + Since(s, p)
  {
    if s != [] {
      var before, last := s[..|s| - 1], s[|s| - 1];
      assert s == before + [last];
      if p(last) {
        assert s == before + [last] + Since(s, p);
      } else {
        SplitAtLast(before, p);
        if LastWith(before, p).Some? {
          var front :| before == front + [LastWith(before, p).value] + Since(before, p);
          assert s == front + [LastWith(s, p).value] + Since(s, p);
        }
      }
    }
  }

  /** A relation that holds between every element and every later one. */
  ghost predicate Pairwise<T>(s: seq<T>, rel: (T, T) -> bool)
  {
    forall i, j :: 0 <= i < j < |s| ==> rel(s[i], s[j])
  }

  lemma {:induction false} FilterKeepsPairwise<T>(s: seq<T>, keep: T -> bool, rel: (T, T) -> bool)
    requires Pairwise(s, rel)
    ensures Pairwise(Filter(s, keep), rel)
  {
    if s != [] {
      var rest := s[1..];
      forall i, j | 0 <= i < j < |rest| ensures rel(rest[i], rest[j]) {
        assert rest[i] == s[i + 1] && rest[j] == s[j + 1];
      }
      FilterKeepsPairwise(rest, keep, rel);
      var kept := Filter(rest, keep);
      forall x | x in kept ensures rel(s[0], x) {
        var k :| 0 <= k < |rest| && rest[k] == x;
        assert s[k + 1] == x;
      }
    }
  }

  /** The elements of all parts, part by part. */
  function Flat<T>(parts: seq<seq<T>>): (s: seq<T>) {
    if parts == [] then [] else Flat(parts[..|parts| - 1]) + parts[|parts| - 1]
  }

  lemma FlatGrows<T>(parts: seq<seq<T>>, i: nat)
    requires i < |parts|
    ensures Flat(parts[..i + 1]) == Flat(parts[..i]) + parts[i]
  {
    assert parts[..i + 1][..i] == parts[..i];
  }

  lemma {:induction false} FlatMembers<T>(parts: seq<seq<T>>, x: T)
    ensures x in Flat(parts) <==> exists i | 0 <= i < |parts| :: x in parts[i]
  {
    if parts != [] {
      var front := parts[..|parts| - 1];
      FlatMembers(front, x);
      assert forall i | 0 <= i < |front| :: front[i] == parts[i];
    }
  }

  ghost predicate Any<T>(s: seq<T>, p: T -> bool) {
    exists x | x in s :: p(x)
  }

  lemma AnyGrows<T>(s: seq<T>, x: T, p: T -> bool)
    ensures Any(s + [x], p) <==> Any(s, p) || p(x)
  {
    assert x in s + [x];
  }

  predicate NoDuplicates<T(==)>(s: seq<T>)
  {
    forall i, j :: 0 <= i < j < |s| ==> s[i] != s[j]
  }

  function ToSet<T>(s: seq<T>): (r: set<T>)
  {
    set x | x in s
  }

  lemma NoDuplicatesInBoth<T>(a: seq<T>, b: seq<T>)
    requires NoDuplicates(a) && NoDuplicates(b)
    requires forall x | x in a :: x !in b
    ensures NoDuplicates(a + b)
  {
    assert forall i | 0 <= i < |a| :: a[i] in a;
    assert forall j | 0 <= j < |b| :: b[j] in b;
  }

  lemma {:induction false} SubsetSize<T>(a: set<T>, b: set<T>)
    requires a <= b
    ensures |a| <= |b|
  {
    if a != {} {
      var x :| x in a;
      SubsetSize(a - {x}, b - {x});
    }
  }
}
