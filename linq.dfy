/**
 * The query operators the handlers compose (Where, FirstOrDefault, OrderBy,
 * Skip, Take, Count), over sequences that stand for a table's rows in the
 * database's order.  Skip and Take follow the rules of in-memory LINQ: a
 * negative skip skips nothing and a take of zero or less takes nothing.
 */
module Linq {
  import opened Wrappers

  /** `n` forced into `lo..hi`. */
  function Clamp(n: int, lo: int, hi: int): (r: int)
    requires lo <= hi
    ensures lo <= r <= hi
    ensures lo <= n <= hi ==> r == n
    ensures n < lo ==> r == lo
    ensures hi < n ==> r == hi
  {
    if n < lo then lo else if hi < n then hi else n
  }

  // ---------------------------------------------------------------- Where

  /** The elements of `s` that satisfy `p`, in their original order. */
  function Where<T(!new)>(s: seq<T>, p: T -> bool): (r: seq<T>)
    ensures forall x :: multiset(r)[x] == if p(x) then multiset(s)[x] else 0
    ensures forall x :: x in r <==> x in s && p(x)
    ensures forall i :: 0 <= i < |r| ==> p(r[i])
    ensures |r| <= |s|
    decreases |s|
  {
    if s == [] then []
    else
      assert s == [s[0]] + s[1..];
      if p(s[0]) then [s[0]] + Where(s[1..], p) else Where(s[1..], p)
  }

  // ------------------------------------------------------- FirstOrDefault

  /** The position of the first element of `s` that satisfies `p`, if any. */
  function FirstMatch<T>(s: seq<T>, p: T -> bool): (r: Option<nat>)
    ensures r.Some? ==> r.value < |s| && p(s[r.value])
    ensures r.Some? ==> forall j :: 0 <= j < r.value ==> !p(s[j])
    ensures r.None? <==> forall j :: 0 <= j < |s| ==> !p(s[j])
    decreases |s|
  {
    if s == [] then None
    else if p(s[0]) then Some(0)
    else
      match FirstMatch(s[1..], p)
      case None => None
      case Some(k) => Some(k + 1)
  }

  // ------------------------------------------------------------- ordering

  /**
   * Lexicographic order on integer sequences; a proper prefix comes first.
   * Every sort key of the model is such a sequence.
   */
  predicate LexLe(a: seq<int>, b: seq<int>)
    decreases |a|
  {
    a == [] || (b != [] && (a[0] < b[0] || (a[0] == b[0] && LexLe(a[1..], b[1..]))))
  }

  lemma {:induction false} LexLeReflexive(a: seq<int>)
    ensures LexLe(a, a)
    decreases |a|
  {
    if a != [] { LexLeReflexive(a[1..]); }
  }

  lemma {:induction false} LexLeTotal(a: seq<int>, b: seq<int>)
    ensures LexLe(a, b) || LexLe(b, a)
    decreases |a|
  {
    if a != [] && b != [] && a[0] == b[0] { LexLeTotal(a[1..], b[1..]); }
  }

  lemma {:induction false} LexLeTransitive(a: seq<int>, b: seq<int>, c: seq<int>)
    requires LexLe(a, b) && LexLe(b, c)
    ensures LexLe(a, c)
    decreases |a|
  {
    if a != [] && a[0] == b[0] && b[0] == c[0] { LexLeTransitive(a[1..], b[1..], c[1..]); }
  }

  /** LexLe compares first elements, then the rest. */
  lemma LexLeCons(x: int, y: int, a: seq<int>, b: seq<int>)
    ensures LexLe([x] + a, [y] + b) <==> x < y || (x == y && LexLe(a, b))
  {
    assert ([x] + a)[1..] == a && ([y] + b)[1..] == b;
  }

  lemma {:induction false} LexLeAntisymmetric(a: seq<int>, b: seq<int>)
    requires LexLe(a, b) && LexLe(b, a)
    ensures a == b
    decreases |a|
  {
    if a != [] {
      LexLeAntisymmetric(a[1..], b[1..]);
      assert a == [a[0]] + a[1..] && b == [b[0]] + b[1..];
    }
  }

  /** `s` is in ascending order of `key`. */
  ghost predicate SortedBy<T>(s: seq<T>, key: T -> seq<int>)
  {
    forall i, j :: 0 <= i < j < |s| ==> LexLe(key(s[i]), key(s[j]))
  }

  lemma PrependSorted<T>(x: T, s: seq<T>, key: T -> seq<int>)
    requires SortedBy(s, key)
    requires s != [] ==> LexLe(key(x), key(s[0]))
    ensures SortedBy([x] + s, key)
  {
    var r := [x] + s;
    forall i, j | 0 <= i < j < |r| ensures LexLe(key(r[i]), key(r[j])) {
      if i == 0 && j > 1 {
        LexLeTransitive(key(x), key(s[0]), key(s[j - 1]));
      }
    }
  }

  /** `x` inserted into the sorted `s` in front of the first element it does not follow. */
  function Insert<T>(x: T, s: seq<T>, key: T -> seq<int>): (r: seq<T>)
    requires SortedBy(s, key)
    ensures multiset(r) == multiset(s) + multiset{x}
    ensures SortedBy(r, key)
    decreases |s|
  {
    if s == [] then [x]
    else if LexLe(key(x), key(s[0])) then
      PrependSorted(x, s, key);
      [x] + s
    else
      assert s == [s[0]] + s[1..];
      LexLeTotal(key(x), key(s[0]));
      var rest := Insert(x, s[1..], key);
      assert rest != [] ==> LexLe(key(s[0]), key(rest[0])) by {
        if rest != [] {
          assert rest[0] in multiset(rest);
          assert rest[0] == x || rest[0] in s[1..];
        }
      }
      PrependSorted(s[0], rest, key);
      [s[0]] + rest
  }

  /** OrderBy: the elements of `s` rearranged into ascending order of `key` (a stable sort). */
  function OrderBy<T>(s: seq<T>, key: T -> seq<int>): (r: seq<T>)
    ensures multiset(r) == multiset(s)
    ensures SortedBy(r, key)
    decreases |s|
  {
    if s == [] then []
    else
      assert s == [s[0]] + s[1..];
      Insert(s[0], OrderBy(s[1..], key), key)
  }

  lemma OrderByCount<T>(s: seq<T>, key: T -> seq<int>)
    ensures |OrderBy(s, key)| == |s|
    ensures forall x :: x in OrderBy(s, key) <==> x in s
  {
    var r := OrderBy(s, key);
    assert |multiset(r)| == |multiset(s)|;
    forall x ensures x in r <==> x in s {
      assert x in r <==> x in multiset(r);
      assert x in s <==> x in multiset(s);
    }
  }

  // --------------------------------------------------------- Skip and Take

  /** Skip: `s` without its first `count` elements. */
  function Skip<T>(s: seq<T>, count: int): (r: seq<T>)
    ensures |r| == |s| - Clamp(count, 0, |s|)
    ensures r == s[|s| - |r|..]
  {
    if count <= 0 then s else if count >= |s| then [] else s[count..]
  }

  /** Take: the first `count` elements of `s`, or all of them when there are fewer. */
  function Take<T>(s: seq<T>, count: int): (r: seq<T>)
    ensures |r| == Clamp(count, 0, |s|)
    ensures r == s[..|r|]
  {
    if count <= 0 then [] else if count >= |s| then s else s[..count]
  }

  /** The number of elements before page `pageNumber`: `(pageNumber - 1) * pageSize`. */
  function Offset(pageNumber: int, pageSize: int): (r: int)
    ensures pageNumber >= 1 && pageSize >= 0 ==> r >= 0
    ensures pageNumber == 1 ==> r == 0
  {
    (pageNumber - 1) * pageSize
  }

  /** `Skip((pageNumber - 1) * pageSize).Take(pageSize)`: one page of `s`. */
  function Page<T>(s: seq<T>, pageNumber: int, pageSize: int): (r: seq<T>)
    ensures |r| <= Clamp(pageSize, 0, |s|)
    ensures forall i :: 0 <= i < |r| ==> r[i] in s
  {
    Take(Skip(s, Offset(pageNumber, pageSize)), pageSize)
  }

  /**
   * Whatever the paging arguments, a page is a contiguous run of `s`: it starts
   * at the offset forced into the sequence and holds at most `pageSize` elements.
   */
  lemma PageRange<T>(s: seq<T>, pageNumber: int, pageSize: int)
    ensures var start := Clamp(Offset(pageNumber, pageSize), 0, |s|);
            Page(s, pageNumber, pageSize) == s[start..start + Clamp(pageSize, 0, |s| - start)]
  {
    var start := Clamp(Offset(pageNumber, pageSize), 0, |s|);
    var skipped := Skip(s, Offset(pageNumber, pageSize));
    assert skipped == s[start..];
  }

  /**
   * For a page number of at least 1 and a page size of at least 0, the page is
   * the slice of `s` that starts at index `(pageNumber - 1) * pageSize` and
   * holds `pageSize` elements, cut short by the end of `s`.
   */
  lemma PageSlice<T>(s: seq<T>, pageNumber: int, pageSize: int)
    requires pageNumber >= 1 && pageSize >= 0
    ensures var offset := Offset(pageNumber, pageSize);
            var page := Page(s, pageNumber, pageSize);
            && |page| <= pageSize
            && (offset >= |s| ==> page == [])
            && (offset < |s| ==> |page| == if offset + pageSize <= |s| then pageSize else |s| - offset)
            && forall k :: 0 <= k < |page| ==> page[k] == s[offset + k]
  {
    assert Offset(pageNumber, pageSize) >= 0;
    PageRange(s, pageNumber, pageSize);
  }

  /** Pages 1 to `k` of `s`, one after the other. */
  function Pages<T>(s: seq<T>, k: nat, pageSize: int): seq<T>
  {
    if k == 0 then [] else Pages(s, k - 1, pageSize) + Page(s, k, pageSize)
  }

  /** Consecutive pages tile the sequence: no element is skipped and none is repeated. */
  lemma {:induction false} PagesTile<T>(s: seq<T>, k: nat, pageSize: nat)
    ensures Pages(s, k, pageSize) == Take(s, k * pageSize)
  {
    if k > 0 {
      var offset := Offset(k, pageSize);
      assert k * pageSize == offset + pageSize by {
        assert k * pageSize == (k - 1) * pageSize + pageSize;
      }
      PagesTile(s, k - 1, pageSize);
      PageAt(s, offset, pageSize);
    }
  }

  /** The step of PagesTile: the page after the first `offset` elements continues `Take(s, offset)`. */
  lemma PageAt<T>(s: seq<T>, offset: nat, pageSize: nat)
    ensures Take(s, offset) + Take(Skip(s, offset), pageSize) == Take(s, offset + pageSize)
  {
    var a := Clamp(offset, 0, |s|);
    var b := Clamp(offset + pageSize, 0, |s|);
    assert Take(Skip(s, offset), pageSize) == s[a..b];
    assert s[..a] + s[a..b] == s[..b];
  }

  lemma SortedSlice<T>(s: seq<T>, key: T -> seq<int>, a: int, b: int)
    requires SortedBy(s, key)
    requires 0 <= a <= b <= |s|
    ensures SortedBy(s[a..b], key)
  {
    var t := s[a..b];
    forall i, j | 0 <= i < j < |t| ensures LexLe(key(t[i]), key(t[j])) {
      assert t[i] == s[a + i] && t[j] == s[a + j];
    }
  }

  /** A page of a sorted sequence is sorted, and every element of it comes from the sequence. */
  lemma PageOfSorted<T>(s: seq<T>, key: T -> seq<int>, pageNumber: int, pageSize: int)
    requires SortedBy(s, key)
    ensures SortedBy(Page(s, pageNumber, pageSize), key)
    ensures forall x :: x in Page(s, pageNumber, pageSize) ==> x in s
  {
    PageRange(s, pageNumber, pageSize);
    var start := Clamp(Offset(pageNumber, pageSize), 0, |s|);
    SortedSlice(s, key, start, start + Clamp(pageSize, 0, |s| - start));
  }
}
