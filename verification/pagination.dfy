/** Page numbering and the `skip`/`limit` window of a paginated query. */
module Pagination {
  import opened TripTypes
  import opened Sequences

  /** `options.page || 1`: an absent page or page 0 means the first page; any
      other page number is kept. */
  function EffectivePage(page: Option<nat>): (p: nat)
    ensures p >= 1
    ensures page.Some? && page.value >= 1 ==> p == page.value
    ensures p != 1 ==> page == Some(p)
  {
    if page.Some? && page.value != 0 then page.value else 1
  }

  /** `.skip(n).limit(size)` on an ordered result, for a positive `size`: the
      elements from position n on, at most `size` of them. */
  function SkipLimit<T>(s: seq<T>, n: nat, size: nat): (r: seq<T>)
    ensures |r| == if n >= |s| then 0 else Min(size, |s| - n)
    ensures forall i :: 0 <= i < |r| ==> n + i < |s| && r[i] == s[n + i]
  {
    if n >= |s| then [] else s[n..Min(n + size, |s|)]
  }

  /** The number of results a 1-based page skips. */
  function Offset(page: nat, pageSize: nat): nat
    requires page >= 1
  {
    (page - 1) * pageSize
  }

  /** Page `page` (1-based) of an ordered result, `pageSize` entries per page. */
  function Page<T>(s: seq<T>, page: nat, pageSize: nat): (r: seq<T>)
    requires page >= 1
    ensures |r| <= pageSize
    ensures |r| == if Offset(page, pageSize) >= |s| then 0 else Min(pageSize, |s| - Offset(page, pageSize))
    ensures forall i :: 0 <= i < |r| ==> Offset(page, pageSize) + i < |s| && r[i] == s[Offset(page, pageSize) + i]
  {
    SkipLimit(s, Offset(page, pageSize), pageSize)
  }

  /** A page holds only entries of the full result. */
  lemma PageWithin<T>(s: seq<T>, page: nat, pageSize: nat)
    requires page >= 1
    ensures multiset(Page(s, page, pageSize)) <= multiset(s)
  {
    var n := Offset(page, pageSize);
    if n < |s| {
      var m := Min(n + pageSize, |s|);
      assert s == s[..n] + s[n..m] + s[m..];
    }
  }

  /** Pages 1 to k, one after the other. */
  function FirstPages<T>(s: seq<T>, k: nat, pageSize: nat): seq<T>
  {
    if k == 0 then [] else FirstPages(s, k - 1, pageSize) + Page(s, k, pageSize)
  }

  /** Reading pages 1 to k in order gives the first k * pageSize results:
      consecutive pages neither overlap nor leave a gap. */
  lemma {:induction false} FirstPagesPrefix<T>(s: seq<T>, k: nat, pageSize: nat)
    ensures FirstPages(s, k, pageSize) == s[..Min(k * pageSize, |s|)]
  {
    if k > 0 {
      FirstPagesPrefix(s, k - 1, pageSize);
      var a := Offset(k, pageSize);
      assert k * pageSize == a + pageSize;
      if a < |s| {
        var b := Min(a + pageSize, |s|);
        assert s[..b] == s[..a] + s[a..b];
      }
    }
  }

  /** Enough pages to cover the result give back the whole result, in order. */
  lemma AllPages<T>(s: seq<T>, k: nat, pageSize: nat)
    requires k * pageSize >= |s|
    ensures FirstPages(s, k, pageSize) == s
  {
    FirstPagesPrefix(s, k, pageSize);
  }

  /** Page p followed by page p + 1 is the window of 2 * pageSize results
      starting where page p starts. */
  lemma AdjacentPages<T>(s: seq<T>, page: nat, pageSize: nat)
    requires page >= 1
    ensures Page(s, page, pageSize) + Page(s, page + 1, pageSize)
         == SkipLimit(s, Offset(page, pageSize), 2 * pageSize)
  {
    var a := Offset(page, pageSize);
    assert Offset(page + 1, pageSize) == a + pageSize;
    if a + pageSize < |s| {
      var b := Min(a + 2 * pageSize, |s|);
      assert s[a..b] == s[a..a + pageSize] + s[a + pageSize..b];
    }
  }

  /** Every result lies on the page its position gives it. */
  lemma PageOfPosition<T>(s: seq<T>, i: nat, pageSize: nat)
    requires i < |s| && pageSize > 0
    ensures s[i] in Page(s, i / pageSize + 1, pageSize)
  {
    var a := Offset(i / pageSize + 1, pageSize);
    assert a == (i / pageSize) * pageSize;
    assert a <= i < a + pageSize;
    assert Page(s, i / pageSize + 1, pageSize)[i - a] == s[i];
  }

  /** The page an entry of the result lies on. */
  lemma OnSomePage<T>(s: seq<T>, x: T, pageSize: nat) returns (page: nat)
    requires x in s && pageSize > 0
    ensures page >= 1 && x in Page(s, page, pageSize)
  {
    var i :| 0 <= i < |s| && s[i] == x;
    page := i / pageSize + 1;
    assert x in Page(s, page, pageSize) by {
      PageOfPosition(s, i, pageSize);
    }
  }

  /** Positions on an earlier page come before positions on a later one. */
  lemma PageWindowsOrdered(p: nat, q: nat, i: nat, j: nat, pageSize: nat)
    requires 1 <= p < q && i < pageSize && j < pageSize
    ensures Offset(p, pageSize) + i < Offset(q, pageSize) + j
  {
    assert Offset(p, pageSize) + pageSize == p * pageSize;
    assert p * pageSize <= (q - 1) * pageSize;
  }

  /** When no result repeats, two different pages share no result. */
  lemma DistinctPagesDisjoint<T>(s: seq<T>, p: nat, q: nat, pageSize: nat)
    requires Distinct(s) && p >= 1 && q >= 1 && p != q
    ensures forall x :: x in Page(s, p, pageSize) ==> x !in Page(s, q, pageSize)
  {
    forall x | x in Page(s, p, pageSize)
      ensures x !in Page(s, q, pageSize)
    {
      var pp, pq := Page(s, p, pageSize), Page(s, q, pageSize);
      var i :| 0 <= i < |pp| && pp[i] == x;
      forall j | 0 <= j < |pq|
        ensures pq[j] != x
      {
        if p < q {
          PageWindowsOrdered(p, q, i, j, pageSize);
        } else {
          PageWindowsOrdered(q, p, j, i, pageSize);
        }
      }
    }
  }
}
