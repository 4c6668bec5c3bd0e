/** The document-store query operations the listings are built from:
    `find` with a filter, `sort`, `skip`/`limit` (or `slice`), and the
    pagination arithmetic around them (`parseInt(q) || d`,
    `Math.ceil(total / limit)`). */
module Query {
  import opened Common

  /** `parseInt(req.query.x) || d`: an absent, unparsable or zero parameter
      falls back to the default. */
  function ParamOr(p: Option<nat>, default: nat): (r: nat)
    requires default >= 1
    ensures r >= 1
    ensures p.Some? && p.value != 0 ==> r == p.value
  {
    if p.Some? && p.value != 0 then p.value else default
  }

  /** `Math.ceil(n / d)`: the least number of pages of `d` items that hold `n`. */
  function CeilDiv(n: nat, d: nat): (r: nat)
    requires d >= 1
    ensures r * d >= n
    ensures r == 0 || (r - 1) * d < n
  {
    if n == 0 then 0 else 1 + CeilDiv(if n <= d then 0 else n - d, d)
  }

  /** `.skip(skip).limit(limit)` over the sorted result, `slice(skip, skip + limit)`
      over an array: at most `limit` consecutive items starting at `skip`. */
  function Window<T>(s: seq<T>, skip: nat, limit: nat): (r: seq<T>)
    ensures |r| == if skip >= |s| then 0 else if |s| - skip < limit then |s| - skip else limit
    ensures forall i :: 0 <= i < |r| ==> r[i] == s[skip + i]
  {
    if skip >= |s| then [] else if skip + limit > |s| then s[skip..] else s[skip..skip + limit]
  }

  /** `(page - 1) * limit`: how many items come before page `page`. */
  function Offset(page: nat, limit: nat): nat
    requires page >= 1
  {
    (page - 1) * limit
  }

  /** Multiplication by a natural is monotonic. */
  lemma {:induction false} MulMonotonic(a: nat, b: nat, c: nat)
    requires a <= b
    ensures a * c <= b * c
    decreases b - a
  {
    if a < b {
      MulMonotonic(a, b - 1, c);
      assert (b - 1) * c + c == b * c;
    }
  }

  /** Page `page` (counted from 1) of `limit` items is non-empty exactly
      when it is one of the `Math.ceil(total / limit)` pages. */
  lemma PageNonEmptyIff<T>(s: seq<T>, page: nat, limit: nat)
    requires page >= 1 && limit >= 1
    ensures |Window(s, Offset(page, limit), limit)| > 0 <==> page <= CeilDiv(|s|, limit)
  {
    var t := CeilDiv(|s|, limit);
    if page <= t {
      MulMonotonic(page - 1, t - 1, limit);
    } else {
      MulMonotonic(t, page - 1, limit);
    }
  }

  /** `hasMore: page < Math.ceil(total / limit)` holds exactly when items
      remain after page `page`. */
  lemma HasMoreIff(total: nat, page: nat, limit: nat)
    requires page >= 1 && limit >= 1
    ensures page < CeilDiv(total, limit) <==> page * limit < total
  {
    var t := CeilDiv(total, limit);
    if page < t {
      MulMonotonic(page, t - 1, limit);
    } else {
      MulMonotonic(t, page, limit);
    }
  }

  /** A quotient is fixed by the block of `d` numbers the dividend falls in. */
  lemma QuotientOfBlock(k: nat, q: nat, d: nat)
    requires d >= 1 && q * d <= k < q * d + d
    ensures q == k / d
  {
    var q0: nat, m := k / d, k % d;
    assert k == q0 * d + m && 0 <= m < d;
    var next, next0: nat := q + 1, q0 + 1;
    assert next * d == q * d + d && next0 * d == q0 * d + d;
    if q < q0 {
      MulMonotonic(next, q0, d);
    } else if q0 < q {
      MulMonotonic(next0, q, d);
    }
  }

  /** Every item is listed on exactly one page: item `k` is at position
      `k % limit` of page `k / limit + 1`, that page is one of the
      `Math.ceil(total / limit)` pages, and no other page's window covers
      position `k`. */
  lemma ItemOnItsPage<T>(s: seq<T>, k: nat, limit: nat)
    requires k < |s| && limit >= 1
    ensures var page := k / limit + 1;
      page <= CeilDiv(|s|, limit) &&
      k % limit < |Window(s, Offset(page, limit), limit)| &&
      Window(s, Offset(page, limit), limit)[k % limit] == s[k]
    ensures forall p :: p >= 1 && Offset(p, limit) <= k < Offset(p, limit) + |Window(s, Offset(p, limit), limit)| ==>
      p == k / limit + 1
  {
    forall p | p >= 1 && Offset(p, limit) <= k < Offset(p, limit) + |Window(s, Offset(p, limit), limit)|
      ensures p == k / limit + 1
    {
      QuotientOfBlock(k, p - 1, limit);
    }
    var q, m := k / limit, k % limit;
    var page := q + 1;
    var skip := Offset(page, limit);
    assert page - 1 == q;
    assert skip == q * limit;
    assert skip + m == k;
    PageNonEmptyIff(s, page, limit);
    var w := Window(s, skip, limit);
    assert skip < |s| && m < limit;
    assert m < |w|;
  }

  /** `Array.prototype.filter`, and a store query with a filter document:
      the items satisfying `f`, in their original order. */
  function Filter<T(!new)>(s: seq<T>, f: T -> bool): (r: seq<T>)
    ensures |r| <= |s|
    ensures forall x :: x in r <==> x in s && f(x)
  {
    if s == [] then []
    else if f(s[0]) then [s[0]] + Filter(s[1..], f)
    else Filter(s[1..], f)
  }

  /** A sort key compared lexicographically: `sort({a: ±1, b: ±1})` is
      modelled by a key whose components are negated for descending order. */
  datatype Key = Key(major: int, minor: int)

  predicate KeyLe(a: Key, b: Key) {
    a.major < b.major || (a.major == b.major && a.minor <= b.minor)
  }

  predicate SortedBy<T>(s: seq<T>, key: T -> Key) {
    forall i, j :: 0 <= i < j < |s| ==> KeyLe(key(s[i]), key(s[j]))
  }

  /** Putting a key no larger than any other in front keeps a sequence sorted. */
  lemma PrependSorted<T>(x: T, s: seq<T>, key: T -> Key)
    requires SortedBy(s, key)
    requires forall j :: 0 <= j < |s| ==> KeyLe(key(x), key(s[j]))
    ensures SortedBy([x] + s, key)
  {
    var r := [x] + s;
    forall i, j | 0 <= i < j < |r| ensures KeyLe(key(r[i]), key(r[j])) {
      assert r[j] == s[j - 1];
      if i > 0 {
        assert r[i] == s[i - 1];
      }
    }
  }

  function Insert<T(==)>(x: T, s: seq<T>, key: T -> Key): (r: seq<T>)
    requires SortedBy(s, key)
    ensures SortedBy(r, key)
    ensures multiset(r) == multiset(s) + multiset{x}
  {
    if s == [] then [x]
    else if KeyLe(key(x), key(s[0])) then
      assert forall j :: 0 <= j < |s| ==> KeyLe(key(x), key(s[j])) by {
        forall j | 0 <= j < |s| ensures KeyLe(key(x), key(s[j])) {
          if j > 0 {
            assert KeyLe(key(s[0]), key(s[j]));
          }
        }
      }
      PrependSorted(x, s, key);
      [x] + s
    else
      var tail := Insert(x, s[1..], key);
      assert s == [s[0]] + s[1..];
      assert forall j :: 0 <= j < |tail| ==> KeyLe(key(s[0]), key(tail[j])) by {
        forall j | 0 <= j < |tail| ensures KeyLe(key(s[0]), key(tail[j])) {
          assert tail[j] in multiset(tail);
          if tail[j] != x {
            assert tail[j] in multiset(s[1..]);
            var k :| 0 <= k < |s[1..]| && s[1..][k] == tail[j];
            assert s[k + 1] == tail[j];
          }
        }
      }
      PrependSorted(s[0], tail, key);
      [s[0]] + tail
  }

  /** The store's `sort`: a permutation of the input, ordered by `key`
      (the order of items with equal keys is not promised by the store). */
  function SortBy<T(==)>(s: seq<T>, key: T -> Key): (r: seq<T>)
    ensures SortedBy(r, key)
    ensures multiset(r) == multiset(s)
  {
    if s == [] then []
    else
      assert s == [s[0]] + s[1..];
      Insert(s[0], SortBy(s[1..], key), key)
  }

  /** Sorting neither adds nor drops anything. */
  lemma SortByMembers<T>(s: seq<T>, key: T -> Key)
    ensures forall x :: x in SortBy(s, key) <==> x in s
    ensures |SortBy(s, key)| == |s|
  {
    var r := SortBy(s, key);
    assert multiset(r) == multiset(s);
    assert forall x :: x in r <==> x in multiset(r);
    assert forall x :: x in s <==> x in multiset(s);
    assert |multiset(r)| == |multiset(s)|;
  }

  /** `items` are consecutive items of `s` starting at position `skip`. */
  predicate IsSliceAt<T(==)>(items: seq<T>, s: seq<T>, skip: nat) {
    forall i :: 0 <= i < |items| ==> skip + i < |s| && items[i] == s[skip + i]
  }

  /** The paginated part of a listing response: the page's items, the page
      number echoed back, `Math.ceil(total / limit)` and the total count. */
  datatype Page<T> = Page(items: seq<T>, currentPage: nat, totalPages: nat, total: nat)

  /** `skip((page - 1) * limit).limit(limit)` over all matches, with the
      counts computed from the same matches. */
  function Paginate<T(==)>(s: seq<T>, page: nat, limit: nat): (r: Page<T>)
    requires page >= 1 && limit >= 1
    ensures r.currentPage == page && r.total == |s| && r.totalPages == CeilDiv(|s|, limit)
    ensures |r.items| <= limit
    ensures |r.items| == |Window(s, Offset(page, limit), limit)|
    ensures IsSliceAt(r.items, s, Offset(page, limit))
    ensures |r.items| > 0 <==> page <= r.totalPages
  {
    var skip := Offset(page, limit);
    PageNonEmptyIff(s, page, limit);
    var w := Window(s, skip, limit);
    assert forall i :: 0 <= i < |w| ==> w[i] == s[skip + i];
    Page(w, page, CeilDiv(|s|, limit), |s|)
  }

  /** A page of a sorted sequence is sorted and holds only its items. */
  lemma PageOfSorted<T>(s: seq<T>, page: nat, limit: nat, key: T -> Key)
    requires page >= 1 && limit >= 1 && SortedBy(s, key)
    ensures SortedBy(Paginate(s, page, limit).items, key)
    ensures forall i :: 0 <= i < |Paginate(s, page, limit).items| ==> Paginate(s, page, limit).items[i] in s
  {
    var skip := Offset(page, limit);
    var w := Paginate(s, page, limit).items;
    forall i, j | 0 <= i < j < |w| ensures KeyLe(key(w[i]), key(w[j])) {
      assert w[i] == s[skip + i] && w[j] == s[skip + j];
    }
  }

  /** `items` is page `page` of `s` in the store's order by `key`: the
      window at the page's offset of some key-ordered arrangement of `s`
      (the store leaves the order among equal keys open). */
  ghost predicate IsSortedPage<T(!new)>(items: seq<T>, s: seq<T>, page: nat, limit: nat, key: T -> Key)
    requires page >= 1
  {
    exists sorted :: SortedBy(sorted, key) && multiset(sorted) == multiset(s) &&
      items == Window(sorted, Offset(page, limit), limit)
  }

  /** Paging the sorted sequence gives a sorted page of the input. */
  lemma PageOfSortBy<T(!new)>(s: seq<T>, page: nat, limit: nat, key: T -> Key)
    requires page >= 1 && limit >= 1
    ensures IsSortedPage(Paginate(SortBy(s, key), page, limit).items, s, page, limit, key)
  {
    var sorted := SortBy(s, key);
    var w := Window(sorted, Offset(page, limit), limit);
    assert Paginate(sorted, page, limit).items == w;
    assert SortedBy(sorted, key) && multiset(sorted) == multiset(s);
  }

  /** `sort(key).skip((page - 1) * limit).limit(limit)` with the counts
      over all of `s`: a page of `s` in key order. */
  function SortedPaginate<T(==,!new)>(s: seq<T>, page: nat, limit: nat, key: T -> Key): (r: Page<T>)
    requires page >= 1 && limit >= 1
    ensures r.currentPage == page && r.total == |s| && r.totalPages == CeilDiv(|s|, limit)
    ensures |r.items| <= limit
    ensures forall i :: 0 <= i < |r.items| ==> r.items[i] in s
    ensures SortedBy(r.items, key)
    ensures IsSortedPage(r.items, s, page, limit, key)
  {
    var sorted := SortBy(s, key);
    SortByMembers(s, key);
    PageOfSorted(sorted, page, limit, key);
    PageOfSortBy(s, page, limit, key);
    Paginate(sorted, page, limit)
  }

  /** Filters that agree on every item select the same items. */
  lemma {:induction false} FilterAgrees<T(!new)>(s: seq<T>, f: T -> bool, g: T -> bool)
    requires forall x :: x in s ==> f(x) == g(x)
    ensures Filter(s, f) == Filter(s, g)
  {
    if s != [] {
      assert s[0] in s;
      forall x | x in s[1..] ensures f(x) == g(x) {
        assert x in s;
      }
      FilterAgrees(s[1..], f, g);
    }
  }

  /** A filter that no item passes selects nothing. */
  lemma {:induction false} FilterNone<T(!new)>(s: seq<T>, f: T -> bool)
    requires forall x :: x in s ==> !f(x)
    ensures Filter(s, f) == []
  {
    if s != [] {
      assert s[0] in s;
      forall x | x in s[1..] ensures !f(x) {
        assert x in s;
      }
      FilterNone(s[1..], f);
    }
  }
}
