/** The pieces of the paged listing of students with marks: the ascending
    distinct student ids, the page window over them, the page count, and the
    rows fetched for one window. */
module MarkPaging {
  import opened Common
  import opened MarkModel

  predicate StrictlyIncreasing(xs: seq<int>) {
    forall i, j :: 0 <= i < j < |xs| ==> xs[i] < xs[j]
  }

  /** The `parentId` column of the table, in table order. */
  function ParentIds(rows: seq<Mark>): (r: seq<int>)
    ensures |r| == |rows|
    ensures forall p :: p in r <==> exists m :: m in rows && m.parentId == p
  {
    var r := seq(|rows|, i requires 0 <= i < |rows| => rows[i].parentId);
    assert forall m :: m in rows ==> m.parentId in r by {
      forall m | m in rows ensures m.parentId in r {
        var i :| 0 <= i < |rows| && rows[i] == m;
        assert r[i] == m.parentId;
      }
    }
    r
  }

  function MinOf(xs: seq<int>): (m: int)
    requires xs != []
    ensures m in xs && forall x :: x in xs ==> m <= x
  {
    if |xs| == 1 then xs[0]
    else
      var rest := MinOf(xs[1..]);
      assert forall x :: x in xs ==> x == xs[0] || x in xs[1..];
      if xs[0] <= rest then xs[0] else rest
  }

  /** `xs` with every occurrence of `v` removed. */
  function Without(xs: seq<int>, v: int): (r: seq<int>)
    ensures forall x :: x in r <==> x in xs && x != v
    ensures |r| <= |xs| && (v in xs ==> |r| < |xs|)
  {
    if xs == [] then []
    else (if xs[0] == v then [] else [xs[0]]) + Without(xs[1..], v)
  }

  /** `GROUP BY parentId ORDER BY parentId ASC`: each id once, ascending. */
  function SortedDistinct(xs: seq<int>): (r: seq<int>)
    ensures StrictlyIncreasing(r)
    ensures forall x :: x in r <==> x in xs
    decreases |xs|
  {
    if xs == [] then []
    else
      var m := MinOf(xs);
      [m] + SortedDistinct(Without(xs, m))
  }

  /** The distinct student ids that have at least one mark, ascending. */
  function StudentIds(rows: seq<Mark>): seq<int> {
    SortedDistinct(ParentIds(rows))
  }

  /** `Mark.count({ distinct: true, col: 'parentId' })` agrees with the length of
      the id list the pages are cut from: both count the students with marks. */
  lemma {:induction false} StudentIdsCountDistinct(rows: seq<Mark>)
    ensures |StudentIds(rows)| == |set m | m in rows :: m.parentId|
  {
    var ids := StudentIds(rows);
    assert Distinct(ids) by {
      forall i, j | 0 <= i < j < |ids| ensures ids[i] != ids[j] {
        assert ids[i] < ids[j];
      }
    }
    SetSizeDetectsRepeats(ids);
    assert Elements(ids) == set m | m in rows :: m.parentId;
  }

  function Min(a: int, b: int): int {
    if a <= b then a else b
  }

  /** `LIMIT limit OFFSET offset` over the ascending ids. */
  function Window(ids: seq<int>, offset: nat, limit: nat): (w: seq<int>)
    ensures |w| <= limit
    ensures w == [] <==> offset >= |ids| || limit == 0
    ensures w != [] ==> |w| == Min(limit, |ids| - offset) && w == ids[offset..offset + |w|]
  {
    if offset >= |ids| then [] else ids[offset..Min(offset + limit, |ids|)]
  }

  /** The ids shown on page `page` (counted from 1): `OFFSET (page - 1) * limit`. */
  function PageWindow(ids: seq<int>, page: int, limit: int): seq<int>
    requires page >= 1 && limit >= 1
  {
    MulMono(0, page - 1, limit);
    Window(ids, (page - 1) * limit, limit)
  }

  /** `Math.ceil(total / limit)` on integers. */
  function TotalPages(total: nat, limit: int): nat
    requires limit >= 1
  {
    (total + limit - 1) / limit
  }

  lemma MulMono(a: int, b: int, c: nat)
    requires a <= b
    ensures a * c <= b * c
  {
  }

  /** The page count is the ceiling of `total / limit`: enough pages to hold
      every student, and one page fewer would not. */
  lemma TotalPagesIsCeiling(total: nat, limit: int)
    requires limit >= 1
    ensures TotalPages(total, limit) * limit >= total
    ensures (TotalPages(total, limit) - 1) * limit < total || total == 0
  {
    var t := TotalPages(total, limit);
    var q, r := (total + limit - 1) / limit, (total + limit - 1) % limit;
    assert total + limit - 1 == q * limit + r && 0 <= r < limit;
    assert t == q;
    assert t * limit == total + limit - 1 - r;
  }

  /** A page's window is empty exactly when the page lies past the last page. */
  lemma WindowEmptyIffPastLastPage(ids: seq<int>, page: int, limit: int)
    requires page >= 1 && limit >= 1
    ensures PageWindow(ids, page, limit) == [] <==> page > TotalPages(|ids|, limit)
  {
    var t := TotalPages(|ids|, limit);
    TotalPagesIsCeiling(|ids|, limit);
    MulMono(0, page - 1, limit);
    if page > t {
      MulMono(t, page - 1, limit);
    } else {
      MulMono(page - 1, t - 1, limit);
    }
  }

  /** Pages partition the ids: the id at position k is shown on page
      `k / limit + 1`, at position `k % limit` of that page. */
  lemma EveryIdOnItsPage(ids: seq<int>, k: nat, limit: int)
    requires k < |ids| && limit >= 1
    ensures var w := PageWindow(ids, k / limit + 1, limit);
            k % limit < |w| && w[k % limit] == ids[k]
  {
    var page := k / limit + 1;
    assert (page - 1) * limit == k - k % limit;
    var w := PageWindow(ids, page, limit);
    assert w != [];
  }

  /** The rows of the students on one page, in table order
      (`where parentId in window`). */
  function RowsIn(rows: seq<Mark>, window: seq<int>): (r: seq<Mark>)
    ensures forall m :: m in r <==> m in rows && m.parentId in window
  {
    if rows == [] then []
    else (if rows[0].parentId in window then [rows[0]] else []) + RowsIn(rows[1..], window)
  }

  /** Fetching the page's rows first and then one student's loses none of that
      student's rows. */
  lemma {:induction false} RowsOfRowsIn(rows: seq<Mark>, window: seq<int>, parentId: int)
    requires parentId in window
    ensures RowsOf(RowsIn(rows, window), parentId) == RowsOf(rows, parentId)
  {
    if rows != [] {
      RowsOfRowsIn(rows[1..], window, parentId);
      var head := if rows[0].parentId in window then [rows[0]] else [];
      RowsOfAppend(head, RowsIn(rows[1..], window), parentId);
    }
  }
}
