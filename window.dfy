/** ORDER BY ... LIMIT ... OFFSET as the database evaluates it over the rows
    a WHERE clause selected: the rows in the order, the first OFFSET of them
    skipped, at most LIMIT returned. */
module Window {

  /** `less` is irreflexive and transitive on s, and relates any two
      different elements of s. */
  ghost predicate StrictTotalOn<T>(s: set<T>, less: (T, T) -> bool)
  {
    && (forall x | x in s :: !less(x, x))
    && (forall x, y, z | x in s && y in s && z in s && less(x, y) && less(y, z) :: less(x, z))
    && (forall x, y | x in s && y in s && x != y :: less(x, y) || less(y, x))
  }

  /** The place of x in the ordered rows: how many rows come before it. */
  function Rank<T>(x: T, rows: set<T>, less: (T, T) -> bool): nat
  {
    |set y | y in rows && less(y, x)|
  }

  function Min(a: int, b: int): int { if a <= b then a else b }

  /** page is the window [offset, offset + limit) of the ordered rows: each
      entry is a row, the i-th entry has offset + i rows before it,
      consecutive entries are in order, and there are as many entries as
      LIMIT and OFFSET leave. */
  predicate IsPage<T>(page: seq<T>, rows: set<T>, less: (T, T) -> bool, offset: int, limit: int)
  {
    && |page| == (if |rows| <= offset then 0 else Min(limit, |rows| - offset))
    && (forall i | 0 <= i < |page| :: page[i] in rows)
    && (forall i | 0 <= i < |page| :: Rank(page[i], rows, less) == offset + i)
    && (forall i, j | 0 <= i < j < |page| :: less(page[i], page[j]))
  }

  /** Every non-empty set has a first element under a strict total order. */
  lemma {:induction false} FirstExists<T>(s: set<T>, less: (T, T) -> bool)
    requires s != {} && StrictTotalOn(s, less)
    ensures exists m | m in s :: forall x | x in s :: !less(x, m)
    decreases |s|
  {
    var x :| x in s;
    var rest := s - {x};
    if rest == {} {
      assert s == {x};
      assert forall y | y in s :: !less(y, x);
    } else {
      StrictTotalOnSubset(s, rest, less);
      FirstExists(rest, less);
      var y :| y in rest && forall z | z in rest :: !less(z, y);
      if less(x, y) {
        BeforeFirst(s, less, x, y);
        assert x in s && forall z | z in s :: !less(z, x);
      } else {
        assert y in s && forall z | z in s :: !less(z, y);
      }
    }
  }

  /** An element before the first of the others is the first of all. */
  lemma BeforeFirst<T>(s: set<T>, less: (T, T) -> bool, x: T, y: T)
    requires StrictTotalOn(s, less) && x in s && y in s && x != y && less(x, y)
    requires forall z | z in s && z != x :: !less(z, y)
    ensures forall z | z in s :: !less(z, x)
  {
    forall z | z in s
      ensures !less(z, x)
    {
      if z == y {
        Asymmetric(s, less, x, y);
      } else if z != x {
        assert less(y, z);
        assert less(x, z);
        Asymmetric(s, less, x, z);
      }
    }
  }

  /** Under a strict order, of two related elements the second is not
      before the first. */
  lemma Asymmetric<T>(s: set<T>, less: (T, T) -> bool, a: T, b: T)
    requires StrictTotalOn(s, less) && a in s && b in s && less(a, b)
    ensures !less(b, a)
  {
  }

  /** The state of the window loop: the taken rows come before the remaining
      ones; the first `skipped` taken were skipped and the rest form the
      page, in order, each at its place. */
  predicate Progress<T>(rows: set<T>, remaining: set<T>, page: seq<T>, skipped: nat,
                        less: (T, T) -> bool, offset: nat, limit: nat)
  {
    && remaining <= rows
    && skipped + |page| == |rows - remaining|
    && skipped <= offset && (page != [] ==> skipped == offset) && |page| <= limit
    && (forall x, y | x in rows - remaining && y in remaining :: less(x, y))
    && (forall i | 0 <= i < |page| :: page[i] in rows - remaining)
    && (forall i | 0 <= i < |page| :: Rank(page[i], rows, less) == offset + i)
    && (forall i, j | 0 <= i < j < |page| :: less(page[i], page[j]))
  }

  /** Taking the first remaining row: exactly the rows taken before it come
      before it, and it comes before all that remain. */
  lemma TakeFirst<T>(rows: set<T>, remaining: set<T>, m: T, less: (T, T) -> bool)
    requires StrictTotalOn(rows, less)
    requires remaining <= rows && m in remaining
    requires forall x | x in remaining :: !less(x, m)
    requires forall x, y | x in rows - remaining && y in remaining :: less(x, y)
    ensures Rank(m, rows, less) == |rows - remaining|
    ensures |rows - (remaining - {m})| == |rows - remaining| + 1
    ensures forall x, y | x in rows - (remaining - {m}) && y in remaining - {m} :: less(x, y)
  {
    assert (set y | y in rows && less(y, m)) == rows - remaining;
    assert rows - (remaining - {m}) == (rows - remaining) + {m};
  }

  /** Taking the first remaining row while still before the window. */
  lemma SkipFirst<T>(rows: set<T>, remaining: set<T>, page: seq<T>, skipped: nat,
                     less: (T, T) -> bool, offset: nat, limit: nat, m: T)
    requires Progress(rows, remaining, page, skipped, less, offset, limit)
    requires StrictTotalOn(rows, less) && m in remaining && skipped < offset
    requires forall x | x in remaining :: !less(x, m)
    ensures Progress(rows, remaining - {m}, page, skipped + 1, less, offset, limit)
  {
    TakeFirst(rows, remaining, m, less);
  }

  /** Taking the first remaining row as the next entry of the page. */
  lemma TakeEntry<T>(rows: set<T>, remaining: set<T>, page: seq<T>, skipped: nat,
                     less: (T, T) -> bool, offset: nat, limit: nat, m: T)
    requires Progress(rows, remaining, page, skipped, less, offset, limit)
    requires StrictTotalOn(rows, less) && m in remaining && skipped == offset && |page| < limit
    requires forall x | x in remaining :: !less(x, m)
    ensures Progress(rows, remaining - {m}, page + [m], skipped, less, offset, limit)
  {
    TakeFirst(rows, remaining, m, less);
    var page' := page + [m];
    forall i, j | 0 <= i < j < |page'|
      ensures less(page'[i], page'[j])
    {
      assert page'[i] == page[i] && page[i] in rows - remaining;
      if j < |page| {
        assert page'[j] == page[j];
      }
    }
  }

  lemma StrictTotalOnSubset<T>(s: set<T>, t: set<T>, less: (T, T) -> bool)
    requires t <= s && StrictTotalOn(s, less)
    ensures StrictTotalOn(t, less)
  {
  }

  /** The loop's counts at exit give the page length LIMIT and OFFSET leave. */
  lemma PageLength(rows: nat, remaining: nat, skipped: nat, page: nat, offset: int, limit: int)
    requires skipped + page == rows - remaining
    requires skipped <= offset && (page != 0 ==> skipped == offset) && page <= limit
    requires remaining == 0 || page == limit
    ensures page == (if rows <= offset then 0 else Min(limit, rows - offset))
  {
  }

  /** The window of the rows in the order: the first remaining row is taken
      until the page is full, and the first `offset` taken are skipped. */
  method OrderedPage<T>(rows: set<T>, less: (T, T) -> bool, offset: nat, limit: nat)
    returns (page: seq<T>)
    requires StrictTotalOn(rows, less)
    ensures IsPage(page, rows, less, offset, limit)
  {
    var remaining := rows;
    page := [];
    var skipped := 0;
    assert rows - remaining == {};
    while remaining != {} && |page| < limit
      invariant Progress(rows, remaining, page, skipped, less, offset, limit)
      decreases |remaining|
    {
      StrictTotalOnSubset(rows, remaining, less);
      FirstExists(remaining, less);
      var m :| m in remaining && forall x | x in remaining :: !less(x, m);
      if skipped < offset {
        SkipFirst(rows, remaining, page, skipped, less, offset, limit, m);
        skipped := skipped + 1;
      } else {
        TakeEntry(rows, remaining, page, skipped, less, offset, limit, m);
        page := page + [m];
      }
      remaining := remaining - {m};
    }
    PageLength(|rows|, |remaining|, skipped, |page|, offset, limit);
  }
}
