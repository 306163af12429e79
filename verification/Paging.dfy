/** Cursor paging over the rows of one snapshot. */
module Paging {
  import opened Bytes

  const MAX_PAGE_LIMIT := 4096

  /** How a page names its last row: by the row itself, or by its position and the row. */
  datatype Shape = ByRow | ByPosition

  datatype AfterRow<+T> = Row(row: T) | At(position: int, row: T)

  datatype Cursor<+T> = Cursor(version: int, digest: Octets, ordinal: int, after: AfterRow<T>)

  datatype PageRequest<+T> = PageRequest(limit: int, cursor: Option<Cursor<T>>)

  datatype Page<+T> = Page(rows: seq<T>, ordinal: int, next: Option<Cursor<T>>, done: bool)

  datatype Paged<+T> = Served(page: Page<T>) | LimitRefused | CursorMismatch

  /** The first position holding a row. */
  function FirstEqual<T(==)>(rows: seq<T>, row: T): (p: Option<nat>)
    ensures p.Some? ==> p.value < |rows| && rows[p.value] == row && forall i :: 0 <= i < p.value ==> rows[i] != row
    ensures p.None? ==> row !in rows
  {
    if rows == [] then None else
    if rows[0] == row then Some(0) else
    match FirstEqual(rows[1..], row)
    case None => None
    case Some(p) => Some(p + 1)
  }

  /** Finds the row a cursor stopped after. */
  function Locate<T(==)>(rows: seq<T>, shape: Shape, after: AfterRow<T>): (p: Option<nat>)
    ensures p.Some? ==> p.value < |rows| && rows[p.value] == after.row
  {
    match (shape, after)
    case (ByRow, Row(row)) => FirstEqual(rows, row)
    case (ByPosition, At(p, row)) => if 0 <= p < |rows| && rows[p] == row then Some(p) else None
    case _ => None
  }

  function AfterOf<T>(shape: Shape, position: nat, row: T): AfterRow<T> {
    if shape.ByRow? then Row(row) else At(position, row)
  }

  /** One page: the rows after the cursor, as many as the limit allows. */
  function PagedResult<T(==)>(rows: seq<T>, request: PageRequest<T>, digest: Octets, version: int, shape: Shape): Paged<T> {
    var c := request.cursor;
    if c.Some? && (c.value.version < 0 || c.value.ordinal < 0) then CursorMismatch else
    if request.limit < 1 || request.limit > MAX_PAGE_LIMIT then LimitRefused else
    if c.Some? && digest != c.value.digest then CursorMismatch else
    if c.Some? && Locate(rows, shape, c.value.after).None? then CursorMismatch else
    var ordinal := if c.Some? then c.value.ordinal else 0;
    var start := if c.Some? then Locate(rows, shape, c.value.after).value + 1 else 0;
    var stop := if start + request.limit < |rows| then start + request.limit else |rows|;
    var selected := rows[start..stop];
    var done := stop >= |rows|;
    Served(Page(selected, ordinal,
      if done || selected == [] then None
      else Some(Cursor(version, digest, ordinal + 1, AfterOf(shape, stop - 1, selected[|selected| - 1]))), done))
  }

  /** At most `fuel` pages, each asked for with the cursor of the one before. */
  function Follow<T(==)>(rows: seq<T>, limit: int, digest: Octets, version: int, shape: Shape, cursor: Option<Cursor<T>>,
                         fuel: nat): seq<Page<T>>
    decreases fuel
  {
    if fuel == 0 then [] else
    match PagedResult(rows, PageRequest(limit, cursor), digest, version, shape)
    case LimitRefused => []
    case CursorMismatch => []
    case Served(page) =>
      [page] + (if page.done then [] else Follow(rows, limit, digest, version, shape, page.next, fuel - 1))
  }

  function RowsOf<T>(pages: seq<Page<T>>): seq<T> {
    if pages == [] then [] else pages[0].rows + RowsOf(pages[1..])
  }

  predicate Distinct<T(==)>(rows: seq<T>) {
    forall i, j :: 0 <= i < j < |rows| ==> rows[i] != rows[j]
  }

  /** The shape finds each row of this list where it is. */
  predicate Locatable<T(==)>(rows: seq<T>, shape: Shape) {
    shape.ByRow? ==> Distinct(rows)
  }

  lemma LocatesEach<T>(rows: seq<T>, shape: Shape, p: nat)
    requires Locatable(rows, shape) && p < |rows|
    ensures Locate(rows, shape, AfterOf(shape, p, rows[p])) == Some(p)
  {
  }

  /** A cursor for page `ordinal` of this query and version, stopped after row `p`. */
  predicate StopsAfter<T(==)>(c: Cursor<T>, rows: seq<T>, version: int, digest: Octets, shape: Shape, ordinal: int, p: int) {
    && c.version == version && c.digest == digest && c.ordinal == ordinal
    && 0 <= p < |rows| && c.after == if shape.ByRow? then Row(rows[p]) else At(p, rows[p])
  }

  /** Pages that follow a start: numbered on from `ordinal`, covering the rest; all full but the last, which
      alone is done, and each other one with the cursor that stops after its last row. */
  ghost predicate Covers<T>(rows: seq<T>, start: nat, ordinal: int, limit: int, digest: Octets, version: int, shape: Shape,
                            pages: seq<Page<T>>) {
    && start <= |rows| && pages != [] && RowsOf(pages) == rows[start..]
    && (forall i :: 0 <= i < |pages| ==> pages[i].ordinal == ordinal + i && |pages[i].rows| <= limit)
    && (forall i :: 0 <= i < |pages| ==> (pages[i].done <==> i == |pages| - 1) && (pages[i].done <==> pages[i].next == None))
    && (forall i :: 0 <= i < |pages| - 1 ==>
          && |pages[i].rows| == limit
          && StopsAfter(pages[i].next.value, rows, version, digest, shape, ordinal + i + 1, start + (i + 1) * limit - 1))
  }

  /** A cursor that resumes at `start` with page number `ordinal`. */
  predicate Resumes<T(==)>(rows: seq<T>, digest: Octets, shape: Shape, cursor: Option<Cursor<T>>, start: nat, ordinal: int) {
    match cursor
    case None => start == 0 && ordinal == 0
    case Some(c) =>
      c.version >= 0 && c.digest == digest && c.ordinal == ordinal >= 0 && start > 0
      && Locate(rows, shape, c.after) == Some(start - 1)
  }

  /** The page a resuming cursor asks for, and where it leaves the next one. */
  lemma PageFacts<T>(rows: seq<T>, limit: int, digest: Octets, version: int, shape: Shape,
                     cursor: Option<Cursor<T>>, start: nat, ordinal: int) returns (page: Page<T>)
    requires 1 <= limit <= MAX_PAGE_LIMIT && version >= 0 && Locatable(rows, shape)
    requires start <= |rows| && Resumes(rows, digest, shape, cursor, start, ordinal)
    ensures PagedResult(rows, PageRequest(limit, cursor), digest, version, shape) == Served(page)
    ensures start + |page.rows| <= |rows| && page.rows == rows[start..start + |page.rows|] && |page.rows| <= limit
    ensures page.ordinal == ordinal && (page.done <==> start + |page.rows| == |rows|)
    ensures page.done <==> page.next == None
    ensures !page.done ==> Resumes(rows, digest, shape, page.next, start + |page.rows|, ordinal + 1)
    ensures !page.done ==>
      (|page.rows| == limit && StopsAfter(page.next.value, rows, version, digest, shape, ordinal + 1, start + limit - 1))
  {
    hide Locate, Locatable, FirstEqual;
    page := PagedResult(rows, PageRequest(limit, cursor), digest, version, shape).page;
    if !page.done {
      LocatesEach(rows, shape, start + |page.rows| - 1);
    }
  }

  lemma {:induction false} FollowCovers<T>(rows: seq<T>, limit: int, digest: Octets, version: int, shape: Shape,
                                           cursor: Option<Cursor<T>>, start: nat, ordinal: int, fuel: nat)
    requires 1 <= limit <= MAX_PAGE_LIMIT && version >= 0 && Locatable(rows, shape)
    requires start <= |rows| && Resumes(rows, digest, shape, cursor, start, ordinal) && fuel > |rows| - start
    ensures Covers(rows, start, ordinal, limit, digest, version, shape,
      Follow(rows, limit, digest, version, shape, cursor, fuel))
    decreases |rows| - start
  {
    hide PagedResult, Resumes, Covers, Locatable, StopsAfter;
    var page := PageFacts(rows, limit, digest, version, shape, cursor, start, ordinal);
    if page.done {
      LastPage(rows, start, ordinal, limit, digest, version, shape, page);
    } else {
      var stop := start + |page.rows|;
      FollowCovers(rows, limit, digest, version, shape, page.next, stop, ordinal + 1, fuel - 1);
      OneMorePage(rows, start, ordinal, limit, digest, version, shape, page,
        Follow(rows, limit, digest, version, shape, page.next, fuel - 1));
    }
  }

  lemma LastPage<T>(rows: seq<T>, start: nat, ordinal: int, limit: int, digest: Octets, version: int, shape: Shape, page: Page<T>)
    requires start <= |rows| && page.rows == rows[start..] && page.ordinal == ordinal && |page.rows| <= limit
    requires page.done && page.next == None
    ensures Covers(rows, start, ordinal, limit, digest, version, shape, [page] + [])
  {
    assert [page][1..] == [];
    assert [page] + [] == [page];
  }

  lemma OneMorePage<T>(rows: seq<T>, start: nat, ordinal: int, limit: int, digest: Octets, version: int, shape: Shape,
                       page: Page<T>, more: seq<Page<T>>)
    requires start + |page.rows| <= |rows| && page.rows == rows[start..start + |page.rows|]
    requires page.ordinal == ordinal && |page.rows| == limit && !page.done && page.next.Some?
    requires StopsAfter(page.next.value, rows, version, digest, shape, ordinal + 1, start + limit - 1)
    requires Covers(rows, start + |page.rows|, ordinal + 1, limit, digest, version, shape, more)
    ensures Covers(rows, start, ordinal, limit, digest, version, shape, [page] + more)
  {
    hide StopsAfter;
    var pages, stop := [page] + more, start + |page.rows|;
    assert pages[1..] == more;
    assert rows[start..stop] + rows[stop..] == rows[start..];
    forall i | 0 <= i < |pages| - 1
      ensures StopsAfter(pages[i].next.value, rows, version, digest, shape, ordinal + i + 1, start + (i + 1) * limit - 1)
    {
      if i > 0 {
        assert stop + (i - 1 + 1) * limit - 1 == start + (i + 1) * limit - 1;
        assert more[i - 1] == pages[i];
      }
    }
  }

  /** Following cursors from the first page ends, and the pages partition the rows: numbered in order, all
      full but the last, which alone is done and has no cursor, each other one with the cursor that stops
      after its last row, and together exactly the list. */
  lemma PagesPartitionRows<T>(rows: seq<T>, limit: int, digest: Octets, version: int, shape: Shape)
    requires 1 <= limit <= MAX_PAGE_LIMIT && version >= 0 && Locatable(rows, shape)
    ensures var pages := Follow(rows, limit, digest, version, shape, None, |rows| + 1);
      && pages != [] && RowsOf(pages) == rows
      && (forall i :: 0 <= i < |pages| ==> pages[i].ordinal == i && |pages[i].rows| <= limit)
      && (forall i :: 0 <= i < |pages| ==> (pages[i].done <==> i == |pages| - 1) && (pages[i].done <==> pages[i].next == None))
      && (forall i :: 0 <= i < |pages| - 1 ==>
            && |pages[i].rows| == limit
            && StopsAfter(pages[i].next.value, rows, version, digest, shape, i + 1, (i + 1) * limit - 1))
  {
    hide Follow;
    FollowCovers(rows, limit, digest, version, shape, None, 0, 0, |rows| + 1);
    assert rows[0..] == rows;
  }

  /** The position given by position holds the row, or the row given by itself is there. */
  predicate StillThere<T(==)>(rows: seq<T>, shape: Shape, after: AfterRow<T>) {
    match after
    case Row(row) => shape.ByRow? && row in rows
    case At(p, row) => shape.ByPosition? && 0 <= p < |rows| && rows[p] == row
  }

  /** A cursor is refused exactly when a number in it is negative or, the limit being from 1 to 4096, when it
      belongs to another query or its row is not where it says; the limit exactly when it is out of that range
      and the cursor's numbers are not; and the first page is served for every list. */
  lemma PageRefusedIff<T>(rows: seq<T>, request: PageRequest<T>, digest: Octets, version: int, shape: Shape)
    ensures var r, c := PagedResult(rows, request, digest, version, shape), request.cursor;
      var broken, fits := c.Some? && (c.value.version < 0 || c.value.ordinal < 0), 1 <= request.limit <= 4096;
      && (r.LimitRefused? <==> !broken && !fits)
      && (r.CursorMismatch? <==>
            broken || (fits && c.Some? && (c.value.digest != digest || !StillThere(rows, shape, c.value.after))))
      && (r.Served? ==> r.page.ordinal == if c.Some? then c.value.ordinal else 0)
  {
  }
}
