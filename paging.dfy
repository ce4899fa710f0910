/** The offset/limit window both query builders put on their SELECT (typedquery.go
    ApplyConditions, query.go Find/FindAll), and what that window selects. */
module Paging {
  import opened Results

  /** OFFSET `offset` LIMIT `limit`; no LIMIT clause when `limit` is None. */
  datatype Window = Window(offset: nat, limit: Option<nat>)

  /** The chain `if limit > 0 { db = db.Limit(limit) }; if page > 0 && pageSize > 0
      { db = db.Offset((page-1)*pageSize).Limit(pageSize) }`: the later Limit replaces the earlier. */
  function WindowOf(limit: int, page: int, pageSize: int): Window {
    var flat := if limit > 0 then Window(0, Some(limit)) else Window(0, None);
    if page > 0 && pageSize > 0 then flat.(offset := (page - 1) * pageSize, limit := Some(pageSize)) else flat
  }

  /** A positive page and page size select page `page` (counted from 1) of `pageSize` rows and
      override the flat limit; otherwise a flat limit applies only when it is positive, from the
      first row. */
  lemma WindowCases(limit: int, page: int, pageSize: int)
    ensures page > 0 && pageSize > 0 ==> WindowOf(limit, page, pageSize) == Window((page - 1) * pageSize, Some(pageSize))
    ensures !(page > 0 && pageSize > 0) ==>
              WindowOf(limit, page, pageSize) == Window(0, if limit > 0 then Some(limit) else None)
  {
  }

  /** The rows a window selects from an ordered result: a contiguous run starting at the
      offset, at most `limit` long, and everything that remains when no limit is set. */
  function Paginate<T>(rows: seq<T>, w: Window): (r: seq<T>)
    ensures w.offset >= |rows| ==> r == []
    ensures w.offset < |rows| && w.limit.None? ==> |r| == |rows| - w.offset
    ensures w.offset < |rows| && w.limit.Some? ==>
              |r| == (if w.limit.value < |rows| - w.offset then w.limit.value else |rows| - w.offset)
    ensures forall i :: 0 <= i < |r| ==> w.offset + i < |rows| && r[i] == rows[w.offset + i]
  {
    var rest := if w.offset <= |rows| then rows[w.offset..] else [];
    match w.limit
    case None => rest
    case Some(n) => if n < |rest| then rest[..n] else rest
  }

  /** `k` cut into `0..n`: where an offset or a bound falls in a result of `n` rows. */
  function Clamp(k: int, n: nat): (r: nat)
    ensures r <= n && (0 <= k <= n ==> r == k)
  {
    if k < 0 then 0 else if k > n then n else k
  }

  /** What the window of the two builders selects from an ordered result: rows
      `(page-1)*pageSize` up to `page*pageSize` (as far as there are any) when page and page size
      are both positive, otherwise the first `limit` rows (or all of them, if fewer) when `limit`
      is positive, and everything when it is not. */
  lemma WindowSelects<T>(rows: seq<T>, limit: int, page: int, pageSize: int)
    ensures page > 0 && pageSize > 0 ==>
              Paginate(rows, WindowOf(limit, page, pageSize)) ==
              rows[Clamp((page - 1) * pageSize, |rows|)..Clamp((page - 1) * pageSize + pageSize, |rows|)]
    ensures !(page > 0 && pageSize > 0) && limit > 0 ==>
              Paginate(rows, WindowOf(limit, page, pageSize)) == rows[..Clamp(limit, |rows|)]
    ensures !(page > 0 && pageSize > 0) && limit <= 0 ==> Paginate(rows, WindowOf(limit, page, pageSize)) == rows
  {
    WindowCases(limit, page, pageSize);
    var w := WindowOf(limit, page, pageSize);
    var p := Paginate(rows, w);
    var from := Clamp(w.offset, |rows|);
    var to := match w.limit case None => |rows| case Some(n) => Clamp(w.offset + n, |rows|);
    assert |p| == to - from;
    assert forall i :: 0 <= i < |p| ==> p[i] == rows[from..to][i];
    assert p == rows[from..to];
    if !(page > 0 && pageSize > 0) && limit <= 0 {
      assert rows[0..|rows|] == rows;
    }
  }
}
