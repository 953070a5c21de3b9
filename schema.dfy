/**
 * The two tables of the relational store and the meaning of every SQL
 * statement the store issues against them.
 *
 *   blueprints(id BIGSERIAL PRIMARY KEY, author, name, UNIQUE(author, name))
 *   points(x, y, point_order, blueprint_id REFERENCES blueprints(id))
 *
 * A table is a sequence of rows. Row order in a sequence is where an INSERT
 * put the row; no statement below relies on it except through ORDER BY.
 */
module Schema {
  import opened Wrappers
  import opened Domain

  datatype BlueprintRow = BlueprintRow(id: int, author: string, name: string)

  datatype PointRow = PointRow(x: int, y: int, pointOrder: int, blueprintId: int)

  /** Both tables, and the value the id sequence of `blueprints` hands out next. */
  datatype Tables = Tables(blueprints: seq<BlueprintRow>, points: seq<PointRow>, nextId: int)

  predicate HasKey(row: BlueprintRow, author: string, name: string)
  {
    row.author == author && row.name == name
  }

  /** `... FROM blueprints WHERE author = ? AND name = ?`: the index of a matching row, if any. */
  function FindRow(rows: seq<BlueprintRow>, author: string, name: string): (r: Option<nat>)
    ensures r.Some? ==> r.value < |rows| && HasKey(rows[r.value], author, name)
    ensures r.None? <==> forall i :: 0 <= i < |rows| ==> !HasKey(rows[i], author, name)
  {
    if rows == [] then None
    else if HasKey(rows[|rows| - 1], author, name) then Some(|rows| - 1)
    else FindRow(rows[..|rows| - 1], author, name)
  }

  /** After an INSERT, a lookup finds the new row or whatever it found before. */
  lemma FindRowAppend(rows: seq<BlueprintRow>, row: BlueprintRow, author: string, name: string)
    ensures FindRow(rows + [row], author, name)
         == if HasKey(row, author, name) then Some(|rows|) else FindRow(rows, author, name)
  {
    assert (rows + [row])[..|rows|] == rows;
  }

  /** `SELECT COUNT(*) FROM blueprints WHERE author = ? AND name = ?`. */
  function CountKey(rows: seq<BlueprintRow>, author: string, name: string): (c: nat)
    ensures c <= |rows|
    ensures c > 0 <==> FindRow(rows, author, name).Some?
  {
    if rows == [] then 0
    else CountKey(rows[..|rows| - 1], author, name) + (if HasKey(rows[|rows| - 1], author, name) then 1 else 0)
  }

  /** `SELECT id, name FROM blueprints WHERE author = ?`. */
  function SelectByAuthor(rows: seq<BlueprintRow>, author: string): (r: seq<BlueprintRow>)
    ensures |r| <= |rows|
    ensures forall row :: row in r <==> row in rows && row.author == author
  {
    if rows == [] then []
    else
      var last := rows[|rows| - 1];
      assert rows == rows[..|rows| - 1] + [last];
      SelectByAuthor(rows[..|rows| - 1], author) + (if last.author == author then [last] else [])
  }

  /** `... FROM points WHERE blueprint_id = ?`, in table order. */
  function PointsWithId(rows: seq<PointRow>, id: int): (r: seq<PointRow>)
    ensures |r| <= |rows|
    ensures forall p :: p in r <==> p in rows && p.blueprintId == id
  {
    if rows == [] then []
    else
      var last := rows[|rows| - 1];
      assert rows == rows[..|rows| - 1] + [last];
      PointsWithId(rows[..|rows| - 1], id) + (if last.blueprintId == id then [last] else [])
  }

  lemma {:induction false} PointsWithIdConcat(a: seq<PointRow>, b: seq<PointRow>, id: int)
    ensures PointsWithId(a + b, id) == PointsWithId(a, id) + PointsWithId(b, id)
    decreases |b|
  {
    if b == [] {
      assert a + b == a;
    } else {
      var last := b[|b| - 1];
      assert (a + b)[..|a + b| - 1] == a + b[..|b| - 1];
      PointsWithIdConcat(a, b[..|b| - 1], id);
    }
  }

  lemma PointsWithIdAppend(rows: seq<PointRow>, p: PointRow, id: int)
    ensures PointsWithId(rows + [p], id)
         == PointsWithId(rows, id) + (if p.blueprintId == id then [p] else [])
  {
    assert (rows + [p])[..|rows|] == rows;
  }

  /** Rows that all belong to `id` are all selected, in their order. */
  lemma {:induction false} PointsWithIdAll(rows: seq<PointRow>, id: int)
    requires forall i :: 0 <= i < |rows| ==> rows[i].blueprintId == id
    ensures PointsWithId(rows, id) == rows
  {
    if rows != [] {
      var init, last := rows[..|rows| - 1], rows[|rows| - 1];
      assert rows == init + [last];
      assert forall i :: 0 <= i < |init| ==> init[i] == rows[i];
      PointsWithIdAll(init, id);
      PointsWithIdAppend(init, last, id);
    }
  }

  /** Rows none of which belongs to `id` contribute nothing. */
  lemma PointsWithIdNone(rows: seq<PointRow>, id: int)
    requires forall p :: p in rows ==> p.blueprintId != id
    ensures PointsWithId(rows, id) == []
  {
  }

  predicate SortedByOrder(s: seq<PointRow>)
  {
    forall i, j :: 0 <= i < j < |s| ==> s[i].pointOrder <= s[j].pointOrder
  }

  lemma SortedAppend(s: seq<PointRow>, p: PointRow)
    requires SortedByOrder(s)
    requires forall q :: q in s ==> q.pointOrder <= p.pointOrder
    ensures SortedByOrder(s + [p])
  {
    forall i, j | 0 <= i < j < |s| + 1
      ensures (s + [p])[i].pointOrder <= (s + [p])[j].pointOrder
    {
      if j == |s| {
        assert s[i] in s;
      }
    }
  }

  /** Inserts `p` into a run sorted by point_order, after every row with an equal or smaller key. */
  function InsertByOrder(s: seq<PointRow>, p: PointRow): (r: seq<PointRow>)
    requires SortedByOrder(s)
    ensures SortedByOrder(r)
    ensures multiset(r) == multiset(s) + multiset{p}
    ensures forall q :: q in r ==> q == p || q in s
  {
    if s == [] || s[|s| - 1].pointOrder <= p.pointOrder then s + [p]
    else
      var init, last := s[..|s| - 1], s[|s| - 1];
      assert s == init + [last];
      var r := InsertByOrder(init, p);
      SortedAppend(r, last);
      r + [last]
  }

  /** `ORDER BY point_order`: a sorted permutation of the selected rows. */
  function SortByOrder(s: seq<PointRow>): (r: seq<PointRow>)
    ensures SortedByOrder(r)
    ensures multiset(r) == multiset(s)
  {
    if s == [] then []
    else
      var init, last := s[..|s| - 1], s[|s| - 1];
      assert s == init + [last];
      InsertByOrder(SortByOrder(init), last)
  }

  /** Sorting one more row inserts it into the sorted rest. */
  lemma SortByOrderAppend(s: seq<PointRow>, p: PointRow)
    ensures SortByOrder(s + [p]) == InsertByOrder(SortByOrder(s), p)
  {
    assert (s + [p])[..|s|] == s;
  }

  /** Rows already in strictly increasing key order come back unchanged. */
  lemma {:induction false} SortByOrderOfIncreasing(s: seq<PointRow>)
    requires forall i, j :: 0 <= i < j < |s| ==> s[i].pointOrder < s[j].pointOrder
    ensures SortByOrder(s) == s
  {
    if s != [] {
      var init, last := s[..|s| - 1], s[|s| - 1];
      assert s == init + [last];
      assert forall i :: 0 <= i < |init| ==> init[i] == s[i];
      SortByOrderOfIncreasing(init);
      assert SortByOrder(s) == InsertByOrder(SortByOrder(init), last) by {
        SortByOrderAppend(init, last);
      }
      assert init == [] || init[|init| - 1].pointOrder <= last.pointOrder;
    }
  }

  /** A row whose key is at least every selected key is read back last. */
  lemma SortByOrderAppendLargest(s: seq<PointRow>, p: PointRow)
    requires forall q :: q in s ==> q.pointOrder <= p.pointOrder
    ensures SortByOrder(s + [p]) == SortByOrder(s) + [p]
  {
    assert (s + [p])[..|s|] == s;
    var sorted := SortByOrder(s);
    if sorted != [] {
      var last := sorted[|sorted| - 1];
      assert last in multiset(sorted);
      assert last in s;
    }
  }

  /** `MAX(point_order)` over the selected rows; `None` is SQL NULL for no rows. */
  function MaxPointOrder(rows: seq<PointRow>): (m: Option<int>)
    ensures m.None? <==> rows == []
    ensures m.Some? ==> forall p :: p in rows ==> p.pointOrder <= m.value
    ensures m.Some? ==> exists p :: p in rows && p.pointOrder == m.value
  {
    if rows == [] then None
    else
      var init, last := rows[..|rows| - 1], rows[|rows| - 1];
      assert rows == init + [last];
      match MaxPointOrder(init)
      case None => Some(last.pointOrder)
      case Some(m) => Some(if m < last.pointOrder then last.pointOrder else m)
  }

  /** `PointRowMapper.mapRow`: a point row read as a `Point`. */
  function MapRow(row: PointRow): Point
  {
    Point(row.x, row.y)
  }

  /** The row mapper applied to every row of a result. */
  function MapRows(rows: seq<PointRow>): (ps: seq<Point>)
    ensures |ps| == |rows|
    ensures forall i :: 0 <= i < |rows| ==> ps[i] == Point(rows[i].x, rows[i].y)
  {
    seq(|rows|, i requires 0 <= i < |rows| => MapRow(rows[i]))
  }

  lemma MapRowsAppend(rows: seq<PointRow>, p: PointRow)
    ensures MapRows(rows + [p]) == MapRows(rows) + [Point(p.x, p.y)]
  {
  }

  /** `SELECT x, y FROM points WHERE blueprint_id = ? ORDER BY point_order`, mapped to points. */
  function SelectPoints(points: seq<PointRow>, id: int): seq<Point>
  {
    MapRows(SortByOrder(PointsWithId(points, id)))
  }

  /** The rows `saveBlueprint` inserts: point `i` gets `point_order = i`. */
  function NumberedRows(pts: seq<Point>, id: int): (r: seq<PointRow>)
    ensures |r| == |pts|
    ensures forall i :: 0 <= i < |pts| ==> r[i] == PointRow(pts[i].x, pts[i].y, i, id)
  {
    seq(|pts|, i requires 0 <= i < |pts| => PointRow(pts[i].x, pts[i].y, i, id))
  }

  /** Sorting and mapping the numbered rows yields the original points, in order. */
  lemma NumberedRowsReadBack(pts: seq<Point>, id: int)
    ensures MapRows(SortByOrder(NumberedRows(pts, id))) == pts
  {
    SortByOrderOfIncreasing(NumberedRows(pts, id));
  }
}
