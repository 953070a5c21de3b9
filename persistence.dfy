/**
 * The relational blueprint store: its consistency invariant, the blueprints
 * it holds as seen through `getBlueprint`, the effect of each operation on
 * the two tables, the laws those effects obey, and the store object itself.
 */
module Persistence {
  import opened Wrappers
  import opened Domain
  import opened Schema

  datatype BlueprintPersistenceException = BlueprintPersistenceException(message: string)

  datatype BlueprintNotFoundException = BlueprintNotFoundException(message: string)

  function AlreadyExistsMessage(author: string, name: string): string
  {
    "Blueprint already exists: " + author + "/" + name
  }

  function NotFoundMessage(author: string, name: string): string
  {
    "Blueprint not found: " + author + "/" + name
  }

  function NoBlueprintsMessage(author: string): string
  {
    "No blueprints for author: " + author
  }

  // ---------------------------------------------------------------------------
  // Consistency of the two tables
  // ---------------------------------------------------------------------------

  /** UNIQUE(author, name). */
  ghost predicate UniqueKeys(rows: seq<BlueprintRow>)
  {
    forall i, j :: 0 <= i < j < |rows| ==> !HasKey(rows[j], rows[i].author, rows[i].name)
  }

  /** The id sequence hands out increasing positive ids, all below `nextId`. */
  ghost predicate IdsIssued(t: Tables)
  {
    && t.nextId > 0
    && (forall i :: 0 <= i < |t.blueprints| ==> 0 < t.blueprints[i].id < t.nextId)
    && (forall i, j :: 0 <= i < j < |t.blueprints| ==> t.blueprints[i].id < t.blueprints[j].id)
  }

  ghost predicate HasRowWithId(rows: seq<BlueprintRow>, id: int)
  {
    exists i :: 0 <= i < |rows| && rows[i].id == id
  }

  /** points.blueprint_id REFERENCES blueprints(id). */
  ghost predicate ForeignKeys(t: Tables)
  {
    forall p :: p in t.points ==> HasRowWithId(t.blueprints, p.blueprintId)
  }

  ghost predicate HasOrder(rows: seq<PointRow>, k: int)
  {
    exists j :: 0 <= j < |rows| && rows[j].pointOrder == k
  }

  /** The order keys of one blueprint's point rows are distinct and are exactly 0 .. n-1. */
  ghost predicate ContiguousOrders(rows: seq<PointRow>)
  {
    && (forall j :: 0 <= j < |rows| ==> 0 <= rows[j].pointOrder < |rows|)
    && (forall i, j :: 0 <= i < j < |rows| ==> rows[i].pointOrder != rows[j].pointOrder)
    && (forall k :: 0 <= k < |rows| ==> HasOrder(rows, k))
  }

  ghost predicate OrdersContiguous(t: Tables)
  {
    forall i :: 0 <= i < |t.blueprints| ==> ContiguousOrders(PointsWithId(t.points, t.blueprints[i].id))
  }

  ghost predicate WellFormed(t: Tables)
  {
    UniqueKeys(t.blueprints) && IdsIssued(t) && ForeignKeys(t) && OrdersContiguous(t)
  }

  lemma PointIdsBelowNext(t: Tables)
    requires WellFormed(t)
    ensures forall p :: p in t.points ==> p.blueprintId < t.nextId
  {
    forall p | p in t.points
      ensures p.blueprintId < t.nextId
    {
      assert HasRowWithId(t.blueprints, p.blueprintId);
    }
  }

  /** With unique keys, the lookup of a row's own key finds that very row. */
  lemma FindRowUnique(rows: seq<BlueprintRow>, i: int)
    requires UniqueKeys(rows) && 0 <= i < |rows|
    ensures FindRow(rows, rows[i].author, rows[i].name) == Some(i)
  {
  }

  // ---------------------------------------------------------------------------
  // What the store holds, as the read operations report it
  // ---------------------------------------------------------------------------

  /** The point sequence `getBlueprint(author, name)` reads back, or `None` when there is no such row. */
  function Stored(t: Tables, author: string, name: string): Option<seq<Point>>
  {
    match FindRow(t.blueprints, author, name)
    case None => None
    case Some(i) => Some(SelectPoints(t.points, t.blueprints[i].id))
  }

  /** A blueprint row together with its points in point_order order. */
  function Materialize(t: Tables, row: BlueprintRow): Blueprint
  {
    Blueprint(row.author, row.name, SelectPoints(t.points, row.id))
  }

  /** The set built from the first `i + 1` rows adds the `i`-th row's blueprint to the set built from the first `i`. */
  lemma MaterializedPrefix(t: Tables, rows: seq<BlueprintRow>, i: nat)
    requires i < |rows|
    ensures (set row | row in rows[..i + 1] :: Materialize(t, row))
         == (set row | row in rows[..i] :: Materialize(t, row)) + {Materialize(t, rows[i])}
  {
    assert rows[..i + 1] == rows[..i] + [rows[i]];
  }

  /** One blueprint per row of the blueprints table. */
  function AllStored(t: Tables): set<Blueprint>
  {
    set row | row in t.blueprints :: Materialize(t, row)
  }

  /** One blueprint per row of `author`. */
  function AuthorStored(t: Tables, author: string): set<Blueprint>
  {
    set row | row in t.blueprints && row.author == author :: Materialize(t, row)
  }

  /** The result of `getBlueprint`. */
  function ReadBlueprint(t: Tables, author: string, name: string): (r: Result<Blueprint, BlueprintNotFoundException>)
    ensures r.Err? <==> forall i :: 0 <= i < |t.blueprints| ==> !HasKey(t.blueprints[i], author, name)
    ensures r.Err? ==> r.error.message == NotFoundMessage(author, name)
    ensures r.Ok? ==> r.value.author == author && r.value.name == name
  {
    match Stored(t, author, name)
    case None => Err(BlueprintNotFoundException(NotFoundMessage(author, name)))
    case Some(pts) => Ok(Blueprint(author, name, pts))
  }

  /** The result of `getBlueprintsByAuthor`. */
  function ReadByAuthor(t: Tables, author: string): (r: Result<set<Blueprint>, BlueprintNotFoundException>)
    ensures r.Err? <==> forall i :: 0 <= i < |t.blueprints| ==> t.blueprints[i].author != author
    ensures r.Err? ==> r.error.message == NoBlueprintsMessage(author)
    ensures r.Ok? ==> r.value != {}
  {
    var rows := SelectByAuthor(t.blueprints, author);
    if rows == [] then
      assert forall i :: 0 <= i < |t.blueprints| ==> t.blueprints[i] in t.blueprints;
      Err(BlueprintNotFoundException(NoBlueprintsMessage(author)))
    else
      assert rows[0] in rows;
      assert Materialize(t, rows[0]) in AuthorStored(t, author);
      Ok(AuthorStored(t, author))
  }

  /** Every blueprint `getAllBlueprints` returns is one `getBlueprint` reads back, and conversely. */
  lemma AllStoredMembership(t: Tables)
    requires UniqueKeys(t.blueprints)
    ensures forall b :: b in AllStored(t) <==> Stored(t, b.author, b.name) == Some(b.points)
  {
    forall b
      ensures b in AllStored(t) <==> Stored(t, b.author, b.name) == Some(b.points)
    {
      if b in AllStored(t) {
        var row :| row in t.blueprints && b == Materialize(t, row);
        var i :| 0 <= i < |t.blueprints| && t.blueprints[i] == row;
        FindRowUnique(t.blueprints, i);
      }
      if Stored(t, b.author, b.name) == Some(b.points) {
        var i := FindRow(t.blueprints, b.author, b.name).value;
        assert Materialize(t, t.blueprints[i]) == b;
      }
    }
  }

  /** `getBlueprintsByAuthor` returns exactly the stored blueprints of that author. */
  lemma AuthorStoredMembership(t: Tables, author: string)
    requires UniqueKeys(t.blueprints)
    ensures forall b :: b in AuthorStored(t, author)
                    <==> b.author == author && Stored(t, b.author, b.name) == Some(b.points)
  {
    forall b
      ensures b in AuthorStored(t, author) <==> b.author == author && Stored(t, b.author, b.name) == Some(b.points)
    {
      if b in AuthorStored(t, author) {
        var row :| row in t.blueprints && row.author == author && b == Materialize(t, row);
        var i :| 0 <= i < |t.blueprints| && t.blueprints[i] == row;
        FindRowUnique(t.blueprints, i);
      }
      if b.author == author && Stored(t, b.author, b.name) == Some(b.points) {
        var i := FindRow(t.blueprints, b.author, b.name).value;
        assert Materialize(t, t.blueprints[i]) == b;
      }
    }
  }

  // ---------------------------------------------------------------------------
  // saveBlueprint
  // ---------------------------------------------------------------------------

  /** The tables after the INSERTs of a successful save: one blueprint row, one point row per point. */
  function Inserted(t: Tables, bp: Blueprint): Tables
  {
    Tables(t.blueprints + [BlueprintRow(t.nextId, bp.author, bp.name)],
           t.points + NumberedRows(bp.points, t.nextId),
           t.nextId + 1)
  }

  /** `saveBlueprint`: the check-then-insert. */
  function Save(t: Tables, bp: Blueprint): (r: (Outcome<BlueprintPersistenceException>, Tables))
    ensures r.0.Fail? <==> Stored(t, bp.author, bp.name).Some?
    ensures r.0.Fail? ==> r.1 == t && r.0.error.message == AlreadyExistsMessage(bp.author, bp.name)
  {
    if CountKey(t.blueprints, bp.author, bp.name) > 0 then
      (Fail(BlueprintPersistenceException(AlreadyExistsMessage(bp.author, bp.name))), t)
    else
      (Pass, Inserted(t, bp))
  }

  /** Every point row refers to an id the sequence has already issued. */
  ghost predicate PointIdsIssued(t: Tables)
  {
    forall p :: p in t.points ==> p.blueprintId < t.nextId
  }

  /** After the INSERTs for a fresh id, each old blueprint keeps its point rows; the new id owns the numbered rows. */
  lemma InsertedPointsOf(t: Tables, bp: Blueprint, id: int)
    requires PointIdsIssued(t)
    ensures PointsWithId(Inserted(t, bp).points, id)
         == if id == t.nextId then NumberedRows(bp.points, t.nextId) else PointsWithId(t.points, id)
  {
    var newRows := NumberedRows(bp.points, t.nextId);
    PointsWithIdConcat(t.points, newRows, id);
    if id == t.nextId {
      PointsWithIdNone(t.points, id);
      PointsWithIdAll(newRows, id);
    } else {
      PointsWithIdNone(newRows, id);
    }
  }

  /** A successful save adds one row with a fresh id, keeps every old row, and adds row i with point_order i. */
  lemma SaveInsertsRows(t: Tables, bp: Blueprint)
    requires WellFormed(t) && Save(t, bp).0.Pass?
    ensures var t' := Save(t, bp).1;
      && |t'.blueprints| == |t.blueprints| + 1
      && t'.blueprints[..|t.blueprints|] == t.blueprints
      && t'.blueprints[|t.blueprints|] == BlueprintRow(t.nextId, bp.author, bp.name)
      && t'.nextId == t.nextId + 1
      && (forall i :: 0 <= i < |t.blueprints| ==> t.blueprints[i].id != t.nextId)
      && |t'.points| == |t.points| + |bp.points|
      && t'.points[..|t.points|] == t.points
      && (forall i :: 0 <= i < |bp.points| ==>
            t'.points[|t.points| + i] == PointRow(bp.points[i].x, bp.points[i].y, i, t.nextId))
  {
    assert (t.blueprints + [BlueprintRow(t.nextId, bp.author, bp.name)])[..|t.blueprints|] == t.blueprints;
    assert (t.points + NumberedRows(bp.points, t.nextId))[..|t.points|] == t.points;
  }

  lemma InsertKeepsUniqueKeys(rows: seq<BlueprintRow>, row: BlueprintRow)
    requires UniqueKeys(rows)
    requires forall i :: 0 <= i < |rows| ==> !HasKey(rows[i], row.author, row.name)
    ensures UniqueKeys(rows + [row])
  {
    forall i, j | 0 <= i < j < |rows| + 1
      ensures !HasKey((rows + [row])[j], (rows + [row])[i].author, (rows + [row])[i].name)
    {
      if j == |rows| {
        assert !HasKey(rows[i], row.author, row.name);
      }
    }
  }

  lemma InsertKeepsForeignKeys(t: Tables, bp: Blueprint)
    requires ForeignKeys(t)
    ensures ForeignKeys(Inserted(t, bp))
  {
    var t' := Inserted(t, bp);
    forall p | p in t'.points
      ensures HasRowWithId(t'.blueprints, p.blueprintId)
    {
      if p in t.points {
        assert HasRowWithId(t.blueprints, p.blueprintId);
        var i :| 0 <= i < |t.blueprints| && t.blueprints[i].id == p.blueprintId;
        assert t'.blueprints[i].id == p.blueprintId;
      } else {
        assert p in NumberedRows(bp.points, t.nextId);
        assert t'.blueprints[|t.blueprints|].id == p.blueprintId;
      }
    }
  }

  lemma NumberedRowsContiguous(pts: seq<Point>, id: int)
    ensures ContiguousOrders(NumberedRows(pts, id))
  {
    var rows := NumberedRows(pts, id);
    forall k | 0 <= k < |rows|
      ensures HasOrder(rows, k)
    {
      assert rows[k].pointOrder == k;
    }
  }

  lemma InsertKeepsOrders(t: Tables, bp: Blueprint)
    requires OrdersContiguous(t) && PointIdsIssued(t)
    requires forall i :: 0 <= i < |t.blueprints| ==> t.blueprints[i].id < t.nextId
    ensures OrdersContiguous(Inserted(t, bp))
  {
    var t' := Inserted(t, bp);
    forall i | 0 <= i < |t'.blueprints|
      ensures ContiguousOrders(PointsWithId(t'.points, t'.blueprints[i].id))
    {
      InsertedPointsOf(t, bp, t'.blueprints[i].id);
      if i == |t.blueprints| {
        NumberedRowsContiguous(bp.points, t.nextId);
      } else {
        assert t'.blueprints[i] == t.blueprints[i];
      }
    }
  }

  lemma InsertKeepsIdsIssued(t: Tables, bp: Blueprint)
    requires IdsIssued(t)
    ensures IdsIssued(Inserted(t, bp))
  {
    var rows := Inserted(t, bp).blueprints;
    assert forall i :: 0 <= i < |t.blueprints| ==> rows[i] == t.blueprints[i];
  }

  lemma SavePreservesWellFormed(t: Tables, bp: Blueprint)
    requires WellFormed(t)
    ensures WellFormed(Save(t, bp).1)
  {
    if Save(t, bp).0.Pass? {
      var t' := Inserted(t, bp);
      assert Save(t, bp).1 == t';
      PointIdsBelowNext(t);
      assert UniqueKeys(t'.blueprints) by {
        InsertKeepsUniqueKeys(t.blueprints, BlueprintRow(t.nextId, bp.author, bp.name));
      }
      assert IdsIssued(t') by {
        InsertKeepsIdsIssued(t, bp);
      }
      assert ForeignKeys(t') by {
        InsertKeepsForeignKeys(t, bp);
      }
      assert OrdersContiguous(t') by {
        InsertKeepsOrders(t, bp);
      }
    }
  }


  /** After the INSERTs of a save, the saved key reads back the saved points. */
  lemma InsertedStoredSelf(t: Tables, bp: Blueprint)
    requires PointIdsIssued(t) && Stored(t, bp.author, bp.name).None?
    ensures Stored(Inserted(t, bp), bp.author, bp.name) == Some(bp.points)
  {
    var t' := Inserted(t, bp);
    FindRowAppend(t.blueprints, BlueprintRow(t.nextId, bp.author, bp.name), bp.author, bp.name);
    assert FindRow(t'.blueprints, bp.author, bp.name) == Some(|t.blueprints|);
    assert t'.blueprints[|t.blueprints|].id == t.nextId;
    InsertedPointsOf(t, bp, t.nextId);
    NumberedRowsReadBack(bp.points, t.nextId);
    assert SelectPoints(t'.points, t.nextId) == bp.points;
  }

  /** After the INSERTs of a save, every other key reads back what it did before. */
  lemma InsertedStoredOther(t: Tables, bp: Blueprint, author: string, name: string)
    requires IdsIssued(t) && PointIdsIssued(t)
    requires (author, name) != (bp.author, bp.name)
    ensures Stored(Inserted(t, bp), author, name) == Stored(t, author, name)
  {
    var t' := Inserted(t, bp);
    FindRowAppend(t.blueprints, BlueprintRow(t.nextId, bp.author, bp.name), author, name);
    assert FindRow(t'.blueprints, author, name) == FindRow(t.blueprints, author, name);
    match FindRow(t.blueprints, author, name)
    case None =>
    case Some(i) =>
      assert t'.blueprints[i] == t.blueprints[i];
      InsertedPointsOf(t, bp, t.blueprints[i].id);
      assert SelectPoints(t'.points, t.blueprints[i].id) == SelectPoints(t.points, t.blueprints[i].id);
  }

  /** Round trip: after a successful save, the blueprint reads back with the same points; no other blueprint changes. */
  lemma SaveThenGet(t: Tables, bp: Blueprint)
    requires WellFormed(t) && Stored(t, bp.author, bp.name).None?
    ensures var t' := Save(t, bp).1;
      && Stored(t', bp.author, bp.name) == Some(bp.points)
      && ReadBlueprint(t', bp.author, bp.name) == Ok(bp)
      && forall author, name :: (author, name) != (bp.author, bp.name) ==>
           Stored(t', author, name) == Stored(t, author, name)
  {
    PointIdsBelowNext(t);
    InsertedStoredSelf(t, bp);
    forall author, name | (author, name) != (bp.author, bp.name)
      ensures Stored(Inserted(t, bp), author, name) == Stored(t, author, name)
    {
      InsertedStoredOther(t, bp, author, name);
    }
  }

  /** Saving the same (author, name) twice: the second save fails and the first blueprint stays as saved. */
  lemma SecondSaveIsRejected(t: Tables, bp: Blueprint, other: Blueprint)
    requires WellFormed(t) && Stored(t, bp.author, bp.name).None?
    requires other.author == bp.author && other.name == bp.name
    ensures var t1 := Save(t, bp).1;
      && Save(t1, other).0 == Fail(BlueprintPersistenceException(AlreadyExistsMessage(bp.author, bp.name)))
      && Save(t1, other).1 == t1
      && ReadBlueprint(Save(t1, other).1, bp.author, bp.name) == Ok(bp)
  {
    SaveThenGet(t, bp);
  }

  // ---------------------------------------------------------------------------
  // addPoint
  // ---------------------------------------------------------------------------

  /** `COALESCE(MAX(point_order), -1) + 1` over the rows of blueprint `id`. */
  function NextOrder(points: seq<PointRow>, id: int): (k: int)
    ensures forall p :: p in PointsWithId(points, id) ==> p.pointOrder < k
  {
    MaxPointOrder(PointsWithId(points, id)).GetOr(-1) + 1
  }

  /** On a contiguous run of keys the new key is the number of points the blueprint already has. */
  lemma NextOrderIsCount(points: seq<PointRow>, id: int)
    requires ContiguousOrders(PointsWithId(points, id))
    ensures NextOrder(points, id) == |PointsWithId(points, id)|
  {
    var rows := PointsWithId(points, id);
    if rows != [] {
      assert HasOrder(rows, |rows| - 1);
      var m := MaxPointOrder(rows).value;
      var p :| p in rows && p.pointOrder == m;
    }
  }

  /** `addPoint`: look the blueprint up, then insert one row after its largest key. */
  function AppendPoint(t: Tables, author: string, name: string, x: int, y: int)
    : (r: (Outcome<BlueprintNotFoundException>, Tables))
    ensures r.0.Fail? <==> Stored(t, author, name).None?
    ensures r.0.Fail? ==> r.1 == t && r.0.error.message == NotFoundMessage(author, name)
    ensures r.0.Pass? ==> r.1.blueprints == t.blueprints && r.1.nextId == t.nextId && |r.1.points| == |t.points| + 1
  {
    match FindRow(t.blueprints, author, name)
    case None => (Fail(BlueprintNotFoundException(NotFoundMessage(author, name))), t)
    case Some(i) =>
      var id := t.blueprints[i].id;
      (Pass, t.(points := t.points + [PointRow(x, y, NextOrder(t.points, id), id)]))
  }

  /**
   * What a successful `addPoint` inserts: every existing point row is kept, and one row follows
   * them, carrying (x, y), the id of the matching blueprint, and a key larger than every key that
   * blueprint already has.
   */
  lemma AppendPointInsertsRow(t: Tables, author: string, name: string, x: int, y: int)
    requires AppendPoint(t, author, name, x, y).0.Pass?
    ensures var t' := AppendPoint(t, author, name, x, y).1;
      var q := t'.points[|t.points|];
      && t'.blueprints == t.blueprints && t'.nextId == t.nextId
      && |t'.points| == |t.points| + 1
      && t'.points[..|t.points|] == t.points
      && q.x == x && q.y == y
      && q.blueprintId == t.blueprints[FindRow(t.blueprints, author, name).value].id
      && forall p :: p in PointsWithId(t.points, q.blueprintId) ==> p.pointOrder < q.pointOrder
  {
    var id := t.blueprints[FindRow(t.blueprints, author, name).value].id;
    var q := PointRow(x, y, NextOrder(t.points, id), id);
    assert (t.points + [q])[..|t.points|] == t.points;
  }

  /** A row keyed by the count extends a contiguous run of keys. */
  lemma AppendKeepsContiguous(rows: seq<PointRow>, q: PointRow)
    requires ContiguousOrders(rows) && q.pointOrder == |rows|
    ensures ContiguousOrders(rows + [q])
  {
    var rows' := rows + [q];
    forall m | 0 <= m < |rows'|
      ensures HasOrder(rows', m)
    {
      if m < |rows| {
        assert HasOrder(rows, m);
        var j :| 0 <= j < |rows| && rows[j].pointOrder == m;
        assert rows'[j].pointOrder == m;
      } else {
        assert rows'[|rows|].pointOrder == m;
      }
    }
  }

  lemma AppendKeepsForeignKeys(t: Tables, i: int, q: PointRow)
    requires ForeignKeys(t) && 0 <= i < |t.blueprints| && q.blueprintId == t.blueprints[i].id
    ensures ForeignKeys(t.(points := t.points + [q]))
  {
    forall p | p in t.points + [q]
      ensures HasRowWithId(t.blueprints, p.blueprintId)
    {
      if p != q {
        assert p in t.points;
      }
    }
  }

  /** The point rows of blueprint `other` stay contiguous when `q` is appended to blueprint `q.blueprintId`. */
  lemma AppendKeepsOrdersOf(points: seq<PointRow>, q: PointRow, other: int)
    requires ContiguousOrders(PointsWithId(points, other))
    requires ContiguousOrders(PointsWithId(points, q.blueprintId))
    requires q.pointOrder == NextOrder(points, q.blueprintId)
    ensures ContiguousOrders(PointsWithId(points + [q], other))
  {
    PointsWithIdAppend(points, q, other);
    var rows := PointsWithId(points, other);
    if other == q.blueprintId {
      NextOrderIsCount(points, other);
      AppendKeepsContiguous(rows, q);
      assert PointsWithId(points + [q], other) == rows + [q];
    } else {
      assert PointsWithId(points + [q], other) == rows;
    }
  }

  lemma AppendKeepsOrders(t: Tables, i: int, q: PointRow)
    requires OrdersContiguous(t) && 0 <= i < |t.blueprints|
    requires q.blueprintId == t.blueprints[i].id && q.pointOrder == NextOrder(t.points, q.blueprintId)
    ensures OrdersContiguous(t.(points := t.points + [q]))
  {
    forall k | 0 <= k < |t.blueprints|
      ensures ContiguousOrders(PointsWithId(t.points + [q], t.blueprints[k].id))
    {
      AppendKeepsOrdersOf(t.points, q, t.blueprints[k].id);
    }
  }

  lemma AppendPreservesWellFormed(t: Tables, author: string, name: string, x: int, y: int)
    requires WellFormed(t)
    ensures WellFormed(AppendPoint(t, author, name, x, y).1)
  {
    match FindRow(t.blueprints, author, name)
    case None =>
    case Some(i) =>
      var id := t.blueprints[i].id;
      var q := PointRow(x, y, NextOrder(t.points, id), id);
      AppendKeepsForeignKeys(t, i, q);
      AppendKeepsOrders(t, i, q);
  }

  /** After an append, the blueprint reads back its old points followed by the new one. */
  lemma AppendedStoredSelf(t: Tables, author: string, name: string, x: int, y: int)
    requires Stored(t, author, name).Some?
    ensures Stored(AppendPoint(t, author, name, x, y).1, author, name)
         == Some(Stored(t, author, name).value + [Point(x, y)])
  {
    var i := FindRow(t.blueprints, author, name).value;
    var id := t.blueprints[i].id;
    var q := PointRow(x, y, NextOrder(t.points, id), id);
    var t' := AppendPoint(t, author, name, x, y).1;
    assert t'.points == t.points + [q];
    var rows := PointsWithId(t.points, id);
    PointsWithIdAppend(t.points, q, id);
    assert PointsWithId(t'.points, id) == rows + [q];
    SortByOrderAppendLargest(rows, q);
    MapRowsAppend(SortByOrder(rows), q);
    assert SelectPoints(t'.points, id) == SelectPoints(t.points, id) + [Point(x, y)];
  }

  /** After an append to (author, name), every other key reads back what it did before. */
  lemma AppendedStoredOther(t: Tables, author: string, name: string, x: int, y: int, a: string, n: string)
    requires UniqueKeys(t.blueprints) && IdsIssued(t) && Stored(t, author, name).Some?
    requires (a, n) != (author, name)
    ensures Stored(AppendPoint(t, author, name, x, y).1, a, n) == Stored(t, a, n)
  {
    var i := FindRow(t.blueprints, author, name).value;
    var id := t.blueprints[i].id;
    var q := PointRow(x, y, NextOrder(t.points, id), id);
    var t' := AppendPoint(t, author, name, x, y).1;
    assert t'.points == t.points + [q] && t'.blueprints == t.blueprints;
    match FindRow(t.blueprints, a, n)
    case None =>
    case Some(k) =>
      FindRowUnique(t.blueprints, k);
      assert k != i;
      assert t.blueprints[k].id != id;
      PointsWithIdAppend(t.points, q, t.blueprints[k].id);
      assert PointsWithId(t'.points, t.blueprints[k].id) == PointsWithId(t.points, t.blueprints[k].id);
  }

  /** Appending adds exactly one point, at the end of the blueprint's read-back sequence; others are untouched. */
  lemma AppendThenGet(t: Tables, author: string, name: string, x: int, y: int)
    requires WellFormed(t) && Stored(t, author, name).Some?
    ensures var t' := AppendPoint(t, author, name, x, y).1;
      && Stored(t', author, name) == Some(Stored(t, author, name).value + [Point(x, y)])
      && forall a, n :: (a, n) != (author, name) ==> Stored(t', a, n) == Stored(t, a, n)
  {
    AppendedStoredSelf(t, author, name, x, y);
    forall a, n | (a, n) != (author, name)
      ensures Stored(AppendPoint(t, author, name, x, y).1, a, n) == Stored(t, a, n)
    {
      AppendedStoredOther(t, author, name, x, y, a, n);
    }
  }

  /** A sequence of `addPoint` calls on one blueprint, in call order: the last point is appended last. */
  function AppendAll(t: Tables, author: string, name: string, pts: seq<Point>): Tables
    decreases |pts|
  {
    if pts == [] then t
    else
      var last := pts[|pts| - 1];
      AppendPoint(AppendAll(t, author, name, pts[..|pts| - 1]), author, name, last.x, last.y).1
  }

  /** Any sequence of appends keeps the invariant. */
  lemma {:induction false} AppendAllPreservesWellFormed(t: Tables, author: string, name: string, pts: seq<Point>)
    requires WellFormed(t)
    ensures WellFormed(AppendAll(t, author, name, pts))
    decreases |pts|
  {
    if pts != [] {
      var last := pts[|pts| - 1];
      AppendAllPreservesWellFormed(t, author, name, pts[..|pts| - 1]);
      AppendPreservesWellFormed(AppendAll(t, author, name, pts[..|pts| - 1]), author, name, last.x, last.y);
    }
  }

  /** N appends yield the old points followed by the N new points, in call order. */
  lemma {:induction false} AppendAllThenGet(t: Tables, author: string, name: string, pts: seq<Point>)
    requires Stored(t, author, name).Some?
    ensures Stored(AppendAll(t, author, name, pts), author, name) == Some(Stored(t, author, name).value + pts)
    decreases |pts|
  {
    var before := Stored(t, author, name).value;
    if pts == [] {
      assert before + pts == before;
    } else {
      var init, last := pts[..|pts| - 1], pts[|pts| - 1];
      assert before + init + [last] == before + pts by {
        assert pts == init + [last];
      }
      var mid := AppendAll(t, author, name, init);
      AppendAllThenGet(t, author, name, init);
      AppendedStoredSelf(mid, author, name, last.x, last.y);
    }
  }



  /** A freshly created database: both tables empty, the id sequence at its start value 1. */
  const EmptyDatabase: Tables := Schema.Tables([], [], 1)

  /** Nothing is stored in an empty database, and it satisfies the invariant. */
  lemma EmptyDatabaseIsWellFormed()
    ensures WellFormed(EmptyDatabase)
    ensures forall author, name :: Stored(EmptyDatabase, author, name).None?
    ensures AllStored(EmptyDatabase) == {}
  {
  }

  // ---------------------------------------------------------------------------
  // The store object
  // ---------------------------------------------------------------------------

  /** The PostgreSQL-backed store; its fields are the two tables and the id sequence. */
  class PostgresBlueprintPersistence {
    var blueprints: seq<BlueprintRow>
    var points: seq<PointRow>
    var nextId: int

    function State(): Tables
      reads this
    {
      Schema.Tables(blueprints, points, nextId)
    }

    ghost predicate Valid()
      reads this
    {
      WellFormed(State())
    }

    /** A store over an existing, consistent database. */
    constructor (initial: Tables)
      requires WellFormed(initial)
      ensures Valid() && State() == initial
    {
      blueprints := initial.blueprints;
      points := initial.points;
      nextId := initial.nextId;
    }

    method SaveBlueprint(bp: Blueprint) returns (r: Outcome<BlueprintPersistenceException>)
      requires Valid()
      modifies this
      ensures Valid()
      ensures (r, State()) == Save(old(State()), bp)
    {
      ghost var before := State();
      var count := CountKey(blueprints, bp.author, bp.name);
      if count > 0 {
        return Fail(BlueprintPersistenceException(AlreadyExistsMessage(bp.author, bp.name)));
      }
      var blueprintId := nextId;
      blueprints := blueprints + [BlueprintRow(blueprintId, bp.author, bp.name)];
      nextId := nextId + 1;
      if |bp.points| != 0 {
        var i := 0;
        while i < |bp.points|
          invariant 0 <= i <= |bp.points|
          invariant blueprints == before.blueprints + [BlueprintRow(blueprintId, bp.author, bp.name)]
          invariant blueprintId == before.nextId && nextId == before.nextId + 1
          invariant points == before.points + NumberedRows(bp.points[..i], blueprintId)
        {
          var p := bp.points[i];
          assert NumberedRows(bp.points[..i + 1], blueprintId)
              == NumberedRows(bp.points[..i], blueprintId) + [PointRow(p.x, p.y, i, blueprintId)];
          points := points + [PointRow(p.x, p.y, i, blueprintId)];
          i := i + 1;
        }
        assert bp.points[..|bp.points|] == bp.points;
      } else {
        assert NumberedRows(bp.points, blueprintId) == [];
      }
      r := Pass;
      assert State() == Inserted(before, bp);
      SavePreservesWellFormed(before, bp);
    }

    method GetBlueprint(author: string, name: string) returns (r: Result<Blueprint, BlueprintNotFoundException>)
      ensures r == ReadBlueprint(State(), author, name)
    {
      var found := FindRow(blueprints, author, name);
      if found.None? {
        return Err(BlueprintNotFoundException(NotFoundMessage(author, name)));
      }
      var blueprintId := blueprints[found.value].id;
      var pts := SelectPoints(points, blueprintId);
      r := Ok(Blueprint(author, name, pts));
    }

    method GetBlueprintsByAuthor(author: string) returns (r: Result<set<Blueprint>, BlueprintNotFoundException>)
      ensures r == ReadByAuthor(State(), author)
    {
      var rows := SelectByAuthor(blueprints, author);
      if rows == [] {
        return Err(BlueprintNotFoundException(NoBlueprintsMessage(author)));
      }
      var result: set<Blueprint> := {};
      var i := 0;
      while i < |rows|
        invariant 0 <= i <= |rows|
        invariant result == set row | row in rows[..i] :: Materialize(State(), row)
      {
        var row := rows[i];
        assert row.author == author;
        var pts := SelectPoints(points, row.id);
        MaterializedPrefix(State(), rows, i);
        result := result + {Blueprint(author, row.name, pts)};
        i := i + 1;
      }
      assert rows[..|rows|] == rows;
      assert result == AuthorStored(State(), author);
      r := Ok(result);
    }

    method GetAllBlueprints() returns (r: set<Blueprint>)
      ensures r == AllStored(State())
    {
      var rows := blueprints;
      var result: set<Blueprint> := {};
      var i := 0;
      while i < |rows|
        invariant 0 <= i <= |rows|
        invariant result == set row | row in rows[..i] :: Materialize(State(), row)
      {
        var row := rows[i];
        var pts := SelectPoints(points, row.id);
        MaterializedPrefix(State(), rows, i);
        result := result + {Blueprint(row.author, row.name, pts)};
        i := i + 1;
      }
      assert rows[..|rows|] == rows;
      r := result;
    }

    method AddPoint(author: string, name: string, x: int, y: int) returns (r: Outcome<BlueprintNotFoundException>)
      requires Valid()
      modifies this
      ensures Valid()
      ensures (r, State()) == AppendPoint(old(State()), author, name, x, y)
    {
      ghost var before := State();
      var found := FindRow(blueprints, author, name);
      if found.None? {
        return Fail(BlueprintNotFoundException(NotFoundMessage(author, name)));
      }
      var blueprintId := blueprints[found.value].id;
      // COALESCE(MAX(point_order), -1): never NULL, so the code's own null check is moot.
      var maxOrder := MaxPointOrder(PointsWithId(points, blueprintId)).GetOr(-1);
      var newOrder := maxOrder + 1;
      assert newOrder == NextOrder(before.points, blueprintId);
      points := points + [PointRow(x, y, newOrder, blueprintId)];
      r := Pass;
      assert (r, State()) == AppendPoint(before, author, name, x, y);
      AppendPreservesWellFormed(before, author, name, x, y);
    }
  }
}
