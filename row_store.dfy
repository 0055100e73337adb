/** The `database_rows` table and its repository. The table is a sequence of
    records in insertion order: a lookup that takes "the first" match takes
    the first in that order, and an update or delete "where id = x" acts on
    every record that matches, as the SQL statement does. Ids and slugs are
    unique (the primary key and the `database_rows_slug_id_unique`
    constraint), which UniqueKeys states and every mutation preserves. */
module RowStore {
  import opened Common
  import opened Json
  import opened Keys
  import opened Pagination

  /** The columns a read returns (everything except the content document). */
  datatype Row = Row(
    id: Id,
    slugId: string,
    position: Key,
    properties: Json,
    title: Option<string>,
    icon: Option<string>,
    databaseId: Id,
    spaceId: Id,
    workspaceId: Id,
    creatorId: Option<Id>,
    lastUpdatedById: Option<Id>,
    createdAt: Timestamp,
    updatedAt: Timestamp,
    deletedAt: Option<Timestamp>)

  /** A stored record: the returned columns plus the content document
      (JNull for SQL NULL). */
  datatype StoredRow = StoredRow(row: Row, content: Json)

  /** A single-row read: the content is present exactly when it was asked for. */
  datatype RowView = RowView(row: Row, content: Option<Json>)

  /** The values an insert supplies; the store itself assigns the id, both
      timestamps, a null content and a null last updater. */
  datatype NewRow = NewRow(
    slugId: string,
    position: Key,
    title: Option<string>,
    icon: Option<string>,
    properties: Json,
    databaseId: Id,
    spaceId: Id,
    workspaceId: Id,
    creatorId: Option<Id>)

  /** The columns an update may set; None leaves a column as it is. Title and
      icon are nullable, so setting them takes an optional value. */
  datatype RowPatch = RowPatch(
    position: Option<Key>,
    title: Option<Option<string>>,
    icon: Option<Option<string>>,
    properties: Option<Json>,
    content: Option<Json>,
    lastUpdatedById: Option<Id>)

  datatype RowLookup = ById(id: Id) | BySlug(slugId: string)

  predicate Matches(r: Row, q: RowLookup) {
    match q
    case ById(id) => r.id == id
    case BySlug(slug) => r.slugId == slug
  }

  predicate Live(s: StoredRow) {
    s.row.deletedAt.None?
  }

  /** A live record of database `db`. */
  predicate LiveIn(s: StoredRow, db: Id) {
    Live(s) && s.row.databaseId == db
  }

  /** No two records share an id or a slug. */
  ghost predicate UniqueKeys(rows: seq<StoredRow>) {
    forall i, j :: 0 <= i < |rows| && 0 <= j < |rows| && i != j ==>
      rows[i].row.id != rows[j].row.id && rows[i].row.slugId != rows[j].row.slugId
  }

  // ---------------------------------------------------------------------------
  // Single-row reads

  /** Position of the first live record matching `q`, or -1. */
  function FirstLive(rows: seq<StoredRow>, q: RowLookup): (i: int)
    ensures -1 <= i < |rows|
    ensures i == -1 <==> forall j :: 0 <= j < |rows| ==> !(Matches(rows[j].row, q) && Live(rows[j]))
    ensures i >= 0 ==> Matches(rows[i].row, q) && Live(rows[i])
    ensures i >= 0 ==> forall j :: 0 <= j < i ==> !(Matches(rows[j].row, q) && Live(rows[j]))
  {
    if |rows| == 0 then -1
    else if Matches(rows[0].row, q) && Live(rows[0]) then 0
    else
      var i := FirstLive(rows[1..], q);
      if i == -1 then -1 else i + 1
  }

  function View(s: StoredRow, includeContent: bool): RowView {
    RowView(s.row, if includeContent then Some(s.content) else None)
  }

  /** `findById` / `findBySlugId`: a live record matching the lookup, with its
      content only when `includeContent` holds; nothing when every matching
      record is tombstoned or there is none. */
  function FindRow(rows: seq<StoredRow>, q: RowLookup, includeContent: bool): (r: Option<RowView>)
    ensures r.None? <==> forall j :: 0 <= j < |rows| ==> !(Matches(rows[j].row, q) && Live(rows[j]))
    ensures r.Some? ==> Matches(r.value.row, q) && r.value.row.deletedAt.None?
    ensures r.Some? ==> (r.value.content.Some? <==> includeContent)
    ensures r.Some? ==> exists j :: 0 <= j < |rows| && rows[j].row == r.value.row
                                  && (includeContent ==> r.value.content == Some(rows[j].content))
  {
    var i := FirstLive(rows, q);
    if i == -1 then None else Some(View(rows[i], includeContent))
  }

  /** With unique keys, a lookup of an existing record's id or slug finds that
      very record exactly when it is live. */
  lemma FindRowUnique(rows: seq<StoredRow>, k: nat, q: RowLookup, includeContent: bool)
    requires UniqueKeys(rows) && k < |rows|
    requires q == ById(rows[k].row.id) || q == BySlug(rows[k].row.slugId)
    ensures FindRow(rows, q, includeContent) == if Live(rows[k]) then Some(View(rows[k], includeContent)) else None
  {
  }

  // ---------------------------------------------------------------------------
  // Listing, last position and count

  /** The live rows of `db`, in table order. */
  function LiveRows(rows: seq<StoredRow>, db: Id): (r: seq<Row>)
    ensures forall x :: x in r <==> exists j :: 0 <= j < |rows| && rows[j].row == x && LiveIn(rows[j], db)
  {
    if |rows| == 0 then []
    else
      var rest := LiveRows(rows[1..], db);
      assert forall j :: 1 <= j < |rows| ==> rows[j] == rows[1..][j - 1];
      if LiveIn(rows[0], db) then [rows[0].row] + rest else rest
  }

  /** The number of live rows of `db`. */
  function Count(rows: seq<StoredRow>, db: Id): nat {
    if |rows| == 0 then 0
    else (if LiveIn(rows[0], db) then 1 else 0) + Count(rows[1..], db)
  }

  /** The count is the number of rows the unpaged listing holds. */
  lemma {:induction false} CountIsListingLength(rows: seq<StoredRow>, db: Id)
    ensures Count(rows, db) == |LiveRows(rows, db)| == |ListLive(rows, db)|
  {
    if |rows| > 0 {
      CountIsListingLength(rows[1..], db);
    }
    ListLiveSpec(rows, db);
    assert |multiset(ListLive(rows, db))| == |multiset(LiveRows(rows, db))|;
  }

  predicate SortedByPosition(s: seq<Row>) {
    forall i, j :: 0 <= i < j < |s| ==> LessEq(s[i].position, s[j].position)
  }

  /** A slice of a sorted listing is sorted. */
  lemma SliceSorted(l: seq<Row>, lo: nat, hi: nat)
    requires lo <= hi <= |l| && SortedByPosition(l)
    ensures SortedByPosition(l[lo..hi])
  {
  }

  /** A page of a sorted listing is sorted and holds only listed rows. */
  lemma PageOfSorted(l: seq<Row>, page: nat, limit: nat)
    requires page >= 1 && limit >= 1 && SortedByPosition(l)
    ensures SortedByPosition(Paginate(l, page, limit).items)
    ensures forall x :: x in Paginate(l, page, limit).items ==> x in l
  {
    var lo := Min((page - 1) * limit, |l|);
    var hi := Min(page * limit, |l|);
    assert Paginate(l, page, limit).items == l[lo..hi];
    SliceSorted(l, lo, hi);
  }

  /** A page of a database's listing is sorted and holds only live rows of
      that database. */
  lemma PageOfListing(rows: seq<StoredRow>, db: Id, page: nat, limit: nat)
    requires page >= 1 && limit >= 1
    ensures var items := Paginate(ListLive(rows, db), page, limit).items;
      && SortedByPosition(items)
      && forall x :: x in items ==> exists j :: 0 <= j < |rows| && rows[j].row == x && LiveIn(rows[j], db)
  {
    ListLiveMembers(rows, db);
    PageOfSorted(ListLive(rows, db), page, limit);
  }

  /** Every row of `s` is at or above position `p`. */
  predicate AllAtLeast(p: Key, s: seq<Row>) {
    forall j :: 0 <= j < |s| ==> LessEq(p, s[j].position)
  }

  lemma SortedCons(a: Row, s: seq<Row>)
    requires SortedByPosition(s) && AllAtLeast(a.position, s)
    ensures SortedByPosition([a] + s)
  {
  }

  lemma SortedHeadLowest(s: seq<Row>)
    requires SortedByPosition(s) && |s| > 0
    ensures forall y :: y in s ==> LessEq(s[0].position, y.position)
  {
  }

  /** Inserts x into a sorted sequence, before the first row it does not follow. */
  function InsertByPosition(x: Row, s: seq<Row>): (r: seq<Row>)
    requires SortedByPosition(s)
    ensures SortedByPosition(r)
    ensures forall y :: y in r <==> y == x || y in s
    ensures multiset(r) == multiset(s) + multiset{x}
  {
    if |s| == 0 then [x]
    else if LessEq(x.position, s[0].position) then
      assert AllAtLeast(x.position, s) by {
        forall j | 0 <= j < |s| ensures LessEq(x.position, s[j].position) {
          LessEqTransitive(x.position, s[0].position, s[j].position);
        }
      }
      SortedCons(x, s);
      [x] + s
    else
      assert s == [s[0]] + s[1..];
      assert SortedByPosition(s[1..]) by {
        forall i, j | 0 <= i < j < |s[1..]| ensures LessEq(s[1..][i].position, s[1..][j].position) {
          assert s[1..][i] == s[i + 1] && s[1..][j] == s[j + 1];
        }
      }
      var rest := InsertByPosition(x, s[1..]);
      assert AllAtLeast(s[0].position, rest) by {
        SortedHeadLowest(s);
        LessTotal(x.position, s[0].position);
        forall j | 0 <= j < |rest| ensures LessEq(s[0].position, rest[j].position) {
          assert rest[j] in rest;
        }
      }
      SortedCons(s[0], rest);
      [s[0]] + rest
  }

  /** Orders rows ascending by byte-order position. Rows with equal positions
      may come in any order (the store gives no tie-break either). */
  function SortByPosition(s: seq<Row>): (r: seq<Row>)
    ensures SortedByPosition(r)
    ensures multiset(r) == multiset(s)
  {
    if |s| == 0 then []
    else
      assert s == [s[0]] + s[1..];
      InsertByPosition(s[0], SortByPosition(s[1..]))
  }

  /** `findByDatabaseId` before pagination. */
  function ListLive(rows: seq<StoredRow>, db: Id): seq<Row> {
    SortByPosition(LiveRows(rows, db))
  }

  /** The listing holds exactly the live rows of `db`, each as often as it is
      stored, ascending by position. */
  lemma ListLiveSpec(rows: seq<StoredRow>, db: Id)
    ensures SortedByPosition(ListLive(rows, db))
    ensures multiset(ListLive(rows, db)) == multiset(LiveRows(rows, db))
    ensures forall x :: x in ListLive(rows, db) <==>
      exists j :: 0 <= j < |rows| && rows[j].row == x && LiveIn(rows[j], db)
  {
    var l := ListLive(rows, db);
    forall x ensures x in l <==> x in LiveRows(rows, db) {
      assert x in l <==> x in multiset(l);
      assert x in LiveRows(rows, db) <==> x in multiset(LiveRows(rows, db));
    }
  }

  /** The order and membership half of ListLiveSpec. */
  lemma ListLiveMembers(rows: seq<StoredRow>, db: Id)
    ensures SortedByPosition(ListLive(rows, db))
    ensures forall x :: x in ListLive(rows, db) <==>
      exists j :: 0 <= j < |rows| && rows[j].row == x && LiveIn(rows[j], db)
  {
    ListLiveSpec(rows, db);
  }

  /** `getLastRowPosition`: the greatest position among the live rows of `db`. */
  function LastPosition(rows: seq<StoredRow>, db: Id): (r: Option<Key>)
    ensures r.None? <==> forall j :: 0 <= j < |rows| ==> !LiveIn(rows[j], db)
    ensures r.Some? ==> exists j :: 0 <= j < |rows| && LiveIn(rows[j], db) && rows[j].row.position == r.value
    ensures r.Some? ==> forall j :: 0 <= j < |rows| && LiveIn(rows[j], db) ==> LessEq(rows[j].row.position, r.value)
  {
    if |rows| == 0 then None
    else
      var rest := LastPosition(rows[1..], db);
      assert forall j :: 1 <= j < |rows| ==> rows[j] == rows[1..][j - 1];
      var p := rows[0].row.position;
      if !LiveIn(rows[0], db) then rest
      else if rest.None? then Some(p)
      else if LessEq(rest.value, p) then
        assert forall j :: 1 <= j < |rows| && LiveIn(rows[j], db) ==> LessEq(rows[j].row.position, p) by {
          forall j | 1 <= j < |rows| && LiveIn(rows[j], db) ensures LessEq(rows[j].row.position, p) {
            LessEqTransitive(rows[j].row.position, rest.value, p);
          }
        }
        Some(p)
      else
        assert LessEq(p, rest.value) by {
          LessTotal(p, rest.value);
        }
        rest
  }

  // ---------------------------------------------------------------------------
  // Record transformations performed by the mutations

  function Inserted(n: NewRow, id: Id, now: Timestamp): Row {
    Row(id, n.slugId, n.position, n.properties, n.title, n.icon, n.databaseId, n.spaceId,
        n.workspaceId, n.creatorId, None, now, now, None)
  }

  /** True when an insert of this slug and id would violate a uniqueness constraint. */
  predicate KeyTaken(rows: seq<StoredRow>, slugId: string, id: Id) {
    exists j :: 0 <= j < |rows| && (rows[j].row.slugId == slugId || rows[j].row.id == id)
  }

  function ApplyPatch(s: StoredRow, p: RowPatch, now: Timestamp): StoredRow {
    var r := s.row;
    StoredRow(
      r.(position := p.position.GetOr(r.position),
         title := p.title.GetOr(r.title),
         icon := p.icon.GetOr(r.icon),
         properties := p.properties.GetOr(r.properties),
         lastUpdatedById := if p.lastUpdatedById.Some? then p.lastUpdatedById else r.lastUpdatedById,
         updatedAt := now),
      p.content.GetOr(s.content))
  }

  /** A patch sets exactly the supplied columns and `updatedAt`. */
  lemma ApplyPatchSpec(s: StoredRow, p: RowPatch, now: Timestamp)
    ensures var t := ApplyPatch(s, p, now);
      && t.row.position == (if p.position.Some? then p.position.value else s.row.position)
      && t.row.title == (if p.title.Some? then p.title.value else s.row.title)
      && t.row.icon == (if p.icon.Some? then p.icon.value else s.row.icon)
      && t.row.properties == (if p.properties.Some? then p.properties.value else s.row.properties)
      && t.content == (if p.content.Some? then p.content.value else s.content)
      && t.row.lastUpdatedById == (if p.lastUpdatedById.Some? then p.lastUpdatedById else s.row.lastUpdatedById)
      && t.row.updatedAt == now
      && t.row.(position := s.row.position, title := s.row.title, icon := s.row.icon,
                properties := s.row.properties, lastUpdatedById := s.row.lastUpdatedById,
                updatedAt := s.row.updatedAt) == s.row
  {
  }

  /** An update of the records with id `rowId`: the patch plus `updatedAt`. */
  function PatchRows(rows: seq<StoredRow>, rowId: Id, p: RowPatch, now: Timestamp): seq<StoredRow> {
    seq(|rows|, i requires 0 <= i < |rows| =>
      if rows[i].row.id == rowId then ApplyPatch(rows[i], p, now) else rows[i])
  }

  function Tombstone(s: StoredRow, now: Timestamp): StoredRow {
    s.(row := s.row.(deletedAt := Some(now)))
  }

  /** A soft delete of the records with id `rowId`. */
  function TombstoneRow(rows: seq<StoredRow>, rowId: Id, now: Timestamp): seq<StoredRow> {
    seq(|rows|, i requires 0 <= i < |rows| =>
      if rows[i].row.id == rowId then Tombstone(rows[i], now) else rows[i])
  }

  /** A soft delete of every record of database `db`. */
  function TombstoneDatabaseRows(rows: seq<StoredRow>, db: Id, now: Timestamp): seq<StoredRow> {
    seq(|rows|, i requires 0 <= i < |rows| =>
      if rows[i].row.databaseId == db then Tombstone(rows[i], now) else rows[i])
  }

  /** A hard delete of the records with id `rowId`: every other record stays, in order. */
  function WithoutRow(rows: seq<StoredRow>, rowId: Id): (r: seq<StoredRow>)
    ensures forall x :: x in r <==> x in rows && x.row.id != rowId
  {
    if |rows| == 0 then []
    else if rows[0].row.id == rowId then WithoutRow(rows[1..], rowId)
    else [rows[0]] + WithoutRow(rows[1..], rowId)
  }

  /** A hard delete of every record of database `db`, the cascade of a database's hard delete. */
  function WithoutDatabaseRows(rows: seq<StoredRow>, db: Id): (r: seq<StoredRow>)
    ensures forall x :: x in r <==> x in rows && x.row.databaseId != db
  {
    if |rows| == 0 then []
    else if rows[0].row.databaseId == db then WithoutDatabaseRows(rows[1..], db)
    else [rows[0]] + WithoutDatabaseRows(rows[1..], db)
  }

  // ---------------------------------------------------------------------------
  // Properties of the mutations

  /** Removing records keeps ids and slugs unique. */
  lemma {:induction false} WithoutRowUnique(rows: seq<StoredRow>, rowId: Id)
    requires UniqueKeys(rows)
    ensures UniqueKeys(WithoutRow(rows, rowId))
  {
    if |rows| > 0 {
      var tail := rows[1..];
      UniqueKeysTail(rows);
      WithoutRowUnique(tail, rowId);
      if rows[0].row.id != rowId {
        var rest := WithoutRow(tail, rowId);
        forall j | 0 <= j < |rest|
          ensures rest[j].row.id != rows[0].row.id && rest[j].row.slugId != rows[0].row.slugId
        {
          assert rest[j] in tail;
          var m :| 0 <= m < |tail| && tail[m] == rest[j];
        }
        UniqueKeysCons(rows[0], rest);
      }
    }
  }

  lemma {:induction false} WithoutDatabaseRowsUnique(rows: seq<StoredRow>, db: Id)
    requires UniqueKeys(rows)
    ensures UniqueKeys(WithoutDatabaseRows(rows, db))
  {
    if |rows| > 0 {
      var tail := rows[1..];
      UniqueKeysTail(rows);
      WithoutDatabaseRowsUnique(tail, db);
      if rows[0].row.databaseId != db {
        var rest := WithoutDatabaseRows(tail, db);
        forall j | 0 <= j < |rest|
          ensures rest[j].row.id != rows[0].row.id && rest[j].row.slugId != rows[0].row.slugId
        {
          assert rest[j] in tail;
          var m :| 0 <= m < |tail| && tail[m] == rest[j];
        }
        UniqueKeysCons(rows[0], rest);
      }
    }
  }

  /** The tail of a table with unique keys has unique keys, none shared with the head. */
  lemma UniqueKeysTail(rows: seq<StoredRow>)
    requires UniqueKeys(rows) && |rows| > 0
    ensures UniqueKeys(rows[1..])
    ensures forall j :: 0 <= j < |rows[1..]| ==>
      rows[1..][j].row.id != rows[0].row.id && rows[1..][j].row.slugId != rows[0].row.slugId
  {
    forall i, j | 0 <= i < |rows[1..]| && 0 <= j < |rows[1..]| && i != j
      ensures rows[1..][i].row.id != rows[1..][j].row.id && rows[1..][i].row.slugId != rows[1..][j].row.slugId
    {
      assert rows[1..][i] == rows[i + 1] && rows[1..][j] == rows[j + 1];
    }
  }

  lemma UniqueKeysCons(s: StoredRow, rest: seq<StoredRow>)
    requires UniqueKeys(rest)
    requires forall j :: 0 <= j < |rest| ==> rest[j].row.id != s.row.id && rest[j].row.slugId != s.row.slugId
    ensures UniqueKeys([s] + rest)
  {
    var r := [s] + rest;
    forall i, j | 0 <= i < |r| && 0 <= j < |r| && i != j
      ensures r[i].row.id != r[j].row.id && r[i].row.slugId != r[j].row.slugId
    {
      if i > 0 && j > 0 {
        assert r[i] == rest[i - 1] && r[j] == rest[j - 1];
      }
    }
  }

  /** A hard delete of an id no record has changes nothing. */
  lemma {:induction false} WithoutAbsentRow(rows: seq<StoredRow>, rowId: Id)
    requires forall j :: 0 <= j < |rows| ==> rows[j].row.id != rowId
    ensures WithoutRow(rows, rowId) == rows
  {
    if |rows| > 0 {
      assert forall j :: 0 <= j < |rows[1..]| ==> rows[1..][j] == rows[j + 1];
      WithoutAbsentRow(rows[1..], rowId);
      assert rows == [rows[0]] + rows[1..];
    }
  }

  /** Hard delete is idempotent: a second call finds nothing to remove. */
  lemma WithoutRowIdempotent(rows: seq<StoredRow>, rowId: Id)
    ensures WithoutRow(WithoutRow(rows, rowId), rowId) == WithoutRow(rows, rowId)
  {
  }

  /** A soft delete keeps every record, changes only the target's `deletedAt`,
      and hides the target from both single-row lookups. */
  lemma TombstoneRowSpec(rows: seq<StoredRow>, k: nat, now: Timestamp, includeContent: bool)
    requires UniqueKeys(rows) && k < |rows|
    ensures var t := TombstoneRow(rows, rows[k].row.id, now);
      && |t| == |rows|
      && t[k].row == rows[k].row.(deletedAt := Some(now)) && t[k].content == rows[k].content
      && (forall j :: 0 <= j < |rows| && j != k ==> t[j] == rows[j])
      && FindRow(t, ById(rows[k].row.id), includeContent).None?
      && FindRow(t, BySlug(rows[k].row.slugId), includeContent).None?
  {
  }

  lemma {:induction false} LiveRowsOfTombstoned(rows: seq<StoredRow>, db: Id, other: Id, now: Timestamp)
    requires other != db
    ensures LiveRows(TombstoneDatabaseRows(rows, db, now), db) == []
    ensures LiveRows(TombstoneDatabaseRows(rows, db, now), other) == LiveRows(rows, other)
  {
    if |rows| > 0 {
      var t := TombstoneDatabaseRows(rows, db, now);
      assert t[1..] == TombstoneDatabaseRows(rows[1..], db, now);
      LiveRowsOfTombstoned(rows[1..], db, other, now);
    }
  }

  /** Soft-deleting a database's rows empties its listing and count and leaves
      every other database's listing as it was. */
  lemma TombstoneDatabaseRowsSpec(rows: seq<StoredRow>, db: Id, other: Id, now: Timestamp)
    requires other != db
    ensures ListLive(TombstoneDatabaseRows(rows, db, now), db) == []
    ensures Count(TombstoneDatabaseRows(rows, db, now), db) == 0
    ensures ListLive(TombstoneDatabaseRows(rows, db, now), other) == ListLive(rows, other)
  {
    LiveRowsOfTombstoned(rows, db, other, now);
    CountIsListingLength(TombstoneDatabaseRows(rows, db, now), db);
  }

  /** After an update of an existing record, a lookup by its id finds the
      patched record (if it is live), and every other record is as it was. */
  lemma PatchRowsSpec(rows: seq<StoredRow>, k: nat, p: RowPatch, now: Timestamp, includeContent: bool)
    requires UniqueKeys(rows) && k < |rows|
    ensures var t := PatchRows(rows, rows[k].row.id, p, now);
      && |t| == |rows| && UniqueKeys(t)
      && t[k] == ApplyPatch(rows[k], p, now)
      && (forall j :: 0 <= j < |rows| && j != k ==> t[j] == rows[j])
      && FindRow(t, ById(rows[k].row.id), includeContent)
         == if Live(rows[k]) then Some(View(ApplyPatch(rows[k], p, now), includeContent)) else None
  {
  }

  // ---------------------------------------------------------------------------
  // The repository

  class DatabaseRowRepo {
    var rows: seq<StoredRow>

    ghost predicate Valid()
      reads this
    {
      UniqueKeys(rows)
    }

    constructor ()
      ensures Valid() && rows == []
    {
      rows := [];
    }

    /** Nothing when no live record has the id; otherwise a live record with
        that id, carrying its content exactly when asked for. */
    function FindById(rowId: Id, includeContent: bool): (r: Option<RowView>)
      reads this
      ensures r.None? <==> forall j :: 0 <= j < |rows| ==> !(rows[j].row.id == rowId && rows[j].row.deletedAt.None?)
      ensures r.Some? ==> r.value.row.id == rowId && r.value.row.deletedAt.None?
      ensures r.Some? ==> (r.value.content.Some? <==> includeContent)
      ensures r.Some? ==>
        exists j :: 0 <= j < |rows| && rows[j].row == r.value.row
                 && (includeContent ==> r.value.content == Some(rows[j].content))
    {
      FindRow(rows, ById(rowId), includeContent)
    }

    /** Nothing when no live record has the slug; otherwise a live record
        with that slug, carrying its content exactly when asked for. */
    function FindBySlugId(slugId: string, includeContent: bool): (r: Option<RowView>)
      reads this
      ensures r.None? <==> forall j :: 0 <= j < |rows| ==> !(rows[j].row.slugId == slugId && rows[j].row.deletedAt.None?)
      ensures r.Some? ==> r.value.row.slugId == slugId && r.value.row.deletedAt.None?
      ensures r.Some? ==> (r.value.content.Some? <==> includeContent)
      ensures r.Some? ==>
        exists j :: 0 <= j < |rows| && rows[j].row == r.value.row
                 && (includeContent ==> r.value.content == Some(rows[j].content))
    {
      FindRow(rows, BySlug(slugId), includeContent)
    }

    /** One page of the live rows of `db`, ascending by position; page and
        limit come validated (page >= 1, limit >= 1). The page holds at most
        `limit` rows, each a live row of `db`, in position order. */
    function FindByDatabaseId(db: Id, page: nat, limit: nat): (r: Page<Row>)
      requires page >= 1 && limit >= 1
      reads this
      ensures r.page == page && r.limit == limit && |r.items| <= limit
      ensures SortedByPosition(r.items)
      ensures forall x :: x in r.items ==> exists j :: 0 <= j < |rows| && rows[j].row == x && LiveIn(rows[j], db)
    {
      PageOfListing(rows, db, page, limit);
      Paginate(ListLive(rows, db), page, limit)
    }

    /** Nothing when `db` has no live row; otherwise the highest position
        among its live rows. */
    function GetLastRowPosition(db: Id): (r: Option<Key>)
      reads this
      ensures r.None? <==> forall j :: 0 <= j < |rows| ==> !LiveIn(rows[j], db)
      ensures r.Some? ==> exists j :: 0 <= j < |rows| && LiveIn(rows[j], db) && rows[j].row.position == r.value
      ensures r.Some? ==> forall j :: 0 <= j < |rows| && LiveIn(rows[j], db) ==> LessEq(rows[j].row.position, r.value)
    {
      LastPosition(rows, db)
    }

    /** The number of live rows of `db`: the length of its unpaged listing. */
    function CountRows(db: Id): (n: nat)
      reads this
      ensures n == |ListLive(rows, db)|
    {
      CountIsListingLength(rows, db);
      Count(rows, db)
    }

    /** Adds exactly one record, or reports Conflict, changing nothing, when
        the slug or the id is already in the table. */
    method InsertRow(n: NewRow, id: Id, now: Timestamp) returns (r: Result<Row>)
      requires Valid()
      modifies this
      ensures Valid()
      ensures r.Err? <==> KeyTaken(old(rows), n.slugId, id)
      ensures r.Err? ==> r.error == Conflict && rows == old(rows)
      ensures r.Ok? ==> r.value == Inserted(n, id, now) && rows == old(rows) + [StoredRow(r.value, JNull)]
    {
      if exists j :: 0 <= j < |rows| && (rows[j].row.slugId == n.slugId || rows[j].row.id == id) {
        r := Err(Conflict);
      } else {
        var row := Inserted(n, id, now);
        rows := rows + [StoredRow(row, JNull)];
        r := Ok(row);
      }
    }

    method UpdateRow(p: RowPatch, rowId: Id, now: Timestamp)
      requires Valid()
      modifies this
      ensures Valid()
      ensures rows == PatchRows(old(rows), rowId, p, now)
    {
      rows := PatchRows(rows, rowId, p, now);
    }

    method DeleteRow(rowId: Id, now: Timestamp)
      requires Valid()
      modifies this
      ensures Valid()
      ensures rows == TombstoneRow(old(rows), rowId, now)
    {
      rows := TombstoneRow(rows, rowId, now);
    }

    method PermanentlyDeleteRow(rowId: Id)
      requires Valid()
      modifies this
      ensures Valid()
      ensures rows == WithoutRow(old(rows), rowId)
    {
      WithoutRowUnique(rows, rowId);
      rows := WithoutRow(rows, rowId);
    }

    method DeleteRowsByDatabaseId(db: Id, now: Timestamp)
      requires Valid()
      modifies this
      ensures Valid()
      ensures rows == TombstoneDatabaseRows(old(rows), db, now)
    {
      rows := TombstoneDatabaseRows(rows, db, now);
    }

    /** The foreign-key cascade run by the store when a database record is
        removed: every row of that database goes, tombstoned or not. */
    method CascadeDatabaseDelete(db: Id)
      requires Valid()
      modifies this
      ensures Valid()
      ensures rows == WithoutDatabaseRows(old(rows), db)
    {
      WithoutDatabaseRowsUnique(rows, db);
      rows := WithoutDatabaseRows(rows, db);
    }
  }
}
