/** Row orchestration for database blocks (`DatabaseRowService`): creating a
    row at the end of its database with the "Created" date columns filled in,
    merging property updates, replacing the content document, moving a row
    next to an anchor, soft deletion, listing and counting. */
module RowServices {
  import opened Common
  import opened Json
  import opened Keys
  import opened Pagination
  import opened PropertyTypes
  import opened RowStore
  import DatabaseStore

  /** Validated request bodies. The JSON-encoded fields arrive parsed and None
      stands for an absent field. `create` and `updateContent` test their
      field for truthiness and `update` for presence; request validation
      rejects an empty string in those fields, so all three amount to a
      presence test. */
  datatype CreateRowInput = CreateRowInput(databaseId: Id, title: Option<string>, icon: Option<string>, properties: Option<RowProperties>)
  /** `title` and `icon` are Some when the field is present, null included. */
  datatype UpdateRowInput = UpdateRowInput(rowId: Id, title: Option<Option<string>>, icon: Option<Option<string>>, properties: Option<RowProperties>)
  datatype UpdateContentInput = UpdateContentInput(rowId: Id, content: Option<Json>)
  datatype MoveRowInput = MoveRowInput(rowId: Id, afterRowId: Option<Id>, beforeRowId: Option<Id>)
  datatype ListRowsInput = ListRowsInput(databaseId: Id, page: Option<nat>, limit: Option<nat>)

  const DefaultPage: nat := 1
  const DefaultLimit: nat := 50

  // ---------------------------------------------------------------------------
  // Auto-filled "Created" columns

  /** `toLowerCase` on the ASCII letters; other characters are kept. */
  function Lower(s: string): string
  {
    seq(|s|, i requires 0 <= i < |s| => if 'A' <= s[i] <= 'Z' then (s[i] as int + 32) as char else s[i])
  }

  /** A name lower-cases to "created" exactly when it has seven characters,
      each the small or the capital letter of "created" at its place. */
  lemma LowerIsCreated(n: string)
    ensures Lower(n) == "created" <==>
      |n| == 7 && forall i :: 0 <= i < 7 ==> n[i] == "created"[i] || n[i] == "CREATED"[i]
  {
    if |n| == 7 && forall i :: 0 <= i < 7 ==> n[i] == "created"[i] || n[i] == "CREATED"[i] {
      assert Lower(n) == "created";
    }
  }

  /** A date column whose name is "created" in any letter case. */
  predicate IsCreatedColumn(p: PropertyDefinition) {
    TypeName(p.propertyType) == "date" && Lower(p.name) == "created"
  }

  /** Some column of the schema with this id is a "Created" column. */
  predicate IsCreatedId(schema: seq<PropertyDefinition>, id: Id) {
    exists j :: 0 <= j < |schema| && IsCreatedColumn(schema[j]) && schema[j].id == id
  }

  /** One step of the fill loop: set the column to today's date unless it
      already holds a truthy value. */
  function FillOne(p: PropertyDefinition, props: RowProperties, today: string): RowProperties {
    if IsCreatedColumn(p) && !Truthy(Lookup(props, p.id)) then props[p.id := JString(today)] else props
  }

  /** The properties after the fill loop has visited every column of `schema`, in order. */
  function AutoFilled(schema: seq<PropertyDefinition>, props: RowProperties, today: string): RowProperties
    decreases |schema|
  {
    if |schema| == 0 then props
    else FillOne(schema[|schema| - 1], AutoFilled(schema[..|schema| - 1], props, today), today)
  }

  /** The ids the fill loop leaves in the properties. */
  lemma {:induction false} AutoFilledKeys(schema: seq<PropertyDefinition>, props: RowProperties, today: string)
    ensures forall k :: k in AutoFilled(schema, props, today) <==> k in props || IsCreatedId(schema, k)
    decreases |schema|
  {
    if |schema| > 0 {
      AutoFilledKeys(schema[..|schema| - 1], props, today);
      CreatedIdSnoc(schema);
    }
  }

  /** The fill loop adds exactly the ids of "Created" columns, sets each of
      them to today's date unless the caller supplied a truthy value for it,
      and leaves every other supplied value alone. */
  lemma {:induction false} AutoFilledSpec(schema: seq<PropertyDefinition>, props: RowProperties, today: string)
    ensures var r := AutoFilled(schema, props, today);
      && (forall k :: k in r <==> k in props || IsCreatedId(schema, k))
      && forall k :: k in r ==>
        r[k] == if IsCreatedId(schema, k) && !Truthy(Lookup(props, k)) then JString(today) else props[k]
    decreases |schema|
  {
    if |schema| > 0 {
      var init := schema[..|schema| - 1];
      var p := schema[|schema| - 1];
      var before := AutoFilled(init, props, today);
      var r := AutoFilled(schema, props, today);
      AutoFilledKeys(schema, props, today);
      AutoFilledSpec(init, props, today);
      CreatedIdSnoc(schema);
      assert r == FillOne(p, before, today);
      forall k | k in r
        ensures r[k] == if IsCreatedId(schema, k) && !Truthy(Lookup(props, k)) then JString(today) else props[k]
      {
        if k != p.id {
          assert IsCreatedId(schema, k) == IsCreatedId(init, k);
        }
      }
    }
  }

  lemma CreatedIdSnoc(schema: seq<PropertyDefinition>)
    requires |schema| > 0
    ensures var n := |schema| - 1;
      forall k :: IsCreatedId(schema, k) <==> IsCreatedId(schema[..n], k) || (IsCreatedColumn(schema[n]) && schema[n].id == k)
  {
  }

  /** The loop of `create` over the database's columns, proved to compute AutoFilled. */
  method FillCreatedColumns(schema: seq<PropertyDefinition>, props: RowProperties, today: string)
    returns (properties: RowProperties)
    ensures properties == AutoFilled(schema, props, today)
  {
    properties := props;
    var i := 0;
    while i < |schema|
      invariant 0 <= i <= |schema|
      invariant properties == AutoFilled(schema[..i], props, today)
    {
      var prop := schema[i];
      if TypeName(prop.propertyType) == "date" && Lower(prop.name) == "created" && !Truthy(Lookup(properties, prop.id)) {
        properties := properties[prop.id := JString(today)];
      }
      assert schema[..i + 1][..i] == schema[..i];
      i := i + 1;
    }
    assert schema[..i] == schema;
  }

  // ---------------------------------------------------------------------------
  // Merging property updates

  /** A shallow merge: the new keys override the existing ones, and the
      existing value counts only when it is an object. */
  function Merge(existing: Json, incoming: RowProperties): (r: RowProperties)
  {
    ObjectOrEmpty(existing) + incoming
  }

  /** A merge keeps every existing key, adds every incoming key, lets the
      incoming value win on a shared key, and drops a stored value that is not
      an object. */
  lemma MergeSpec(existing: Json, incoming: RowProperties)
    ensures var r := Merge(existing, incoming);
      && (forall k :: k in r <==> k in incoming || (existing.JObject? && k in existing.fields))
      && (forall k :: k in incoming ==> r[k] == incoming[k])
      && (forall k :: k in r && k !in incoming ==> existing.JObject? && r[k] == existing.fields[k])
  {
  }

  /** Merging the empty object keeps an object as it is. */
  lemma MergeEmpty(existing: Json)
    requires existing.JObject?
    ensures Merge(existing, map[]) == existing.fields
  {
  }

  // ---------------------------------------------------------------------------
  // Ordering in the listing

  /** In a listing sorted by position, a row whose position is strictly
      smaller sits at a strictly smaller index. */
  lemma {:induction false} SortedOrder(s: seq<Row>, i: nat, j: nat)
    requires SortedByPosition(s) && i < |s| && j < |s|
    requires Less(s[i].position, s[j].position)
    ensures i < j
  {
    if j < i {
      assert LessEq(s[j].position, s[i].position);
      if s[j].position == s[i].position {
        LessIrreflexive(s[i].position);
      } else {
        LessAsymmetric(s[i].position, s[j].position);
      }
    } else if j == i {
      LessIrreflexive(s[i].position);
    }
  }

  /** A live row whose position is above every other live row of its database
      is the last row of the database's listing. */
  lemma ListedLast(rows: seq<StoredRow>, db: Id, k: nat)
    requires k < |rows| && LiveIn(rows[k], db)
    requires forall j :: 0 <= j < |rows| && j != k && LiveIn(rows[j], db) ==> Less(rows[j].row.position, rows[k].row.position)
    ensures var l := ListLive(rows, db); |l| > 0 && l[|l| - 1] == rows[k].row
  {
    var l := ListLive(rows, db);
    var m := ListedRow(rows, db, k);
    var last := |l| - 1;
    if l[last] != rows[k].row {
      var j := ListedIsLive(rows, db, last);
      assert Less(l[last].position, l[m].position);
      ListLiveMembers(rows, db);
      SortedOrder(l, last, m);
    }
  }

  /** A live row of the database has a place in its listing. */
  lemma ListedRow(rows: seq<StoredRow>, db: Id, k: nat) returns (m: nat)
    requires k < |rows| && LiveIn(rows[k], db)
    ensures m < |ListLive(rows, db)| && ListLive(rows, db)[m] == rows[k].row
  {
    ListLiveMembers(rows, db);
    assert rows[k].row in ListLive(rows, db);
    m :| 0 <= m < |ListLive(rows, db)| && ListLive(rows, db)[m] == rows[k].row;
  }

  /** Every entry of the listing is a live stored row of the database. */
  lemma ListedIsLive(rows: seq<StoredRow>, db: Id, i: nat) returns (j: nat)
    requires i < |ListLive(rows, db)|
    ensures j < |rows| && rows[j].row == ListLive(rows, db)[i] && LiveIn(rows[j], db)
  {
    ListLiveMembers(rows, db);
    assert ListLive(rows, db)[i] in ListLive(rows, db);
    j :| 0 <= j < |rows| && rows[j].row == ListLive(rows, db)[i] && LiveIn(rows[j], db);
  }

  /** A key above the last live position is above every live row's position. */
  lemma AboveLast(rows: seq<StoredRow>, db: Id, k: Key)
    requires LastPosition(rows, db).Some? ==> Less(LastPosition(rows, db).value, k)
    ensures forall j :: 0 <= j < |rows| && LiveIn(rows[j], db) ==> Less(rows[j].row.position, k)
  {
    var last := LastPosition(rows, db);
    forall j | 0 <= j < |rows| && LiveIn(rows[j], db) ensures Less(rows[j].row.position, k) {
      if rows[j].row.position != last.value {
        LessTransitive(rows[j].row.position, last.value, k);
      }
    }
  }

  /** A live row appended above every live row of its database is the last of its listing. */
  lemma AppendedListedLast(before: seq<StoredRow>, s: StoredRow, db: Id)
    requires LiveIn(s, db)
    requires forall j :: 0 <= j < |before| && LiveIn(before[j], db) ==> Less(before[j].row.position, s.row.position)
    ensures var l := ListLive(before + [s], db); |l| > 0 && l[|l| - 1] == s.row
  {
    var rows := before + [s];
    assert forall j :: 0 <= j < |before| ==> rows[j] == before[j];
    ListedLast(rows, db, |before|);
  }

  // ---------------------------------------------------------------------------
  // The service

  /** Every stored position is a well-formed key. */
  predicate PositionsWellFormed(rows: seq<StoredRow>) {
    forall j :: 0 <= j < |rows| ==> WellFormed(rows[j].row.position)
  }

  /** A patch whose position, if any, is well-formed keeps every stored position well-formed. */
  lemma PatchKeepsPositions(rows: seq<StoredRow>, k: nat, p: RowPatch, now: Timestamp)
    requires UniqueKeys(rows) && k < |rows| && PositionsWellFormed(rows)
    requires p.position.Some? ==> WellFormed(p.position.value)
    ensures PositionsWellFormed(PatchRows(rows, rows[k].row.id, p, now))
  {
    PatchRowsSpec(rows, k, p, now, false);
  }

  class DatabaseRowService {
    const rowRepo: DatabaseRowRepo
    const dbRepo: DatabaseStore.DatabaseRepo

    ghost predicate Valid()
      reads this, rowRepo
    {
      rowRepo.Valid() && PositionsWellFormed(rowRepo.rows)
    }

    constructor (rowRepo: DatabaseRowRepo, dbRepo: DatabaseStore.DatabaseRepo)
      requires rowRepo.Valid() && PositionsWellFormed(rowRepo.rows)
      ensures this.rowRepo == rowRepo && this.dbRepo == dbRepo && Valid()
    {
      this.rowRepo := rowRepo;
      this.dbRepo := dbRepo;
    }

    /** NotFound exactly when no live row has the id; otherwise a live stored
        row with that id, with its content exactly when asked for. */
    function FindById(rowId: Id, includeContent: bool): (r: Result<RowView>)
      reads this, rowRepo
      ensures r.Err? <==> forall j :: 0 <= j < |rowRepo.rows| ==>
        !(rowRepo.rows[j].row.id == rowId && rowRepo.rows[j].row.deletedAt.None?)
      ensures r.Err? ==> r.error == NotFound
      ensures r.Ok? ==> r.value.row.id == rowId && r.value.row.deletedAt.None?
      ensures r.Ok? ==> (r.value.content.Some? <==> includeContent)
      ensures r.Ok? ==>
        exists j :: 0 <= j < |rowRepo.rows| && rowRepo.rows[j].row == r.value.row
                 && (includeContent ==> r.value.content == Some(rowRepo.rows[j].content))
    {
      match rowRepo.FindById(rowId, includeContent)
      case None => Err(NotFound)
      case Some(v) => Ok(v)
    }

    /** NotFound exactly when no live row has the slug; otherwise a live
        stored row with that slug, with its content exactly when asked for. */
    function FindBySlugId(slugId: string, includeContent: bool): (r: Result<RowView>)
      reads this, rowRepo
      ensures r.Err? <==> forall j :: 0 <= j < |rowRepo.rows| ==>
        !(rowRepo.rows[j].row.slugId == slugId && rowRepo.rows[j].row.deletedAt.None?)
      ensures r.Err? ==> r.error == NotFound
      ensures r.Ok? ==> r.value.row.slugId == slugId && r.value.row.deletedAt.None?
      ensures r.Ok? ==> (r.value.content.Some? <==> includeContent)
      ensures r.Ok? ==>
        exists j :: 0 <= j < |rowRepo.rows| && rowRepo.rows[j].row == r.value.row
                 && (includeContent ==> r.value.content == Some(rowRepo.rows[j].content))
    {
      match rowRepo.FindBySlugId(slugId, includeContent)
      case None => Err(NotFound)
      case Some(v) => Ok(v)
    }

    /** One page of the database's live rows, in position order. A missing
        or zero page means 1, a missing or zero limit means 50. */
    function List(dto: ListRowsInput): (r: Page<Row>)
      reads this, rowRepo
      ensures r.page == (if dto.page.Some? && dto.page.value != 0 then dto.page.value else 1)
      ensures r.limit == (if dto.limit.Some? && dto.limit.value != 0 then dto.limit.value else 50)
      ensures |r.items| <= r.limit
      ensures SortedByPosition(r.items)
      ensures forall x :: x in r.items ==> x.databaseId == dto.databaseId && x.deletedAt.None?
    {
      var page := if dto.page.Some? && dto.page.value != 0 then dto.page.value else DefaultPage;
      var limit := if dto.limit.Some? && dto.limit.value != 0 then dto.limit.value else DefaultLimit;
      rowRepo.FindByDatabaseId(dto.databaseId, page, limit)
    }

    /** The number of live rows of the database: the length of its full listing. */
    function CountRows(databaseId: Id): (n: nat)
      reads this, rowRepo
      ensures n == |ListLive(rowRepo.rows, databaseId)|
    {
      CountIsListingLength(rowRepo.rows, databaseId);
      rowRepo.CountRows(databaseId)
    }

    /** Reports NotFound when the database does not exist (or is
        tombstoned), and Conflict when the fresh slug or id is taken; changes
        nothing then. Otherwise appends one row whose position is above every
        live row of the database, whose properties are the supplied ones (or
        none) with the "Created" columns filled in, and which becomes the last
        row of the database's listing. */
    method Create(userId: Id, workspaceId: Id, dto: CreateRowInput, slugId: string, id: Id, today: string, now: Timestamp)
      returns (r: Result<Row>)
      requires Valid()
      modifies rowRepo
      ensures Valid()
      ensures r.Err? ==> rowRepo.rows == old(rowRepo.rows)
      ensures match dbRepo.FindById(dto.databaseId)
        case None => r == Err(NotFound)
        case Some(db) =>
          && (r.Err? <==> KeyTaken(old(rowRepo.rows), slugId, id))
          && (r.Err? ==> r.error == Conflict)
          && (r.Ok? ==>
            && rowRepo.rows == old(rowRepo.rows) + [StoredRow(r.value, JNull)]
            && r.value.id == id && r.value.slugId == slugId
            && r.value.databaseId == dto.databaseId && r.value.spaceId == db.spaceId
            && r.value.workspaceId == workspaceId && r.value.creatorId == Some(userId)
            && r.value.title == dto.title && r.value.icon == dto.icon
            && r.value.properties == JObject(AutoFilled(db.properties, dto.properties.GetOr(map[]), today))
            && r.value.lastUpdatedById.None? && r.value.deletedAt.None?
            && r.value.createdAt == now && r.value.updatedAt == now
            && WellFormed(r.value.position)
            && (forall j :: 0 <= j < |old(rowRepo.rows)| && LiveIn(old(rowRepo.rows)[j], dto.databaseId) ==>
                  Less(old(rowRepo.rows)[j].row.position, r.value.position))
            && var l := ListLive(rowRepo.rows, dto.databaseId); |l| > 0 && l[|l| - 1] == r.value)
    {
      var database := dbRepo.FindById(dto.databaseId);
      if database.None? {
        return Err(NotFound);
      }
      var position := PositionAtEnd(dto.databaseId);
      var properties := dto.properties.GetOr(map[]);
      properties := FillCreatedColumns(database.value.properties, properties, today);
      r := InsertLast(
        NewRow(slugId, position, dto.title, dto.icon, JObject(properties), dto.databaseId,
               database.value.spaceId, workspaceId, Some(userId)),
        id, now);
    }

    /** `generateJitteredKeyBetween(getLastRowPosition(db), null)`: a
        well-formed key above every live row of `db`. */
    method PositionAtEnd(db: Id) returns (position: Key)
      requires Valid()
      ensures WellFormed(position)
      ensures forall j :: 0 <= j < |rowRepo.rows| && LiveIn(rowRepo.rows[j], db) ==>
        Less(rowRepo.rows[j].row.position, position)
    {
      var lastPosition := rowRepo.GetLastRowPosition(db);
      position := KeyBetween(lastPosition, None);
      AboveLast(rowRepo.rows, db, position);
    }

    /** `insertRow` of a row whose position is above every live row of its
        database: the row becomes the last of the database's listing. */
    method InsertLast(n: NewRow, id: Id, now: Timestamp) returns (r: Result<Row>)
      requires Valid() && WellFormed(n.position)
      requires forall j :: 0 <= j < |rowRepo.rows| && LiveIn(rowRepo.rows[j], n.databaseId) ==>
        Less(rowRepo.rows[j].row.position, n.position)
      modifies rowRepo
      ensures Valid()
      ensures r.Err? <==> KeyTaken(old(rowRepo.rows), n.slugId, id)
      ensures r.Err? ==> r.error == Conflict && rowRepo.rows == old(rowRepo.rows)
      ensures r.Ok? ==> r.value == Inserted(n, id, now) && rowRepo.rows == old(rowRepo.rows) + [StoredRow(r.value, JNull)]
      ensures r.Ok? ==> var l := ListLive(rowRepo.rows, n.databaseId); |l| > 0 && l[|l| - 1] == r.value
    {
      ghost var before := rowRepo.rows;
      r := rowRepo.InsertRow(n, id, now);
      if r.Ok? {
        AppendedListedLast(before, StoredRow(r.value, JNull), n.databaseId);
        assert forall j :: 0 <= j < |before| ==> rowRepo.rows[j] == before[j];
      }
    }

    /** Sets title and icon when present (null included), merges the supplied
        properties over the stored object, always records the updater and
        leaves position and content alone. */
    method Update(userId: Id, dto: UpdateRowInput, now: Timestamp) returns (r: Result<RowView>)
      requires Valid()
      modifies rowRepo
      ensures Valid()
      ensures match old(rowRepo.FindById(dto.rowId, false))
        case None => r == Err(NotFound) && rowRepo.rows == old(rowRepo.rows)
        case Some(v) =>
          var patch := RowPatch(None, dto.title, dto.icon,
            if dto.properties.Some? then Some(JObject(Merge(v.row.properties, dto.properties.value))) else None,
            None, Some(userId));
          && rowRepo.rows == PatchRows(old(rowRepo.rows), dto.rowId, patch, now)
          && r == Ok(RowView(v.row.(
               title := if dto.title.Some? then dto.title.value else v.row.title,
               icon := if dto.icon.Some? then dto.icon.value else v.row.icon,
               properties := if dto.properties.Some? then JObject(Merge(v.row.properties, dto.properties.value)) else v.row.properties,
               lastUpdatedById := Some(userId),
               updatedAt := now), None))
    {
      var row := FindById(dto.rowId, false);
      if row.Err? {
        return Err(NotFound);
      }
      var properties := None;
      if dto.properties.Some? {
        var existingProperties := ObjectOrEmpty(row.value.row.properties);
        properties := Some(JObject(existingProperties + dto.properties.value));
      }
      var patch := RowPatch(None, dto.title, dto.icon, properties, None, Some(userId));
      WriteBack(row.value, patch, now);
      r := FindById(dto.rowId, false);
    }

    /** Replaces the content document (null when none is given), records the
        updater, and returns the row with its content. */
    method UpdateContent(userId: Id, dto: UpdateContentInput, now: Timestamp) returns (r: Result<RowView>)
      requires Valid()
      modifies rowRepo
      ensures Valid()
      ensures match old(rowRepo.FindById(dto.rowId, false))
        case None => r == Err(NotFound) && rowRepo.rows == old(rowRepo.rows)
        case Some(v) =>
          var content := if dto.content.Some? then dto.content.value else JNull;
          && rowRepo.rows == PatchRows(old(rowRepo.rows), dto.rowId, RowPatch(None, None, None, None, Some(content), Some(userId)), now)
          && r == Ok(RowView(v.row.(lastUpdatedById := Some(userId), updatedAt := now), Some(content)))
    {
      var row := FindById(dto.rowId, false);
      if row.Err? {
        return Err(NotFound);
      }
      var content := dto.content.GetOr(JNull);
      WriteBack(row.value, RowPatch(None, None, None, None, Some(content), Some(userId)), now);
      r := FindById(dto.rowId, true);
    }

    /** Gives the row a new position: after the `afterRowId` row when that id
        is non-empty, else before the `beforeRowId` row when that one is,
        else anywhere. Reports NotFound, changing nothing, when the row or the
        chosen anchor is missing. Only the position and `updatedAt` change. */
    method Move(dto: MoveRowInput, now: Timestamp) returns (r: Result<RowView>)
      requires Valid()
      modifies rowRepo
      ensures Valid()
      ensures r.Err? ==> r.error == NotFound && rowRepo.rows == old(rowRepo.rows)
      ensures r.Err? <==>
        || old(rowRepo.FindById(dto.rowId, false)).None?
        || (dto.afterRowId.Some? && dto.afterRowId.value != "" && old(rowRepo.FindById(dto.afterRowId.value, false)).None?)
        || (!(dto.afterRowId.Some? && dto.afterRowId.value != "") && dto.beforeRowId.Some? && dto.beforeRowId.value != ""
            && old(rowRepo.FindById(dto.beforeRowId.value, false)).None?)
      ensures r.Ok? ==>
        var v := old(rowRepo.FindById(dto.rowId, false)).value;
        && rowRepo.rows == PatchRows(old(rowRepo.rows), dto.rowId, RowPatch(Some(r.value.row.position), None, None, None, None, None), now)
        && r.value == RowView(v.row.(position := r.value.row.position, updatedAt := now), None)
        && WellFormed(r.value.row.position)
        && (dto.afterRowId.Some? && dto.afterRowId.value != "" ==>
              Less(old(rowRepo.FindById(dto.afterRowId.value, false)).value.row.position, r.value.row.position))
        && (!(dto.afterRowId.Some? && dto.afterRowId.value != "") && dto.beforeRowId.Some? && dto.beforeRowId.value != "" ==>
              Less(r.value.row.position, old(rowRepo.FindById(dto.beforeRowId.value, false)).value.row.position))
    {
      var row := FindById(dto.rowId, false);
      if row.Err? {
        return Err(NotFound);
      }
      var newPosition;
      if dto.afterRowId.Some? && dto.afterRowId.value != "" {
        var afterRow := FindById(dto.afterRowId.value, false);
        if afterRow.Err? {
          return Err(NotFound);
        }
        StoredPositionWellFormed(afterRow.value);
        newPosition := KeyBetween(Some(afterRow.value.row.position), None);
      } else if dto.beforeRowId.Some? && dto.beforeRowId.value != "" {
        var beforeRow := FindById(dto.beforeRowId.value, false);
        if beforeRow.Err? {
          return Err(NotFound);
        }
        StoredPositionWellFormed(beforeRow.value);
        newPosition := KeyBetween(None, Some(beforeRow.value.row.position));
      } else {
        newPosition := KeyBetween(None, None);
      }
      WriteBack(row.value, RowPatch(Some(newPosition), None, None, None, None, None), now);
      r := FindById(dto.rowId, false);
    }

    /** Reports NotFound before any write; otherwise tombstones the row. */
    method Delete(rowId: Id, now: Timestamp) returns (r: Result<()>)
      requires Valid()
      modifies rowRepo
      ensures Valid()
      ensures old(rowRepo.FindById(rowId, false)).None? ==> r == Err(NotFound) && rowRepo.rows == old(rowRepo.rows)
      ensures old(rowRepo.FindById(rowId, false)).Some? ==>
        r == Ok(()) && rowRepo.rows == TombstoneRow(old(rowRepo.rows), rowId, now)
    {
      var row := FindById(rowId, false);
      if row.Err? {
        return Err(NotFound);
      }
      rowRepo.DeleteRow(rowId, now);
      r := Ok(());
    }

    /** A row read from the store carries a well-formed position. */
    lemma StoredPositionWellFormed(v: RowView)
      requires Valid()
      requires exists j :: 0 <= j < |rowRepo.rows| && rowRepo.rows[j].row == v.row
      ensures WellFormed(v.row.position)
    {
    }

    /** `updateRow(patch, v.id)` for a live row `v` just read: the store then
        holds the patched record, which a re-read by id returns. */
    method WriteBack(v: RowView, p: RowPatch, now: Timestamp)
      requires Valid() && rowRepo.FindById(v.row.id, false) == Some(v)
      requires p.position.Some? ==> WellFormed(p.position.value)
      modifies rowRepo
      ensures Valid()
      ensures rowRepo.rows == PatchRows(old(rowRepo.rows), v.row.id, p, now)
      ensures forall inc: bool :: rowRepo.FindById(v.row.id, inc).Some?
      ensures rowRepo.FindById(v.row.id, false).value.row == ApplyPatch(StoredRow(v.row, JNull), p, now).row
      ensures p.content.Some? ==> rowRepo.FindById(v.row.id, true).value.content == p.content
    {
      var k :| 0 <= k < |rowRepo.rows| && rowRepo.rows[k].row == v.row;
      PatchKeepsPositions(rowRepo.rows, k, p, now);
      PatchRowsSpec(rowRepo.rows, k, p, now, false);
      PatchRowsSpec(rowRepo.rows, k, p, now, true);
      rowRepo.UpdateRow(p, v.row.id, now);
    }
  }
}
