/** The `databases` table and its repository, in the same shape as the row
    table: records in insertion order, unique ids and slugs (the primary key
    and `databases_slug_id_unique`), lookups that take the first live match
    and updates and deletes that act on every record with the id. */
module DatabaseStore {
  import opened Common
  import opened Json
  import opened PropertyTypes
  import RowStore

  datatype Database = Database(
    id: Id,
    slugId: string,
    title: Option<string>,
    icon: Option<string>,
    properties: seq<PropertyDefinition>,
    viewConfig: Json,
    pageId: Option<Id>,
    spaceId: Id,
    workspaceId: Id,
    creatorId: Option<Id>,
    createdAt: Timestamp,
    updatedAt: Timestamp,
    deletedAt: Option<Timestamp>)

  /** The values an insert supplies; the store assigns the id, both timestamps
      and the default (empty object) view configuration. */
  datatype NewDatabase = NewDatabase(
    slugId: string,
    title: Option<string>,
    icon: Option<string>,
    properties: seq<PropertyDefinition>,
    pageId: Option<Id>,
    spaceId: Id,
    workspaceId: Id,
    creatorId: Option<Id>)

  /** The columns an update may set; None leaves a column as it is. */
  datatype DatabasePatch = DatabasePatch(
    title: Option<Option<string>>,
    icon: Option<Option<string>>,
    viewConfig: Option<Json>,
    properties: Option<seq<PropertyDefinition>>)

  datatype DatabaseLookup = ById(id: Id) | BySlug(slugId: string)

  predicate Matches(d: Database, q: DatabaseLookup) {
    match q
    case ById(id) => d.id == id
    case BySlug(slug) => d.slugId == slug
  }

  predicate Live(d: Database) {
    d.deletedAt.None?
  }

  ghost predicate UniqueKeys(dbs: seq<Database>) {
    forall i, j :: 0 <= i < |dbs| && 0 <= j < |dbs| && i != j ==>
      dbs[i].id != dbs[j].id && dbs[i].slugId != dbs[j].slugId
  }

  function FirstLive(dbs: seq<Database>, q: DatabaseLookup): (i: int)
    ensures -1 <= i < |dbs|
    ensures i == -1 <==> forall j :: 0 <= j < |dbs| ==> !(Matches(dbs[j], q) && Live(dbs[j]))
    ensures i >= 0 ==> Matches(dbs[i], q) && Live(dbs[i])
    ensures i >= 0 ==> forall j :: 0 <= j < i ==> !(Matches(dbs[j], q) && Live(dbs[j]))
  {
    if |dbs| == 0 then -1
    else if Matches(dbs[0], q) && Live(dbs[0]) then 0
    else
      var i := FirstLive(dbs[1..], q);
      if i == -1 then -1 else i + 1
  }

  /** `findById` / `findBySlugId`: a live record matching the lookup, or
      nothing when every matching record is tombstoned or there is none. */
  function FindDatabase(dbs: seq<Database>, q: DatabaseLookup): (r: Option<Database>)
    ensures r.None? <==> forall j :: 0 <= j < |dbs| ==> !(Matches(dbs[j], q) && Live(dbs[j]))
    ensures r.Some? ==> Matches(r.value, q) && Live(r.value) && r.value in dbs
  {
    var i := FirstLive(dbs, q);
    if i == -1 then None else Some(dbs[i])
  }

  /** With unique keys, a lookup of an existing record's id or slug finds that
      record exactly when it is live. */
  lemma FindDatabaseUnique(dbs: seq<Database>, k: nat, q: DatabaseLookup)
    requires UniqueKeys(dbs) && k < |dbs|
    requires q == ById(dbs[k].id) || q == BySlug(dbs[k].slugId)
    ensures FindDatabase(dbs, q) == if Live(dbs[k]) then Some(dbs[k]) else None
  {
  }

  predicate OnPage(d: Database, pageId: Id, workspaceId: Id) {
    Live(d) && d.pageId == Some(pageId) && d.workspaceId == workspaceId
  }

  /** `findByPageId`: the live databases of that page and workspace, in table order. */
  function OnPageDatabases(dbs: seq<Database>, pageId: Id, workspaceId: Id): (r: seq<Database>)
    ensures forall d :: d in r <==> d in dbs && OnPage(d, pageId, workspaceId)
    ensures |r| <= |dbs|
  {
    if |dbs| == 0 then []
    else
      var rest := OnPageDatabases(dbs[1..], pageId, workspaceId);
      assert forall d :: d in dbs <==> d == dbs[0] || d in dbs[1..];
      if OnPage(dbs[0], pageId, workspaceId) then [dbs[0]] + rest else rest
  }

  function Inserted(n: NewDatabase, id: Id, now: Timestamp): Database {
    Database(id, n.slugId, n.title, n.icon, n.properties, JObject(map[]), n.pageId, n.spaceId,
             n.workspaceId, n.creatorId, now, now, None)
  }

  predicate KeyTaken(dbs: seq<Database>, slugId: string, id: Id) {
    exists j :: 0 <= j < |dbs| && (dbs[j].slugId == slugId || dbs[j].id == id)
  }

  function ApplyPatch(d: Database, p: DatabasePatch, now: Timestamp): Database {
    d.(title := p.title.GetOr(d.title),
       icon := p.icon.GetOr(d.icon),
       viewConfig := p.viewConfig.GetOr(d.viewConfig),
       properties := p.properties.GetOr(d.properties),
       updatedAt := now)
  }

  /** A patch sets exactly the supplied columns and `updatedAt`. */
  lemma ApplyPatchSpec(d: Database, p: DatabasePatch, now: Timestamp)
    ensures var e := ApplyPatch(d, p, now);
      && e.title == (if p.title.Some? then p.title.value else d.title)
      && e.icon == (if p.icon.Some? then p.icon.value else d.icon)
      && e.viewConfig == (if p.viewConfig.Some? then p.viewConfig.value else d.viewConfig)
      && e.properties == (if p.properties.Some? then p.properties.value else d.properties)
      && e.updatedAt == now
      && e.(title := d.title, icon := d.icon, viewConfig := d.viewConfig,
            properties := d.properties, updatedAt := d.updatedAt) == d
  {
  }

  function PatchDatabases(dbs: seq<Database>, id: Id, p: DatabasePatch, now: Timestamp): seq<Database> {
    seq(|dbs|, i requires 0 <= i < |dbs| => if dbs[i].id == id then ApplyPatch(dbs[i], p, now) else dbs[i])
  }

  function TombstoneDatabase(dbs: seq<Database>, id: Id, now: Timestamp): seq<Database> {
    seq(|dbs|, i requires 0 <= i < |dbs| => if dbs[i].id == id then dbs[i].(deletedAt := Some(now)) else dbs[i])
  }

  function WithoutDatabase(dbs: seq<Database>, id: Id): (r: seq<Database>)
    ensures forall d :: d in r <==> d in dbs && d.id != id
  {
    if |dbs| == 0 then []
    else if dbs[0].id == id then WithoutDatabase(dbs[1..], id)
    else [dbs[0]] + WithoutDatabase(dbs[1..], id)
  }

  lemma {:induction false} WithoutDatabaseUnique(dbs: seq<Database>, id: Id)
    requires UniqueKeys(dbs)
    ensures UniqueKeys(WithoutDatabase(dbs, id))
  {
    if |dbs| > 0 {
      var tail := dbs[1..];
      UniqueKeysTail(dbs);
      WithoutDatabaseUnique(tail, id);
      if dbs[0].id != id {
        var rest := WithoutDatabase(tail, id);
        forall j | 0 <= j < |rest|
          ensures rest[j].id != dbs[0].id && rest[j].slugId != dbs[0].slugId
        {
          assert rest[j] in tail;
          var m :| 0 <= m < |tail| && tail[m] == rest[j];
        }
        UniqueKeysCons(dbs[0], rest);
      }
    }
  }

  /** The tail of a table with unique keys has unique keys, none shared with the head. */
  lemma UniqueKeysTail(dbs: seq<Database>)
    requires UniqueKeys(dbs) && |dbs| > 0
    ensures UniqueKeys(dbs[1..])
    ensures forall j :: 0 <= j < |dbs[1..]| ==> dbs[1..][j].id != dbs[0].id && dbs[1..][j].slugId != dbs[0].slugId
  {
    forall i, j | 0 <= i < |dbs[1..]| && 0 <= j < |dbs[1..]| && i != j
      ensures dbs[1..][i].id != dbs[1..][j].id && dbs[1..][i].slugId != dbs[1..][j].slugId
    {
      assert dbs[1..][i] == dbs[i + 1] && dbs[1..][j] == dbs[j + 1];
    }
  }

  lemma UniqueKeysCons(d: Database, rest: seq<Database>)
    requires UniqueKeys(rest)
    requires forall j :: 0 <= j < |rest| ==> rest[j].id != d.id && rest[j].slugId != d.slugId
    ensures UniqueKeys([d] + rest)
  {
    var r := [d] + rest;
    forall i, j | 0 <= i < |r| && 0 <= j < |r| && i != j
      ensures r[i].id != r[j].id && r[i].slugId != r[j].slugId
    {
      if i > 0 && j > 0 {
        assert r[i] == rest[i - 1] && r[j] == rest[j - 1];
      }
    }
  }

  lemma {:induction false} WithoutAbsentDatabase(dbs: seq<Database>, id: Id)
    requires forall j :: 0 <= j < |dbs| ==> dbs[j].id != id
    ensures WithoutDatabase(dbs, id) == dbs
  {
    if |dbs| > 0 {
      assert forall j :: 0 <= j < |dbs[1..]| ==> dbs[1..][j] == dbs[j + 1];
      WithoutAbsentDatabase(dbs[1..], id);
      assert dbs == [dbs[0]] + dbs[1..];
    }
  }

  /** Hard delete is idempotent. */
  lemma WithoutDatabaseIdempotent(dbs: seq<Database>, id: Id)
    ensures WithoutDatabase(WithoutDatabase(dbs, id), id) == WithoutDatabase(dbs, id)
  {
  }

  /** A soft delete keeps every record, changes only the target's `deletedAt`
      and hides the target from both lookups. */
  lemma TombstoneDatabaseSpec(dbs: seq<Database>, k: nat, now: Timestamp)
    requires UniqueKeys(dbs) && k < |dbs|
    ensures var t := TombstoneDatabase(dbs, dbs[k].id, now);
      && |t| == |dbs|
      && t[k] == dbs[k].(deletedAt := Some(now))
      && (forall j :: 0 <= j < |dbs| && j != k ==> t[j] == dbs[j])
      && FindDatabase(t, ById(dbs[k].id)).None?
      && FindDatabase(t, BySlug(dbs[k].slugId)).None?
  {
  }

  /** After an update of an existing record, a lookup by its id finds the
      patched record (if it is live), and every other record is as it was. */
  lemma PatchDatabasesSpec(dbs: seq<Database>, k: nat, p: DatabasePatch, now: Timestamp)
    requires UniqueKeys(dbs) && k < |dbs|
    ensures var t := PatchDatabases(dbs, dbs[k].id, p, now);
      && |t| == |dbs| && UniqueKeys(t)
      && t[k] == ApplyPatch(dbs[k], p, now)
      && (forall j :: 0 <= j < |dbs| && j != k ==> t[j] == dbs[j])
      && FindDatabase(t, ById(dbs[k].id)) == if Live(dbs[k]) then Some(ApplyPatch(dbs[k], p, now)) else None
  {
  }

  class DatabaseRepo {
    var databases: seq<Database>

    ghost predicate Valid()
      reads this
    {
      UniqueKeys(databases)
    }

    constructor ()
      ensures Valid() && databases == []
    {
      databases := [];
    }

    /** Nothing when no live record has the id; otherwise a live stored
        record with that id. */
    function FindById(id: Id): (r: Option<Database>)
      reads this
      ensures r.None? <==> forall j :: 0 <= j < |databases| ==> !(databases[j].id == id && databases[j].deletedAt.None?)
      ensures r.Some? ==> r.value.id == id && r.value.deletedAt.None? && r.value in databases
    {
      FindDatabase(databases, ById(id))
    }

    /** Nothing when no live record has the slug; otherwise a live stored
        record with that slug. */
    function FindBySlugId(slugId: string): (r: Option<Database>)
      reads this
      ensures r.None? <==> forall j :: 0 <= j < |databases| ==> !(databases[j].slugId == slugId && databases[j].deletedAt.None?)
      ensures r.Some? ==> r.value.slugId == slugId && r.value.deletedAt.None? && r.value in databases
    {
      FindDatabase(databases, BySlug(slugId))
    }

    /** Exactly the live databases of that page in that workspace. */
    function FindByPageId(pageId: Id, workspaceId: Id): (r: seq<Database>)
      reads this
      ensures forall d :: d in r <==>
        d in databases && d.deletedAt.None? && d.pageId == Some(pageId) && d.workspaceId == workspaceId
    {
      OnPageDatabases(databases, pageId, workspaceId)
    }

    /** Adds exactly one record, or reports Conflict, changing nothing, when
        the slug or the id is already in the table. */
    method InsertDatabase(n: NewDatabase, id: Id, now: Timestamp) returns (r: Result<Database>)
      requires Valid()
      modifies this
      ensures Valid()
      ensures r.Err? <==> KeyTaken(old(databases), n.slugId, id)
      ensures r.Err? ==> r.error == Conflict && databases == old(databases)
      ensures r.Ok? ==> r.value == Inserted(n, id, now) && databases == old(databases) + [r.value]
    {
      if exists j :: 0 <= j < |databases| && (databases[j].slugId == n.slugId || databases[j].id == id) {
        r := Err(Conflict);
      } else {
        var d := Inserted(n, id, now);
        databases := databases + [d];
        r := Ok(d);
      }
    }

    method UpdateDatabase(p: DatabasePatch, id: Id, now: Timestamp)
      requires Valid()
      modifies this
      ensures Valid()
      ensures databases == PatchDatabases(old(databases), id, p, now)
    {
      databases := PatchDatabases(databases, id, p, now);
    }

    /** Sets `deletedAt` only; the record stays and no row is touched. */
    method DeleteDatabase(id: Id, now: Timestamp)
      requires Valid()
      modifies this
      ensures Valid()
      ensures databases == TombstoneDatabase(old(databases), id, now)
    {
      databases := TombstoneDatabase(databases, id, now);
    }

    /** Removes the record; the store's `ON DELETE CASCADE` on
        `database_rows.database_id` removes the database's rows with it. */
    method PermanentlyDeleteDatabase(id: Id, rowTable: RowStore.DatabaseRowRepo)
      requires Valid() && rowTable.Valid()
      modifies this, rowTable
      ensures Valid() && rowTable.Valid()
      ensures databases == WithoutDatabase(old(databases), id)
      ensures rowTable.rows == RowStore.WithoutDatabaseRows(old(rowTable.rows), id)
    {
      WithoutDatabaseUnique(databases, id);
      databases := WithoutDatabase(databases, id);
      rowTable.CascadeDatabaseDelete(id);
    }
  }
}
