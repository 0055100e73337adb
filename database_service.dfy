/** Schema orchestration for database blocks (`DatabaseService`). Every
    schema operation reads the stored column list, changes it and writes the
    whole list back. The pure functions AddedSchema, UpdatedSchema and
    DeletedSchema state what each operation makes of the list; the lemmas
    after them say what that means (the list is never empty, ids are
    stable, order is kept, only the target changes); the methods of the
    service class are proved to store exactly those lists. */
module DatabaseServices {
  import opened Common
  import opened Json
  import opened PropertyTypes
  import opened DatabaseStore

  /** Validated request bodies. An absent optional field is None. The
      service tests `options` and `viewConfig` for truthiness; request
      validation rejects an empty string there, so the test amounts to a
      presence test. */
  datatype CreateDatabaseInput = CreateDatabaseInput(title: Option<string>, icon: Option<string>, pageId: Id, spaceId: Id)
  datatype UpdateDatabaseInput = UpdateDatabaseInput(databaseId: Id, title: Option<string>, icon: Option<string>, viewConfig: Option<Json>)
  datatype AddPropertyInput = AddPropertyInput(databaseId: Id, name: string, propertyType: PropertyType, options: Option<PropertyOptions>)
  datatype UpdatePropertyInput = UpdatePropertyInput(
    databaseId: Id, propertyId: Id, name: Option<string>, propertyType: Option<PropertyType>,
    width: Option<real>, options: Option<PropertyOptions>)
  datatype DeletePropertyInput = DeletePropertyInput(databaseId: Id, propertyId: Id)

  const DefaultTitle: string := "Untitled Database"

  /** Every stored database has at least one column. */
  predicate SchemasNonEmpty(dbs: seq<Database>) {
    forall i :: 0 <= i < |dbs| ==> |dbs[i].properties| >= 1
  }

  function Ids(props: seq<PropertyDefinition>): (ids: seq<Id>)
    ensures |ids| == |props| && forall i :: 0 <= i < |props| ==> ids[i] == props[i].id
  {
    seq(|props|, i requires 0 <= i < |props| => props[i].id)
  }

  predicate UniqueIds(props: seq<PropertyDefinition>) {
    forall i, j :: 0 <= i < j < |props| ==> props[i].id != props[j].id
  }

  /** No stored database has two columns with the same id. */
  predicate SchemaIdsUnique(dbs: seq<Database>) {
    forall i :: 0 <= i < |dbs| ==> UniqueIds(dbs[i].properties)
  }

  /** The first position holding that id, or -1 when no column has it. */
  function FindIndex(props: seq<PropertyDefinition>, id: Id): (i: int)
    ensures -1 <= i < |props|
    ensures i == -1 <==> forall j :: 0 <= j < |props| ==> props[j].id != id
    ensures i >= 0 ==> props[i].id == id && forall j :: 0 <= j < i ==> props[j].id != id
  {
    if |props| == 0 then -1
    else if props[0].id == id then 0
    else
      var i := FindIndex(props[1..], id);
      if i == -1 then -1 else i + 1
  }

  /** The columns whose id differs from `id`, in their order. */
  function FilterOut(props: seq<PropertyDefinition>, id: Id): (r: seq<PropertyDefinition>)
    ensures forall p :: p in r <==> p in props && p.id != id
    ensures |r| <= |props|
    ensures |r| == |props| <==> forall j :: 0 <= j < |props| ==> props[j].id != id
  {
    if |props| == 0 then []
    else
      var rest := FilterOut(props[1..], id);
      assert forall j :: 1 <= j < |props| ==> props[j] == props[1..][j - 1];
      if props[0].id == id then rest else [props[0]] + rest
  }

  /** With unique ids, filtering an id out removes exactly its one entry and
      keeps the others in their order. */
  lemma {:induction false} FilterOutSplice(props: seq<PropertyDefinition>, k: nat)
    requires UniqueIds(props) && k < |props|
    ensures FilterOut(props, props[k].id) == props[..k] + props[k + 1..]
  {
    var id := props[k].id;
    var tail := props[1..];
    UniqueTail(props);
    if k == 0 {
      FilterOutAbsent(tail, id);
      assert props[k + 1..] == tail;
    } else {
      assert tail[k - 1] == props[k];
      FilterOutSplice(tail, k - 1);
      assert FilterOut(props, id) == [props[0]] + FilterOut(tail, id);
      ConsSplice(props, k);
    }
  }

  lemma ConsSplice<T>(s: seq<T>, k: nat)
    requires 0 < k < |s|
    ensures [s[0]] + (s[1..][..k - 1] + s[1..][k..]) == s[..k] + s[k + 1..]
  {
  }

  /** The tail of a list with unique ids has unique ids, none equal to the head's. */
  lemma UniqueTail(props: seq<PropertyDefinition>)
    requires UniqueIds(props) && |props| > 0
    ensures UniqueIds(props[1..])
    ensures forall j :: 0 <= j < |props[1..]| ==> props[1..][j].id != props[0].id
  {
  }

  lemma {:induction false} FilterOutAbsent(props: seq<PropertyDefinition>, id: Id)
    requires forall j :: 0 <= j < |props| ==> props[j].id != id
    ensures FilterOut(props, id) == props
  {
    if |props| > 0 {
      assert forall j :: 0 <= j < |props[1..]| ==> props[1..][j] == props[j + 1];
      FilterOutAbsent(props[1..], id);
      assert props == [props[0]] + props[1..];
    }
  }

  /** Filtering keeps ids unique. */
  lemma {:induction false} FilterOutUnique(props: seq<PropertyDefinition>, id: Id)
    requires UniqueIds(props)
    ensures UniqueIds(FilterOut(props, id))
  {
    if |props| > 0 {
      var tail := props[1..];
      UniqueTail(props);
      FilterOutUnique(tail, id);
      var rest := FilterOut(tail, id);
      forall p | p in rest
        ensures p.id != props[0].id
      {
        var j :| 0 <= j < |tail| && tail[j] == p;
      }
    }
  }

  lemma {:induction false} FilterOutAll(props: seq<PropertyDefinition>, id: Id)
    requires forall j :: 0 <= j < |props| ==> props[j].id == id
    ensures FilterOut(props, id) == []
  {
    if |props| > 0 {
      assert forall j :: 0 <= j < |props[1..]| ==> props[1..][j] == props[j + 1];
      FilterOutAll(props[1..], id);
    }
  }

  /** With unique ids, a filter that removed something cut out exactly one
      entry and left the ids unique. */
  lemma FilteredSplice(props: seq<PropertyDefinition>, id: Id)
    requires UniqueIds(props) && |FilterOut(props, id)| < |props|
    ensures UniqueIds(FilterOut(props, id))
    ensures exists k :: 0 <= k < |props| && props[k].id == id && FilterOut(props, id) == props[..k] + props[k + 1..]
  {
    var k := FindIndex(props, id);
    FilterOutSplice(props, k);
    FilterOutUnique(props, id);
  }

  /** The column `create` seeds. */
  function TitleColumn(propertyId: Id): PropertyDefinition {
    PropertyDefinition(propertyId, "Title", Text, None, None)
  }

  /** The column `addProperty` appends: a fresh id, the given name, type and
      options, no width. */
  function NewColumn(propertyId: Id, dto: AddPropertyInput): PropertyDefinition {
    PropertyDefinition(propertyId, dto.name, dto.propertyType, None, dto.options)
  }

  /** The patched column: keeps its id; name, type and width fall back to the
      old values when not supplied, and options are replaced only when supplied. */
  function PatchColumn(p: PropertyDefinition, dto: UpdatePropertyInput): PropertyDefinition {
    PropertyDefinition(
      p.id,
      dto.name.GetOr(p.name),
      dto.propertyType.GetOr(p.propertyType),
      if dto.width.Some? then dto.width else p.width,
      if dto.options.Some? then dto.options else p.options)
  }

  // ---------------------------------------------------------------------------
  // What the three schema operations make of the column list

  function AddedSchema(props: seq<PropertyDefinition>, propertyId: Id, dto: AddPropertyInput): seq<PropertyDefinition> {
    props + [NewColumn(propertyId, dto)]
  }

  function UpdatedSchema(props: seq<PropertyDefinition>, dto: UpdatePropertyInput): Result<seq<PropertyDefinition>> {
    var i := FindIndex(props, dto.propertyId);
    if i == -1 then Err(NotFound) else Ok(props[i := PatchColumn(props[i], dto)])
  }

  function DeletedSchema(props: seq<PropertyDefinition>, propertyId: Id): Result<seq<PropertyDefinition>> {
    var filtered := FilterOut(props, propertyId);
    if |filtered| == |props| then Err(NotFound)
    else if |filtered| == 0 then Err(InvalidState)
    else Ok(filtered)
  }

  /** Adding a column appends one entry with the fresh id and the given name,
      type and options, leaving every earlier entry as it was; ids stay unique
      when the fresh id is new. */
  lemma AddedSchemaSpec(props: seq<PropertyDefinition>, propertyId: Id, dto: AddPropertyInput)
    ensures var r := AddedSchema(props, propertyId, dto);
      && |r| == |props| + 1 && r[..|props|] == props
      && r[|props|].id == propertyId && r[|props|].name == dto.name
      && r[|props|].propertyType == dto.propertyType && r[|props|].options == dto.options
      && r[|props|].width.None?
      && Ids(r) == Ids(props) + [propertyId]
      && (UniqueIds(props) && propertyId !in Ids(props) ==> UniqueIds(r))
  {
  }

  /** Updating a column fails with NotFound exactly when no entry has the id.
      Otherwise the list keeps its length and its ids; the first entry with
      the id keeps its place and id, takes each supplied field and keeps each
      omitted one (options are replaced only when supplied); every other
      entry is unchanged. */
  lemma UpdatedSchemaSpec(props: seq<PropertyDefinition>, dto: UpdatePropertyInput)
    ensures UpdatedSchema(props, dto).Err? <==> forall j :: 0 <= j < |props| ==> props[j].id != dto.propertyId
    ensures UpdatedSchema(props, dto).Err? ==> UpdatedSchema(props, dto).error == NotFound
    ensures UpdatedSchema(props, dto).Ok? ==>
      var r := UpdatedSchema(props, dto).value;
      exists i :: 0 <= i < |props| && props[i].id == dto.propertyId
        && (forall j :: 0 <= j < i ==> props[j].id != dto.propertyId)
        && |r| == |props| && Ids(r) == Ids(props)
        && r[i].id == props[i].id
        && r[i].name == (if dto.name.Some? then dto.name.value else props[i].name)
        && r[i].propertyType == (if dto.propertyType.Some? then dto.propertyType.value else props[i].propertyType)
        && r[i].width == (if dto.width.Some? then dto.width else props[i].width)
        && r[i].options == (if dto.options.Some? then dto.options else props[i].options)
        && (forall j :: 0 <= j < |props| && j != i ==> r[j] == props[j])
    ensures UpdatedSchema(props, dto).Ok? && UniqueIds(props) ==> UniqueIds(UpdatedSchema(props, dto).value)
  {
    var i := FindIndex(props, dto.propertyId);
    if i != -1 {
      var r := props[i := PatchColumn(props[i], dto)];
      assert Ids(r) == Ids(props);
    }
  }

  /** Deleting a column fails with NotFound when no entry has the id, and with
      InvalidState when every entry has it (nothing would remain). Otherwise
      the result is non-empty, holds exactly the entries with another id, and,
      with unique ids, is the old list with the one target entry cut out. */
  lemma DeletedSchemaSpec(props: seq<PropertyDefinition>, propertyId: Id)
    ensures DeletedSchema(props, propertyId) == Err(NotFound) <==> forall j :: 0 <= j < |props| ==> props[j].id != propertyId
    ensures DeletedSchema(props, propertyId) == Err(InvalidState) <==>
      (|props| > 0 && forall j :: 0 <= j < |props| ==> props[j].id == propertyId)
    ensures DeletedSchema(props, propertyId).Ok? ==>
      var r := DeletedSchema(props, propertyId).value;
      && |r| >= 1 && |r| < |props|
      && (forall p :: p in r <==> p in props && p.id != propertyId)
    ensures forall k :: 0 <= k < |props| && UniqueIds(props) && props[k].id == propertyId && |props| > 1 ==>
      DeletedSchema(props, propertyId) == Ok(props[..k] + props[k + 1..])
  {
    var filtered := FilterOut(props, propertyId);
    if |filtered| == 0 && |props| > 0 {
      assert forall j :: 0 <= j < |props| ==> props[j] !in filtered;
    }
    if forall j :: 0 <= j < |props| ==> props[j].id == propertyId {
      FilterOutAll(props, propertyId);
    }
    forall k | 0 <= k < |props| && UniqueIds(props) && props[k].id == propertyId && |props| > 1
      ensures DeletedSchema(props, propertyId) == Ok(props[..k] + props[k + 1..])
    {
      FilterOutSplice(props, k);
    }
  }

  // ---------------------------------------------------------------------------
  // The schema invariant over any sequence of calls

  datatype SchemaOp =
    | AddOp(propertyId: Id, add: AddPropertyInput)
    | UpdateOp(update: UpdatePropertyInput)
    | DeleteOp(delete: Id)

  /** The column list after a sequence of schema calls; a call that fails
      leaves the list as it was. */
  function ApplyOps(props: seq<PropertyDefinition>, ops: seq<SchemaOp>): seq<PropertyDefinition>
    decreases |ops|
  {
    if |ops| == 0 then props
    else
      var next := match ops[0]
        case AddOp(id, dto) => AddedSchema(props, id, dto)
        case UpdateOp(dto) => (var r := UpdatedSchema(props, dto); if r.Ok? then r.value else props)
        case DeleteOp(id) => (var r := DeletedSchema(props, id); if r.Ok? then r.value else props);
      ApplyOps(next, ops[1..])
  }

  /** A database created with its one title column keeps at least one column
      whatever schema calls follow. */
  lemma {:induction false} SchemaNeverEmpty(props: seq<PropertyDefinition>, ops: seq<SchemaOp>)
    requires |props| >= 1
    ensures |ApplyOps(props, ops)| >= 1
    decreases |ops|
  {
    if |ops| > 0 {
      match ops[0]
      case AddOp(id, dto) =>
        SchemaNeverEmpty(AddedSchema(props, id, dto), ops[1..]);
      case UpdateOp(dto) =>
        var r := UpdatedSchema(props, dto);
        UpdatedSchemaSpec(props, dto);
        SchemaNeverEmpty(if r.Ok? then r.value else props, ops[1..]);
      case DeleteOp(id) =>
        var r := DeletedSchema(props, id);
        DeletedSchemaSpec(props, id);
        SchemaNeverEmpty(if r.Ok? then r.value else props, ops[1..]);
    }
  }

  lemma CreatedSchemaNeverEmpty(propertyId: Id, ops: seq<SchemaOp>)
    ensures |ApplyOps([TitleColumn(propertyId)], ops)| >= 1
  {
    SchemaNeverEmpty([TitleColumn(propertyId)], ops);
  }

  /** A patch whose column list, if any, is non-empty with unique ids keeps
      both properties of every stored schema. */
  lemma PatchKeepsSchemas(dbs: seq<Database>, k: nat, p: DatabasePatch, now: Timestamp)
    requires UniqueKeys(dbs) && k < |dbs| && SchemasNonEmpty(dbs) && SchemaIdsUnique(dbs)
    requires p.properties.Some? ==> |p.properties.value| >= 1 && UniqueIds(p.properties.value)
    ensures var t := PatchDatabases(dbs, dbs[k].id, p, now);
      SchemasNonEmpty(t) && SchemaIdsUnique(t)
  {
    PatchDatabasesSpec(dbs, k, p, now);
  }

  // ---------------------------------------------------------------------------
  // The service

  class DatabaseService {
    const repo: DatabaseRepo

    /** The store's own invariant; every stored database has a column, and
        no two columns of one database share an id. */
    ghost predicate Valid()
      reads this, repo
    {
      repo.Valid() && SchemasNonEmpty(repo.databases) && SchemaIdsUnique(repo.databases)
    }

    constructor (repo: DatabaseRepo)
      requires repo.Valid() && SchemasNonEmpty(repo.databases) && SchemaIdsUnique(repo.databases)
      ensures this.repo == repo && Valid()
    {
      this.repo := repo;
    }

    /** NotFound exactly when no live database has the id; otherwise a live
        stored database with that id. */
    function FindById(databaseId: Id): (r: Result<Database>)
      reads this, repo
      ensures r.Err? <==> forall j :: 0 <= j < |repo.databases| ==>
        !(repo.databases[j].id == databaseId && repo.databases[j].deletedAt.None?)
      ensures r.Err? ==> r.error == NotFound
      ensures r.Ok? ==> r.value.id == databaseId && r.value.deletedAt.None? && r.value in repo.databases
    {
      match repo.FindById(databaseId)
      case None => Err(NotFound)
      case Some(d) => Ok(d)
    }

    /** NotFound exactly when no live database has the slug; otherwise a live
        stored database with that slug. */
    function FindBySlugId(slugId: string): (r: Result<Database>)
      reads this, repo
      ensures r.Err? <==> forall j :: 0 <= j < |repo.databases| ==>
        !(repo.databases[j].slugId == slugId && repo.databases[j].deletedAt.None?)
      ensures r.Err? ==> r.error == NotFound
      ensures r.Ok? ==> r.value.slugId == slugId && r.value.deletedAt.None? && r.value in repo.databases
    {
      match repo.FindBySlugId(slugId)
      case None => Err(NotFound)
      case Some(d) => Ok(d)
    }

    /** Stores a new database with exactly one column, a text column named
        "Title", and the title "Untitled Database" when none (or an empty one)
        is given. `propertyId`, `slugId` and `id` are the fresh identifiers. */
    method Create(userId: Id, workspaceId: Id, dto: CreateDatabaseInput, propertyId: Id, slugId: string, id: Id, now: Timestamp)
      returns (r: Result<Database>)
      requires Valid()
      modifies repo
      ensures Valid()
      ensures r.Err? <==> KeyTaken(old(repo.databases), slugId, id)
      ensures r.Err? ==> r.error == Conflict && repo.databases == old(repo.databases)
      ensures r.Ok? ==> repo.databases == old(repo.databases) + [r.value]
      ensures r.Ok? ==>
        && r.value.properties == [PropertyDefinition(propertyId, "Title", Text, None, None)]
        && r.value.title == Some(if dto.title.Some? && dto.title.value != "" then dto.title.value else "Untitled Database")
        && r.value.icon == dto.icon && r.value.pageId == Some(dto.pageId)
        && r.value.spaceId == dto.spaceId && r.value.workspaceId == workspaceId
        && r.value.creatorId == Some(userId) && r.value.id == id && r.value.slugId == slugId
        && r.value.deletedAt.None?
    {
      var defaultProperties := [TitleColumn(propertyId)];
      var title := if dto.title.Some? && dto.title.value != "" then dto.title.value else DefaultTitle;
      r := repo.InsertDatabase(
        NewDatabase(slugId, Some(title), dto.icon, defaultProperties, Some(dto.pageId), dto.spaceId, workspaceId, Some(userId)),
        id, now);
    }

    /** Keeps the previous title, icon and view configuration for each field
        not supplied; never touches the column list. */
    method Update(dto: UpdateDatabaseInput, now: Timestamp) returns (r: Result<Database>)
      requires Valid()
      modifies repo
      ensures Valid()
      ensures match old(repo.FindById(dto.databaseId))
        case None => r == Err(NotFound) && repo.databases == old(repo.databases)
        case Some(d) =>
          var patch := DatabasePatch(
            Some(if dto.title.Some? then dto.title else d.title),
            Some(if dto.icon.Some? then dto.icon else d.icon),
            Some(if dto.viewConfig.Some? then dto.viewConfig.value else d.viewConfig),
            None);
          && repo.databases == PatchDatabases(old(repo.databases), dto.databaseId, patch, now)
          && r == Ok(d.(title := if dto.title.Some? then dto.title else d.title,
                        icon := if dto.icon.Some? then dto.icon else d.icon,
                        viewConfig := if dto.viewConfig.Some? then dto.viewConfig.value else d.viewConfig,
                        updatedAt := now))
    {
      var found := FindById(dto.databaseId);
      if found.Err? {
        return Err(NotFound);
      }
      var database := found.value;
      var patch := DatabasePatch(
        Some(if dto.title.Some? then dto.title else database.title),
        Some(if dto.icon.Some? then dto.icon else database.icon),
        Some(dto.viewConfig.GetOr(database.viewConfig)),
        None);
      WriteBack(database, patch, now);
      r := FindById(dto.databaseId);
    }

    /** Raises NotFound before any write; otherwise tombstones the database
        record and nothing else (its rows are not soft-deleted). */
    method Delete(databaseId: Id, now: Timestamp) returns (r: Result<()>)
      requires Valid()
      modifies repo
      ensures Valid()
      ensures old(repo.FindById(databaseId)).None? ==> r == Err(NotFound) && repo.databases == old(repo.databases)
      ensures old(repo.FindById(databaseId)).Some? ==>
        r == Ok(()) && repo.databases == TombstoneDatabase(old(repo.databases), databaseId, now)
    {
      var found := FindById(databaseId);
      if found.Err? {
        return Err(NotFound);
      }
      repo.DeleteDatabase(databaseId, now);
      r := Ok(());
    }

    /** `propertyId` is the fresh column id: no column of the database holds it. */
    method AddProperty(dto: AddPropertyInput, propertyId: Id, now: Timestamp) returns (r: Result<Database>)
      requires Valid()
      requires repo.FindById(dto.databaseId).Some? ==> propertyId !in Ids(repo.FindById(dto.databaseId).value.properties)
      modifies repo
      ensures Valid()
      ensures match old(repo.FindById(dto.databaseId))
        case None => r == Err(NotFound) && repo.databases == old(repo.databases)
        case Some(d) =>
          var props := AddedSchema(d.properties, propertyId, dto);
          && repo.databases == PatchDatabases(old(repo.databases), dto.databaseId, DatabasePatch(None, None, None, Some(props)), now)
          && r == Ok(d.(properties := props, updatedAt := now))
    {
      var found := FindById(dto.databaseId);
      if found.Err? {
        return Err(NotFound);
      }
      var properties := found.value.properties;
      var newProperty := NewColumn(propertyId, dto);
      AddedSchemaSpec(properties, propertyId, dto);
      properties := properties + [newProperty];
      WriteBack(found.value, DatabasePatch(None, None, None, Some(properties)), now);
      r := FindById(dto.databaseId);
    }

    method UpdateProperty(dto: UpdatePropertyInput, now: Timestamp) returns (r: Result<Database>)
      requires Valid()
      modifies repo
      ensures Valid()
      ensures match old(repo.FindById(dto.databaseId))
        case None => r == Err(NotFound) && repo.databases == old(repo.databases)
        case Some(d) =>
          match UpdatedSchema(d.properties, dto)
          case Err(e) => r == Err(e) && repo.databases == old(repo.databases)
          case Ok(props) =>
            && repo.databases == PatchDatabases(old(repo.databases), dto.databaseId, DatabasePatch(None, None, None, Some(props)), now)
            && r == Ok(d.(properties := props, updatedAt := now))
    {
      var found := FindById(dto.databaseId);
      if found.Err? {
        return Err(NotFound);
      }
      var properties := found.value.properties;
      var propertyIndex := FindIndex(properties, dto.propertyId);
      if propertyIndex == -1 {
        return Err(NotFound);
      }
      UpdatedSchemaSpec(properties, dto);
      var property := properties[propertyIndex];
      properties := properties[propertyIndex := PatchColumn(property, dto)];
      WriteBack(found.value, DatabasePatch(None, None, None, Some(properties)), now);
      r := FindById(dto.databaseId);
    }

    method DeleteProperty(dto: DeletePropertyInput, now: Timestamp) returns (r: Result<Database>)
      requires Valid()
      modifies repo
      ensures Valid()
      ensures match old(repo.FindById(dto.databaseId))
        case None => r == Err(NotFound) && repo.databases == old(repo.databases)
        case Some(d) =>
          match DeletedSchema(d.properties, dto.propertyId)
          case Err(e) => r == Err(e) && repo.databases == old(repo.databases)
          case Ok(props) =>
            && repo.databases == PatchDatabases(old(repo.databases), dto.databaseId, DatabasePatch(None, None, None, Some(props)), now)
            && r == Ok(d.(properties := props, updatedAt := now))
            && exists k :: 0 <= k < |d.properties| && d.properties[k].id == dto.propertyId
                 && props == d.properties[..k] + d.properties[k + 1..]
    {
      var found := FindById(dto.databaseId);
      if found.Err? {
        return Err(NotFound);
      }
      var properties := found.value.properties;
      var filteredProperties := FilterOut(properties, dto.propertyId);
      if |filteredProperties| == |properties| {
        return Err(NotFound);
      }
      if |filteredProperties| == 0 {
        return Err(InvalidState);
      }
      FilteredSplice(properties, dto.propertyId);
      WriteBack(found.value, DatabasePatch(None, None, None, Some(filteredProperties)), now);
      r := FindById(dto.databaseId);
    }

    /** `updateDatabase(patch, d.id)` for a live database `d` just read: the
        store then holds the patched record, which a re-read returns. */
    method WriteBack(d: Database, p: DatabasePatch, now: Timestamp)
      requires Valid() && repo.FindById(d.id) == Some(d)
      requires p.properties.Some? ==> |p.properties.value| >= 1 && UniqueIds(p.properties.value)
      modifies repo
      ensures Valid()
      ensures repo.databases == PatchDatabases(old(repo.databases), d.id, p, now)
      ensures repo.FindById(d.id) == Some(ApplyPatch(d, p, now))
    {
      var k :| 0 <= k < |repo.databases| && repo.databases[k] == d;
      PatchKeepsSchemas(repo.databases, k, p, now);
      PatchDatabasesSpec(repo.databases, k, p, now);
      repo.UpdateDatabase(p, d.id, now);
    }
  }
}
