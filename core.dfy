/**
 * The schema registry: the metadata dictionary maps each table name to its
 * schema, an ordered dictionary from column name to type name. `create_table`
 * adds a table with an `ID:int` column followed by the declared columns, and
 * `drop_table` removes one. Both change the dictionary in place.
 */
module Core {
  import opened Wrappers
  import opened Text
  import OrderedMap

  /** The type names a column may declare (`VALID_TYPES`). */
  const ValidTypes: set<string> := {"int", "str", "bool"}

  /** Every schema starts with this column, of type `int`. */
  const IdColumn := "ID"
  const IdType := "int"

  /** Column name -> type name, in declaration order. */
  type Schema = OrderedMap.Entries<string>

  /** Table name -> schema, in creation order. */
  type Metadata = OrderedMap.Entries<Schema>

  /** Why `create_table` left the metadata as it was. */
  datatype CreateError =
    | AlreadyExists(name: string)
    | MalformedSpec(spec: string)
    | UnknownType(typeName: string)

  /** A column spec `name:type` split on its colon; `None` when it does not split into exactly two parts. */
  function SplitSpec(col: string): (r: Option<(string, string)>)
    ensures r.Some? ==> col == r.value.0 + ":" + r.value.1
    ensures r.Some? ==> ':' !in r.value.0 && ':' !in r.value.1
  {
    match SplitFirst(col, ':')
    case None => None
    case Some(parts) => if ':' in parts.1 then None else Some(parts)
  }

  /** A spec splits into two parts exactly when it holds exactly one colon. */
  lemma {:induction false} SplitSpecCount(col: string)
    ensures SplitSpec(col).Some? <==> Count(col, ':') == 1
  {
    match SplitFirst(col, ':')
    case None =>
      CountZero(col, ':');
    case Some(parts) =>
      var (a, b) := parts;
      assert col == a + ([':'] + b);
      CountAppend(a, [':'] + b, ':');
      CountAppend([':'], b, ':');
      CountZero(a, ':');
      CountZero(b, ':');
      assert Count([':'], ':') == 1 by {
        assert [':'][1..] == [];
      }
  }

  /** Writing a spec and splitting it gives back its name and type. */
  lemma SplitSpecJoin(name: string, typeName: string)
    requires ':' !in name && ':' !in typeName
    ensures SplitSpec(name + ":" + typeName) == Some((name, typeName))
  {
    SplitFirstJoin(name, ':', typeName);
  }

  /** The column one spec declares, or why the spec is refused. */
  function ColumnOf(col: string): (r: Result<(string, string), CreateError>)
    ensures r.Ok? ==> col == r.value.0 + ":" + r.value.1 && ':' !in r.value.0 && r.value.1 in ValidTypes
    ensures r.Err? ==> r.error == MalformedSpec(col) || (r.error.UnknownType? && r.error.typeName !in ValidTypes)
  {
    match SplitSpec(col)
    case None => Err(MalformedSpec(col))
    case Some(parts) =>
      if parts.1 in ValidTypes then Ok(parts) else Err(UnknownType(parts.1))
  }

  /** A spec is refused as malformed exactly when it does not hold exactly one colon. */
  lemma ColumnOfCases(col: string)
    ensures ColumnOf(col) == Err(MalformedSpec(col)) <==> Count(col, ':') != 1
  {
    SplitSpecCount(col);
  }

  /** The spec `name:type` declares that column when the type is valid, and is refused for its type otherwise. */
  lemma ColumnOfSpec(name: string, typeName: string)
    requires ':' !in name && ':' !in typeName
    ensures ColumnOf(name + ":" + typeName) ==
      if typeName in ValidTypes then Ok((name, typeName)) else Err(UnknownType(typeName))
  {
    SplitSpecJoin(name, typeName);
  }

  /** The schema `create_table` builds before it is stored: `ID:int`, then each column in turn. */
  function BuildSchema(columns: seq<string>): (r: Result<Schema, CreateError>)
    ensures r.Err? ==> exists i :: 0 <= i < |columns| && ColumnOf(columns[i]) == Err(r.error)
    ensures r.Ok? ==> OrderedMap.IsMap(r.value)
  {
    var init: Schema := [(IdColumn, IdType)];
    assert OrderedMap.IsMap(init) by {
      assert OrderedMap.Keys(init) == [IdColumn];
    }
    OrderedMap.TryPutAllOutcome(init, columns, ColumnOf);
    OrderedMap.TryPutAll(init, columns, ColumnOf)
  }

  /** The building stops at the first refused spec and reports it. */
  lemma BuildSchemaFirstError(columns: seq<string>, i: nat)
    requires i < |columns| && ColumnOf(columns[i]).Err?
    requires forall j :: 0 <= j < i ==> ColumnOf(columns[j]).Ok?
    ensures BuildSchema(columns) == Err(ColumnOf(columns[i]).error)
  {
    OrderedMap.TryPutAllFirstError([(IdColumn, IdType)], columns, ColumnOf, i);
  }

  /** The building fails exactly when some spec is refused. */
  lemma BuildSchemaErrIff(columns: seq<string>)
    ensures BuildSchema(columns).Err? <==> exists i :: 0 <= i < |columns| && ColumnOf(columns[i]).Err?
  {
    if i :| 0 <= i < |columns| && ColumnOf(columns[i]).Err? {
      var first := FirstRefused(columns, i);
      BuildSchemaFirstError(columns, first);
    } else {
      OrderedMap.TryPutAllOk([(IdColumn, IdType)], columns, ColumnOf);
    }
  }

  /** The first refused spec, given that the one at `i` is refused. */
  function FirstRefused(columns: seq<string>, i: nat): (first: nat)
    requires i < |columns| && ColumnOf(columns[i]).Err?
    ensures first <= i && ColumnOf(columns[first]).Err?
    ensures forall j :: 0 <= j < first ==> ColumnOf(columns[j]).Ok?
  {
    if i == 0 || forall j :: 0 <= j < i ==> ColumnOf(columns[j]).Ok? then i
    else
      var j :| 0 <= j < i && ColumnOf(columns[j]).Err?;
      FirstRefused(columns, j)
  }

  /** The name and type each accepted spec declares, in order. */
  function Declared(columns: seq<string>): (ds: Schema)
    requires forall i :: 0 <= i < |columns| ==> ColumnOf(columns[i]).Ok?
    ensures |ds| == |columns|
    ensures forall i :: 0 <= i < |columns| ==> columns[i] == ds[i].0 + ":" + ds[i].1
  {
    OrderedMap.EntriesOf(columns, ColumnOf)
  }

  /**
   * A built schema starts with `ID`, lists each declared name once in order of
   * first declaration, gives a repeated name its last declared type, keeps
   * `ID:int` unless `ID` is declared, and holds only valid types.
   */
  lemma {:induction false} BuildSchemaShape(columns: seq<string>)
    requires forall i :: 0 <= i < |columns| ==> ColumnOf(columns[i]).Ok?
    ensures BuildSchema(columns).Ok?
    ensures var s := BuildSchema(columns).value;
      var ds := Declared(columns);
      && OrderedMap.IsMap(s)
      && OrderedMap.Keys(s) == OrderedMap.Dedup([IdColumn] + OrderedMap.Keys(ds))
      && s[0].0 == IdColumn
      && (forall k :: OrderedMap.Lookup(s, k) ==
            if OrderedMap.LastValue(ds, k).Some? then OrderedMap.LastValue(ds, k)
            else if k == IdColumn then Some(IdType) else None)
      && OrderedMap.ValuesIn(s, ValidTypes)
  {
    var init: Schema := [(IdColumn, IdType)];
    var ds := Declared(columns);
    OrderedMap.TryPutAllOk(init, columns, ColumnOf);
    var s := OrderedMap.PutAll(init, ds);
    assert BuildSchema(columns) == Ok(s);
    OrderedMap.PutAllKeys(init, ds);
    assert OrderedMap.Keys(init) == [IdColumn];
    OrderedMap.DedupFirst([IdColumn] + OrderedMap.Keys(ds));
    assert OrderedMap.Keys(s)[0] == IdColumn;
    forall k ensures OrderedMap.Lookup(s, k) ==
      if OrderedMap.LastValue(ds, k).Some? then OrderedMap.LastValue(ds, k)
      else if k == IdColumn then Some(IdType) else None
    {
      OrderedMap.PutAllLookup(init, ds, k);
      OrderedMap.LookupAt(init, 0);
    }
    OrderedMap.PutAllValuesIn(init, ds, ValidTypes);
  }

  /** The loop of `create_table` that fills `structure` spec by spec, stopping at the first refused one. */
  method BuildStructure(columns: seq<string>) returns (r: Result<Schema, CreateError>)
    ensures r == BuildSchema(columns)
  {
    var init: Schema := [(IdColumn, IdType)];
    var structure := init;
    var i := 0;
    while i < |columns|
      invariant 0 <= i <= |columns|
      invariant OrderedMap.TryPutAll(init, columns[..i], ColumnOf) == Ok(structure)
    {
      var col := columns[i];
      OrderedMap.TryPutAllNext(init, columns, ColumnOf, i);
      var parts := SplitSpec(col);
      if parts.None? {
        OrderedMap.TryPutAllErrPrefix(init, columns, ColumnOf, i + 1);
        return Err(MalformedSpec(col));
      }
      var (columnName, columnType) := parts.value;
      if columnType !in ValidTypes {
        OrderedMap.TryPutAllErrPrefix(init, columns, ColumnOf, i + 1);
        return Err(UnknownType(columnType));
      }
      structure := OrderedMap.Put(structure, columnName, columnType);
      i := i + 1;
    }
    assert columns[..i] == columns;
    return Ok(structure);
  }

  /** The metadata `create_table` leaves behind. */
  function AfterCreate(metadata: Metadata, name: string, columns: seq<string>): (r: Metadata)
    ensures r == metadata <==> name in OrderedMap.Keys(metadata) || BuildSchema(columns).Err?
    ensures r != metadata ==> OrderedMap.Keys(r) == OrderedMap.Keys(metadata) + [name]
    ensures OrderedMap.IsMap(metadata) ==> OrderedMap.IsMap(r)
  {
    if name in OrderedMap.Keys(metadata) then metadata
    else
      match BuildSchema(columns)
      case Err(_) => metadata
      case Ok(schema) => OrderedMap.Put(metadata, name, schema)
  }

  /** The metadata `drop_table` leaves behind. */
  function AfterDrop(metadata: Metadata, name: string): (r: Metadata)
    ensures r == metadata <==> name !in OrderedMap.Keys(metadata)
    ensures OrderedMap.IsMap(metadata) ==> name !in OrderedMap.Keys(r)
  {
    OrderedMap.Remove(metadata, name)
  }

  /**
   * A successful creation appends exactly one table, the new name with its
   * built schema, after the existing tables, which keep their order and schemas.
   */
  lemma CreateAppends(metadata: Metadata, name: string, columns: seq<string>)
    requires OrderedMap.IsMap(metadata) && name !in OrderedMap.Keys(metadata)
    requires BuildSchema(columns).Ok?
    ensures AfterCreate(metadata, name, columns) == metadata + [(name, BuildSchema(columns).value)]
    ensures OrderedMap.IsMap(AfterCreate(metadata, name, columns))
    ensures OrderedMap.Keys(AfterCreate(metadata, name, columns)) == OrderedMap.Keys(metadata) + [name]
  {
  }

  /** A refused creation, for whatever reason, leaves the metadata unchanged: no partial table is added. */
  lemma CreateRefusedUnchanged(metadata: Metadata, name: string, columns: seq<string>)
    requires name in OrderedMap.Keys(metadata) || BuildSchema(columns).Err?
    ensures AfterCreate(metadata, name, columns) == metadata
  {
  }

  /** Dropping a table removes exactly that name and leaves every other table as it was. */
  lemma DropRemovesOnly(metadata: Metadata, name: string)
    requires OrderedMap.IsMap(metadata)
    ensures OrderedMap.IsMap(AfterDrop(metadata, name))
    ensures OrderedMap.Lookup(AfterDrop(metadata, name), name) == None
    ensures forall other :: other != name ==>
      OrderedMap.Lookup(AfterDrop(metadata, name), other) == OrderedMap.Lookup(metadata, other)
    ensures name !in OrderedMap.Keys(metadata) ==> AfterDrop(metadata, name) == metadata
  {
  }

  /** Creating a new table and then dropping it gives back the metadata it started from. */
  lemma CreateThenDrop(metadata: Metadata, name: string, columns: seq<string>)
    requires OrderedMap.IsMap(metadata) && name !in OrderedMap.Keys(metadata)
    ensures AfterDrop(AfterCreate(metadata, name, columns), name) == metadata
  {
    if BuildSchema(columns).Ok? {
      OrderedMap.RemoveAppended(metadata, name, BuildSchema(columns).value);
    }
  }

  /** The metadata dictionary shared by the commands. */
  class Registry {
    var tables: Metadata

    ghost predicate Valid()
      reads this
    {
      OrderedMap.IsMap(tables)
    }

    constructor(metadata: Metadata)
      requires OrderedMap.IsMap(metadata)
      ensures Valid() && tables == metadata
    {
      tables := metadata;
    }

    /** `create_table`: adds the table, or reports why it left the metadata unchanged. */
    method CreateTable(name: string, columns: seq<string>) returns (outcome: Result<Schema, CreateError>)
      requires Valid()
      modifies this
      ensures Valid()
      ensures tables == AfterCreate(old(tables), name, columns)
      ensures name in OrderedMap.Keys(old(tables)) ==> outcome == Err(AlreadyExists(name))
      ensures name !in OrderedMap.Keys(old(tables)) ==> outcome == BuildSchema(columns)
    {
      if name in OrderedMap.Keys(tables) {
        return Err(AlreadyExists(name));
      }
      outcome := BuildStructure(columns);
      if outcome.Ok? {
        tables := OrderedMap.Put(tables, name, outcome.value);
      }
    }

    /** `drop_table`: removes the table when present; reports whether it was. */
    method DropTable(name: string) returns (dropped: bool)
      requires Valid()
      modifies this
      ensures Valid()
      ensures dropped <==> name in OrderedMap.Keys(old(tables))
      ensures tables == AfterDrop(old(tables), name)
    {
      if name !in OrderedMap.Keys(tables) {
        return false;
      }
      tables := OrderedMap.Remove(tables, name);
      dropped := true;
    }
  }

  /** A creation followed by a drop of the same new name leaves the registry as it was. */
  method CreateThenDropTable(registry: Registry, name: string, columns: seq<string>)
    requires registry.Valid() && name !in OrderedMap.Keys(registry.tables)
    modifies registry
    ensures registry.Valid() && registry.tables == old(registry.tables)
  {
    var _ := registry.CreateTable(name, columns);
    var dropped := registry.DropTable(name);
    CreateThenDrop(old(registry.tables), name, columns);
  }
}
