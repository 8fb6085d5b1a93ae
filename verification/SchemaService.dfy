/** Schema discovery, scoped to what the caller may see: tables that are hidden from a caller have no
    influence on any answer or error. */
module SchemaService {
  import opened Results

  // --- what an adapter reports ----------------------------------------------------------------

  datatype TableKind = BaseTable | View

  datatype Column = Column(name: string, typeName: string, nullable: bool, primaryKey: bool, comment: Option<string>)

  datatype ForeignKey = ForeignKey(fromTable: string, columns: seq<string>, toTable: string, toColumns: seq<string>)

  datatype Table = Table(name: string, kind: TableKind, comment: Option<string>, columns: seq<Column>,
                         foreignKeys: seq<ForeignKey>)

  /** The exposed tables under their canonical names, in the order they are listed. */
  type Database = seq<Table>

  ghost predicate NamesAreUnique(db: Database) {
    forall i, j | 0 <= i < j < |db| :: db[i].name != db[j].name
  }

  datatype Error = TableNotFound(name: string)

  /** Case folding and the output sanitizer, which may flag what it is given under a label. */
  datatype Library = Library(fold: string -> string, clean: (string, string) -> (string, seq<string>))

  function IndexOf(db: Database, name: string): Option<nat> {
    if db == [] then None
    else if db[0].name == name then Some(0)
    else match IndexOf(db[1..], name) case None => None case Some(i) => Some(i + 1)
  }

  /** Tables whose names are equal to `name` up to case. */
  function Matches(lib: Library, db: Database, name: string): seq<Table> {
    if db == [] then []
    else (if lib.fold(db[0].name) == lib.fold(name) then [db[0]] else []) + Matches(lib, db[1..], name)
  }

  /** Exact match first, then a case-insensitive one if there is just one. */
  function Lookup(lib: Library, db: Database, name: string): Result<Table, Error> {
    match IndexOf(db, name)
    case Some(i) => if i < |db| then Ok(db[i]) else Err(TableNotFound(name))
    case None =>
      var matches := Matches(lib, db, name);
      if |matches| == 1 then Ok(matches[0]) else Err(TableNotFound(name))
  }

  // --- what a caller may see ------------------------------------------------------------------

  /** `tables` are the granted names, folded. */
  datatype Access = Access(tables: set<string>)

  predicate Allows(lib: Library, access: Access, table: string) {
    lib.fold(table) in access.tables
  }

  function AllowedKeys(lib: Library, access: Access, fks: seq<ForeignKey>): seq<ForeignKey> {
    if fks == [] then []
    else (if Allows(lib, access, fks[0].toTable) then [fks[0]] else []) + AllowedKeys(lib, access, fks[1..])
  }

  /** The database as the caller may know it: their tables, without foreign keys to other ones. */
  function Visible(lib: Library, access: Access, db: Database): Database {
    if db == [] then []
    else
      (if Allows(lib, access, db[0].name)
       then [db[0].(foreignKeys := AllowedKeys(lib, access, db[0].foreignKeys))]
       else [])
      + Visible(lib, access, db[1..])
  }

  /** Curated descriptions, by folded table and folded column; no column for the table itself. */
  type Curated = map<(string, Option<string>), string>

  function VisibleCurated(access: Access, curated: Curated): Curated {
    map k | k in curated && k.0 in access.tables :: curated[k]
  }

  // --- the tools, as functions ------------------------------------------------------------------

  datatype TableSummary = TableSummary(name: string, kind: TableKind, description: string)

  datatype ColumnDetail = ColumnDetail(name: string, typeName: string, nullable: bool, primaryKey: bool,
                                       description: string)

  datatype TableDetail = TableDetail(name: string, kind: TableKind, description: string,
                                     columns: seq<ColumnDetail>, foreignKeys: seq<ForeignKey>, flags: seq<string>)

  datatype Relationships = Relationships(table: string, references: seq<ForeignKey>, referencedBy: seq<ForeignKey>)

  /** `curated.get(key) or comment or ""`: an empty text counts as none. */
  function Described(curated: Curated, key: (string, Option<string>), comment: Option<string>): string {
    if key in curated && curated[key] != "" then curated[key]
    else if comment.Some? then comment.value
    else ""
  }

  function Summarize(lib: Library, curated: Curated, t: Table): (TableSummary, seq<string>) {
    var (name, nameFlags) := lib.clean(t.name, "table name");
    var (text, textFlags) :=
          lib.clean(Described(curated, (lib.fold(t.name), None), t.comment), "description of " + t.name);
    (TableSummary(name, t.kind, text), nameFlags + textFlags)
  }

  function SummarizeAll(lib: Library, access: Access, curated: Curated, db: Database)
    : (seq<TableSummary>, seq<string>)
  {
    if db == [] then ([], [])
    else
      var (tables, flags) := SummarizeAll(lib, access, curated, db[..|db| - 1]);
      var t := db[|db| - 1];
      if !Allows(lib, access, t.name) then (tables, flags)
      else
        var (summary, more) := Summarize(lib, curated, t);
        (tables + [summary], flags + more)
  }

  function DetailColumns(lib: Library, curated: Curated, table: string, columns: seq<Column>)
    : (seq<ColumnDetail>, seq<string>)
  {
    if columns == [] then ([], [])
    else
      var c := columns[0];
      var (name, nameFlags) := lib.clean(c.name, "column name in " + table);
      var (text, textFlags) := lib.clean(Described(curated, (lib.fold(table), Some(lib.fold(c.name))), c.comment),
                                         "description of " + table + "." + c.name);
      var (rest, flags) := DetailColumns(lib, curated, table, columns[1..]);
      ([ColumnDetail(name, c.typeName, c.nullable, c.primaryKey, text)] + rest, nameFlags + textFlags + flags)
  }

  function Detail(lib: Library, access: Access, curated: Curated, t: Table): TableDetail {
    var (name, nameFlags) := lib.clean(t.name, "table name");
    var (text, textFlags) :=
          lib.clean(Described(curated, (lib.fold(t.name), None), t.comment), "description of " + t.name);
    var (columns, flags) := DetailColumns(lib, curated, t.name, t.columns);
    TableDetail(name, t.kind, text, columns, AllowedKeys(lib, access, t.foreignKeys), nameFlags + textFlags + flags)
  }

  function DescribeTable(lib: Library, access: Access, curated: Curated, db: Database, table: string)
    : Result<TableDetail, Error>
  {
    if !Allows(lib, access, table) then Err(TableNotFound(table))
    else
      match Lookup(lib, db, table)
      case Err(e) => Err(e)
      case Ok(t) => Ok(Detail(lib, access, curated, t))
  }

  function KeysTo(lib: Library, target: string, fks: seq<ForeignKey>): seq<ForeignKey> {
    if fks == [] then []
    else (if lib.fold(fks[0].toTable) == lib.fold(target) then [fks[0]] else []) + KeysTo(lib, target, fks[1..])
  }

  /** The foreign keys into `target` from the tables listed, each of which is looked up by name. */
  function ReferencedBy(lib: Library, access: Access, db: Database, target: string, listed: seq<Table>)
    : Result<seq<ForeignKey>, Error>
  {
    if listed == [] then Ok([])
    else
      match ReferencedBy(lib, access, db, target, listed[..|listed| - 1])
      case Err(e) => Err(e)
      case Ok(before) =>
        var other := listed[|listed| - 1];
        if !other.kind.BaseTable? || !Allows(lib, access, other.name) then Ok(before)
        else
          match Lookup(lib, db, other.name)
          case Err(e) => Err(e)
          case Ok(t) => Ok(before + KeysTo(lib, target, t.foreignKeys))
  }

  function GetRelationships(lib: Library, access: Access, db: Database, table: string): Result<Relationships, Error> {
    if !Allows(lib, access, table) then Err(TableNotFound(table))
    else
      match Lookup(lib, db, table)
      case Err(e) => Err(e)
      case Ok(t) =>
        match ReferencedBy(lib, access, db, t.name, db)
        case Err(e) => Err(e)
        case Ok(into) => Ok(Relationships(t.name, AllowedKeys(lib, access, t.foreignKeys), into))
  }

  // --- the tools, as they run -------------------------------------------------------------------

  method ListTables(lib: Library, access: Access, curated: Curated, db: Database)
    returns (tables: seq<TableSummary>, flags: seq<string>)
    ensures (tables, flags) == SummarizeAll(lib, access, curated, db)
  {
    tables, flags := [], [];
    for i := 0 to |db|
      invariant (tables, flags) == SummarizeAll(lib, access, curated, db[..i])
    {
      var info := db[i];
      assert db[..i + 1][..i] == db[..i];
      if !Allows(lib, access, info.name) {
        continue;
      }
      var (summary, more) := Summarize(lib, curated, info);
      tables, flags := tables + [summary], flags + more;
    }
    assert db[..|db|] == db;
  }

  method RelationshipsOf(lib: Library, access: Access, db: Database, table: string)
    returns (r: Result<Relationships, Error>)
    ensures r == GetRelationships(lib, access, db, table)
  {
    if !Allows(lib, access, table) {
      return Err(TableNotFound(table));
    }
    var target := Lookup(lib, db, table);
    if target.Err? {
      return Err(target.error);
    }
    var referencedBy: seq<ForeignKey> := [];
    ghost var whole := ReferencedBy(lib, access, db, target.value.name, db);
    for i := 0 to |db|
      invariant ReferencedBy(lib, access, db, target.value.name, db[..i]) == Ok(referencedBy)
    {
      var other := db[i];
      assert db[..i + 1][..i] == db[..i];
      if !other.kind.BaseTable? || !Allows(lib, access, other.name) {
        continue;
      }
      var described := Lookup(lib, db, other.name);
      if described.Err? {
        ReferencedByFails(lib, access, db, target.value.name, db, i + 1);
        return Err(described.error);
      }
      referencedBy := referencedBy + KeysTo(lib, target.value.name, described.value.foreignKeys);
    }
    assert db[..|db|] == db;
    return Ok(Relationships(target.value.name, AllowedKeys(lib, access, target.value.foreignKeys), referencedBy));
  }

  lemma {:induction false} ReferencedByFails(lib: Library, access: Access, db: Database, target: string,
                                             listed: seq<Table>, n: nat)
    requires n <= |listed| && ReferencedBy(lib, access, db, target, listed[..n]).Err?
    ensures ReferencedBy(lib, access, db, target, listed) == ReferencedBy(lib, access, db, target, listed[..n])
    decreases |listed|
  {
    if n == |listed| {
      assert listed[..n] == listed;
    } else {
      assert listed[..|listed| - 1][..n] == listed[..n];
      ReferencedByFails(lib, access, db, target, listed[..|listed| - 1], n);
    }
  }

  // --- only what is visible matters ---------------------------------------------------------------

  lemma {:induction false} AllowedKeysTwice(lib: Library, access: Access, fks: seq<ForeignKey>)
    ensures AllowedKeys(lib, access, AllowedKeys(lib, access, fks)) == AllowedKeys(lib, access, fks)
  {
    if fks != [] {
      AllowedKeysTwice(lib, access, fks[1..]);
      var rest := AllowedKeys(lib, access, fks[1..]);
      assert ([fks[0]] + rest)[1..] == rest;
      assert [] + rest == rest;
    }
  }

  lemma {:induction false} KeysToAllowed(lib: Library, access: Access, target: string, fks: seq<ForeignKey>)
    requires Allows(lib, access, target)
    ensures KeysTo(lib, target, AllowedKeys(lib, access, fks)) == KeysTo(lib, target, fks)
  {
    if fks != [] {
      KeysToAllowed(lib, access, target, fks[1..]);
      var rest := AllowedKeys(lib, access, fks[1..]);
      assert ([fks[0]] + rest)[1..] == rest;
      assert [] + rest == rest;
    }
  }

  function Trim(lib: Library, access: Access, t: Table): Table {
    t.(foreignKeys := AllowedKeys(lib, access, t.foreignKeys))
  }

  lemma VisibleCons(lib: Library, access: Access, db: Database)
    requires db != []
    ensures Visible(lib, access, db)
            == if Allows(lib, access, db[0].name) then [Trim(lib, access, db[0])] + Visible(lib, access, db[1..])
               else Visible(lib, access, db[1..])
  {
    assert [] + Visible(lib, access, db[1..]) == Visible(lib, access, db[1..]);
  }

  lemma {:induction false} VisibleIndex(lib: Library, access: Access, db: Database, name: string)
    requires Allows(lib, access, name)
    ensures match IndexOf(db, name)
            case None => IndexOf(Visible(lib, access, db), name) == None
            case Some(i) =>
              i < |db| && db[i].name == name
              && match IndexOf(Visible(lib, access, db), name) {
                   case None => false
                   case Some(j) => j < |Visible(lib, access, db)|
                                   && Visible(lib, access, db)[j] == Trim(lib, access, db[i])
                 }
  {
    if db != [] {
      VisibleCons(lib, access, db);
      VisibleIndex(lib, access, db[1..], name);
      var rest := Visible(lib, access, db[1..]);
      assert ([Trim(lib, access, db[0])] + rest)[1..] == rest;
    }
  }

  lemma {:induction false} VisibleMatches(lib: Library, access: Access, db: Database, name: string)
    requires Allows(lib, access, name)
    ensures |Matches(lib, Visible(lib, access, db), name)| == |Matches(lib, db, name)|
    ensures forall i | 0 <= i < |Matches(lib, db, name)| ::
              Matches(lib, Visible(lib, access, db), name)[i] == Trim(lib, access, Matches(lib, db, name)[i])
              && lib.fold(Matches(lib, db, name)[i].name) == lib.fold(name)
  {
    if db != [] {
      VisibleCons(lib, access, db);
      VisibleMatches(lib, access, db[1..], name);
      var rest := Visible(lib, access, db[1..]);
      assert ([Trim(lib, access, db[0])] + rest)[1..] == rest;
    }
  }

  /** Looking up an allowed name finds the same table, hidden tables or not. */
  lemma VisibleLookup(lib: Library, access: Access, db: Database, name: string)
    requires Allows(lib, access, name)
    ensures match Lookup(lib, db, name)
            case Err(e) => Lookup(lib, Visible(lib, access, db), name) == Err(e)
            case Ok(t) => Lookup(lib, Visible(lib, access, db), name) == Ok(Trim(lib, access, t))
                          && Allows(lib, access, t.name)
  {
    VisibleIndex(lib, access, db, name);
    VisibleMatches(lib, access, db, name);
  }

  lemma {:induction false} DetailColumnsVisible(lib: Library, access: Access, curated: Curated, table: string,
                                                columns: seq<Column>)
    requires Allows(lib, access, table)
    ensures DetailColumns(lib, VisibleCurated(access, curated), table, columns) ==
              DetailColumns(lib, curated, table, columns)
  {
    if columns != [] {
      DetailColumnsVisible(lib, access, curated, table, columns[1..]);
    }
  }

  lemma DescribeIsVisible(lib: Library, access: Access, curated: Curated, db: Database, table: string)
    ensures DescribeTable(lib, access, curated, db, table)
            == DescribeTable(lib, access, VisibleCurated(access, curated), Visible(lib, access, db), table)
  {
    if Allows(lib, access, table) {
      VisibleLookup(lib, access, db, table);
      match Lookup(lib, db, table)
      case Err(_) =>
      case Ok(t) =>
        AllowedKeysTwice(lib, access, t.foreignKeys);
        DetailColumnsVisible(lib, access, curated, t.name, t.columns);
    }
  }

  lemma {:induction false} VisibleAppend(lib: Library, access: Access, db: Database, t: Table)
    ensures Visible(lib, access, db + [t])
            == Visible(lib, access, db) + if Allows(lib, access, t.name) then [Trim(lib, access, t)] else []
  {
    if db == [] {
      assert db + [t] == [t] && [t][1..] == [];
      VisibleCons(lib, access, [t]);
    } else {
      assert (db + [t])[1..] == db[1..] + [t];
      VisibleAppend(lib, access, db[1..], t);
      VisibleCons(lib, access, db + [t]);
      VisibleCons(lib, access, db);
    }
  }

  lemma {:induction false} ListIsVisible(lib: Library, access: Access, curated: Curated, db: Database)
    ensures SummarizeAll(lib, access, curated, db)
            == SummarizeAll(lib, access, VisibleCurated(access, curated), Visible(lib, access, db))
    decreases |db|
  {
    if db != [] {
      var n := |db| - 1;
      assert db == db[..n] + [db[n]];
      ListIsVisible(lib, access, curated, db[..n]);
      VisibleAppend(lib, access, db[..n], db[n]);
      if Allows(lib, access, db[n].name) {
        var v := Visible(lib, access, db);
        assert v[..|v| - 1] == Visible(lib, access, db[..n]);
      } else {
        assert Visible(lib, access, db) == Visible(lib, access, db[..n]);
      }
    }
  }

  lemma {:induction false} ReferencedByIsVisible(lib: Library, access: Access, db: Database, target: string,
                                                 listed: seq<Table>)
    requires Allows(lib, access, target)
    ensures ReferencedBy(lib, access, db, target, listed)
            == ReferencedBy(lib, access, Visible(lib, access, db), target, Visible(lib, access, listed))
    decreases |listed|
  {
    if listed != [] {
      var n := |listed| - 1;
      assert listed == listed[..n] + [listed[n]];
      ReferencedByIsVisible(lib, access, db, target, listed[..n]);
      VisibleAppend(lib, access, listed[..n], listed[n]);
      if Allows(lib, access, listed[n].name) {
        var v := Visible(lib, access, listed);
        assert v[..|v| - 1] == Visible(lib, access, listed[..n]);
        VisibleLookup(lib, access, db, listed[n].name);
        match Lookup(lib, db, listed[n].name)
        case Err(_) =>
        case Ok(t) => KeysToAllowed(lib, access, target, t.foreignKeys);
      } else {
        assert Visible(lib, access, listed) == Visible(lib, access, listed[..n]);
      }
    }
  }

  lemma RelationshipsAreVisible(lib: Library, access: Access, db: Database, table: string)
    ensures GetRelationships(lib, access, db, table) == GetRelationships(lib, access, Visible(lib, access, db), table)
  {
    if Allows(lib, access, table) {
      VisibleLookup(lib, access, db, table);
      match Lookup(lib, db, table)
      case Err(_) =>
      case Ok(t) =>
        AllowedKeysTwice(lib, access, t.foreignKeys);
        ReferencedByIsVisible(lib, access, db, t.name, db);
    }
  }

  /** Hidden tables do not influence answers: two databases, with their curated descriptions, that
      agree on what a caller may see give that caller the same answers, flags and errors. */
  lemma HiddenTablesDoNotInfluence(lib: Library, access: Access, c1: Curated, db1: Database, c2: Curated,
                                   db2: Database, table: string)
    requires Visible(lib, access, db1) == Visible(lib, access, db2)
    requires VisibleCurated(access, c1) == VisibleCurated(access, c2)
    ensures SummarizeAll(lib, access, c1, db1) == SummarizeAll(lib, access, c2, db2)
    ensures DescribeTable(lib, access, c1, db1, table) == DescribeTable(lib, access, c2, db2, table)
    ensures GetRelationships(lib, access, db1, table) == GetRelationships(lib, access, db2, table)
  {
    ListIsVisible(lib, access, c1, db1);
    ListIsVisible(lib, access, c2, db2);
    DescribeIsVisible(lib, access, c1, db1, table);
    DescribeIsVisible(lib, access, c2, db2, table);
    RelationshipsAreVisible(lib, access, db1, table);
    RelationshipsAreVisible(lib, access, db2, table);
  }

  lemma {:induction false} IndexOfUnique(db: Database, i: nat)
    requires NamesAreUnique(db) && i < |db|
    ensures IndexOf(db, db[i].name) == Some(i)
  {
    if i > 0 {
      assert forall j | 0 <= j < |db[1..]| :: db[1..][j] == db[j + 1];
      IndexOfUnique(db[1..], i - 1);
      assert db[0].name != db[i].name;
    }
  }

  lemma {:induction false} KeysToIff(lib: Library, target: string, fks: seq<ForeignKey>, fk: ForeignKey)
    ensures fk in KeysTo(lib, target, fks) <==> fk in fks && lib.fold(fk.toTable) == lib.fold(target)
  {
    if fks != [] {
      assert fks == [fks[0]] + fks[1..];
      KeysToIff(lib, target, fks[1..], fk);
    }
  }

  /** Table `i` is a visible base table with this foreign key into `target`. */
  ghost predicate RefersAt(lib: Library, access: Access, db: Database, target: string, fk: ForeignKey, i: int) {
    && 0 <= i < |db| && db[i].kind == BaseTable && lib.fold(db[i].name) in access.tables
    && fk in db[i].foreignKeys && lib.fold(fk.toTable) == lib.fold(target)
  }

  lemma {:induction false} ReferencedByIff(lib: Library, access: Access, db: Database, target: string, n: nat,
                                           fk: ForeignKey)
    requires NamesAreUnique(db) && n <= |db|
    ensures ReferencedBy(lib, access, db, target, db[..n]).Ok?
    ensures fk in ReferencedBy(lib, access, db, target, db[..n]).value
            <==> exists i :: i < n && RefersAt(lib, access, db, target, fk, i)
    decreases n
  {
    if n > 0 {
      var listed := db[..n];
      assert listed[..n - 1] == db[..n - 1] && listed[n - 1] == db[n - 1];
      ReferencedByIff(lib, access, db, target, n - 1, fk);
      IndexOfUnique(db, n - 1);
      KeysToIff(lib, target, db[n - 1].foreignKeys, fk);
      var before := ReferencedBy(lib, access, db, target, db[..n - 1]).value;
      var after := ReferencedBy(lib, access, db, target, listed).value;
      assert fk in after <==> fk in before || RefersAt(lib, access, db, target, fk, n - 1);
    }
  }

  /** The list shows the visible tables, all of them, once each and in order. */
  lemma {:induction false} ListIsComplete(lib: Library, access: Access, curated: Curated, db: Database)
    ensures var tables := SummarizeAll(lib, access, curated, db).0;
            && |tables| == |Visible(lib, access, db)|
            && forall i | 0 <= i < |tables| :: tables[i] == Summarize(lib, curated, Visible(lib, access, db)[i]).0
    decreases |db|
  {
    if db != [] {
      var n := |db| - 1;
      assert db == db[..n] + [db[n]];
      ListIsComplete(lib, access, curated, db[..n]);
      VisibleAppend(lib, access, db[..n], db[n]);
    }
  }

  /** Which tables are listed, and what is said of each, spelled out: those whose folded name is granted,
      in the order of the database, with a curated text that is not empty or else the comment. */
  lemma {:induction false} ListSpelled(lib: Library, access: Access, curated: Curated, db: Database)
    returns (at: seq<nat>)
    ensures |at| == |SummarizeAll(lib, access, curated, db).0|
    ensures forall k | 0 <= k < |at| :: at[k] < |db| && (forall m | 0 <= m < k :: at[m] < at[k])
    ensures forall j | 0 <= j < |db| :: j in at <==> lib.fold(db[j].name) in access.tables
    ensures forall k | 0 <= k < |at| ::
              var t, shown := db[at[k]], SummarizeAll(lib, access, curated, db).0[k];
              && shown.name == lib.clean(t.name, "table name").0 && shown.kind == t.kind
              && shown.description == lib.clean(
                   if (lib.fold(t.name), None) in curated && curated[(lib.fold(t.name), None)] != ""
                   then curated[(lib.fold(t.name), None)]
                   else if t.comment.Some? then t.comment.value else "",
                   "description of " + t.name).0
    decreases |db|
  {
    at := [];
    if db != [] {
      var n := |db| - 1;
      at := ListSpelled(lib, access, curated, db[..n]);
      assert forall j | 0 <= j < n :: db[..n][j] == db[j];
      if lib.fold(db[n].name) in access.tables {
        at := at + [n];
      }
    }
  }

  /** What is flagged: everything that cleaning flags in a name or a description that is listed. */
  lemma {:induction false} ListFlagsSpelled(lib: Library, access: Access, curated: Curated, db: Database, flag: string)
    ensures flag in SummarizeAll(lib, access, curated, db).1 <==>
            exists j :: 0 <= j < |db| && lib.fold(db[j].name) in access.tables
              && (flag in lib.clean(db[j].name, "table name").1
                  || flag in lib.clean(Described(curated, (lib.fold(db[j].name), None), db[j].comment),
                                       "description of " + db[j].name).1)
    decreases |db|
  {
    if db != [] {
      var n := |db| - 1;
      ListFlagsSpelled(lib, access, curated, db[..n], flag);
      assert forall j | 0 <= j < n :: db[..n][j] == db[j];
    }
  }

  lemma {:induction false} ColumnsSpelled(lib: Library, curated: Curated, table: string, columns: seq<Column>, k: nat)
    requires k < |columns|
    ensures |DetailColumns(lib, curated, table, columns).0| == |columns|
    ensures var c, shown := columns[k], DetailColumns(lib, curated, table, columns).0[k];
            var key := (lib.fold(table), Some(lib.fold(c.name)));
            && shown.name == lib.clean(c.name, "column name in " + table).0
            && shown.typeName == c.typeName && shown.nullable == c.nullable && shown.primaryKey == c.primaryKey
            && shown.description == lib.clean(
                 if key in curated && curated[key] != "" then curated[key]
                 else if c.comment.Some? then c.comment.value else "",
                 "description of " + table + "." + c.name).0
  {
    if k > 0 {
      ColumnsSpelled(lib, curated, table, columns[1..], k - 1);
    } else if |columns| > 1 {
      ColumnsSpelled(lib, curated, table, columns[1..], 0);
    }
  }

  /** A described table, spelled out: it is described if and only if its folded name is granted and it is
      found, with all its columns and the foreign keys to tables whose folded names are granted. */
  lemma DescribeSpelled(lib: Library, access: Access, curated: Curated, db: Database, table: string)
    ensures var answer := DescribeTable(lib, access, curated, db, table);
            && (answer.Ok? <==> lib.fold(table) in access.tables && Lookup(lib, db, table).Ok?)
            && (answer.Err? ==> answer.error == TableNotFound(table))
            && (answer.Ok? ==>
                  var t, detail := Lookup(lib, db, table).value, answer.value;
                  && detail.name == lib.clean(t.name, "table name").0 && detail.kind == t.kind
                  && detail.description == lib.clean(
                       if (lib.fold(t.name), None) in curated && curated[(lib.fold(t.name), None)] != ""
                       then curated[(lib.fold(t.name), None)]
                       else if t.comment.Some? then t.comment.value else "",
                       "description of " + t.name).0
                  && |detail.columns| == |t.columns|
                  && (forall fk :: fk in detail.foreignKeys <==>
                        fk in t.foreignKeys && lib.fold(fk.toTable) in access.tables)
                  && forall k | 0 <= k < |t.columns| ::
                       var c := t.columns[k];
                       var key := (lib.fold(t.name), Some(lib.fold(c.name)));
                       && detail.columns[k].name == lib.clean(c.name, "column name in " + t.name).0
                       && detail.columns[k].typeName == c.typeName
                       && detail.columns[k].nullable == c.nullable && detail.columns[k].primaryKey == c.primaryKey
                       && detail.columns[k].description == lib.clean(
                            if key in curated && curated[key] != "" then curated[key]
                            else if c.comment.Some? then c.comment.value else "",
                            "description of " + t.name + "." + c.name).0)
  {
    LookupErrs(lib, db, table);
    if DescribeTable(lib, access, curated, db, table).Ok? {
      var t := Lookup(lib, db, table).value;
      forall fk: ForeignKey
        ensures fk in AllowedKeys(lib, access, t.foreignKeys) <==>
                fk in t.foreignKeys && lib.fold(fk.toTable) in access.tables
      {
        AllowedKeysIff(lib, access, t.foreignKeys, fk);
      }
      if t.columns != [] { ColumnsSpelled(lib, curated, t.name, t.columns, 0); }
      forall k | 0 <= k < |t.columns|
        ensures var c := t.columns[k];
                var key := (lib.fold(t.name), Some(lib.fold(c.name)));
                var shown := DetailColumns(lib, curated, t.name, t.columns).0[k];
                && shown.name == lib.clean(c.name, "column name in " + t.name).0
                && shown.typeName == c.typeName && shown.nullable == c.nullable && shown.primaryKey == c.primaryKey
                && shown.description == lib.clean(
                     if key in curated && curated[key] != "" then curated[key]
                     else if c.comment.Some? then c.comment.value else "",
                     "description of " + t.name + "." + c.name).0
      {
        ColumnsSpelled(lib, curated, t.name, t.columns, k);
      }
    }
  }

  lemma LookupErrs(lib: Library, db: Database, name: string)
    ensures Lookup(lib, db, name).Err? ==> Lookup(lib, db, name).error == TableNotFound(name)
  {
  }

  /** Which table a name finds: the one that is spelled like it, or else the only one that is spelled like
      it up to case. */
  lemma LookupSpelled(lib: Library, db: Database, name: string, i: nat)
    requires NamesAreUnique(db) && i < |db|
    ensures Lookup(lib, db, name) == Ok(db[i]) <==>
            || db[i].name == name
            || (&& lib.fold(db[i].name) == lib.fold(name)
                && forall j | 0 <= j < |db| ::
                     db[j].name != name && (lib.fold(db[j].name) == lib.fold(name) ==> j == i))
  {
    IndexOfSpelled(db, name);
    MatchesSpelled(lib, db, name, i);
    forall j, k | 0 <= j < |db| && 0 <= k < |db| && db[j] == db[k] ensures j == k {}
  }

  lemma {:induction false} IndexOfSpelled(db: Database, name: string)
    ensures match IndexOf(db, name)
            case Some(i) => i < |db| && db[i].name == name
            case None => forall j | 0 <= j < |db| :: db[j].name != name
  {
    if db != [] {
      IndexOfSpelled(db[1..], name);
      assert forall j | 0 < j < |db| :: db[j] == db[1..][j - 1];
    }
  }

  lemma {:induction false} MatchesSpelled(lib: Library, db: Database, name: string, i: nat)
    requires NamesAreUnique(db) && i < |db|
    ensures Matches(lib, db, name) == [db[i]] <==>
            lib.fold(db[i].name) == lib.fold(name)
            && forall j | 0 <= j < |db| :: lib.fold(db[j].name) == lib.fold(name) ==> j == i
  {
    InMatches(lib, db, name, db[i]);
    forall j | 0 <= j < |db| ensures db[j] in Matches(lib, db, name) <==> lib.fold(db[j].name) == lib.fold(name) {
      InMatches(lib, db, name, db[j]);
    }
    if lib.fold(db[i].name) == lib.fold(name)
       && forall j | 0 <= j < |db| :: lib.fold(db[j].name) == lib.fold(name) ==> j == i
    {
      OnlyMatch(lib, db, name, i);
    }
  }

  lemma {:induction false} InMatches(lib: Library, db: Database, name: string, t: Table)
    ensures t in Matches(lib, db, name) <==> t in db && lib.fold(t.name) == lib.fold(name)
  {
    if db != [] {
      InMatches(lib, db[1..], name, t);
      assert db == [db[0]] + db[1..];
    }
  }

  lemma {:induction false} OnlyMatch(lib: Library, db: Database, name: string, i: nat)
    requires i < |db| && lib.fold(db[i].name) == lib.fold(name)
    requires forall j | 0 <= j < |db| :: lib.fold(db[j].name) == lib.fold(name) ==> j == i
    ensures Matches(lib, db, name) == [db[i]]
  {
    assert forall j | 0 <= j < |db| - 1 :: db[1..][j] == db[j + 1];
    if i == 0 {
      NoMatch(lib, db[1..], name);
    } else {
      OnlyMatch(lib, db[1..], name, i - 1);
    }
  }

  lemma {:induction false} NoMatch(lib: Library, db: Database, name: string)
    requires forall j | 0 <= j < |db| :: lib.fold(db[j].name) != lib.fold(name)
    ensures Matches(lib, db, name) == []
  {
    if db != [] {
      assert forall j | 0 <= j < |db| - 1 :: db[1..][j] == db[j + 1];
      NoMatch(lib, db[1..], name);
    }
  }

  lemma {:induction false} AllowedKeysIff(lib: Library, access: Access, fks: seq<ForeignKey>, fk: ForeignKey)
    ensures fk in AllowedKeys(lib, access, fks) <==> fk in fks && Allows(lib, access, fk.toTable)
  {
    if fks != [] {
      assert fks == [fks[0]] + fks[1..];
      AllowedKeysIff(lib, access, fks[1..], fk);
    }
  }

  /** Relationships are given exactly of a granted table that is found. */
  lemma RelationshipsAnswered(lib: Library, access: Access, db: Database, table: string)
    requires NamesAreUnique(db)
    ensures GetRelationships(lib, access, db, table).Ok? <==>
            lib.fold(table) in access.tables && Lookup(lib, db, table).Ok?
    ensures GetRelationships(lib, access, db, table).Err? ==>
              GetRelationships(lib, access, db, table).error == TableNotFound(table)
  {
    LookupErrs(lib, db, table);
    if Lookup(lib, db, table).Ok? {
      var target := Lookup(lib, db, table).value.name;
      ReferencedByIff(lib, access, db, target, |db|, ForeignKey("", [], "", []));
      assert db[..|db|] == db;
    }
  }

  /** And the answer is complete: whatever the database holds, the relationships of a visible table
      list exactly its foreign keys to tables, and those into it from base tables, that the caller may see. */
  lemma RelationshipsAreComplete(lib: Library, access: Access, db: Database, table: string, fk: ForeignKey)
    requires NamesAreUnique(db) && GetRelationships(lib, access, db, table).Ok?
    ensures var r := GetRelationships(lib, access, db, table).value;
            && (fk in r.referencedBy <==> exists i :: RefersAt(lib, access, db, r.table, fk, i))
            && (fk in r.references <==>
                 fk in Lookup(lib, db, table).value.foreignKeys && lib.fold(fk.toTable) in access.tables)
            && lib.fold(table) in access.tables
            && Lookup(lib, db, table).Ok? && r.table == Lookup(lib, db, table).value.name
  {
    AllowedKeysIff(lib, access, Lookup(lib, db, table).value.foreignKeys, fk);
    ReferencedByIff(lib, access, db, Lookup(lib, db, table).value.name, |db|, fk);
    assert db[..|db|] == db;
  }
}
