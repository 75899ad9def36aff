/** The schema catalog: table name to column list, created with a synthetic
    `ID:int` column, dropped by name and listed in insertion order. */
module Catalog {
  import opened Wrappers
  import opened Strings

  /** Why `create_table` refused. */
  datatype CreateError =
    | AlreadyExists               // the name is already a table
    | BadTableName                // the name is empty or not an identifier
    | BadColumnFormat(spec: string)   // a column spec without `:`
    | TooManyParts(spec: string)      // more than one `:`: the two-way unpack raises
    | BadColumnName(name: string)     // the part before `:` is not an identifier
    | UnsupportedType(typ: string)    // the part after `:` is not int, str or bool

  /** The outcome of `create_table`; on success, the `", "`-joined stored columns
      that the success message enumerates. */
  datatype CreateResult = Created(listing: string) | CreateFailed(error: CreateError)

  datatype DropResult = Dropped | NoSuchTable

  /** The outcome of `list_tables`: the "no tables" message, or one `- name` line per table. */
  datatype ListResult = NoTables | Tables(text: string)

  const ID_COLUMN := "ID:int"
  const VALID_TYPES: set<string> := {"int", "str", "bool"}

  predicate Distinct<T(==)>(s: seq<T>)
  {
    forall i, j :: 0 <= i < j < |s| ==> s[i] != s[j]
  }

  function ColumnSpec(name: string, typ: string): string
  {
    name + ":" + typ
  }

  /** A column spec the catalog accepts: an identifier, `:`, and a supported type. */
  ghost predicate WellFormedColumn(spec: string)
  {
    exists name, typ :: spec == ColumnSpec(name, typ) && IsIdentifier(name) && typ in VALID_TYPES
  }

  /** The checks of one column spec, in the source's order. A spec without `:` and
      a spec with two or more are each reported as such, and a spec that passes has
      exactly one `:`. */
  function ColumnError(spec: string): (r: Option<CreateError>)
    ensures ':' !in spec <==> r == Some(BadColumnFormat(spec))
    ensures Count(spec, ':') >= 2 <==> r == Some(TooManyParts(spec))
    ensures r.None? ==> Count(spec, ':') == 1
  {
    CountZero(spec, ':');
    if ':' !in spec then Some(BadColumnFormat(spec))
    else
      var parts := Split(spec, ':');
      if |parts| != 2 then Some(TooManyParts(spec))
      else if parts[0] == [] || !IsIdentifier(parts[0]) then Some(BadColumnName(parts[0]))
      else if parts[1] !in VALID_TYPES then Some(UnsupportedType(parts[1]))
      else None
  }

  /** A spec passes the column checks exactly when it is well formed. */
  lemma ColumnErrorMeaning(spec: string)
    ensures ColumnError(spec).None? <==> WellFormedColumn(spec)
  {
    if ColumnError(spec).None? {
      PassingIsWellFormed(spec);
    }
    if WellFormedColumn(spec) {
      var name, typ :| spec == ColumnSpec(name, typ) && IsIdentifier(name) && typ in VALID_TYPES;
      WellFormedPasses(name, typ);
    }
  }

  /** A spec that passes is its two split pieces around the one `:`. */
  lemma PassingIsWellFormed(spec: string)
    requires ColumnError(spec).None?
    ensures WellFormedColumn(spec)
  {
    var parts := Split(spec, ':');
    JoinSplit(spec, ':');
    assert Join(parts, ":") == ColumnSpec(parts[0], parts[1]);
  }

  /** An identifier, `:` and a supported type pass every column check. */
  lemma WellFormedPasses(name: string, typ: string)
    requires IsIdentifier(name) && typ in VALID_TYPES
    ensures ColumnError(ColumnSpec(name, typ)).None?
  {
    var spec := ColumnSpec(name, typ);
    assert ':' !in typ;
    assert Join([name, typ], ":") == spec;
    SplitJoin([name, typ], ':');
    assert spec[|name|] == ':';
  }

  /** The error of the first column that fails its checks, if any. */
  function FirstColumnError(cols: seq<string>): (r: Option<CreateError>)
    ensures r.None? <==> forall i :: 0 <= i < |cols| ==> ColumnError(cols[i]).None?
  {
    if cols == [] then None
    else if ColumnError(cols[0]).Some? then ColumnError(cols[0])
    else
      var r := FirstColumnError(cols[1..]);
      assert forall i :: 1 <= i < |cols| ==> cols[i] == cols[1..][i - 1];
      r
  }

  /** A reported error is the error of one of the columns. */
  lemma {:induction false} FirstErrorExists(cols: seq<string>)
    requires FirstColumnError(cols).Some?
    ensures exists i :: 0 <= i < |cols| && ColumnError(cols[i]) == FirstColumnError(cols)
  {
    if ColumnError(cols[0]).None? {
      FirstErrorExists(cols[1..]);
      var i :| 0 <= i < |cols[1..]| && ColumnError(cols[1..][i]) == FirstColumnError(cols[1..]);
      assert cols[1..][i] == cols[i + 1];
    } else {
      assert ColumnError(cols[0]) == FirstColumnError(cols);
    }
  }

  /** If column `i` is the first to fail, its error is the one reported. */
  lemma {:induction false} FirstErrorAt(cols: seq<string>, i: nat)
    requires i < |cols| && ColumnError(cols[i]).Some?
    requires forall j :: 0 <= j < i ==> ColumnError(cols[j]).None?
    ensures FirstColumnError(cols) == ColumnError(cols[i])
  {
    if i > 0 {
      assert ColumnError(cols[0]).None?;
      assert forall j :: 0 <= j < i - 1 ==> cols[1..][j] == cols[j + 1];
      FirstErrorAt(cols[1..], i - 1);
    }
  }

  /** The loop of `create_table` over the columns: each is checked in turn, and
      the first failure is returned at once. */
  method CheckColumns(all: seq<string>) returns (e: Option<CreateError>)
    ensures e == FirstColumnError(all)
  {
    for i := 0 to |all|
      invariant forall j :: 0 <= j < i ==> ColumnError(all[j]).None?
    {
      var col := all[i];
      if ':' !in col {
        FirstErrorAt(all, i);
        return Some(BadColumnFormat(col));
      }
      var parts := Split(col, ':');
      if |parts| != 2 {
        FirstErrorAt(all, i);
        return Some(TooManyParts(col));
      }
      var colName, colType := parts[0], parts[1];
      if colName == [] || !IsIdentifier(colName) {
        FirstErrorAt(all, i);
        return Some(BadColumnName(colName));
      }
      if colType !in VALID_TYPES {
        FirstErrorAt(all, i);
        return Some(UnsupportedType(colType));
      }
    }
    return None;
  }

  /** The synthetic identity column passes its own checks. */
  lemma IdColumnWellFormed()
    ensures ColumnError(ID_COLUMN) == None
  {
    assert ["ID", "int"][1..] == ["int"];
    assert Join(["ID", "int"], ":") == "ID" + ":" + "int" == ID_COLUMN;
    SplitJoin(["ID", "int"], ':');
    assert ID_COLUMN[2] == ':';
  }

  /** What `create_table` answers, given the names already in the catalog: an
      existing name first, even one that is not an identifier; then the table name;
      then each column of `["ID:int"] + columns` in order. */
  function CreateOutcome(existing: set<string>, name: string, columns: seq<string>): (r: CreateResult)
    ensures name in existing ==> r == CreateFailed(AlreadyExists)
    ensures name !in existing && !IsIdentifier(name) ==> r == CreateFailed(BadTableName)
    ensures r.Created? ==> name !in existing && r.listing == Join([ID_COLUMN] + columns, ", ")
  {
    if name in existing then CreateFailed(AlreadyExists)
    else if name == [] || !IsIdentifier(name) then CreateFailed(BadTableName)
    else
      match FirstColumnError([ID_COLUMN] + columns)
      case Some(e) => CreateFailed(e)
      case None => Created(Join([ID_COLUMN] + columns, ", "))
  }

  /** The `ID:int` column in front never decides the outcome of the column loop. */
  lemma IdColumnSkipped(columns: seq<string>)
    ensures FirstColumnError([ID_COLUMN] + columns) == FirstColumnError(columns)
  {
    IdColumnWellFormed();
    assert ([ID_COLUMN] + columns)[1..] == columns;
  }

  /** Creation succeeds exactly for a fresh identifier with well-formed columns. */
  lemma CreateSucceedsIff(existing: set<string>, name: string, columns: seq<string>)
    ensures CreateOutcome(existing, name, columns).Created? <==>
      name !in existing && IsIdentifier(name) &&
      forall i :: 0 <= i < |columns| ==> WellFormedColumn(columns[i])
  {
    IdColumnSkipped(columns);
    forall i | 0 <= i < |columns| ensures ColumnError(columns[i]).None? <==> WellFormedColumn(columns[i]) {
      ColumnErrorMeaning(columns[i]);
    }
  }

  /** A spec with two or more `:` is reported as such and never succeeds. */
  lemma MultipleColonsNeverSucceed(existing: set<string>, name: string, columns: seq<string>, i: nat)
    requires i < |columns| && Count(columns[i], ':') >= 2
    ensures ColumnError(columns[i]) == Some(TooManyParts(columns[i]))
    ensures !CreateOutcome(existing, name, columns).Created?
  {
    CountZero(columns[i], ':');
    CreateSucceedsIff(existing, name, columns);
    ColumnErrorMeaning(columns[i]);
  }

  /** The column that fails first decides the error, whatever follows it. */
  lemma FirstBadColumnReported(existing: set<string>, name: string, columns: seq<string>, i: nat)
    requires name !in existing && IsIdentifier(name)
    requires i < |columns| && ColumnError(columns[i]).Some?
    requires forall j :: 0 <= j < i ==> ColumnError(columns[j]).None?
    ensures CreateOutcome(existing, name, columns) == CreateFailed(ColumnError(columns[i]).value)
  {
    IdColumnSkipped(columns);
    FirstErrorAt(columns, i);
  }

  /** `", ".join(cols)` with the space put in front of every column but the first. */
  function Spaced(cols: seq<string>): seq<string>
  {
    seq(|cols|, i requires 0 <= i < |cols| => if i == 0 then cols[i] else " " + cols[i])
  }

  lemma {:induction false} JoinSpaced(cols: seq<string>)
    requires |cols| >= 1
    ensures Join(cols, ", ") == Join(Spaced(cols), ",")
  {
    if |cols| >= 2 {
      JoinSpaced(cols[1..]);
      var t := Spaced(cols[1..]);
      var u := [" " + cols[1]] + t[1..];
      assert Spaced(cols) == [cols[0]] + u;
      assert Join(Spaced(cols), ",") == cols[0] + "," + Join(u, ",") by {
        assert (Spaced(cols))[1..] == u;
      }
      assert Join(u, ",") == " " + Join(t, ",") by {
        assert [cols[1]] + t[1..] == t;
        JoinPrepend(" ", cols[1], t[1..], ",");
      }
    }
  }

  /** The success listing determines the stored columns: split on `,` it gives back
      every column, in order, each but the first behind one space. */
  lemma ListingRecoversColumns(cols: seq<string>)
    requires |cols| >= 1
    requires forall i :: 0 <= i < |cols| ==> ',' !in cols[i]
    ensures Split(Join(cols, ", "), ',') == Spaced(cols)
  {
    JoinSpaced(cols);
    SplitJoin(Spaced(cols), ',');
  }

  /** `list_tables` over the catalog's keys in insertion order. */
  function ListTables(keys: seq<string>): (r: ListResult)
    ensures r.NoTables? <==> keys == []
  {
    if keys == [] then NoTables
    else Tables(Join(seq(|keys|, i requires 0 <= i < |keys| => "- " + keys[i]), "\n"))
  }

  /** The listing has one `- name` line per table, in order. */
  lemma ListTablesLines(keys: seq<string>)
    requires keys != []
    requires forall i :: 0 <= i < |keys| ==> '\n' !in keys[i]
    ensures var lines := Split(ListTables(keys).text, '\n');
      |lines| == |keys| && forall i :: 0 <= i < |keys| ==> lines[i] == "- " + keys[i]
  {
    var lines := seq(|keys|, i requires 0 <= i < |keys| => "- " + keys[i]);
    SplitJoin(lines, '\n');
  }

  /** After creating a new table, the listing shows it exactly once, last. */
  lemma ListedOnceAfterCreate(keys: seq<string>, name: string)
    requires Distinct(keys) && name !in keys
    requires '\n' !in name && forall i :: 0 <= i < |keys| ==> '\n' !in keys[i]
    ensures var lines := Split(ListTables(keys + [name]).text, '\n');
      |lines| == |keys| + 1 && lines[|keys|] == "- " + name &&
      forall j :: 0 <= j < |keys| ==> lines[j] != "- " + name
  {
    var all := keys + [name];
    ListTablesLines(all);
    forall j | 0 <= j < |keys| ensures "- " + keys[j] != "- " + name {
      assert ("- " + keys[j])[2..] == keys[j];
      assert ("- " + name)[2..] == name;
      assert keys[j] != name;
    }
  }

  /** The keys without `name`, in their old order. */
  function Without(keys: seq<string>, name: string): (r: seq<string>)
    ensures forall x :: x in r <==> x in keys && x != name
    ensures name !in keys ==> r == keys
  {
    if keys == [] then []
    else if keys[0] == name then Without(keys[1..], name)
    else [keys[0]] + Without(keys[1..], name)
  }

  /** In a list of distinct keys, removing one takes out exactly its position. */
  lemma {:induction false} WithoutAt(keys: seq<string>, name: string, k: nat)
    requires Distinct(keys) && k < |keys| && keys[k] == name
    ensures Without(keys, name) == keys[..k] + keys[k + 1..]
  {
    if k == 0 {
      assert name !in keys[1..];
      assert keys[..0] + keys[1..] == keys[1..];
    } else {
      assert Distinct(keys[1..]);
      WithoutAt(keys[1..], name, k - 1);
      assert keys[1..][..k - 1] + keys[1..][k..] == keys[1..k] + keys[k + 1..];
      assert [keys[0]] + keys[1..k] == keys[..k];
    }
  }

  /** Removing an element of a distinct list keeps it distinct. */
  lemma RemoveKeepsDistinct(keys: seq<string>, k: nat)
    requires Distinct(keys) && k < |keys|
    ensures Distinct(keys[..k] + keys[k + 1..])
  {
    var r := keys[..k] + keys[k + 1..];
    assert forall i :: 0 <= i < |r| ==> r[i] == keys[if i < k then i else i + 1];
  }

  /** A map whose keys are exactly the elements of a list is empty just when the list is. */
  lemma KeysOfEmpty<K, V>(keys: seq<K>, m: map<K, V>)
    ensures (forall k :: k in m <==> k in keys) ==> (keys == [] <==> m == map[])
  {
    if forall k :: k in m <==> k in keys {
      if keys == [] {
        assert m.Keys == {};
      } else {
        assert keys[0] in m;
      }
    }
  }

  /** The metadata mapping: table names in insertion order, and each table's columns. */
  class Catalog {
    var names: seq<string>
    var schemas: map<string, seq<string>>

    /** A dictionary: every key once, the order holding exactly the keys, so the
        order is empty exactly when the map is. */
    ghost predicate Valid()
      reads this
      ensures Valid() ==> (names == [] <==> schemas == map[])
      ensures Valid() ==> forall i :: 0 <= i < |names| ==> names[i] in schemas
    {
      KeysOfEmpty(names, schemas);
      Distinct(names) && forall n :: n in schemas <==> n in names
    }

    /** An empty catalog. */
    constructor ()
      ensures Valid() && names == [] && schemas == map[]
    {
      names := [];
      schemas := map[];
    }

    /** `create_table`: every check runs before the one store, so a failure leaves
        the catalog as it was; success appends the table with `ID:int` in front. */
    method CreateTable(name: string, columns: seq<string>) returns (r: CreateResult)
      requires Valid()
      modifies this
      ensures Valid()
      ensures r == CreateOutcome(old(schemas).Keys, name, columns)
      ensures r.Created? ==>
        names == old(names) + [name] &&
        schemas == old(schemas)[name := [ID_COLUMN] + columns] &&
        r.listing == Join(schemas[name], ", ")
      ensures !r.Created? ==> names == old(names) && schemas == old(schemas)
    {
      if name in schemas {
        return CreateFailed(AlreadyExists);
      }
      if name == [] || !IsIdentifier(name) {
        return CreateFailed(BadTableName);
      }
      var all := [ID_COLUMN] + columns;
      var e := CheckColumns(all);
      if e.Some? {
        return CreateFailed(e.value);
      }
      schemas := schemas[name := all];
      names := names + [name];
      r := Created(Join(all, ", "));
    }

    /** `drop_table`: an absent name changes nothing; a present one is removed,
        and only it, keeping the order of the rest. */
    method DropTable(name: string) returns (r: DropResult)
      requires Valid()
      modifies this
      ensures Valid()
      ensures r == Dropped <==> name in old(schemas)
      ensures r == Dropped ==>
        schemas == old(schemas) - {name} && |schemas| == |old(schemas)| - 1 &&
        exists k :: 0 <= k < |old(names)| && old(names)[k] == name &&
                    names == old(names)[..k] + old(names)[k + 1..]
      ensures r == NoSuchTable ==> names == old(names) && schemas == old(schemas)
    {
      if name !in schemas {
        return NoSuchTable;
      }
      var k :| 0 <= k < |names| && names[k] == name;
      WithoutAt(names, name, k);
      RemoveKeepsDistinct(names, k);
      schemas := schemas - {name};
      names := Without(names, name);
      r := Dropped;
    }
  }
}
