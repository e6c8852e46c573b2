/**
 * The DDL text that PostGres.CreateTableWithObject builds for a record type, with the
 * reflection replaced by an explicit list of property descriptors.
 */
module Schema {
  import opened DotNetText

  /** The (underlying, non-nullable) CLR type of a property. */
  datatype ClrType = StringType | IntType | ShortType | LongType | DateTimeType | GuidType | BoolType | OtherType

  /** A custom attribute on a property; only the two key attributes mean anything to the builder. */
  datatype KeyAttribute = PrimaryKey | PrimaryKeyAutoIncrement | OtherAttribute

  /** What reflection reports about one property, in declaration order. */
  datatype Property = Property(name: string, clrType: ClrType, attributes: seq<KeyAttribute>)

  const IdentityClause := " NOT NULL GENERATED ALWAYS AS IDENTITY ( INCREMENT 1 ), "

  function CreatePrefix(tableName: string): string
  {
    "CREATE TABLE \"" + tableName + "\" ("
  }

  /** What the chain of type tests appends after the quoted column name: the SQL type and `, `. */
  function TypeFragment(propertyName: string, t: ClrType): string
  {
    match t
    case StringType => if propertyName == "Path" then " text, " else " character varying(100), "
    case IntType => " integer, "
    case ShortType => " smallint, "
    case LongType => " bigint, "
    case DateTimeType => " timestamp without time zone, "
    case GuidType => " uuid, "
    case BoolType => " boolean, "
    case OtherType => ""
  }

  predicate IsAutoIncrement(p: Property)
  {
    PrimaryKeyAutoIncrement in p.attributes
  }

  /** The text one property contributes; an identity column loses its last two characters first. */
  function ColumnSql(p: Property): string
  {
    var plain := "\"" + p.name + "\"" + TypeFragment(p.name, p.clrType);
    if IsAutoIncrement(p) then plain[..|plain| - 2] + IdentityClause else plain
  }

  function ColumnsSql(properties: seq<Property>): string
    decreases |properties|
  {
    if properties == [] then ""
    else ColumnsSql(properties[..|properties| - 1]) + ColumnSql(properties[|properties| - 1])
  }

  /** One entry of the key list per key attribute of a property. */
  function KeyNamesOf(name: string, attributes: seq<KeyAttribute>): seq<string>
    decreases |attributes|
  {
    if attributes == [] then []
    else
      KeyNamesOf(name, attributes[..|attributes| - 1])
      + (if attributes[|attributes| - 1] == OtherAttribute then [] else [name])
  }

  function PrimaryKeyNames(properties: seq<Property>): seq<string>
    decreases |properties|
  {
    if properties == [] then []
    else
      var last := properties[|properties| - 1];
      PrimaryKeyNames(properties[..|properties| - 1]) + KeyNamesOf(last.name, last.attributes)
  }

  function PrimaryKeyClause(keys: seq<string>): string
  {
    if keys == [] then "" else " PRIMARY KEY (\"" + Join(keys, "\",\"") + "\")"
  }

  /** The whole CREATE TABLE statement. */
  function CreateTableSql(tableName: string, properties: seq<Property>): string
  {
    CreatePrefix(tableName) + ColumnsSql(properties) + PrimaryKeyClause(PrimaryKeyNames(properties)) + ");"
  }

  /** The attribute loop for one property: extends the key list and sets the identity flag. */
  method ScanAttributes(primaryKeys: seq<string>, prop: Property) returns (keys: seq<string>, isIdentity: bool)
    ensures keys == primaryKeys + KeyNamesOf(prop.name, prop.attributes)
    ensures isIdentity == IsAutoIncrement(prop)
  {
    keys, isIdentity := primaryKeys, false;
    for j := 0 to |prop.attributes|
      invariant keys == primaryKeys + KeyNamesOf(prop.name, prop.attributes[..j])
      invariant isIdentity <==> PrimaryKeyAutoIncrement in prop.attributes[..j]
    {
      assert prop.attributes[..j + 1][..j] == prop.attributes[..j];
      match prop.attributes[j]
      case PrimaryKey =>
        keys := keys + [prop.name];
      case PrimaryKeyAutoIncrement =>
        keys := keys + [prop.name];
        isIdentity := true;
      case OtherAttribute =>
    }
    assert prop.attributes[..|prop.attributes|] == prop.attributes;
  }

  /** The chain of type tests: appends the column's SQL type, if the type is mapped. */
  method AppendType(query: string, prop: Property) returns (q: string)
    ensures q == query + TypeFragment(prop.name, prop.clrType)
  {
    q := query;
    if prop.clrType == StringType {
      if prop.name == "Path" {
        q := q + " text, ";
      } else {
        q := q + " character varying(100), ";
      }
    }
    if prop.clrType == IntType {
      q := q + " integer, ";
    }
    if prop.clrType == ShortType {
      q := q + " smallint, ";
    }
    if prop.clrType == LongType {
      q := q + " bigint, ";
    }
    if prop.clrType == DateTimeType {
      q := q + " timestamp without time zone, ";
    }
    if prop.clrType == GuidType {
      q := q + " uuid, ";
    }
    if prop.clrType == BoolType {
      q := q + " boolean, ";
    }
  }

  /** Appends one column; with the identity flag set, cuts the last two characters and adds the identity clause. */
  method AppendColumn(query: string, prop: Property, isIdentity: bool) returns (q: string)
    requires isIdentity == IsAutoIncrement(prop)
    ensures q == query + ColumnSql(prop)
  {
    ghost var quoted := "\"" + prop.name + "\"";
    q := query + "\"" + prop.name + "\"";
    assert q == query + quoted;
    q := AppendType(q, prop);
    ghost var plain := quoted + TypeFragment(prop.name, prop.clrType);
    ConcatAssociative(query, quoted, TypeFragment(prop.name, prop.clrType));
    if isIdentity {
      DropLastTwo(query, plain);
      q := q[..|q| - 2];
      ConcatAssociative(query, plain[..|plain| - 2], IdentityClause);
      q := q + IdentityClause;
    }
  }

  lemma PrefixStep(properties: seq<Property>, i: nat)
    requires i < |properties|
    ensures ColumnsSql(properties[..i + 1]) == ColumnsSql(properties[..i]) + ColumnSql(properties[i])
    ensures PrimaryKeyNames(properties[..i + 1])
      == PrimaryKeyNames(properties[..i]) + KeyNamesOf(properties[i].name, properties[i].attributes)
  {
    assert properties[..i + 1][..i] == properties[..i];
  }

  /** The property loop of CreateTableWithObject: the column list and the key list, built with `+=`. */
  method BuildColumns(prefix: string, properties: seq<Property>) returns (query: string, primaryKeys: seq<string>)
    ensures query == prefix + ColumnsSql(properties)
    ensures primaryKeys == PrimaryKeyNames(properties)
  {
    primaryKeys := [];
    var isIdentity := false;
    query := prefix;
    for i := 0 to |properties|
      invariant query == prefix + ColumnsSql(properties[..i])
      invariant primaryKeys == PrimaryKeyNames(properties[..i])
    {
      var prop := properties[i];
      PrefixStep(properties, i);
      ConcatAssociative(prefix, ColumnsSql(properties[..i]), ColumnSql(prop));
      primaryKeys, isIdentity := ScanAttributes(primaryKeys, prop);
      query := AppendColumn(query, prop, isIdentity);
      isIdentity := false;
    }
    assert properties[..|properties|] == properties;
  }

  /** The statement CreateTableWithObject executes. */
  method BuildCreateTable(tableName: string, properties: seq<Property>) returns (query: string)
    ensures query == CreateTableSql(tableName, properties)
  {
    var primaryKeys;
    query, primaryKeys := BuildColumns(CreatePrefix(tableName), properties);
    if |primaryKeys| > 0 {
      var clause := " PRIMARY KEY (\"" + Join(primaryKeys, "\",\"") + "\")";
      query := query + clause;
    }
    query := query + ");";
  }

  // ---------------------------------------------------------------- properties of the statement

  /** The key list follows property order: the keys of a concatenation are the concatenated keys. */
  lemma {:induction false} PrimaryKeyNamesAppend(a: seq<Property>, b: seq<Property>)
    ensures PrimaryKeyNames(a + b) == PrimaryKeyNames(a) + PrimaryKeyNames(b)
    decreases |b|
  {
    if b == [] {
      assert a + b == a;
    } else {
      var b' := b[..|b| - 1];
      var last := b[|b| - 1];
      PrimaryKeyNamesAppend(a, b');
      assert (a + b)[..|a + b| - 1] == a + b';
      assert (a + b)[|a + b| - 1] == last;
      calc {
        PrimaryKeyNames(a + b);
        PrimaryKeyNames(a + b') + KeyNamesOf(last.name, last.attributes);
        PrimaryKeyNames(a) + (PrimaryKeyNames(b') + KeyNamesOf(last.name, last.attributes));
      }
    }
  }

  predicate HasKeyAttribute(p: Property)
  {
    exists j :: 0 <= j < |p.attributes| && p.attributes[j] != OtherAttribute
  }

  lemma {:induction false} KeyNamesOfEmpty(name: string, attributes: seq<KeyAttribute>)
    ensures KeyNamesOf(name, attributes) == [] <==> forall j :: 0 <= j < |attributes| ==> attributes[j] == OtherAttribute
    decreases |attributes|
  {
    if attributes != [] {
      var init := attributes[..|attributes| - 1];
      KeyNamesOfEmpty(name, init);
      assert forall j :: 0 <= j < |init| ==> init[j] == attributes[j];
    }
  }

  lemma {:induction false} NoKeysIffNoKeyAttribute(properties: seq<Property>)
    ensures PrimaryKeyNames(properties) == [] <==> forall i :: 0 <= i < |properties| ==> !HasKeyAttribute(properties[i])
    decreases |properties|
  {
    if properties != [] {
      var init := properties[..|properties| - 1];
      var last := properties[|properties| - 1];
      NoKeysIffNoKeyAttribute(init);
      KeyNamesOfEmpty(last.name, last.attributes);
      assert forall i :: 0 <= i < |init| ==> init[i] == properties[i];
    }
  }

  /** The PRIMARY KEY clause is emitted exactly when some property carries a key attribute. */
  lemma KeyClauseIffKeyAttribute(properties: seq<Property>)
    ensures PrimaryKeyClause(PrimaryKeyNames(properties)) != ""
      <==> exists i :: 0 <= i < |properties| && HasKeyAttribute(properties[i])
  {
    NoKeysIffNoKeyAttribute(properties);
    var keys := PrimaryKeyNames(properties);
    if keys != [] {
      assert PrimaryKeyClause(keys)[0] == ' ';
    }
  }

  lemma TypeFragmentShape(name: string, t: ClrType)
    requires t != OtherType
    ensures var f := TypeFragment(name, t); |f| >= 2 && f[|f| - 2..] == ", "
  {
  }

  /** An identity column is the plain column with its trailing `, ` replaced by the identity clause. */
  lemma ColumnShape(p: Property)
    requires p.clrType != OtherType
    ensures var t := TypeFragment(p.name, p.clrType);
      ColumnSql(p) == "\"" + p.name + "\"" + if IsAutoIncrement(p) then t[..|t| - 2] + IdentityClause else t
  {
    var t := TypeFragment(p.name, p.clrType);
    TypeFragmentShape(p.name, p.clrType);
    var quoted := "\"" + p.name + "\"";
    DropLastTwo(quoted, t);
    ConcatAssociative(quoted, t[..|t| - 2], IdentityClause);
  }

  /** Every mapped column, identity or not, ends with `, `. */
  lemma ColumnEndsWithSeparator(p: Property)
    requires p.clrType != OtherType
    ensures var c := ColumnSql(p); |c| >= 2 && c[|c| - 2..] == ", "
  {
    ColumnShape(p);
    var t := TypeFragment(p.name, p.clrType);
    TypeFragmentShape(p.name, p.clrType);
    var c := ColumnSql(p);
    if IsAutoIncrement(p) {
      var head := "\"" + p.name + "\"" + t[..|t| - 2];
      assert c == head + IdentityClause;
      LastTwo(head, IdentityClause);
    } else {
      LastTwo("\"" + p.name + "\"", t);
    }
  }

  lemma DropLastTwo(x: string, y: string)
    requires |y| >= 2
    ensures (x + y)[..|x + y| - 2] == x + y[..|y| - 2]
  {
  }

  lemma LastTwo(x: string, y: string)
    requires |y| >= 2
    ensures (x + y)[|x + y| - 2..] == y[|y| - 2..]
  {
  }

  // ---------------------------------------------------------------- the two tables of the system

  /** Models/Birthday.cs: Id is an identity key, BirthDate a key. */
  const BirthdayProperties := [
    Property("Id", IntType, [PrimaryKeyAutoIncrement]),
    Property("Name", StringType, []),
    Property("BirthDate", ShortType, [PrimaryKey]),
    Property("ChatId", StringType, [])
  ]

  /** Models/BirthdayEntry.cs: Id is the key. */
  const BirthdayEntryProperties := [
    Property("Id", LongType, [PrimaryKey]),
    Property("Message", StringType, []),
    Property("ChatId", LongType, [])
  ]

  /**
   * The "Birthdays" table gets the composite key (Id, BirthDate) with Id as its identity column;
   * nothing in the schema makes (Name, BirthDate, ChatId) unique.
   */
  lemma BirthdaysTableKeys()
    ensures PrimaryKeyNames(BirthdayProperties) == ["Id", "BirthDate"]
    ensures forall i :: 0 <= i < |BirthdayProperties| ==> (IsAutoIncrement(BirthdayProperties[i]) <==> i == 0)
  {
    var ps := BirthdayProperties;
    assert ps[..3][..2][..1] == [ps[0]] && ps[..3][..2] == ps[..2] && ps[..4][..3] == ps[..3] && ps[..4] == ps;
    assert KeyNamesOf("Id", [PrimaryKeyAutoIncrement]) == ["Id"];
    assert KeyNamesOf("BirthDate", [PrimaryKey]) == ["BirthDate"];
    assert [ps[0]][..0] == [];
    assert PrimaryKeyNames([ps[0]]) == ["Id"];
    assert PrimaryKeyNames(ps[..2]) == ["Id"];
    assert PrimaryKeyNames(ps[..3]) == ["Id", "BirthDate"];
  }

  /** The "BirthdayEntries" table is keyed by the message id alone, so a message id can be logged once. */
  lemma BirthdayEntriesTableKeys()
    ensures PrimaryKeyNames(BirthdayEntryProperties) == ["Id"]
    ensures forall i :: 0 <= i < |BirthdayEntryProperties| ==> !IsAutoIncrement(BirthdayEntryProperties[i])
  {
    var ps := BirthdayEntryProperties;
    assert ps[..2][..1] == [ps[0]] && ps[..3][..2] == ps[..2] && ps[..3] == ps;
    assert KeyNamesOf("Id", [PrimaryKey]) == ["Id"];
    assert [ps[0]][..0] == [];
    assert PrimaryKeyNames([ps[0]]) == ["Id"];
    assert PrimaryKeyNames(ps[..2]) == ["Id"];
  }
}
