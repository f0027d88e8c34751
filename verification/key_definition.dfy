/**
  Key definitions (src/db_type/key/key_definition.rs): the name of the table
  that holds a primary or secondary key, the options of a secondary key, and
  the composite key that makes a non-unique secondary key unique.
 */
module KeyDefinitions {
  import opened Bytes
  import opened Text
  import opened Outcome
  import Keys
  import KeySerializer

  /** `DatabaseSecondaryKeyOptions`; `Default` sets both flags to false. */
  datatype KeyOptions = KeyOptions(unique: bool, optional: bool)

  const DefaultOptions: KeyOptions := KeyOptions(false, false)

  /**
    `DatabaseKeyDefinition<O>`: a unique table name and the options of the
    key. Primary keys carry `()`, secondary keys carry `KeyOptions`.
   */
  datatype KeyDefinition<O> = KeyDefinition(uniqueTableName: string, options: O)

  type PrimaryDefinition = KeyDefinition<()>
  type SecondaryDefinition = KeyDefinition<KeyOptions>

  /** The position of the first occurrence of `c` in `s`. */
  function IndexOf(s: string, c: char): (r: Option<nat>)
    ensures r.Some? ==> r.value < |s| && s[r.value] == c
    ensures r.Some? ==> forall j :: 0 <= j < r.value ==> s[j] != c
    ensures r.None? ==> forall j :: 0 <= j < |s| ==> s[j] != c
  {
    if s == [] then None
    else if s[0] == c then Some(0)
    else match IndexOf(s[1..], c)
      case None => None
      case Some(i) => Some(i + 1)
  }

  /**
    Reads a table name back into model id, model version and key name: the
    text up to the first `_` and up to the second `_` must be decimal numbers;
    the rest, underscores included, is the name.
   */
  function ParseTableName(s: string): Option<(nat, nat, string)> {
    match IndexOf(s, '_')
    case None => None
    case Some(i) =>
      var rest := s[i + 1..];
      match IndexOf(rest, '_')
      case None => None
      case Some(j) =>
        if AllDigits(s[..i]) && AllDigits(rest[..j])
        then Some((ParseDecimal(s[..i]), ParseDecimal(rest[..j]), rest[j + 1..]))
        else None
  }

  /** A decimal rendering followed by `_` is split exactly after the digits. */
  lemma SplitAfterDecimal(n: nat, tail: string)
    ensures IndexOf(Decimal(n) + "_" + tail, '_') == Some(|Decimal(n)|)
    ensures (Decimal(n) + "_" + tail)[..|Decimal(n)|] == Decimal(n)
    ensures (Decimal(n) + "_" + tail)[|Decimal(n)| + 1..] == tail
  {
    var s := Decimal(n) + "_" + tail;
    var d := Decimal(n);
    assert forall j :: 0 <= j < |d| ==> s[j] == d[j] && IsDigit(d[j]);
    assert s[|d|] == '_';
    var r := IndexOf(s, '_');
    if r.None? || r.value != |d| {
      assert false;
    }
  }

  /**
    `DatabaseKeyDefinition::new(model_id, model_version, name, options)`:
    the table is named "{id}_{version}_{name}", so the three parts can be
    read back from the name.
   */
  function New<O>(id: KeySerializer.UInt32, version: KeySerializer.UInt32, name: string, options: O): (d: KeyDefinition<O>)
    ensures ParseTableName(d.uniqueTableName) == Some((id as nat, version as nat, name))
    ensures d.options == options
  {
    var tail := Decimal(version as nat) + "_" + name;
    var tableName := Decimal(id as nat) + "_" + tail;
    SplitAfterDecimal(id as nat, tail);
    SplitAfterDecimal(version as nat, name);
    ParseDecimalOfDecimal(id as nat);
    ParseDecimalOfDecimal(version as nat);
    KeyDefinition(tableName, options)
  }

  /** Two definitions get the same table name exactly when id, version and name agree. */
  lemma NewNamesAreInjective<O>(id1: KeySerializer.UInt32, version1: KeySerializer.UInt32, name1: string, o1: O,
                                id2: KeySerializer.UInt32, version2: KeySerializer.UInt32, name2: string, o2: O)
    ensures New(id1, version1, name1, o1).uniqueTableName == New(id2, version2, name2, o2).uniqueTableName
        <==> id1 == id2 && version1 == version2 && name1 == name2
  {
  }

  /** `From<&'static str>`: a secondary definition with model id 0, version 0 and default options. */
  function FromName(name: string): (d: SecondaryDefinition)
    ensures ParseTableName(d.uniqueTableName) == Some((0, 0, name))
    ensures d.options == DefaultOptions && !d.options.unique && !d.options.optional
  {
    New(0, 0, name, DefaultOptions)
  }

  /** `From<&'static str>` for definitions without options (primary keys). */
  function PrimaryFromName(name: string): (d: PrimaryDefinition)
    ensures ParseTableName(d.uniqueTableName) == Some((0, 0, name))
  {
    New(0, 0, name, ())
  }

  /**
    `PartialEq` (and `Hash`) of secondary definitions: only the table name
    takes part. Collections keyed by definitions are therefore modelled as
    keyed by table name.
   */
  predicate SameDefinition(a: SecondaryDefinition, b: SecondaryDefinition) {
    a.uniqueTableName == b.uniqueTableName
  }

  /** Equality ignores the options, and is equality of id, version and name for built definitions. */
  lemma SameDefinitionIgnoresOptions(id1: KeySerializer.UInt32, version1: KeySerializer.UInt32, name1: string, o1: KeyOptions,
                                     id2: KeySerializer.UInt32, version2: KeySerializer.UInt32, name2: string, o2: KeyOptions)
    ensures SameDefinition(New(id1, version1, name1, o1), New(id2, version2, name2, o2))
        <==> id1 == id2 && version1 == version2 && name1 == name2
    ensures SameDefinition(New(id1, version1, name1, o1), New(id1, version1, name1, o2))
  {
    NewNamesAreInjective(id1, version1, name1, o1, id2, version2, name2, o2);
  }

  /** `composite_key(secondary, primary)`: the secondary key's bytes followed by the primary key's. */
  function CompositeKey(secondary: Keys.Key, primary: Keys.Key): (r: Keys.Key)
    ensures |r.data| == |secondary.data| + |primary.data|
    ensures StartsWith(r.data, secondary.data)
    ensures r.data[|secondary.data|..] == primary.data
  {
    Keys.Extend(secondary, primary)
  }

  /** A composite key determines its parts once the primary key's length is known. */
  lemma CompositeKeyInjective(s1: Keys.Key, p1: Keys.Key, s2: Keys.Key, p2: Keys.Key)
    requires |p1.data| == |p2.data|
    ensures CompositeKey(s1, p1) == CompositeKey(s2, p2) <==> s1 == s2 && p1 == p2
  {
    if CompositeKey(s1, p1) == CompositeKey(s2, p2) {
      var c := CompositeKey(s1, p1).data;
      assert s1.data == c[..|s1.data|];
      assert s2.data == c[..|s2.data|];
    }
  }
}
