/**
  The ordered key-value store under a database, as the model layer sees it:
  one primary table per model (key to payload) and one multimap per
  secondary key (secondary key to primary keys), all named by their
  definitions' table names; and the lookup of those tables through the
  table definitions (`get_primary_table` / `get_secondary_table` in
  src/transaction/internal/rw_transaction.rs).
 */
module Tables {
  import opened Bytes
  import opened Outcome
  import opened Sorting
  import opened Keys
  import opened KeyDefinitions
  import opened Errors
  import opened ModelDefinition
  import opened ModelRegistry

  /**
    The tables of a write transaction. A table never opened is absent and
    reads as empty, as a write transaction creates it on first open.
   */
  datatype Store = Store(primary: map<string, map<Key, Bytes>>, secondary: map<string, set<(Key, Key)>>)

  /** The table definitions of a database: the model builders by primary table name. */
  type Definitions = map<string, ModelBuilder>

  function Rows(s: Store, table: string): (rows: map<Key, Bytes>)
    ensures table !in s.primary ==> rows == map[]
  {
    if table in s.primary then s.primary[table] else map[]
  }

  function Pairs(s: Store, table: string): (pairs: set<(Key, Key)>)
    ensures table !in s.secondary ==> pairs == {}
  {
    if table in s.secondary then s.secondary[table] else {}
  }

  function WithRows(s: Store, table: string, rows: map<Key, Bytes>): (r: Store)
    ensures Rows(r, table) == rows && r.secondary == s.secondary
    ensures forall t :: t != table ==> Rows(r, t) == Rows(s, t)
  {
    s.(primary := s.primary[table := rows])
  }

  function WithPairs(s: Store, table: string, pairs: set<(Key, Key)>): (r: Store)
    ensures Pairs(r, table) == pairs && r.primary == s.primary
    ensures forall t :: t != table ==> Pairs(r, t) == Pairs(s, t)
  {
    s.(secondary := s.secondary[table := pairs])
  }

  /** The storage order of keys. */
  predicate KeyLe(a: Key, b: Key) {
    LessEq(a.data, b.data)
  }

  /** The storage order of a multimap's entries: by secondary key, then by primary key. */
  predicate PairLe(a: (Key, Key), b: (Key, Key)) {
    Less(a.0.data, b.0.data) || (a.0 == b.0 && LessEq(a.1.data, b.1.data))
  }

  lemma KeyLeIsTotalOrder()
    ensures TotalOrder(KeyLe)
  {
    forall a: Key, b: Key ensures KeyLe(a, b) || KeyLe(b, a) {
      LessEqTotal(a.data, b.data);
    }
    forall a: Key, b: Key | KeyLe(a, b) && KeyLe(b, a) ensures a == b {
      LessEqAntisymmetric(a.data, b.data);
    }
    forall a: Key, b: Key, c: Key | KeyLe(a, b) && KeyLe(b, c) ensures KeyLe(a, c) {
      LessEqTransitive(a.data, b.data, c.data);
    }
    forall a: Key ensures KeyLe(a, a) {
      LessEqReflexive(a.data);
    }
  }

  lemma PairLeIsTotalOrder()
    ensures TotalOrder(PairLe)
  {
    forall a: (Key, Key) ensures PairLe(a, a) {
      LessEqReflexive(a.1.data);
    }
    forall a: (Key, Key), b: (Key, Key) ensures PairLe(a, b) || PairLe(b, a) {
      LessEqTotal(a.0.data, b.0.data);
      LessEqTotal(a.1.data, b.1.data);
      CompareEqualIff(a.0.data, b.0.data);
      CompareAntisymmetric(a.0.data, b.0.data);
    }
    forall a: (Key, Key), b: (Key, Key) | PairLe(a, b) && PairLe(b, a) ensures a == b {
      CompareAntisymmetric(a.0.data, b.0.data);
      if a.0 == b.0 {
        LessEqAntisymmetric(a.1.data, b.1.data);
      }
    }
    forall a: (Key, Key), b: (Key, Key), c: (Key, Key) | PairLe(a, b) && PairLe(b, c) ensures PairLe(a, c) {
      CompareEqualIff(a.0.data, b.0.data);
      CompareEqualIff(b.0.data, c.0.data);
      if Less(a.0.data, b.0.data) && Less(b.0.data, c.0.data) {
        LessTransitive(a.0.data, b.0.data, c.0.data);
      }
      if a.0 == b.0 && b.0 == c.0 {
        LessEqTransitive(a.1.data, b.1.data, c.1.data);
      }
    }
  }

  /** A table's keys in storage order. */
  function SortedKeys(rows: map<Key, Bytes>): (r: seq<Key>)
    ensures Lists(r, rows.Keys, KeyLe)
    ensures |r| == |rows|
  {
    KeyLeIsTotalOrder();
    Sort(rows.Keys, KeyLe)
  }

  /** Keys in storage order strictly ascend in byte order. */
  lemma SortedKeysAscend(keys: seq<Key>)
    requires StrictlySorted(keys, KeyLe)
    ensures forall i, j :: 0 <= i < j < |keys| ==> Less(keys[i].data, keys[j].data)
  {
    forall i, j | 0 <= i < j < |keys| ensures Less(keys[i].data, keys[j].data) {
      assert KeyLe(keys[i], keys[j]) && keys[i] != keys[j];
      CompareEqualIff(keys[i].data, keys[j].data);
    }
  }

  /** A table's payloads in storage order. */
  function StoredPayloads(rows: map<Key, Bytes>): (r: seq<Bytes>)
    ensures |r| == |rows|
    ensures forall i :: 0 <= i < |r| ==> SortedKeys(rows)[i] in rows && r[i] == rows[SortedKeys(rows)[i]]
  {
    var keys := SortedKeys(rows);
    assert forall i :: 0 <= i < |keys| ==> keys[i] in rows by {
      forall i | 0 <= i < |keys| ensures keys[i] in rows {
        assert keys[i] in keys;
      }
    }
    seq(|keys|, i requires 0 <= i < |keys| => rows[keys[i]])
  }

  /** Every row's payload has a place among the stored payloads. */
  lemma PayloadIndex(rows: map<Key, Bytes>, k: Key) returns (i: nat)
    requires k in rows
    ensures i < |StoredPayloads(rows)| && StoredPayloads(rows)[i] == rows[k]
  {
    var keys := SortedKeys(rows);
    assert k in keys;
    var j :| 0 <= j < |keys| && keys[j] == k;
    i := j;
  }

  /** A multimap's entries in storage order. */
  function SortedPairs(pairs: set<(Key, Key)>): (r: seq<(Key, Key)>)
    ensures Lists(r, pairs, PairLe)
    ensures |r| == |pairs|
  {
    PairLeIsTotalOrder();
    Sort(pairs, PairLe)
  }

  /** Filtering a multimap's listing keeps one element per matching entry. */
  lemma FilteredPairsCount(pairs: set<(Key, Key)>, p: ((Key, Key)) -> bool, matching: set<(Key, Key)>)
    requires forall x :: x in matching <==> x in pairs && p(x)
    ensures |Filter(SortedPairs(pairs), p)| == |matching|
  {
    PairLeIsTotalOrder();
    FilterOfListingCount(SortedPairs(pairs), pairs, p, PairLe, matching);
  }

  /** `get_primary_table`: the model's table, when the database defines it. */
  function PrimaryTable(defs: Definitions, model: DatabaseModel): (r: Result<string, Error>)
    ensures r.Ok? <==> model.primaryKey.uniqueTableName in defs
    ensures r.Ok? ==> r.value == model.primaryKey.uniqueTableName
    ensures r.Err? ==> r.error == TableDefinitionNotFound(model.primaryKey.uniqueTableName)
  {
    if model.primaryKey.uniqueTableName in defs then Ok(model.primaryKey.uniqueTableName)
    else Err(TableDefinitionNotFound(model.primaryKey.uniqueTableName))
  }

  /**
    `get_secondary_table`: the multimap of `key`, when the model's table
    definition lists a secondary key of that table name. The error names the
    model's table when the model is unknown and the key's table otherwise.
   */
  function SecondaryTable(defs: Definitions, model: DatabaseModel, key: SecondaryDefinition): (r: Result<string, Error>)
    ensures r.Ok? <==> model.primaryKey.uniqueTableName in defs
                       && key.uniqueTableName in defs[model.primaryKey.uniqueTableName].model.secondaryKeys
    ensures r.Ok? ==> r.value == key.uniqueTableName
    ensures model.primaryKey.uniqueTableName !in defs ==> r == Err(TableDefinitionNotFound(model.primaryKey.uniqueTableName))
    ensures model.primaryKey.uniqueTableName in defs && r.Err? ==> r.error == TableDefinitionNotFound(key.uniqueTableName)
  {
    if model.primaryKey.uniqueTableName !in defs then Err(TableDefinitionNotFound(model.primaryKey.uniqueTableName))
    else if key.uniqueTableName !in defs[model.primaryKey.uniqueTableName].model.secondaryKeys then
      Err(TableDefinitionNotFound(key.uniqueTableName))
    else Ok(key.uniqueTableName)
  }
}
