/**
  The key layout of one model (src/model.rs): its primary-key definition and
  the set of its secondary-key definitions, and the check of a secondary
  key's registered options.
 */
module ModelDefinition {
  import opened Outcome
  import opened KeyDefinitions
  import opened Errors

  /**
    `DatabaseModel`. The secondary keys form a set whose elements are equal
    when their table names are, so the set is a map from table name to the
    options registered under that name.
   */
  datatype DatabaseModel = DatabaseModel(primaryKey: PrimaryDefinition, secondaryKeys: map<string, KeyOptions>)

  /**
    `check_secondary_options(key, check)`: the key must be one of the
    model's (by table name), and `check` must accept the options registered
    for it, which are reported back when it does not.
   */
  function CheckSecondaryOptions(m: DatabaseModel, key: SecondaryDefinition, check: KeyOptions -> bool): (r: Result<(), Error>)
    ensures key.uniqueTableName !in m.secondaryKeys
        ==> r == Err(SecondaryKeyDefinitionNotFound(m.primaryKey.uniqueTableName, key.uniqueTableName))
    ensures key.uniqueTableName in m.secondaryKeys
        ==> (r.Ok? <==> check(m.secondaryKeys[key.uniqueTableName]))
    ensures key.uniqueTableName in m.secondaryKeys && r.Err?
        ==> r.error == SecondaryKeyConstraintMismatch(m.primaryKey.uniqueTableName, key.uniqueTableName,
                                                       m.secondaryKeys[key.uniqueTableName])
  {
    if key.uniqueTableName !in m.secondaryKeys then
      Err(SecondaryKeyDefinitionNotFound(m.primaryKey.uniqueTableName, key.uniqueTableName))
    else
      var registered := m.secondaryKeys[key.uniqueTableName];
      if check(registered) then Ok(())
      else Err(SecondaryKeyConstraintMismatch(m.primaryKey.uniqueTableName, key.uniqueTableName, registered))
  }

  /** The caller's own options never matter: only the registered ones are checked. */
  lemma CheckIgnoresCallerOptions(m: DatabaseModel, key: SecondaryDefinition, other: KeyOptions, check: KeyOptions -> bool)
    ensures CheckSecondaryOptions(m, key, check) == CheckSecondaryOptions(m, key.(options := other), check)
  {
  }

  /** The uniqueness check used by secondary-key lookups. */
  predicate IsUnique(o: KeyOptions) {
    o.unique
  }

  /** A key registered as unique passes the uniqueness check even when the caller's definition says otherwise. */
  lemma RegisteredUniqueKeyPasses(m: DatabaseModel, key: SecondaryDefinition)
    requires key.uniqueTableName in m.secondaryKeys && m.secondaryKeys[key.uniqueTableName].unique
    ensures CheckSecondaryOptions(m, key, IsUnique).Ok?
    ensures CheckSecondaryOptions(m, key.(options := DefaultOptions), IsUnique).Ok?
  {
  }
}
