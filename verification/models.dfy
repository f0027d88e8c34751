/**
  The collection of models given to the database builder (src/models.rs):
  each `define` records a model under its primary table name, together with
  its native model id and version, and updates the legacy flags.
 */
module ModelRegistry {
  import opened Outcome
  import opened Sorting
  import KeySerializer
  import opened KeyDefinitions
  import opened Errors
  import opened ModelDefinition

  type UInt32 = KeySerializer.UInt32

  /** `NativeModelOptions` (src/table_definition.rs); `Default` is id 0, version 0, not legacy. */
  datatype NativeModelOptions = NativeModelOptions(id: UInt32, version: UInt32, legacy: bool)

  /** `ModelBuilder`: a model with its native model options. */
  datatype ModelBuilder = ModelBuilder(model: DatabaseModel, options: NativeModelOptions)

  /** `Models`: the builders keyed by primary table name. */
  datatype Models = Models(builders: map<string, ModelBuilder>)

  /** `Models::new` */
  function NewModels(): (ms: Models)
    ensures |ms.builders| == 0
  {
    Models(map[])
  }

  /** The panic message of `define` for two models with the same id and version. */
  function SameVersionMessage(existing: string, defined: string): string {
    "The table " + existing + " has the same native model version as the table " + defined + " and it's not allowed"
  }

  /**
    The loop of `define` over the existing builders, in the map's iteration
    order `order`: each builder with a greater version than the new one is
    made non-legacy and the new model legacy; any other is made legacy and the
    new model non-legacy; so the new model's flag is decided by the last
    builder visited. A builder with the same id and version panics.
   */
  function SetLegacyFlags(b: map<string, ModelBuilder>, order: seq<string>, id: UInt32, version: UInt32,
                          newLegacy: bool, newName: string): (r: Result<(map<string, ModelBuilder>, bool), Error>)
    requires forall k :: k in order ==> k in b
    ensures r.Ok? ==> r.value.0.Keys == b.Keys
  {
    if order == [] then Ok((b, newLegacy))
    else
      var m := b[order[0]];
      var greater := m.options.version > version;
      if m.options.id == id && m.options.version == version then
        Err(Panic(SameVersionMessage(m.model.primaryKey.uniqueTableName, newName)))
      else
        SetLegacyFlags(b[order[0] := m.(options := m.options.(legacy := !greater))], order[1..], id, version, greater, newName)
  }

  /** The same (id, version) anywhere in the visit panics; only flags change otherwise. */
  predicate SameVersionIn(b: map<string, ModelBuilder>, order: seq<string>, id: UInt32, version: UInt32)
    requires forall k :: k in order ==> k in b
  {
    exists i :: 0 <= i < |order| && b[order[i]].options.id == id && b[order[i]].options.version == version
  }

  /** Only the legacy flags change, each visited builder's as its version compares with the new one. */
  predicate FlagsSet(b: map<string, ModelBuilder>, order: seq<string>, version: UInt32, b': map<string, ModelBuilder>)
    requires forall k :: k in order ==> k in b
  {
    && b'.Keys == b.Keys
    && (forall k :: k in b ==> b'[k].model == b[k].model && b'[k].options.id == b[k].options.id
                               && b'[k].options.version == b[k].options.version)
    && (forall k :: k in b && k !in order ==> b'[k] == b[k])
    && (forall k :: k in order ==> b'[k].options.legacy == (b[k].options.version <= version))
  }

  /** The visit panics exactly when it meets a builder with the same id and version. */
  lemma {:induction false} SetLegacyFlagsPanics(b: map<string, ModelBuilder>, order: seq<string>, id: UInt32, version: UInt32,
                                                newLegacy: bool, newName: string)
    requires forall k :: k in order ==> k in b
    ensures var r := SetLegacyFlags(b, order, id, version, newLegacy, newName);
      && (r.Err? <==> SameVersionIn(b, order, id, version))
      && (r.Err? ==> r.error.Panic?)
  {
    if order != [] {
      var m := b[order[0]];
      var greater := m.options.version > version;
      if !(m.options.id == id && m.options.version == version) {
        var b1 := b[order[0] := m.(options := m.options.(legacy := !greater))];
        SetLegacyFlagsPanics(b1, order[1..], id, version, greater, newName);
        SameVersionStep(b, b1, order, id, version);
      }
    }
  }

  /** A visit whose first builder differs in (id, version) meets the pair exactly when the rest of the visit does. */
  lemma SameVersionStep(b: map<string, ModelBuilder>, b1: map<string, ModelBuilder>, order: seq<string>, id: UInt32, version: UInt32)
    requires order != [] && forall k :: k in order ==> k in b
    requires !(b[order[0]].options.id == id && b[order[0]].options.version == version)
    requires b1.Keys == b.Keys
    requires forall k :: k in b ==> b1[k].options.id == b[k].options.id && b1[k].options.version == b[k].options.version
    ensures SameVersionIn(b, order, id, version) <==> SameVersionIn(b1, order[1..], id, version)
  {
    var rest := order[1..];
    if SameVersionIn(b, order, id, version) {
      var i :| 0 <= i < |order| && b[order[i]].options.id == id && b[order[i]].options.version == version;
      assert i > 0 && rest[i - 1] == order[i];
    }
    if SameVersionIn(b1, rest, id, version) {
      var i :| 0 <= i < |rest| && b1[rest[i]].options.id == id && b1[rest[i]].options.version == version;
      assert order[i + 1] == rest[i];
    }
  }

  /** Setting one builder's flag, then the rest, sets all of them. */
  lemma FlagsSetStep(b: map<string, ModelBuilder>, order: seq<string>, version: UInt32, b': map<string, ModelBuilder>)
    requires order != [] && forall k :: k in order ==> k in b
    requires var m := b[order[0]];
      FlagsSet(b[order[0] := m.(options := m.options.(legacy := m.options.version <= version))], order[1..], version, b')
    ensures FlagsSet(b, order, version, b')
  {
    assert forall k :: k in order ==> k == order[0] || k in order[1..];
  }

  /** A visit that does not panic sets every visited builder's flag and nothing else. */
  lemma {:induction false} SetLegacyFlagsSets(b: map<string, ModelBuilder>, order: seq<string>, id: UInt32, version: UInt32,
                                              newLegacy: bool, newName: string)
    requires forall k :: k in order ==> k in b
    ensures var r := SetLegacyFlags(b, order, id, version, newLegacy, newName);
      && (r.Ok? ==> FlagsSet(b, order, version, r.value.0))
      && (r.Ok? ==> r.value.1 == if order == [] then newLegacy else b[order[|order| - 1]].options.version > version)
  {
    if order != [] {
      var m := b[order[0]];
      var greater := m.options.version > version;
      if !(m.options.id == id && m.options.version == version) {
        var b1 := b[order[0] := m.(options := m.options.(legacy := !greater))];
        SetLegacyFlagsSets(b1, order[1..], id, version, greater, newName);
        var r := SetLegacyFlags(b1, order[1..], id, version, greater, newName);
        if r.Ok? {
          FlagsSetStep(b, order, version, r.value.0);
          if |order| > 1 {
            assert order[1..][|order[1..]| - 1] == order[|order| - 1];
            assert b1[order[|order| - 1]].options.version == b[order[|order| - 1]].options.version;
          }
        }
      }
    }
  }

  lemma SetLegacyFlagsSpec(b: map<string, ModelBuilder>, order: seq<string>, id: UInt32, version: UInt32,
                           newLegacy: bool, newName: string)
    requires forall k :: k in order ==> k in b
    ensures var r := SetLegacyFlags(b, order, id, version, newLegacy, newName);
      && (r.Err? <==> SameVersionIn(b, order, id, version))
      && (r.Err? ==> r.error.Panic?)
      && (r.Ok? ==> FlagsSet(b, order, version, r.value.0))
      && (r.Ok? ==> r.value.1 == if order == [] then newLegacy else b[order[|order| - 1]].options.version > version)
  {
    SetLegacyFlagsPanics(b, order, id, version, newLegacy, newName);
    SetLegacyFlagsSets(b, order, id, version, newLegacy, newName);
  }

  /**
    `Models::define` for a model whose native model id and version are `id`
    and `version`, with the existing builders visited in `order`.
   */
  function Define(ms: Models, order: seq<string>, model: DatabaseModel, id: UInt32, version: UInt32): (r: Result<Models, Error>)
    requires Enumerates(order, ms.builders.Keys)
    ensures r.Err? <==> exists k :: k in ms.builders && ms.builders[k].options.id == id && ms.builders[k].options.version == version
    ensures r.Err? ==> r.error.Panic?
    ensures r.Ok? ==> r.value.builders.Keys == ms.builders.Keys + {model.primaryKey.uniqueTableName}
    ensures r.Ok? ==> var nb := r.value.builders[model.primaryKey.uniqueTableName];
      nb.model == model && nb.options.id == id && nb.options.version == version
  {
    SetLegacyFlagsSpec(ms.builders, order, id, version, false, model.primaryKey.uniqueTableName);
    match SetLegacyFlags(ms.builders, order, id, version, false, model.primaryKey.uniqueTableName)
    case Err(e) =>
      Err(e)
    case Ok((b, newLegacy)) =>
      Ok(Models(b[model.primaryKey.uniqueTableName := ModelBuilder(model, NativeModelOptions(id, version, newLegacy))]))
  }

  /** The first model defined in an empty collection is not legacy. */
  lemma FirstModelIsCurrent(model: DatabaseModel, id: UInt32, version: UInt32)
    ensures Define(NewModels(), [], model, id, version).Ok?
    ensures !Define(NewModels(), [], model, id, version).value.builders[model.primaryKey.uniqueTableName].options.legacy
  {
  }

  /**
    After a successful `define`, every other builder is legacy exactly when its
    version is at most the new version, whatever its model id.
   */
  lemma DefineSetsEarlierFlags(ms: Models, order: seq<string>, model: DatabaseModel, id: UInt32, version: UInt32, k: string)
    requires Enumerates(order, ms.builders.Keys)
    requires Define(ms, order, model, id, version).Ok?
    requires k in ms.builders && k != model.primaryKey.uniqueTableName
    ensures Define(ms, order, model, id, version).value.builders[k].options.legacy == (ms.builders[k].options.version <= version)
    ensures Define(ms, order, model, id, version).value.builders[k].model == ms.builders[k].model
  {
    SetLegacyFlagsSpec(ms.builders, order, id, version, false, model.primaryKey.uniqueTableName);
  }

  /**
    The new model is legacy exactly when the builder visited last has a
    greater version; in particular it is not legacy when its version is at
    least every earlier one.
   */
  lemma DefineNewModelFlag(ms: Models, order: seq<string>, model: DatabaseModel, id: UInt32, version: UInt32)
    requires Enumerates(order, ms.builders.Keys)
    requires Define(ms, order, model, id, version).Ok?
    ensures Define(ms, order, model, id, version).value.builders[model.primaryKey.uniqueTableName].options.legacy
        == (order != [] && ms.builders[order[|order| - 1]].options.version > version)
    ensures (forall k :: k in ms.builders ==> ms.builders[k].options.version <= version)
        ==> !Define(ms, order, model, id, version).value.builders[model.primaryKey.uniqueTableName].options.legacy
  {
    SetLegacyFlagsSpec(ms.builders, order, id, version, false, model.primaryKey.uniqueTableName);
    if order != [] {
      assert order[|order| - 1] in ms.builders;
    }
  }

  /** Defining a model under a table name already present replaces that entry; nothing else is added. */
  lemma DefineReplacesSameName(ms: Models, order: seq<string>, model: DatabaseModel, id: UInt32, version: UInt32)
    requires Enumerates(order, ms.builders.Keys)
    requires model.primaryKey.uniqueTableName in ms.builders
    requires Define(ms, order, model, id, version).Ok?
    ensures |Define(ms, order, model, id, version).value.builders| == |ms.builders|
    ensures Define(ms, order, model, id, version).value.builders[model.primaryKey.uniqueTableName].model == model
  {
    assert ms.builders.Keys + {model.primaryKey.uniqueTableName} == ms.builders.Keys;
  }

  // ---- The legacy flag ignores the model id (see README, Findings) ----

  /** Two models of different ids, both at version 1. */
  const Animal: DatabaseModel := DatabaseModel(PrimaryFromName("animal"), map[])
  const Vegetable: DatabaseModel := DatabaseModel(PrimaryFromName("vegetable"), map[])

  /** The two example models have different tables. */
  lemma ExampleTablesDiffer()
    ensures Animal.primaryKey.uniqueTableName != Vegetable.primaryKey.uniqueTableName
  {
    NewNamesAreInjective(0, 0, "animal", (), 0, 0, "vegetable", ());
  }

  /**
    As written, defining an unrelated model (id 2) after another (id 1) at
    the same version marks the first one legacy, so it can no longer be
    the target of a migration; `Animal` and `Vegetable` are such a pair.
   */
  lemma UnrelatedModelBecomesLegacy(first: DatabaseModel, second: DatabaseModel)
    requires first.primaryKey.uniqueTableName != second.primaryKey.uniqueTableName
    ensures Define(NewModels(), [], first, 1, 1).Ok?
    ensures var ms := Define(NewModels(), [], first, 1, 1).value;
      && Define(ms, [first.primaryKey.uniqueTableName], second, 2, 1).Ok?
      && Define(ms, [first.primaryKey.uniqueTableName], second, 2, 1).value.builders[first.primaryKey.uniqueTableName].options.legacy
  {
    var ms := Define(NewModels(), [], first, 1, 1).value;
    assert ms.builders.Keys == {first.primaryKey.uniqueTableName};
    assert Enumerates([first.primaryKey.uniqueTableName], ms.builders.Keys);
    DefineSetsEarlierFlags(ms, [first.primaryKey.uniqueTableName], second, 2, 1, first.primaryKey.uniqueTableName);
  }

  /**
    As written, the new model's flag depends on the iteration order: with
    versions 1 and 3 of one model defined, version 2 is legacy when version 3
    is visited last and current when version 1 is.
   */
  lemma NewModelFlagDependsOnOrder(ms: Models, model: DatabaseModel, v1: string, v3: string)
    requires ms.builders.Keys == {v1, v3} && v1 != v3
    requires ms.builders[v1].options.id == 1 && ms.builders[v1].options.version == 1
    requires ms.builders[v3].options.id == 1 && ms.builders[v3].options.version == 3
    ensures Define(ms, [v1, v3], model, 1, 2).Ok? && Define(ms, [v3, v1], model, 1, 2).Ok?
    ensures Define(ms, [v1, v3], model, 1, 2).value.builders[model.primaryKey.uniqueTableName].options.legacy
    ensures !Define(ms, [v3, v1], model, 1, 2).value.builders[model.primaryKey.uniqueTableName].options.legacy
  {
    assert Enumerates([v1, v3], ms.builders.Keys);
    assert Enumerates([v3, v1], ms.builders.Keys);
    DefineNewModelFlag(ms, [v1, v3], model, 1, 2);
    DefineNewModelFlag(ms, [v3, v1], model, 1, 2);
  }

  /**
    Reference for the legacy flag: a model is legacy when another model of
    the same id has a greater version.
   */
  predicate SupersededIn(b: map<string, ModelBuilder>, k: string)
    requires k in b
  {
    exists j :: j in b && b[j].options.id == b[k].options.id && b[j].options.version > b[k].options.version
  }

  /** The legacy flags recomputed for a whole collection, per model id. */
  function RecomputeLegacy(b: map<string, ModelBuilder>): (r: map<string, ModelBuilder>)
    ensures r.Keys == b.Keys
    ensures forall k :: k in r ==> r[k].model == b[k].model
    ensures forall k :: k in r ==> r[k].options.id == b[k].options.id && r[k].options.version == b[k].options.version
    ensures forall k :: k in r ==> (r[k].options.legacy <==> SupersededIn(b, k))
  {
    map k | k in b :: b[k].(options := b[k].options.(legacy := SupersededIn(b, k)))
  }

  /** Recomputing the flags changes no id or version, so which models are superseded stays the same. */
  lemma RecomputeIsStable(b: map<string, ModelBuilder>)
    ensures forall k :: k in RecomputeLegacy(b) ==> (SupersededIn(RecomputeLegacy(b), k) <==> SupersededIn(b, k))
  {
    var r := RecomputeLegacy(b);
    forall k | k in r ensures SupersededIn(r, k) <==> SupersededIn(b, k) {
      if SupersededIn(b, k) {
        var j :| j in b && b[j].options.id == b[k].options.id && b[j].options.version > b[k].options.version;
        assert j in r;
      }
    }
  }

  /**
    `define` with the legacy flags as evidently intended: same panic and
    same entry, but each model is legacy exactly when a model of the same id
    has a greater version, independently of the other ids and of the order.
   */
  function DefineIntended(ms: Models, order: seq<string>, model: DatabaseModel, id: UInt32, version: UInt32): (r: Result<Models, Error>)
    requires Enumerates(order, ms.builders.Keys)
    ensures r.Err? <==> exists k :: k in ms.builders && ms.builders[k].options.id == id && ms.builders[k].options.version == version
    ensures r.Ok? ==> r.value.builders.Keys == ms.builders.Keys + {model.primaryKey.uniqueTableName}
    ensures r.Ok? ==> forall k :: k in r.value.builders ==>
      (r.value.builders[k].options.legacy <==> SupersededIn(r.value.builders, k))
    ensures r.Ok? ==>
      && r.value.builders[model.primaryKey.uniqueTableName].model == model
      && r.value.builders[model.primaryKey.uniqueTableName].options.id == id
      && r.value.builders[model.primaryKey.uniqueTableName].options.version == version
    ensures r.Ok? ==> forall k :: k in ms.builders && k != model.primaryKey.uniqueTableName ==>
      && r.value.builders[k].options.id == ms.builders[k].options.id
      && r.value.builders[k].options.version == ms.builders[k].options.version
  {
    SetLegacyFlagsSpec(ms.builders, order, id, version, false, model.primaryKey.uniqueTableName);
    match SetLegacyFlags(ms.builders, order, id, version, false, model.primaryKey.uniqueTableName)
    case Err(e) => Err(e)
    case Ok(_) => Ok(Models(WithIntendedFlags(ms.builders, model, id, version)))
  }

  /** The new builder added, then every flag recomputed from the ids and versions. */
  function WithIntendedFlags(b: map<string, ModelBuilder>, model: DatabaseModel, id: UInt32, version: UInt32)
    : (r: map<string, ModelBuilder>)
    ensures r.Keys == b.Keys + {model.primaryKey.uniqueTableName}
    ensures forall k :: k in r ==> (r[k].options.legacy <==> SupersededIn(r, k))
    ensures r[model.primaryKey.uniqueTableName].model == model
    ensures r[model.primaryKey.uniqueTableName].options.id == id && r[model.primaryKey.uniqueTableName].options.version == version
    ensures forall k :: k in b && k != model.primaryKey.uniqueTableName ==>
      r[k].options.id == b[k].options.id && r[k].options.version == b[k].options.version
  {
    var added := b[model.primaryKey.uniqueTableName := ModelBuilder(model, NativeModelOptions(id, version, false))];
    RecomputeIsStable(added);
    RecomputeLegacy(added)
  }

  /**
    With the intended flags, defining a model leaves every current model of
    another id current.
   */
  lemma IntendedKeepsOtherIdsCurrent(ms: Models, order: seq<string>, model: DatabaseModel, id: UInt32, version: UInt32, k: string)
    requires Enumerates(order, ms.builders.Keys)
    requires k in ms.builders && k != model.primaryKey.uniqueTableName && ms.builders[k].options.id != id
    requires !SupersededIn(ms.builders, k)
    requires DefineIntended(ms, order, model, id, version).Ok?
    ensures !DefineIntended(ms, order, model, id, version).value.builders[k].options.legacy
  {
    var r := DefineIntended(ms, order, model, id, version).value.builders;
    forall j | j in r && r[j].options.id == r[k].options.id
      ensures r[j].options.version <= r[k].options.version
    {
      assert j != model.primaryKey.uniqueTableName;
      assert j in ms.builders;
    }
  }

  /** With the intended flags, defining an unrelated model leaves the first one current. */
  lemma IntendedKeepsUnrelatedModelCurrent(first: DatabaseModel, second: DatabaseModel)
    requires first.primaryKey.uniqueTableName != second.primaryKey.uniqueTableName
    ensures DefineIntended(NewModels(), [], first, 1, 1).Ok?
    ensures var ms := DefineIntended(NewModels(), [], first, 1, 1).value;
      && DefineIntended(ms, [first.primaryKey.uniqueTableName], second, 2, 1).Ok?
      && !DefineIntended(ms, [first.primaryKey.uniqueTableName], second, 2, 1).value.builders[first.primaryKey.uniqueTableName].options.legacy
  {
    FirstIntendedDefinition(first);
    var ms := DefineIntended(NewModels(), [], first, 1, 1).value;
    var name := first.primaryKey.uniqueTableName;
    assert Enumerates([name], ms.builders.Keys);
    assert DefineIntended(ms, [name], second, 2, 1).Ok?;
    IntendedKeepsOtherIdsCurrent(ms, [name], second, 2, 1, name);
  }

  /** The first definition of a model gives a collection holding it alone, current. */
  lemma FirstIntendedDefinition(first: DatabaseModel)
    ensures DefineIntended(NewModels(), [], first, 1, 1).Ok?
    ensures var b := DefineIntended(NewModels(), [], first, 1, 1).value.builders;
      && b.Keys == {first.primaryKey.uniqueTableName}
      && b[first.primaryKey.uniqueTableName].options.id == 1
      && b[first.primaryKey.uniqueTableName].options.version == 1
      && !SupersededIn(b, first.primaryKey.uniqueTableName)
  {
  }
}
