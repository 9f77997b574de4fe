/** `migrateObject` of `src/utils/Utils.ts`: every key the object already has
    is overwritten in place with the old data's own value for that key, or
    else with the default data's value (`undefined` when that has none). */
module Migration {

  import opened Values

  /** The value a key receives: own property of the old data first, then the
      default data's property, and `undefined` when neither has it. */
  function MigratedValue(key: string, oldData: map<string, Value>, defaultData: map<string, Value>): Value
  {
    if key in oldData then oldData[key]
    else if key in defaultData then defaultData[key]
    else Undefined
  }

  /** The object's properties after the migration. */
  function Migrated(props: map<string, Value>, oldData: map<string, Value>, defaultData: map<string, Value>): map<string, Value>
  {
    map key | key in props :: MigratedValue(key, oldData, defaultData)
  }

  /** The migration keeps exactly the object's keys, taking each value from
      the old data when it has the key and from the defaults otherwise. */
  lemma MigratedSpec(props: map<string, Value>, oldData: map<string, Value>, defaultData: map<string, Value>, key: string)
    ensures Migrated(props, oldData, defaultData).Keys == props.Keys
    ensures key in props && key in oldData ==> Migrated(props, oldData, defaultData)[key] == oldData[key]
    ensures key in props && key !in oldData && key in defaultData ==>
      Migrated(props, oldData, defaultData)[key] == defaultData[key]
    ensures key in props && key !in oldData && key !in defaultData ==>
      Migrated(props, oldData, defaultData)[key] == Undefined
  {
  }

  /** The object's current values play no part: only its set of keys does. */
  lemma MigrationIgnoresCurrentValues(p: map<string, Value>, q: map<string, Value>, oldData: map<string, Value>, defaultData: map<string, Value>)
    requires p.Keys == q.Keys
    ensures Migrated(p, oldData, defaultData) == Migrated(q, oldData, defaultData)
  {
  }

  /** Migrating twice with the same data is migrating once. */
  lemma MigrationIdempotent(p: map<string, Value>, oldData: map<string, Value>, defaultData: map<string, Value>)
    ensures Migrated(Migrated(p, oldData, defaultData), oldData, defaultData) == Migrated(p, oldData, defaultData)
  {
  }

  /** Migrating from old data that holds every key of the object restores
      the old data on those keys, whatever the defaults. */
  lemma MigrationFromCompleteData(p: map<string, Value>, oldData: map<string, Value>, defaultData: map<string, Value>)
    requires p.Keys <= oldData.Keys
    ensures Migrated(p, oldData, defaultData) == map key | key in p :: oldData[key]
  {
  }

  /** The object `migrateObject` updates: its enumerable properties. */
  class PropertyBag {
    var props: map<string, Value>

    constructor(props0: map<string, Value>)
      ensures props == props0
    {
      props := props0;
    }
  }

  /** The `for (const key in object)` loop of `migrateObject`, assigning one
      key per step. */
  method MigrateObject(obj: PropertyBag, oldData: map<string, Value>, defaultData: map<string, Value>)
    modifies obj
    ensures obj.props == Migrated(old(obj.props), oldData, defaultData)
  {
    ghost var start := obj.props;
    var todo := obj.props.Keys;
    while todo != {}
      invariant todo <= start.Keys
      invariant obj.props.Keys == start.Keys
      invariant forall key :: key in start && key !in todo ==>
        obj.props[key] == MigratedValue(key, oldData, defaultData)
      decreases todo
    {
      var key :| key in todo;
      obj.props := obj.props[key := MigratedValue(key, oldData, defaultData)];
      todo := todo - {key};
    }
  }
}
