/**
 * `PersistedObservable`: an observable record backed by a table of the local
 * store. Its value moves from `loading` to `loaded` or `error`; it changes
 * only through the store's load callbacks and `setData`, whose save-error
 * callback rolls the data back. A decorator registers each table name once.
 *
 * The store itself is not modelled: each callback it would invoke is a method
 * here (load success, load error, save error, save success), and the
 * transaction wrappers around `load` and `setData` are left out.
 */
module Persistence {
  import opened Common

  /** A record as a map from field name to value; every stored record has an "id". */
  const IdField: string := "id"

  /** `PersistedModel<T>`: the three states, each carrying the data. */
  datatype PersistedModel<V> =
    | Loading(data: map<string, V>)
    | Loaded(data: map<string, V>)
    | Errored(data: map<string, V>, error: string)

  /**
   * `{ ...current, ...partial }`: the fields of the partial overwrite those of
   * the current record; every other field keeps its value.
   */
  function Merge<V>(current: map<string, V>, partial: map<string, V>): (merged: map<string, V>)
    ensures merged.Keys == current.Keys + partial.Keys
    ensures forall f :: f in partial ==> merged[f] == partial[f]
    ensures forall f :: f in current && f !in partial ==> merged[f] == current[f]
  {
    current + partial
  }

  /**
   * The checks of `setData` and the record it would store: an undefined
   * partial is refused, and so is any partial that would change the id.
   */
  function UpdatedData<V(==)>(current: map<string, V>, partial: Option<map<string, V>>): (r: Result<map<string, V>>)
    requires IdField in current
    ensures r.Failure? <==>
      partial.None? || (IdField in partial.value && partial.value[IdField] != current[IdField])
    ensures partial.None? ==> r == Failure(ValueUndefined)
    ensures partial.Some? && r.Failure? ==> r.error == IdMismatch
    ensures r.Success? ==> r.value == Merge(current, partial.value)
    ensures r.Success? ==> IdField in r.value && r.value[IdField] == current[IdField]
  {
    match partial
    case None => Failure(ValueUndefined)
    case Some(part) =>
      var merged := Merge(current, part);
      if merged[IdField] != current[IdField] then Failure(IdMismatch) else Success(merged)
  }

  class PersistedObservable<V(==)> {
    var tableName: string
    /** The observable's current value (held by the `Observable` base class). */
    var value: PersistedModel<V>
    /**
     * The saves started by `setData` whose outcome has not arrived, each with
     * the data its error callback restores.
     */
    var pendingSaves: map<nat, map<string, V>>
    var nextSave: nat
    /** The loads requested by `load` whose answer from the store has not arrived. */
    var pendingLoads: nat

    ghost predicate Valid()
      reads this
    {
      && IdField in value.data
      && forall s :: s in pendingSaves ==> s < nextSave && IdField in pendingSaves[s]
    }

    /** A new instance is loading, holds the initial data and has no table name yet. */
    constructor(initialValue: map<string, V>)
      requires IdField in initialValue
      ensures Valid()
      ensures value == Loading(initialValue) && tableName == ""
      ensures pendingSaves == map[] && nextSave == 0 && pendingLoads == 0
    {
      tableName := "";
      value := Loading(initialValue);
      pendingSaves := map[];
      nextSave := 0;
      pendingLoads := 0;
    }

    /**
     * The constructor of a class the decorator has wrapped: it sets the
     * table name and calls `load`, which always passes its guard, since a
     * new instance is loading; one load is then awaiting the store.
     */
    constructor Decorated(initialValue: map<string, V>, name: string)
      requires IdField in initialValue
      ensures Valid()
      ensures value == Loading(initialValue) && tableName == name
      ensures pendingSaves == map[] && nextSave == 0 && pendingLoads == 1
    {
      tableName := name;
      value := Loading(initialValue);
      pendingSaves := map[];
      nextSave := 0;
      pendingLoads := 0;
      new;
      var loaded := Load();
    }

    /** `data`: the record the current value carries, which always has an id. */
    function Data(): (d: map<string, V>)
      reads this
      requires Valid()
      ensures IdField in d && d == value.data
    {
      value.data
    }

    /**
     * `load`: refused unless the value is still loading; otherwise it asks
     * the store for the record, which answers later through
     * `OnLoadSuccess` or `OnLoadError`.
     */
    method Load() returns (r: Outcome)
      modifies this
      ensures r == Pass <==> old(value).Loading?
      ensures r.Fail? ==> r.error == AlreadyLoaded && pendingLoads == old(pendingLoads)
      ensures r == Pass ==> pendingLoads == old(pendingLoads) + 1
      ensures value == old(value) && tableName == old(tableName)
      ensures pendingSaves == old(pendingSaves) && nextSave == old(nextSave)
    {
      if !value.Loading? {
        return Fail(AlreadyLoaded);
      }
      pendingLoads := pendingLoads + 1;
      return Pass;
    }

    /** The store found the record (or nothing): loaded, with the record if any, else the current data. */
    method OnLoadSuccess(loaded: Option<map<string, V>>)
      requires Valid() && pendingLoads > 0
      requires loaded.Some? ==> IdField in loaded.value
      modifies this
      ensures Valid()
      ensures value == Loaded(if loaded.Some? then loaded.value else old(value.data))
      ensures pendingLoads == old(pendingLoads) - 1
      ensures tableName == old(tableName) && pendingSaves == old(pendingSaves) && nextSave == old(nextSave)
    {
      value := Loaded(loaded.GetOr(value.data));
      pendingLoads := pendingLoads - 1;
    }

    /** The store failed to load: status error, data kept, error recorded. */
    method OnLoadError(e: string)
      requires Valid() && pendingLoads > 0
      modifies this
      ensures Valid()
      ensures value == Errored(old(value.data), e)
      ensures pendingLoads == old(pendingLoads) - 1
      ensures tableName == old(tableName) && pendingSaves == old(pendingSaves) && nextSave == old(nextSave)
    {
      value := Errored(value.data, e);
      pendingLoads := pendingLoads - 1;
    }

    /** `setValue` always throws; the value cannot be set from outside. */
    method SetValue(newValue: PersistedModel<V>) returns (r: Outcome)
      ensures r == Fail(UseUpdateData)
    {
      return Fail(UseUpdateData);
    }

    /**
     * `setData`: merges the partial into the current data, refusing an
     * undefined partial and an id change; on success the value is loaded with
     * the merged record, and a save starts whose error callback will restore
     * the data held before this call. Returns that save's number.
     */
    method SetData(partial: Option<map<string, V>>) returns (r: Result<nat>)
      requires Valid()
      modifies this
      ensures Valid()
      ensures tableName == old(tableName) && pendingLoads == old(pendingLoads)
      ensures r.Failure? <==> UpdatedData(old(value.data), partial).Failure?
      ensures r.Failure? ==>
        && r.error == UpdatedData(old(value.data), partial).error
        && value == old(value) && pendingSaves == old(pendingSaves) && nextSave == old(nextSave)
      ensures r.Success? ==>
        && value == Loaded(Merge(old(value.data), partial.value))
        && value.data[IdField] == old(value.data)[IdField]
        && r.value == old(nextSave) && r.value !in old(pendingSaves)
        && pendingSaves == old(pendingSaves)[r.value := old(value.data)]
        && nextSave == old(nextSave) + 1
    {
      var prevData := value.data;
      var newData := UpdatedData(prevData, partial);
      if newData.Failure? {
        return Failure(newData.error);
      }
      value := Loaded(newData.value);
      pendingSaves := pendingSaves[nextSave := prevData];
      r := Success(nextSave);
      nextSave := nextSave + 1;
    }

    /** A save failed: status error, and the data rolls back to what it was before that save's `setData`. */
    method OnSaveError(save: nat, e: string)
      requires Valid() && save in pendingSaves
      modifies this
      ensures Valid()
      ensures value == Errored(old(pendingSaves[save]), e)
      ensures pendingSaves == old(pendingSaves) - {save}
      ensures tableName == old(tableName) && nextSave == old(nextSave) && pendingLoads == old(pendingLoads)
    {
      value := Errored(pendingSaves[save], e);
      pendingSaves := pendingSaves - {save};
    }

    /** A save succeeded: the value stays as it is (the `onSaved` hook does nothing here). */
    method OnSaveSuccess(save: nat)
      requires Valid() && save in pendingSaves
      modifies this
      ensures Valid()
      ensures value == old(value)
      ensures pendingSaves == old(pendingSaves) - {save}
      ensures tableName == old(tableName) && nextSave == old(nextSave) && pendingLoads == old(pendingLoads)
    {
      pendingSaves := pendingSaves - {save};
    }
  }

  /** The module-wide set of table names that `persistedObservable` has registered. */
  class TableRegistry {
    var tables: set<string>

    constructor()
      ensures tables == {}
    {
      tables := {};
    }

    /**
     * The decorator factory `persistedObservable({ tableName })`: refuses a
     * name already registered, otherwise registers exactly that name.
     */
    method Register(tableName: string) returns (r: Outcome)
      modifies this
      ensures r == Pass <==> tableName !in old(tables)
      ensures r.Fail? ==> r.error == DuplicateTableName && tables == old(tables)
      ensures r == Pass ==> tables == old(tables) + {tableName}
    {
      if tableName in tables {
        return Fail(DuplicateTableName);
      }
      tables := tables + {tableName};
      return Pass;
    }
  }

  /**
   * A client run: an accepted update followed by a failed save leaves the
   * instance in error with its data from before the update; a refused update
   * changes nothing.
   */
  method UpdateThenSaveFails<V(==)>(o: PersistedObservable<V>, partial: map<string, V>, e: string)
    requires o.Valid()
    modifies o
    ensures o.Valid()
    ensures UpdatedData(old(o.value.data), Some(partial)).Success? ==> o.value == Errored(old(o.value.data), e)
    ensures UpdatedData(old(o.value.data), Some(partial)).Failure? ==> o.value == old(o.value)
    ensures o.value.data[IdField] == old(o.value.data)[IdField]
  {
    var r := o.SetData(Some(partial));
    if r.Success? {
      o.OnSaveError(r.value, e);
    }
  }
}
