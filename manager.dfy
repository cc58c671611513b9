/**
 * The registry of named databases. `dbs` holds every database the server can
 * reach by name; `paths` holds the file path of those the registry opened
 * itself, which are the ones it closes. Locking is left out: every operation
 * is one atomic step.
 */
module Registry {
  import opened Wrappers
  import opened Storage

  datatype RegisterError =
    | AlreadyRegistered(name: string)
    | OpenFailed(path: string)

  class Manager {
    var dbs: map<string, Store>
    var paths: map<string, string>

    /** Only opened databases have a path, and every database is a well-formed store. */
    ghost predicate Valid()
      reads this
    {
      && paths.Keys <= dbs.Keys
      && (forall name :: name in dbs ==> dbs[name].Valid())
    }

    /** `NewManager`: both maps empty. */
    constructor ()
      ensures Valid()
      ensures dbs == map[] && paths == map[]
    {
      dbs := map[];
      paths := map[];
    }

    /**
     * Opens the database at `path` and records it under `name` together with
     * its path. A name already in use is refused; so is a path leveldb cannot
     * open, which the model leaves to an arbitrary choice. Either refusal
     * changes nothing.
     */
    method Register(name: string, path: string) returns (err: Option<RegisterError>)
      requires Valid()
      modifies this
      ensures Valid()
      ensures name in old(dbs) ==> err == Some(AlreadyRegistered(name))
      ensures name !in old(dbs) ==> err == None || err == Some(OpenFailed(path))
      ensures err.Some? ==> dbs == old(dbs) && paths == old(paths)
      ensures err.None? ==> name in dbs && dbs == old(dbs)[name := dbs[name]]
      ensures err.None? ==> paths == old(paths)[name := path]
    {
      if name in dbs {
        return Some(AlreadyRegistered(name));
      }
      var outcome: Option<Store> :| outcome.Some? ==> outcome.value.Valid();
      if outcome.None? {
        return Some(OpenFailed(path));
      }
      dbs := dbs[name := outcome.value];
      paths := paths[name := path];
      err := None;
    }

    /**
     * Records a database the caller opened under `name`, without a path, so
     * that `Close` leaves it open. A name already in use is refused and
     * nothing changes.
     */
    method Add(name: string, db: Store) returns (err: Option<RegisterError>)
      requires Valid() && db.Valid()
      modifies this
      ensures Valid()
      ensures err.Some? <==> name in old(dbs)
      ensures err.Some? ==> err.value == AlreadyRegistered(name) && dbs == old(dbs) && paths == old(paths)
      ensures err.None? ==> dbs == old(dbs)[name := db] && paths == old(paths)
    {
      if name in dbs {
        return Some(AlreadyRegistered(name));
      }
      dbs := dbs[name := db];
      err := None;
    }

    /** The database registered under `name`, if there is one. */
    method Get(name: string) returns (db: Option<Store>)
      ensures db.Some? <==> name in dbs
      ensures db.Some? ==> db.value == dbs[name]
    {
      if name in dbs {
        db := Some(dbs[name]);
      } else {
        db := None;
      }
    }

    /** Every registered name exactly once, in an order the model leaves open. */
    method List() returns (names: seq<string>)
      ensures multiset(names) == multiset(dbs.Keys)
    {
      names := [];
      var todo := dbs.Keys;
      while todo != {}
        invariant todo <= dbs.Keys
        invariant multiset(names) + multiset(todo) == multiset(dbs.Keys)
        decreases |todo|
      {
        var name :| name in todo;
        names := names + [name];
        todo := todo - {name};
      }
    }

    /**
     * Closes and forgets every database that has a path, keeps the ones
     * added by `Add`, and forgets all paths.
     */
    method Close()
      requires Valid()
      modifies this
      ensures Valid()
      ensures dbs == old(dbs) - old(paths).Keys
      ensures paths == map[]
    {
      var todo := paths.Keys;
      while todo != {}
        invariant todo <= paths.Keys && paths == old(paths)
        invariant dbs == old(dbs) - (old(paths).Keys - todo)
        decreases |todo|
      {
        var name :| name in todo;
        if name in dbs {
          dbs := dbs - {name};
        }
        todo := todo - {name};
      }
      paths := map[];
    }
  }

  /**
   * What `Close` leaves behind: exactly the databases that were added rather
   * than registered, since every name with a path is a database name.
   */
  lemma {:induction false} CloseKeepsAdded(dbs: map<string, Store>, paths: map<string, string>)
    requires paths.Keys <= dbs.Keys
    ensures (dbs - paths.Keys).Keys == dbs.Keys - paths.Keys
    ensures |(dbs - paths.Keys).Keys| == |dbs.Keys| - |paths.Keys|
  {
    var kept := dbs.Keys - paths.Keys;
    assert (dbs - paths.Keys).Keys == kept;
    assert dbs.Keys == kept + paths.Keys;
    assert kept !! paths.Keys;
  }
}
