/**
 * SQLAlchemyJobStore: a job table in a database, reached through an engine,
 * and `jobs`, an in-memory list of job objects that the store's own
 * operations keep in step with the table.
 */
module SqlAlchemyStore {
  import opened Wrappers
  import opened Tables
  import opened Jobs

  /** The exceptions the store's operations let through. */
  datatype Error =
    | NeedEngineOrUrl                  // ValueError('Need either "engine" or "url" defined')
    | Integrity(violation: Violation)  // the engine rejected the statement
    | NotInList                        // ValueError from list.remove
    | RestoreFailed(row: nat)          // __setstate__ raised on the row at this position

  /** Where the store's engine comes from. */
  datatype EngineSource = GivenEngine | FromUrl(url: string)

  /** Python truthiness of the `url` argument: None and "" are false. */
  predicate Truthy(url: Option<string>)
  {
    url.Some? && url.value != ""
  }

  /**
   * The engine argument wins whenever it is given, the url is used only
   * without one, and with neither the store cannot be built.
   */
  function ChooseEngine(hasEngine: bool, url: Option<string>): (r: Result<EngineSource, Error>)
    ensures r.Failure? <==> !hasEngine && !Truthy(url)
    ensures r.Failure? ==> r.error == NeedEngineOrUrl
    ensures r == Success(GivenEngine) <==> hasEngine
    ensures r.Success? && r.value.FromUrl? ==> url == Some(r.value.url)
  {
    if hasEngine then Success(GivenEngine)
    else if Truthy(url) then Success(FromUrl(url.value))
    else Failure(NeedEngineOrUrl)
  }

  /** The position of the first occurrence of `x` in `s`. */
  function FirstIndex<T(==)>(s: seq<T>, x: T): (i: nat)
    requires x in s
    ensures i < |s| && s[i] == x && x !in s[..i]
  {
    if s[0] == x then 0 else 1 + FirstIndex(s[1..], x)
  }

  /** `list.remove(x)` on a list holding `x`: the first occurrence goes, the rest keep their order. */
  function RemoveFirst<T(==)>(s: seq<T>, x: T): (r: seq<T>)
    ensures x in s ==> r == s[..FirstIndex(s, x)] + s[FirstIndex(s, x) + 1..]
    ensures x !in s ==> r == s
  {
    if s == [] then []
    else if s[0] == x then s[1..]
    else
      var rest := RemoveFirst(s[1..], x);
      assert x in s ==> FirstIndex(s, x) == 1 + FirstIndex(s[1..], x);
      assert x in s ==> s[..FirstIndex(s, x)] == [s[0]] + s[1..][..FirstIndex(s[1..], x)];
      [s[0]] + rest
  }

  /** Removing one occurrence takes exactly one `x` out of the list's multiset. */
  lemma {:induction false} RemoveFirstMultiset<T>(s: seq<T>, x: T)
    ensures multiset(RemoveFirst(s, x)) == multiset(s) - multiset{x}
  {
    if s != [] {
      assert s == [s[0]] + s[1..];
      assert multiset(s) == multiset{s[0]} + multiset(s[1..]);
      if s[0] != x {
        var rest := RemoveFirst(s[1..], x);
        RemoveFirstMultiset(s[1..], x);
        assert RemoveFirst(s, x) == [s[0]] + rest;
        assert multiset(RemoveFirst(s, x)) == multiset{s[0]} + multiset(rest);
      }
    }
  }

  /** The `id` attribute of each job of a list. */
  ghost function IdsOf(js: seq<Job>): (r: seq<Option<int>>)
    reads js
    ensures |r| == |js| && forall k :: 0 <= k < |js| ==> r[k] == js[k].id
  {
    if js == [] then [] else IdsOf(js[..|js| - 1]) + [js[|js| - 1].id]
  }

  /** The ids of `js` are `ids` when they agree element by element. */
  lemma IdsOfIs(js: seq<Job>, ids: seq<Option<int>>)
    requires |js| == |ids| && forall k :: 0 <= k < |js| ==> js[k].id == ids[k]
    ensures IdsOf(js) == ids
  {
  }

  /** Removing a job from a list removes its id from the list of ids, at the same place. */
  lemma IdsOfRemoveFirst(js: seq<Job>, x: Job)
    requires x in js
    ensures IdsOf(RemoveFirst(js, x)) == IdsOf(js)[..FirstIndex(js, x)] + IdsOf(js)[FirstIndex(js, x) + 1..]
  {
    var i, ids := FirstIndex(js, x), IdsOf(js);
    var rest, want := js[..i] + js[i + 1..], ids[..i] + ids[i + 1..];
    forall k | 0 <= k < |rest| ensures rest[k].id == want[k] {
      if k < i { assert rest[k] == js[k] && want[k] == ids[k]; } else { assert rest[k] == js[k + 1] && want[k] == ids[k + 1]; }
    }
    IdsOfIs(rest, want);
  }

  /** `ids` (the mirror's job ids) name each key of `keys` exactly once and nothing else. */
  ghost predicate Mirrors(ids: seq<Option<int>>, keys: set<int>)
  {
    && |ids| == |keys|
    && (forall i :: 0 <= i < |ids| ==> ids[i].Some? && ids[i].value in keys)
    && (forall i, j :: 0 <= i < j < |ids| ==> ids[i] != ids[j])
  }

  /** Appending the id of a newly inserted row keeps the mirror in step. */
  lemma AppendKeepsMirror(ids: seq<Option<int>>, keys: set<int>, key: int)
    requires Mirrors(ids, keys) && key !in keys
    ensures Mirrors(ids + [Some(key)], keys + {key})
  {
  }

  /** Dropping a mirror entry together with its key keeps the mirror in step. */
  lemma DropKeepsMirror(ids: seq<Option<int>>, keys: set<int>, i: nat)
    requires Mirrors(ids, keys) && i < |ids|
    ensures Mirrors(ids[..i] + ids[i + 1..], keys - {ids[i].value})
  {
    var ids' := ids[..i] + ids[i + 1..];
    forall a | 0 <= a < |ids'| ensures ids'[a].Some? && ids'[a].value in keys - {ids[i].value} {
      if a < i { assert ids'[a] == ids[a]; } else { assert ids'[a] == ids[a + 1]; }
    }
    forall a, b | 0 <= a < b < |ids'| ensures ids'[a] != ids'[b] {
      var a' := if a < i then a else a + 1;
      var b' := if b < i then b else b + 1;
      assert ids'[a] == ids[a'] && ids'[b] == ids[b'];
    }
  }

  /**
   * Deleting the row of a mirrored id without dropping its mirror entry (a
   * second job object carrying that id, which `list.remove` then misses)
   * leaves the mirror out of step.
   */
  lemma StrayDeleteBreaksMirror(ids: seq<Option<int>>, keys: set<int>, i: nat)
    requires Mirrors(ids, keys) && i < |ids|
    ensures !Mirrors(ids, keys - {ids[i].value})
  {
    assert |keys - {ids[i].value}| == |keys| - 1;
  }

  /** The ids of a fresh SELECT mirror the table. */
  lemma SelectMirrors(t: TableState, ids: seq<Option<int>>)
    requires t.Valid()
    requires |ids| == |Select(t)| && forall i :: 0 <= i < |ids| ==> ids[i] == Select(t)[i].id
    ensures Mirrors(ids, t.rows.Keys)
  {
    SelectCountsRows(t);
  }

  /** `__setstate__` accepts every row of `rows`. */
  ghost predicate Restorable(rows: seq<JobState>, setState: JobState -> Option<Snapshot>)
  {
    forall i :: 0 <= i < |rows| ==> setState(rows[i]).Some?
  }

  /**
   * `js` holds one distinct job per row of a prefix of `rows`, in order,
   * each restored from its row.
   */
  ghost predicate Rebuilt(js: seq<Job>, rows: seq<JobState>, setState: JobState -> Option<Snapshot>)
    reads js
  {
    && |js| <= |rows|
    && (forall i :: 0 <= i < |js| ==> Some(js[i].Fields()) == setState(rows[i]))
    && (forall i, j :: 0 <= i < j < |js| ==> js[i] != js[j])
  }

  /** Jobs rebuilt by an id-preserving `__setstate__` carry their rows' ids. */
  lemma RebuiltIds(js: seq<Job>, rows: seq<JobState>, setState: JobState -> Option<Snapshot>)
    requires Rebuilt(js, rows, setState) && |js| == |rows|
    requires forall st :: setState(st).Some? ==> setState(st).value.id == st.id
    ensures |IdsOf(js)| == |rows| && forall i :: 0 <= i < |rows| ==> IdsOf(js)[i] == rows[i].id
  {
    forall i | 0 <= i < |rows| ensures IdsOf(js)[i] == rows[i].id {
      assert Some(js[i].Fields()) == setState(rows[i]);
    }
  }

  /**
   * The loop of `load_jobs`: a fresh `Job.__new__(Job)` per row, given the
   * row's dictionary through `__setstate__`, appended to a new list; the
   * first row `__setstate__` raises on ends the loop.
   */
  method RestoreRows(rows: seq<JobState>, setState: JobState -> Option<Snapshot>)
    returns (r: Result<seq<Job>, nat>)
    ensures r.Success? <==> Restorable(rows, setState)
    ensures r.Success? ==>
      && |r.value| == |rows| && Rebuilt(r.value, rows, setState)
      && forall i :: 0 <= i < |r.value| ==> fresh(r.value[i])
    ensures r.Failure? ==>
      && r.error < |rows| && setState(rows[r.error]).None?
      && forall i :: 0 <= i < r.error ==> setState(rows[i]).Some?
  {
    var loaded: seq<Job> := [];
    for i := 0 to |rows|
      invariant |loaded| == i && Rebuilt(loaded, rows, setState)
      invariant forall k :: 0 <= k < i ==> setState(rows[k]).Some?
      invariant forall k :: 0 <= k < i ==> fresh(loaded[k])
    {
      var s := setState(rows[i]);
      if s.None? {
        return Failure(i);
      }
      var job := new Job.Restore(s.value);
      loaded := loaded + [job];
    }
    r := Success(loaded);
  }

  class SQLAlchemyJobStore {
    var jobs: seq<Job>
    const pickleProtocol: int
    const engine: Engine
    const tablename: string

    ghost predicate Valid()
      reads engine
    {
      tablename in engine.tables && engine.tables[tablename].Valid()
    }

    /** The store's table as the engine holds it now. */
    ghost function Table(): TableState
      reads engine
      requires Valid()
    {
      engine.tables[tablename]
    }

    /** The mirror lists exactly the table's rows, one job per row. */
    ghost predicate Synced()
      reads this, engine, jobs
    {
      Valid() && Mirrors(IdsOf(jobs), Table().rows.Keys)
    }

    /** `__init__` once the engine is chosen: an empty mirror and the table created if absent. */
    constructor (engine: Engine, tablename: string, pickleProtocol: int)
      requires tablename in engine.tables ==> engine.tables[tablename].Valid()
      modifies engine`tables
      ensures Valid() && jobs == []
      ensures this.engine == engine && this.tablename == tablename && this.pickleProtocol == pickleProtocol
      ensures engine.tables == Provision(old(engine.tables), tablename)
    {
      jobs := [];
      this.pickleProtocol := pickleProtocol;
      this.engine := engine;
      this.tablename := tablename;
      new;
      engine.tables := Provision(engine.tables, tablename);
    }

    /**
     * `SQLAlchemyJobStore(url, engine, tablename, ...)`; `database` is what the
     * database at `url` holds when an engine is created for it.
     */
    static method Open(url: Option<string>, engine: Engine?, tablename: string, pickleProtocol: int,
                       database: map<string, TableState>)
      returns (r: Result<SQLAlchemyJobStore, Error>)
      requires engine != null && tablename in engine.tables ==> engine.tables[tablename].Valid()
      requires tablename in database ==> database[tablename].Valid()
      modifies engine
      ensures ChooseEngine(engine != null, url).Failure? ==> r == Failure(NeedEngineOrUrl)
      ensures ChooseEngine(engine != null, url).Success? ==>
        && r.Success? && fresh(r.value) && r.value.Valid() && r.value.jobs == []
        && r.value.tablename == tablename && r.value.pickleProtocol == pickleProtocol
      ensures ChooseEngine(engine != null, url) == Success(GivenEngine) ==>
        r.Success? && r.value.engine == engine && engine.tables == Provision(old(engine.tables), tablename)
      ensures ChooseEngine(engine != null, url).Success? && ChooseEngine(engine != null, url).value.FromUrl? ==>
        && r.Success? && fresh(r.value.engine) && r.value.engine.url == url.value
        && r.value.engine.tables == Provision(database, tablename)
    {
      var source := ChooseEngine(engine != null, url);
      if source.Failure? {
        return Failure(NeedEngineOrUrl);
      }
      var e: Engine;
      if engine != null {
        e := engine;
      } else {
        e := new Engine(url.value, database);
      }
      var store := new SQLAlchemyJobStore(e, tablename, pickleProtocol);
      r := Success(store);
    }

    /**
     * `add_job`: set func_ref, insert the state, then record the key and
     * append the job. A rejected insert leaves table, mirror and id alone.
     */
    method AddJob(job: Job, toRef: Callable -> string, getState: Snapshot -> JobState) returns (r: Outcome<Error>)
      requires Valid()
      modifies this`jobs, job`funcRef, job`id, engine`tables
      ensures Valid()
      ensures engine.tables == old(engine.tables)[tablename := Table()]
      ensures job.func == old(job.func) && job.attrs == old(job.attrs)
      ensures job.funcRef == Some(toRef(old(job.func)))
      ensures var state := getState(old(job.Fields()).(funcRef := Some(toRef(old(job.func)))));
        match Insert(old(Table()), state)
        case Success((t, key)) =>
          r == Pass && Table() == t && job.id == Some(key) && jobs == old(jobs) + [job]
        case Failure(v) =>
          r == Fail(Integrity(v)) && Table() == old(Table()) && job.id == old(job.id) && jobs == old(jobs)
      ensures old(Synced()) && job !in old(jobs) && r == Pass ==> Synced()
    {
      job.funcRef := Some(toRef(job.func));
      var state := getState(job.Fields());
      var result := Insert(engine.tables[tablename], state);
      if result.Failure? {
        return Fail(Integrity(result.error));
      }
      engine.tables := engine.tables[tablename := result.value.0];
      job.id := Some(result.value.1);
      jobs := jobs + [job];
      r := Pass;
      assert old(Synced()) && job !in old(jobs) ==> Synced() by {
        if old(Synced()) && job !in old(jobs) {
          ghost var ids := old(IdsOf(jobs));
          assert forall k :: 0 <= k < |ids| ==> old(jobs)[k].id == ids[k];
          AppendKeepsSynced(old(jobs), ids, old(Table()).rows.Keys, job, result.value.1);
        }
      }
    }

    /** Appending a job with the key of its newly inserted row keeps the mirror in step. */
    lemma AppendKeepsSynced(jobs0: seq<Job>, ids: seq<Option<int>>, keys: set<int>, job: Job, key: int)
      requires Valid() && Mirrors(ids, keys) && key !in keys
      requires |ids| == |jobs0| && forall k :: 0 <= k < |ids| ==> jobs0[k].id == ids[k]
      requires jobs == jobs0 + [job] && job.id == Some(key) && Table().rows.Keys == keys + {key}
      ensures Synced()
    {
      AppendKeepsMirror(ids, keys, key);
      assert forall k :: 0 <= k < |jobs| ==> jobs[k].id == (ids + [job.id])[k];
      IdsOfIs(jobs, ids + [job.id]);
    }

    /**
     * `remove_job`: delete the row by id (a missing row is no error), then
     * remove the job from the mirror, which raises if it is not there.
     */
    method RemoveJob(job: Job) returns (r: Outcome<Error>)
      requires Valid()
      modifies this`jobs, engine`tables
      ensures Valid()
      ensures engine.tables == old(engine.tables)[tablename := Table()]
      ensures Table() == Delete(old(Table()), job.id)
      ensures job in old(jobs) ==> r == Pass && jobs == RemoveFirst(old(jobs), job)
      ensures job !in old(jobs) ==> r == Fail(NotInList) && jobs == old(jobs)
      ensures old(Synced()) && job in old(jobs) ==> Synced()
    {
      var t := Delete(engine.tables[tablename], job.id);
      engine.tables := engine.tables[tablename := t];
      assert Table() == t;
      if job !in jobs {
        return Fail(NotInList);
      }
      jobs := RemoveFirst(jobs, job);
      r := Pass;
      if old(Synced()) {
        ghost var ids := old(IdsOf(jobs));
        assert forall k :: 0 <= k < |ids| ==> old(jobs)[k].id == ids[k];
        DropKeepsSynced(old(jobs), ids, old(Table()).rows.Keys, job);
      }
    }

    /** Removing a job together with its row keeps the mirror in step. */
    lemma DropKeepsSynced(jobs0: seq<Job>, ids: seq<Option<int>>, keys: set<int>, job: Job)
      requires Valid() && Mirrors(ids, keys) && job in jobs0
      requires |ids| == |jobs0| && forall k :: 0 <= k < |ids| ==> jobs0[k].id == ids[k]
      requires jobs == RemoveFirst(jobs0, job)
      requires job.id.Some? ==> Table().rows.Keys == keys - {job.id.value}
      ensures Synced()
    {
      var i := FirstIndex(jobs0, job);
      DropKeepsMirror(ids, keys, i);
      IdsOfIs(jobs0, ids);
      IdsOfRemoveFirst(jobs0, job);
    }

    /**
     * `load_jobs`: rebuild one fresh job per selected row, in query order,
     * and only then replace the mirror with them.
     */
    method LoadJobs(setState: JobState -> Option<Snapshot>) returns (r: Outcome<Error>)
      requires Valid()
      modifies this`jobs
      ensures Valid()
      ensures r.Pass? <==> Restorable(Select(Table()), setState)
      ensures r.Pass? ==> |jobs| == |Select(Table())| && Rebuilt(jobs, Select(Table()), setState)
      ensures r.Pass? ==> forall i :: 0 <= i < |jobs| ==> fresh(jobs[i]) && jobs[i] !in old(jobs)
      ensures r.Fail? ==>
        && r.error.RestoreFailed? && r.error.row < |Select(Table())|
        && setState(Select(Table())[r.error.row]).None?
        && (forall i :: 0 <= i < r.error.row ==> setState(Select(Table())[i]).Some?)
        && jobs == old(jobs)
      ensures r == Pass && (forall st :: setState(st).Some? ==> setState(st).value.id == st.id) ==> Synced()
    {
      var rows := Select(engine.tables[tablename]);
      var loaded := RestoreRows(rows, setState);
      if loaded.Failure? {
        return Fail(RestoreFailed(loaded.error));
      }
      jobs := loaded.value;
      r := Pass;
      if forall st :: setState(st).Some? ==> setState(st).value.id == st.id {
        RebuiltKeepsSynced(setState);
      }
    }

    /** A mirror rebuilt from a fresh SELECT by an id-preserving `__setstate__` is in step with the table. */
    lemma RebuiltKeepsSynced(setState: JobState -> Option<Snapshot>)
      requires Valid() && |jobs| == |Select(Table())| && Rebuilt(jobs, Select(Table()), setState)
      requires forall st :: setState(st).Some? ==> setState(st).value.id == st.id
      ensures Synced()
    {
      RebuiltIds(jobs, Select(Table()), setState);
      SelectMirrors(Table(), IdsOf(jobs));
    }

    /**
     * `update_job`: write the job's next_run_time and runs to the row with
     * its id, and nothing else; no matching row is no error.
     */
    method UpdateJob(job: Job, getState: Snapshot -> JobState) returns (r: Outcome<Error>)
      requires Valid()
      modifies engine`tables
      ensures Valid()
      ensures engine.tables == old(engine.tables)[tablename := Table()]
      ensures jobs == old(jobs)
      ensures var state := getState(job.Fields());
        match Update(old(Table()), job.id, state.nextRunTime, state.runs)
        case Success(t) => r == Pass && Table() == t
        case Failure(v) => r == Fail(Integrity(v)) && Table() == old(Table())
      ensures old(Synced()) ==> Synced()
    {
      var state := getState(job.Fields());
      var result := Update(engine.tables[tablename], job.id, state.nextRunTime, state.runs);
      if result.Failure? {
        return Fail(Integrity(result.error));
      }
      engine.tables := engine.tables[tablename := result.value];
      r := Pass;
    }
  }

  /**
   * `load_jobs` with a `__setstate__` that accepts every row and keeps its id,
   * as the caller knows it on entry: the reload succeeds and leaves the
   * mirror in step with the table, whatever state the mirror was in before.
   */
  method Resync(store: SQLAlchemyJobStore, setState: JobState -> Option<Snapshot>) returns (r: Outcome<Error>)
    requires store.Valid()
    requires forall st :: setState(st).Some? && setState(st).value.id == st.id
    modifies store`jobs
    ensures r == Pass && store.Synced()
  {
    r := store.LoadJobs(setState);
  }
}
