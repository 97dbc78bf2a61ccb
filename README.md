# SQLAlchemyJobStore, modelled in Dafny

APScheduler's `SQLAlchemyJobStore` keeps scheduled jobs in one database
table and also holds them in an in-memory list, `self.jobs`. This project
models that store and the parts of the database it relies on.

- **The table** (`tables.dfy`, module `Tables`) is a value:
  - rows by integer primary key;
  - the order in which a plain SELECT returns them;
  - the counter the engine uses to hand out new keys.

  It carries the NOT NULL columns and the UNIQUE `name` column that
  `__init__` declares. INSERT, DELETE ... WHERE id, the narrow UPDATE of
  `next_run_time` and `runs`, and SELECT are pure functions over it. A
  rejected statement is an `IntegrityError`, given as a `Violation`.
- **The engine** is a class, `Tables.Engine`, that holds named tables.
  `table.create(engine, checkfirst=True)` is `Provision`.
- **A job** (`jobs.dfy`, module `Jobs`) is an object whose `func_ref` and
  `id` the store writes in place. Its other attributes are one opaque value.
- **The store** (`store.dfy`, module `SqlAlchemyStore`) is a class with a
  mutable `jobs` list and a constant engine and table name.
  - `__init__` is split into `ChooseEngine` (engine versus url, and the
    ValueError), `Open` (the keyword constructor) and the constructor proper,
    which starts an empty mirror and provisions the table.
  - `add_job`, `remove_job`, `load_jobs` and `update_job` are methods. They
    change the engine's table and the mirror in the same order as the source.
- **The mirror invariant** is `Synced`: the mirror's job ids name each row
  key exactly once and nothing else. Each operation's contract states when
  it keeps `Synced`.
- **Caller-supplied functions.** `obj_to_ref`, `Job.__getstate__` and
  `Job.__setstate__` are not part of this model. Each operation that uses
  one takes it as a function parameter. `__setstate__` returns `None` where
  the Python one raises.

## Behaviour of the code worth knowing

- `remove_job` for a missing row raises nothing, because deleting zero rows
  is not an error. It then raises `ValueError` from `list.remove` only if the
  job is not in the mirror. By then the row is already deleted. So a second
  job object with a mirrored job's id loses that row, while the mirror keeps
  (with `list.remove` comparing jobs by identity, as modelled)
  the entry. The mirror and the table are then out of step.
- `update_job` for a missing row changes nothing and raises nothing.
- `add_job` sets `job.func_ref` before the INSERT, so a rejected INSERT
  leaves it set. The mirror and the job's id are left unchanged.
- `runs` has no column default: a state without it stores NULL.
- `load_jobs` stops at the first row whose `__setstate__` raises. It does not
  collect every bad row. The mirror is replaced only when every row loads.
- Construction with both an engine and a url is accepted, and the engine
  wins. A url of `""` counts as no url, because it is falsy in Python.
- `tablename` defaults to `'apscheduler_jobs'` in the source. The model
  always takes the table name as an argument.

## Model

| member | source | states |
|---|---|---|
| Tables.MissingColumn | apscheduler/jobstores/sqlalchemy_store.py:31-42 | gives no column exactly when every `nullable=False` column has a value; any column it names is one the state leaves None |
| Tables.ToRow | apscheduler/jobstores/sqlalchemy_store.py:29-43 | the row stored for a complete state reads back as that state under whatever key it gets |
| Tables.Empty | apscheduler/jobstores/sqlalchemy_store.py:45 | a newly created table is well formed and has no rows |
| Tables.Provision | apscheduler/jobstores/sqlalchemy_store.py:45 | `create(engine, True)` adds the table name, leaves every existing table as it was, and creates an empty table only when the name is new |
| Tables.Engine.constructor | apscheduler/jobstores/sqlalchemy_store.py:25 | an engine made from a url carries that url and the database's tables |
| Tables.Insert | apscheduler/jobstores/sqlalchemy_store.py:50-51 | succeeds exactly when every NOT NULL column is set, an explicit id is not taken and the name is not used. On success: a fresh key (the explicit id if given), the other rows untouched, the new row reads back as the state under that key, the key is last in query order, and the table stays well formed. On failure: the violation names the None column, the duplicate key or the duplicate name |
| Tables.Delete | apscheduler/jobstores/sqlalchemy_store.py:55-56 | removes exactly the row with that id and keeps the others. An id of None or a missing id changes nothing and raises nothing |
| Tables.Update | apscheduler/jobstores/sqlalchemy_store.py:70-73 | for a matching row, changes only next_run_time and runs, and writing None into next_run_time is a NOT NULL violation; no match is success with the table unchanged; keys and order never change |
| Tables.Select | apscheduler/jobstores/sqlalchemy_store.py:61-63 | one dictionary per row: the i-th has the id of the i-th key in query order and that row's columns. No id appears twice and every row is present |
| Tables.SelectCountsRows | apscheduler/jobstores/sqlalchemy_store.py:61 | a SELECT yields exactly as many dictionaries as the table has rows |
| Tables.InsertThenSelect | apscheduler/jobstores/sqlalchemy_store.py:50-51 | after an INSERT, a SELECT returns the earlier dictionaries in order followed by the inserted state with its new id |
| Tables.InsertThenDelete | apscheduler/jobstores/sqlalchemy_store.py:54-56 | deleting by the key an INSERT returned restores the earlier rows, order and SELECT result |
| Tables.DeleteThenSelect | apscheduler/jobstores/sqlalchemy_store.py:55-56 | after a DELETE, a SELECT returns exactly the earlier dictionaries whose id differs from the deleted one |
| Tables.UpdateThenSelectAt | apscheduler/jobstores/sqlalchemy_store.py:68-73 | after a narrow UPDATE with a next_run_time, the dictionary at each position of a SELECT is the one before, with next_run_time and runs replaced when its id is the updated key |
| Tables.UpdateThenSelect | apscheduler/jobstores/sqlalchemy_store.py:68-73 | after a narrow UPDATE with a next_run_time, a SELECT returns the same dictionaries in the same order, with only the matching one's next_run_time and runs replaced |
| Tables.Lifecycle | apscheduler/jobstores/sqlalchemy_store.py:47-73 | in an empty table, inserting a job reads back as that job. A second job with the same name is refused. Advancing the first reads back advanced, and deleting it leaves a SELECT empty |
| Jobs.Job.Restore | apscheduler/jobstores/sqlalchemy_store.py:62-64 | a job built by `__new__` and `__setstate__` holds exactly the attributes installed |
| SqlAlchemyStore.ChooseEngine | apscheduler/jobstores/sqlalchemy_store.py:22-27 | a given engine is always used; otherwise a truthy url is; otherwise it is the ValueError |
| SqlAlchemyStore.FirstIndex | apscheduler/jobstores/sqlalchemy_store.py:57 | the position of the first occurrence: the element is there and not earlier |
| SqlAlchemyStore.RemoveFirst | apscheduler/jobstores/sqlalchemy_store.py:57 | `list.remove` drops the first occurrence and keeps the rest in order; an absent element leaves the list alone |
| SqlAlchemyStore.RemoveFirstMultiset | apscheduler/jobstores/sqlalchemy_store.py:57 | `list.remove` takes exactly one occurrence out of the list's multiset |
| SqlAlchemyStore.IdsOfRemoveFirst | apscheduler/jobstores/sqlalchemy_store.py:57 | removing a job from the mirror removes its id from the list of ids at the same position |
| SqlAlchemyStore.AppendKeepsMirror | apscheduler/jobstores/sqlalchemy_store.py:51-52 | appending the id of a newly inserted key keeps ids and keys in step |
| SqlAlchemyStore.DropKeepsMirror | apscheduler/jobstores/sqlalchemy_store.py:55-57 | dropping one mirror entry along with its key keeps ids and keys in step |
| SqlAlchemyStore.StrayDeleteBreaksMirror | apscheduler/jobstores/sqlalchemy_store.py:55-57 | deleting a mirrored id's row while its mirror entry stays leaves ids and keys out of step |
| SqlAlchemyStore.SelectMirrors | apscheduler/jobstores/sqlalchemy_store.py:61-66 | the ids of a SELECT are in step with the table's keys |
| SqlAlchemyStore.RebuiltIds | apscheduler/jobstores/sqlalchemy_store.py:62-64 | jobs restored by an id-preserving `__setstate__` carry their rows' ids |
| SqlAlchemyStore.RestoreRows | apscheduler/jobstores/sqlalchemy_store.py:60-65 | succeeds exactly when `__setstate__` accepts every row. Then it returns one distinct fresh job per row, in order, each restored from its row. Otherwise it returns the first row `__setstate__` refuses, all earlier rows having been accepted |
| SqlAlchemyStore.SQLAlchemyJobStore.constructor | apscheduler/jobstores/sqlalchemy_store.py:19-45 | the mirror starts empty, tablename and pickle_protocol are kept, and the engine's tables become `Provision` of the old ones |
| SqlAlchemyStore.SQLAlchemyJobStore.Open | apscheduler/jobstores/sqlalchemy_store.py:17-27 | with neither engine nor truthy url, the ValueError. Otherwise a new store with an empty mirror: on the given engine with its table provisioned, or on a new engine for the url over the database's tables |
| SqlAlchemyStore.SQLAlchemyJobStore.AddJob | apscheduler/jobstores/sqlalchemy_store.py:47-52 | func_ref is set to `obj_to_ref(func)` in every case. The state then taken is inserted. On success the table is the INSERT's result, the job's id is the new key and the job is appended. On a violation, the table, the job's id and the mirror are unchanged. When the INSERT succeeds and the job was not already in the mirror, the mirror stays in step |
| SqlAlchemyStore.SQLAlchemyJobStore.AppendKeepsSynced | apscheduler/jobstores/sqlalchemy_store.py:51-52 | a mirror in step before the INSERT, extended by the job holding the new key, is in step after it |
| SqlAlchemyStore.SQLAlchemyJobStore.RemoveJob | apscheduler/jobstores/sqlalchemy_store.py:54-57 | the table always becomes the DELETE by the job's id. A job in the mirror is removed from it. A job not in the mirror gives the ValueError, with the mirror unchanged but the row already deleted. When the job was in the mirror, the mirror stays in step |
| SqlAlchemyStore.SQLAlchemyJobStore.DropKeepsSynced | apscheduler/jobstores/sqlalchemy_store.py:55-57 | removing a mirrored job and its row keeps mirror and table in step |
| SqlAlchemyStore.SQLAlchemyJobStore.LoadJobs | apscheduler/jobstores/sqlalchemy_store.py:59-66 | succeeds exactly when `__setstate__` accepts every selected row. The mirror is then replaced by fresh jobs, one per row in query order, and is in step with the table. Otherwise the error names the first refused row and the mirror is unchanged. The table is never changed |
| SqlAlchemyStore.SQLAlchemyJobStore.RebuiltKeepsSynced | apscheduler/jobstores/sqlalchemy_store.py:61-66 | a mirror rebuilt from a fresh SELECT by an id-preserving `__setstate__` is in step with the table |
| SqlAlchemyStore.Resync | apscheduler/jobstores/sqlalchemy_store.py:59-66 | a caller whose `__setstate__` accepts every row and keeps its id gets a successful reload. The mirror afterwards is in step with the table, whatever it held before |
| SqlAlchemyStore.SQLAlchemyJobStore.UpdateJob | apscheduler/jobstores/sqlalchemy_store.py:68-73 | the table becomes the narrow UPDATE of the job's row, with the next_run_time and runs taken from `__getstate__`. The mirror is unchanged and stays in step |

## Left out

- The SQLAlchemy machinery is not modelled: metadata, the column types, SQL text, connections and transactions. The table is reduced to the constraints the store relies on.
- `pickle` and the PickleType columns are not modelled. Trigger, args and kwargs are opaque values. `pickle_protocol` is kept but has no effect.
- The `metadata` argument is dropped. It only says which MetaData registers the table, which does not change any stored row.
- DateTime values are opaque. Nothing in the core computes with them.
- `obj_to_ref`, `__getstate__` and `__setstate__` are parameters, because the `Job` class and `apscheduler.util` are not part of this model. `obj_to_ref` and `__getstate__` raising is not modelled.
- `create_engine` and the database behind a url are a parameter of `Open`, a map of the tables it already holds.
- A connection failure, StorageUnavailable, is not modelled. Only constraint violations are.
- The width limits are not enforced: String(1024) and Unicode(1024), and the Integer and BigInteger widths. Values are unbounded.
- Key assignment is modelled as a counter above every key used so far. Engines that reuse keys after a delete are not modelled.
- Query order is modelled as insertion order. SQL fixes no order without ORDER BY.
- A state dictionary has exactly the table's columns. The error for an unknown keyword in `insert().values(**job_dict)` is not modelled.
- `list.remove` compares jobs by object identity. `Job.__eq__` is not part of this model.
- `__repr__` is left out. It only formats the engine's url.
- Concurrency is left out. The source does no locking, and its callers serialise access.
- SqlAlchemyStore.SQLAlchemyJobStore.AddJob: it promises the mirror stays in step only when the job was not already in the mirror. `__getstate__` is uninterpreted, so a state that drops the id could insert the same object a second time.
- SqlAlchemyStore.SQLAlchemyJobStore.LoadJobs: it promises the mirror is in step only when `__setstate__` keeps each row's id. The real `__setstate__` is not part of this model.
- SqlAlchemyStore.SQLAlchemyJobStore.constructor: it requires an existing table of that name to be well formed. A foreign table with a different layout is outside the model.
- SqlAlchemyStore.SQLAlchemyJobStore.Open: it has the same requirement for an existing table, on the given engine or in the database behind the url.
