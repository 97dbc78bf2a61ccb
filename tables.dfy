/**
 * The database behind SQLAlchemyJobStore, seen through what the store relies on:
 * a table of rows keyed by an auto-assigned integer primary key, with the
 * NOT NULL and UNIQUE constraints of sqlalchemy_store.py's column set, and an
 * engine that holds named tables.
 */
module Tables {
  import opened Wrappers

  /** A value stored in a PickleType column (trigger, args, kwargs); never inspected. */
  type Blob(==, !new)

  /** A value stored in the DateTime column next_run_time; never inspected. */
  type Timestamp(==, !new)

  /**
   * A job's state dictionary (what `Job.__getstate__` returns and what a
   * selected row turns into), one entry per column; `None` is Python's None.
   */
  datatype JobState = JobState(
    id: Option<int>,
    trigger: Option<Blob>,
    funcRef: Option<string>,
    args: Option<Blob>,
    kwargs: Option<Blob>,
    name: Option<string>,
    misfireGraceTime: Option<int>,
    maxRuns: Option<int>,
    maxConcurrency: Option<int>,
    nextRunTime: Option<Timestamp>,
    runs: Option<int>)

  /** A stored row without its key: NOT NULL columns hold plain values. */
  datatype Row = Row(
    trigger: Blob,
    funcRef: string,
    args: Blob,
    kwargs: Blob,
    name: Option<string>,
    misfireGraceTime: int,
    maxRuns: Option<int>,
    maxConcurrency: Option<int>,
    nextRunTime: Timestamp,
    runs: Option<int>)

  /** The columns declared `nullable=False`, in declaration order. */
  datatype Column = Trigger | FuncRef | Args | Kwargs | MisfireGraceTime | NextRunTime

  /** Why the engine rejects a statement (an IntegrityError). */
  datatype Violation =
    | NullColumn(column: Column)
    | DuplicateKey(key: int)
    | DuplicateName(name: string)

  predicate Present(s: JobState, c: Column)
  {
    match c
    case Trigger => s.trigger.Some?
    case FuncRef => s.funcRef.Some?
    case Args => s.args.Some?
    case Kwargs => s.kwargs.Some?
    case MisfireGraceTime => s.misfireGraceTime.Some?
    case NextRunTime => s.nextRunTime.Some?
  }

  /** Every NOT NULL column has a value. */
  predicate Complete(s: JobState)
  {
    && Present(s, Trigger) && Present(s, FuncRef) && Present(s, Args)
    && Present(s, Kwargs) && Present(s, MisfireGraceTime) && Present(s, NextRunTime)
  }

  /** The first NOT NULL column that `s` leaves None, if any. */
  function MissingColumn(s: JobState): (r: Option<Column>)
    ensures r.None? <==> Complete(s)
    ensures r.Some? ==> !Present(s, r.value)
  {
    if s.trigger.None? then Some(Trigger)
    else if s.funcRef.None? then Some(FuncRef)
    else if s.args.None? then Some(Args)
    else if s.kwargs.None? then Some(Kwargs)
    else if s.misfireGraceTime.None? then Some(MisfireGraceTime)
    else if s.nextRunTime.None? then Some(NextRunTime)
    else None
  }

  /** The dictionary of a selected row (`dict(row.items())`). */
  function RowState(key: int, row: Row): JobState
  {
    JobState(Some(key), Some(row.trigger), Some(row.funcRef), Some(row.args), Some(row.kwargs),
             row.name, Some(row.misfireGraceTime), row.maxRuns, row.maxConcurrency,
             Some(row.nextRunTime), row.runs)
  }

  /** The row an INSERT of `s` stores; reading it back gives `s` under its key. */
  function ToRow(s: JobState): (r: Row)
    requires Complete(s)
    ensures forall k :: RowState(k, r) == s.(id := Some(k))
  {
    Row(s.trigger.value, s.funcRef.value, s.args.value, s.kwargs.value, s.name,
        s.misfireGraceTime.value, s.maxRuns, s.maxConcurrency, s.nextRunTime.value, s.runs)
  }

  /** `a` and `b` agree on every column except next_run_time and runs. */
  predicate SameExceptProgress(a: Row, b: Row)
  {
    a.(nextRunTime := b.nextRunTime, runs := b.runs) == b
  }

  ghost predicate Distinct(s: seq<int>)
  {
    forall i, j :: 0 <= i < j < |s| ==> s[i] != s[j]
  }

  /**
   * The `apscheduler_jobs` table: rows by primary key, the order in which a
   * plain SELECT returns them, and the next key the engine hands out.
   */
  datatype TableState = TableState(rows: map<int, Row>, order: seq<int>, nextKey: int)
  {
    /** What the engine guarantees of every table it holds. */
    ghost predicate Valid()
    {
      && Distinct(order)
      && (forall k :: k in rows <==> k in order)
      && (forall k :: k in rows ==> k < nextKey)
      && (forall a, b :: a in rows && b in rows && a != b && rows[a].name.Some? ==> rows[a].name != rows[b].name)
    }
  }

  /** A freshly created table. */
  function Empty(): (t: TableState)
    ensures t.Valid() && t.rows == map[] && t.order == []
  {
    TableState(map[], [], 1)
  }

  predicate NameTaken(rows: map<int, Row>, n: string)
  {
    exists k | k in rows :: rows[k].name == Some(n)
  }

  /**
   * `table.insert().values(**s)`: on success, the new table and the primary
   * key the engine gave the row (`inserted_primary_key[0]`).
   */
  function Insert(t: TableState, s: JobState): (r: Result<(TableState, int), Violation>)
    requires t.Valid()
    ensures r.Success? <==>
      && Complete(s)
      && (s.id.Some? ==> s.id.value !in t.rows)
      && (s.name.Some? ==> forall k :: k in t.rows ==> t.rows[k].name != s.name)
    ensures r.Success? ==>
      var (t', key) := r.value;
      && t'.Valid()
      && key !in t.rows
      && (s.id.Some? ==> key == s.id.value)
      && t'.rows.Keys == t.rows.Keys + {key}
      && RowState(key, t'.rows[key]) == s.(id := Some(key))
      && (forall k :: k in t.rows ==> t'.rows[k] == t.rows[k])
      && t'.order == t.order + [key]
    ensures r.Failure? ==>
      match r.error
      case NullColumn(c) => !Present(s, c)
      case DuplicateKey(k) => s.id == Some(k) && k in t.rows
      case DuplicateName(n) => s.name == Some(n) && NameTaken(t.rows, n)
  {
    match MissingColumn(s)
    case Some(c) => Failure(NullColumn(c))
    case None =>
      var key := if s.id.Some? then s.id.value else t.nextKey;
      if key in t.rows then Failure(DuplicateKey(key))
      else if s.name.Some? && NameTaken(t.rows, s.name.value) then Failure(DuplicateName(s.name.value))
      else
        var next := if key < t.nextKey then t.nextKey else key + 1;
        Success((TableState(t.rows[key := ToRow(s)], t.order + [key], next), key))
  }

  /** `s` with every occurrence of `x` dropped. */
  function Without(s: seq<int>, x: int): (r: seq<int>)
    ensures forall y :: y in r <==> y in s && y != x
    ensures Distinct(s) ==> Distinct(r)
    ensures |r| <= |s|
  {
    if s == [] then []
    else if s[0] == x then Without(s[1..], x)
    else
      var rest := Without(s[1..], x);
      assert Distinct(s) ==> s[0] !in s[1..] && s[0] !in rest;
      [s[0]] + rest
  }

  /**
   * `table.delete().where(id == key)`: a key of None (`id IS NULL`) or one
   * that no row has deletes nothing and is no error.
   */
  function Delete(t: TableState, key: Option<int>): (t': TableState)
    requires t.Valid()
    ensures t'.Valid()
    ensures forall k :: k in t'.rows <==> k in t.rows && key != Some(k)
    ensures key.Some? ==> t'.rows.Keys == t.rows.Keys - {key.value}
    ensures forall k :: k in t'.rows ==> t'.rows[k] == t.rows[k]
    ensures (key.None? || key.value !in t.rows) ==> t' == t
  {
    if key.Some? && key.value in t.rows then
      TableState(t.rows - {key.value}, Without(t.order, key.value), t.nextKey)
    else t
  }

  /**
   * `table.update().where(id == key).values(next_run_time=.., runs=..)`:
   * when no row matches nothing changes and nothing is raised; writing
   * None into next_run_time of a matching row violates NOT NULL.
   */
  function Update(t: TableState, key: Option<int>, nextRunTime: Option<Timestamp>, runs: Option<int>)
    : (r: Result<TableState, Violation>)
    requires t.Valid()
    ensures r.Success? ==> r.value.Valid() && r.value.order == t.order && r.value.rows.Keys == t.rows.Keys
    ensures (key.None? || key.value !in t.rows) ==> r == Success(t)
    ensures key.Some? && key.value in t.rows ==>
      if nextRunTime.None? then r == Failure(NullColumn(NextRunTime))
      else
        && r.Success?
        && SameExceptProgress(t.rows[key.value], r.value.rows[key.value])
        && r.value.rows[key.value].nextRunTime == nextRunTime.value
        && r.value.rows[key.value].runs == runs
        && (forall k :: k in t.rows && k != key.value ==> r.value.rows[k] == t.rows[k])
  {
    if key.Some? && key.value in t.rows then
      if nextRunTime.None? then Failure(NullColumn(NextRunTime))
      else
        var row := t.rows[key.value].(nextRunTime := nextRunTime.value, runs := runs);
        Success(t.(rows := t.rows[key.value := row]))
    else Success(t)
  }

  /** `select([table])`: the dictionaries of all rows, in query order. */
  function Select(t: TableState): (r: seq<JobState>)
    requires t.Valid()
    ensures |r| == |t.order|
    ensures forall i :: 0 <= i < |r| ==> r[i].id == Some(t.order[i])
    ensures forall i :: 0 <= i < |r| ==>
      r[i].id.Some? && r[i].id.value in t.rows && r[i] == RowState(r[i].id.value, t.rows[r[i].id.value])
    ensures forall i, j :: 0 <= i < j < |r| ==> r[i].id != r[j].id
    ensures forall k :: k in t.rows ==> exists i :: 0 <= i < |r| && r[i].id == Some(k)
  {
    var r := seq(|t.order|, i requires 0 <= i < |t.order| => RowState(t.order[i], t.rows[t.order[i]]));
    assert forall i :: 0 <= i < |r| ==> r[i].id == Some(t.order[i]);
    r
  }

  /** A sequence without repetitions has as many elements as its set. */
  lemma {:induction false} DistinctCardinality(s: seq<int>)
    requires Distinct(s)
    ensures |set x | x in s| == |s|
  {
    if s != [] {
      DistinctCardinality(s[1..]);
      assert (set x | x in s) == {s[0]} + (set x | x in s[1..]);
      assert s[0] !in s[1..];
    }
  }

  /** A SELECT yields exactly one dictionary per row of the table. */
  lemma SelectCountsRows(t: TableState)
    requires t.Valid()
    ensures |Select(t)| == |t.rows|
  {
    DistinctCardinality(t.order);
    assert t.rows.Keys == set x | x in t.order;
  }

  /** Reading back after an INSERT: the old rows in order, then the new one. */
  lemma InsertThenSelect(t: TableState, s: JobState)
    requires t.Valid() && Insert(t, s).Success?
    ensures var (t', key) := Insert(t, s).value;
      Select(t') == Select(t) + [s.(id := Some(key))]
  {
    var (t', key) := Insert(t, s).value;
    var a, b := Select(t'), Select(t) + [s.(id := Some(key))];
    assert |a| == |b|;
    forall i | 0 <= i < |a| ensures a[i] == b[i] {
      if i < |t.order| {
        assert t'.order[i] == t.order[i] && t.order[i] in t.rows;
      }
    }
  }

  /** Reading back after a DELETE: no dictionary with that id, every other one kept. */
  lemma DeleteThenSelect(t: TableState, key: Option<int>)
    requires t.Valid()
    ensures forall st :: st in Select(Delete(t, key)) <==> st in Select(t) && (key.None? || st.id != key)
  {
    var t' := Delete(t, key);
    forall st ensures st in Select(t') <==> st in Select(t) && (key.None? || st.id != key) {
      if st in Select(t') {
        var i :| 0 <= i < |Select(t')| && Select(t')[i] == st;
        var k := st.id.value;
        assert k in t.rows;
        var j :| 0 <= j < |Select(t)| && Select(t)[j].id == Some(k);
      }
      if st in Select(t) && (key.None? || st.id != key) {
        var i :| 0 <= i < |Select(t)| && Select(t)[i] == st;
        var k := st.id.value;
        assert k in t'.rows;
        var j :| 0 <= j < |Select(t')| && Select(t')[j].id == Some(k);
      }
    }
  }

  /** Dropping a value appended to a sequence that lacks it gives that sequence back. */
  lemma {:induction false} WithoutAppended(s: seq<int>, x: int)
    requires x !in s
    ensures Without(s + [x], x) == s
  {
    if s == [] {
      assert [x][1..] == [];
    } else {
      assert (s + [x])[1..] == s[1..] + [x];
      WithoutAppended(s[1..], x);
      assert s == [s[0]] + s[1..];
    }
  }

  /** A DELETE by the key an INSERT returned undoes that INSERT, up to the key counter. */
  lemma InsertThenDelete(t: TableState, s: JobState)
    requires t.Valid() && Insert(t, s).Success?
    ensures var (t', key) := Insert(t, s).value;
      && Delete(t', Some(key)).rows == t.rows
      && Delete(t', Some(key)).order == t.order
      && Select(Delete(t', Some(key))) == Select(t)
  {
    var (t', key) := Insert(t, s).value;
    var u := Delete(t', Some(key));
    WithoutAppended(t.order, key);
    assert u.rows == t.rows;
    var a, b := Select(u), Select(t);
    assert |a| == |b|;
    forall i | 0 <= i < |a| ensures a[i] == b[i] {
      assert u.order[i] == t.order[i] && t.order[i] in t.rows;
    }
  }

  /** The dictionary at position `i` of a SELECT after a narrow UPDATE of key `k`. */
  lemma UpdateThenSelectAt(t: TableState, k: int, nextRunTime: Timestamp, runs: Option<int>, i: nat)
    requires t.Valid() && k in t.rows && i < |t.order|
    ensures Update(t, Some(k), Some(nextRunTime), runs).Success?
    ensures var (before, after) := (Select(t), Select(Update(t, Some(k), Some(nextRunTime), runs).value));
      && i < |before| == |after|
      && after[i] == if before[i].id == Some(k)
                     then before[i].(nextRunTime := Some(nextRunTime), runs := runs)
                     else before[i]
  {
    var t' := Update(t, Some(k), Some(nextRunTime), runs).value;
    var key := t.order[i];
    assert key in t.rows && Select(t)[i] == RowState(key, t.rows[key]);
    assert Select(t')[i] == RowState(key, t'.rows[key]);
  }

  /**
   * Reading back after a narrow UPDATE of key `k`: the same dictionaries in
   * the same order, the one with id `k` carrying the new next_run_time and
   * runs and nothing else changed.
   */
  lemma UpdateThenSelect(t: TableState, k: int, nextRunTime: Timestamp, runs: Option<int>)
    requires t.Valid() && k in t.rows
    ensures Update(t, Some(k), Some(nextRunTime), runs).Success?
    ensures var (before, after) := (Select(t), Select(Update(t, Some(k), Some(nextRunTime), runs).value));
      && |after| == |before|
      && forall i :: 0 <= i < |before| ==>
           after[i] == if before[i].id == Some(k)
                       then before[i].(nextRunTime := Some(nextRunTime), runs := runs)
                       else before[i]
  {
    var t' := Update(t, Some(k), Some(nextRunTime), runs).value;
    forall i | 0 <= i < |Select(t)|
      ensures Select(t')[i] == if Select(t)[i].id == Some(k)
                               then Select(t)[i].(nextRunTime := Some(nextRunTime), runs := runs)
                               else Select(t)[i]
    {
      UpdateThenSelectAt(t, k, nextRunTime, runs, i);
    }
  }

  /**
   * An empty table, one job added, advanced once and removed; a second job
   * with the same name is refused and leaves the first as it was.
   */
  lemma Lifecycle(a: JobState, b: JobState, t1: Timestamp)
    requires Complete(a) && a.id.None? && a.name.Some?
    requires b.id.None? && b.name == a.name
    ensures Insert(Empty(), a).Success?
    ensures var (t, key) := Insert(Empty(), a).value;
      && Select(t) == [a.(id := Some(key))]
      && Insert(t, b) == (if Complete(b) then Failure(DuplicateName(a.name.value)) else Insert(Empty(), b))
      && Update(t, Some(key), Some(t1), Some(1)).Success?
      && var t' := Update(t, Some(key), Some(t1), Some(1)).value;
         && Select(t') == [a.(id := Some(key), nextRunTime := Some(t1), runs := Some(1))]
         && Select(Delete(t', Some(key))) == []
  {
    var (t, key) := Insert(Empty(), a).value;
    InsertThenSelect(Empty(), a);
    assert Select(Empty()) == [];
    UpdateThenSelect(t, key, t1, Some(1));
    var t' := Update(t, Some(key), Some(t1), Some(1)).value;
    assert Delete(t', Some(key)).rows == map[];
    SelectCountsRows(Delete(t', Some(key)));
  }

  /** A database engine: the tables it holds, by name. */
  class Engine {
    const url: string
    var tables: map<string, TableState>

    /** An engine connected to the database at `url`, which already holds `tables`. */
    constructor (url: string, tables: map<string, TableState>)
      ensures this.url == url && this.tables == tables
    {
      this.url := url;
      this.tables := tables;
    }
  }

  /** `table.create(engine, checkfirst=True)`: create the table unless one of that name exists. */
  function Provision(tables: map<string, TableState>, name: string): (r: map<string, TableState>)
    ensures r.Keys == tables.Keys + {name}
    ensures forall n :: n in tables ==> r[n] == tables[n]
    ensures name !in tables ==> r[name] == Empty()
  {
    if name in tables then tables else tables[name := Empty()]
  }
}
