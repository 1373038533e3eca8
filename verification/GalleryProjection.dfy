/**
 The mixed gallery projection as a store: the trigger bodies run row by row, each row
 change runs the day-index trigger, and a scope change rebuilds everything.
 */
module GalleryProjection {
  import opened Wrappers
  import opened GalleryRows
  import opened CatalogTables
  import opened GalleryView
  import opened DayIndex
  import opened IntegerSets

  /** The configured sources a caller wants served; source keys are already normalized. */
  datatype Readiness = Readiness(roles: Roles, immichOnly: bool)

  /**
   The scope key. Validated source keys contain no separator, so the joined text
   determines the three key lists and the lists themselves stand for the key.
   */
  function ScopeKey(r: Readiness): Option<Roles> {
    if r.immichOnly || (r.roles.local == {} && r.roles.immich == {}) then None else Some(r.roles)
  }

  /** The durable state the projection depends on, as a value. */
  datatype Snapshot = Snapshot(
    tables: Tables,
    scope: Option<Roles>,
    roles: Roles,
    projection: map<int, Row>
  )

  datatype Op = RowEvent(event: Event) | Ensure(readiness: Readiness)

  predicate CanStep(s: Snapshot, op: Op) {
    op.RowEvent? ==> Legal(s.tables, op.event)
  }

  function Step(s: Snapshot, op: Op): Snapshot
    requires CanStep(s, op)
  {
    match op
    case RowEvent(e) =>
      var t' := Apply(s.tables, e);
      s.(tables := t',
         projection := if s.scope.None? then s.projection
                       else Refreshed(s.projection, t', s.roles, Affected(s.tables, t', e)))
    case Ensure(r) =>
      var key := ScopeKey(r);
      if key.Some? && key == s.scope then s
      else if key.None? then Snapshot(s.tables, None, Roles({}, {}, {}), map[])
      else Snapshot(s.tables, key, key.value, View(s.tables, key.value))
  }

  ghost predicate CanRun(s: Snapshot, ops: seq<Op>)
    decreases |ops|
  {
    ops == [] || (CanStep(s, ops[0]) && CanRun(Step(s, ops[0]), ops[1..]))
  }

  ghost function Run(s: Snapshot, ops: seq<Op>): Snapshot
    requires CanRun(s, ops)
    decreases |ops|
  {
    if ops == [] then s else Run(Step(s, ops[0]), ops[1..])
  }

  /** While a scope is published, the projection is the from-scratch build for that scope. */
  predicate Fresh(s: Snapshot) {
    s.scope.Some? ==> s.roles == s.scope.value && s.projection == View(s.tables, s.scope.value)
  }

  lemma StepKeepsFresh(s: Snapshot, op: Op)
    requires Fresh(s) && CanStep(s, op)
    ensures Fresh(Step(s, op))
    ensures op.Ensure? ==> Step(s, op).scope == ScopeKey(op.readiness)
    ensures op.RowEvent? ==> Step(s, op).scope == s.scope
  {
    if op.RowEvent? && s.scope.Some? {
      TriggerKeepsView(s.tables, s.roles, op.event);
    }
  }

  /** Safety over whole runs of row events and scope changes, in any order. */
  lemma {:induction false} RunsServeTheView(s: Snapshot, ops: seq<Op>)
    requires Fresh(s) && CanRun(s, ops)
    ensures Fresh(Run(s, ops))
    decreases |ops|
  {
    if ops != [] {
      StepKeepsFresh(s, ops[0]);
      RunsServeTheView(Step(s, ops[0]), ops[1..]);
    }
  }

  datatype Table = CanonicalTable | SourceTable | LocalAssetTable | RenditionTable | ProjectionDays

  datatype Change = OnInsert | OnUpdate | OnDelete

  /** A trigger name: a watched table and an event, or a name of someone else's. */
  datatype Trigger = Known(table: Table, change: Change) | Foreign(name: int)

  const KNOWN_TRIGGERS: set<Trigger> :=
    set table, change | table in {CanonicalTable, SourceTable, LocalAssetTable, RenditionTable, ProjectionDays}
                        && change in {OnInsert, OnUpdate, OnDelete} :: Known(table, change)

  datatype MigrationError = UnsupportedTrigger | MissingTriggers | UnsupportedView | UnsupportedForeignKey | RowsChanged

  function RowsOf(m: map<int, Row>): set<Row> {
    set id | id in m :: m[id]
  }

  lemma KeyedUnique(m: map<int, Row>)
    requires Keyed(m)
    ensures UniqueIds(RowsOf(m))
    ensures forall r :: r in RowsOf(m) <==> r.id in m && m[r.id] == r
  {
  }

  lemma RowsWithout(m: map<int, Row>, id: int)
    requires Keyed(m) && id in m
    ensures RowsOf(m - {id}) == RowsOf(m) - {m[id]}
  {
    KeyedUnique(m);
    KeyedUnique(m - {id});
  }

  lemma RowsWith(m: map<int, Row>, row: Row)
    requires Keyed(m) && row.id !in m
    ensures row !in RowsOf(m)
    ensures RowsOf(m[row.id := row]) == RowsOf(m) + {row}
  {
    KeyedUnique(m);
    KeyedUnique(m[row.id := row]);
  }

  lemma AddViewRow(base: map<int, Row>, t: Tables, roles: Roles, ids: set<int>, id: int)
    requires id !in ids
    ensures var row := ViewRow(t, roles, id);
            base + ViewRows(t, roles, ids + {id})
            == if row.Some? then (base + ViewRows(t, roles, ids))[id := row.value] else base + ViewRows(t, roles, ids)
    ensures ViewRow(t, roles, id).Some? ==> ViewRow(t, roles, id).value.id == id
  {
    var row := ViewRow(t, roles, id);
    assert ViewRows(t, roles, ids + {id})
        == if row.Some? then ViewRows(t, roles, ids)[id := row.value] else ViewRows(t, roles, ids);
  }

  class GalleryStore {
    var tables: Tables
    var scope: Option<Roles>
    var roles: Roles
    var projection: map<int, Row>
    var days: map<int, nat>
    var triggers: set<Trigger>

    function Snap(): Snapshot
      reads this
    {
      Snapshot(tables, scope, roles, projection)
    }

    /** Rows are keyed by ID and the day counts are exact. */
    ghost predicate Indexed()
      reads this
    {
      Keyed(projection) && days == Histogram(RowsOf(projection))
    }

    ghost predicate Valid()
      reads this
    {
      Indexed() && Fresh(Snap())
    }

    constructor ()
      ensures Valid() && scope == None && projection == map[] && triggers == KNOWN_TRIGGERS
      ensures tables == Tables(map[], map[], map[], map[])
    {
      tables := Tables(map[], map[], map[], map[]);
      scope := None;
      roles := Roles({}, {}, {});
      projection := map[];
      days := map[];
      triggers := KNOWN_TRIGGERS;
    }

    /** Delete one projection row, if present, and run the day-delete trigger. */
    method DeleteRow(id: int)
      requires Indexed()
      modifies `projection, `days
      ensures Indexed()
      ensures projection == old(projection) - {id}
    {
      if id in projection {
        var row := projection[id];
        RowsWithout(projection, id);
        KeyedUnique(projection);
        DeleteKeepsHistogram(RowsOf(projection), row);
        projection := projection - {id};
        days := DayDeleted(days, Day(row.capturedAt));
      }
      assert projection == old(projection) - {id};
    }

    /** Insert one projection row and run the day-insert trigger. */
    method InsertRow(row: Row)
      requires Indexed() && row.id !in projection
      modifies `projection, `days
      ensures Indexed()
      ensures projection == old(projection)[row.id := row]
    {
      RowsWith(projection, row);
      InsertKeepsHistogram(RowsOf(projection), row);
      projection := projection[row.id := row];
      days := DayInserted(days, Day(row.capturedAt));
    }

    /** `DELETE FROM catalog_gallery_projection WHERE canonical_asset_id IN (...)`. */
    method DeleteRows(ids: set<int>)
      requires Indexed()
      modifies `projection, `days
      ensures Indexed()
      ensures projection == old(projection) - ids
    {
      var todo := ids;
      while todo != {}
        invariant todo <= ids
        invariant Indexed()
        invariant projection == old(projection) - (ids - todo)
        decreases todo
      {
        HasElement(todo);
        var id :| id in todo;
        DeleteRow(id);
        todo := todo - {id};
        assert old(projection) - (ids - (todo + {id})) - {id} == old(projection) - (ids - todo);
      }
      assert ids - todo == ids;
    }

    method ClearRows()
      requires Indexed()
      modifies `projection, `days
      ensures Indexed() && projection == map[]
    {
      DeleteRows(projection.Keys);
    }

    /** The insert query restricted to `ids`, which have no row left. */
    method InsertViewRows(ids: set<int>)
      requires Indexed() && ids !! projection.Keys
      modifies `projection, `days
      ensures Indexed()
      ensures projection == old(projection) + ViewRows(tables, roles, ids)
    {
      var t, r := tables, roles;
      ghost var base := projection;
      ghost var done: set<int> := {};
      var todo := ids;
      assert ViewRows(t, r, done) == map[];
      while todo != {}
        invariant done + todo == ids && done !! todo
        invariant Indexed()
        invariant todo !! projection.Keys
        invariant projection == base + ViewRows(t, r, done)
        decreases todo
      {
        HasElement(todo);
        var id :| id in todo;
        var row := ViewRow(t, r, id);
        AddViewRow(base, t, r, done, id);
        if row.Some? {
          InsertRow(row.value);
        }
        done := done + {id};
        todo := todo - {id};
      }
      assert done == ids;
    }

    /** One row event with its trigger: the trigger body runs only while a scope is published. */
    method Fire(e: Event)
      requires Valid() && Legal(tables, e)
      modifies `tables, `projection, `days
      ensures Valid()
      ensures Snap() == Step(old(Snap()), RowEvent(e))
    {
      StepKeepsFresh(Snap(), RowEvent(e));
      var before := tables;
      tables := Apply(before, e);
      if scope.Some? {
        var affected := Affected(before, tables, e);
        DeleteRows(affected);
        InsertViewRows(affected);
      }
    }

    /** Serve the wanted scope: keep a matching projection, otherwise rebuild or clear it. */
    method EnsureProjection(readiness: Readiness)
      requires Valid()
      modifies `scope, `roles, `projection, `days
      ensures Valid()
      ensures Snap() == Step(old(Snap()), Ensure(readiness))
      ensures readiness.immichOnly || readiness.roles.local + readiness.roles.immich == {} ==>
                scope == None && projection == map[]
      ensures !readiness.immichOnly && readiness.roles.local + readiness.roles.immich != {} ==>
                scope == Some(readiness.roles) && projection == View(tables, readiness.roles)
    {
      var key := ScopeKey(readiness);
      if key.Some? && scope == key {
        return;
      }
      StepKeepsFresh(Snap(), Ensure(readiness));
      scope := None;
      ClearRows();
      if key.None? {
        roles := Roles({}, {}, {});
      } else {
        BuildView(key.value);
      }
    }

    /** Publish a scope and build its view into the empty projection. */
    method BuildView(wanted: Roles)
      requires Indexed() && projection == map[]
      modifies `scope, `roles, `projection, `days
      ensures Indexed() && scope == Some(wanted) && roles == wanted && projection == View(tables, wanted)
    {
      roles := wanted;
      scope := Some(wanted);
      InsertViewRows(tables.canonical.Keys);
      assert map[] + View(tables, wanted) == View(tables, wanted);
    }

    /** Move a row's capture time in place, with the day-update trigger. */
    method MoveRow(id: int, capturedAt: int)
      requires Indexed() && id in projection
      modifies `projection, `days
      ensures Indexed()
      ensures projection == old(projection)[id := old(projection)[id].(capturedAt := capturedAt)]
    {
      var row := projection[id];
      var moved := row.(capturedAt := capturedAt);
      RowsWithout(projection, id);
      RowsWith(projection - {id}, moved);
      KeyedUnique(projection);
      UpdateKeepsHistogram(RowsOf(projection), row, moved);
      assert (projection - {id})[id := moved] == projection[id := moved];
      projection := projection[id := moved];
      days := DayMoved(days, Day(row.capturedAt), Day(capturedAt));
    }

    /** Rebuild the day counts when their schema version is not current, from any earlier counts. */
    method EnsureDayIndex(current: bool)
      requires Keyed(projection)
      requires current ==> days == Histogram(RowsOf(projection))
      modifies `days
      ensures Indexed()
    {
      if current {
        return;
      }
      days := CountDays(RowsOf(projection));
    }

    /**
     Replace the layout by a copy: compare both ways, swap, rebuild the day counts. Whatever
     the copy holds, only one with the same rows is put in place.
     */
    method ReplaceLayout(copied: map<int, Row>) returns (r: Result<nat, MigrationError>)
      requires Keyed(projection) && Keyed(copied)
      modifies `projection, `days
      ensures r.Ok? <==> copied == old(projection)
      ensures r.Ok? ==> Indexed() && r.value == |projection|
      ensures r.Err? ==> r.error == RowsChanged && days == old(days)
      ensures projection == old(projection)
    {
      SameRows(projection, copied);
      if RowsOf(projection) - RowsOf(copied) != {} {
        return Err(RowsChanged);
      }
      if RowsOf(copied) - RowsOf(projection) != {} {
        return Err(RowsChanged);
      }
      projection := copied;
      days := CountDays(RowsOf(projection));
      r := Ok(|projection|);
    }

    /**
     The storage migration: refuse unknown or missing triggers, referring views and foreign
     keys, detach the triggers, copy the rows to the new layout, put it in place, restore the
     triggers. The earlier day counts may be anything.
     */
    method MigrateStorage(views: nat, foreignKeys: nat) returns (r: Result<nat, MigrationError>)
      requires Keyed(projection)
      modifies `projection, `days, `triggers
      ensures r.Ok? <==> old(triggers) == KNOWN_TRIGGERS && views == 0 && foreignKeys == 0
      ensures r.Err? ==> r.error == if !(old(triggers) <= KNOWN_TRIGGERS) then UnsupportedTrigger
                                    else if old(triggers) != KNOWN_TRIGGERS then MissingTriggers
                                    else if views > 0 then UnsupportedView else UnsupportedForeignKey
      ensures r.Err? ==> unchanged(this)
      ensures r.Ok? ==> Indexed() && r.value == |projection|
      ensures projection == old(projection) && triggers == old(triggers)
    {
      if !(triggers <= KNOWN_TRIGGERS) {
        return Err(UnsupportedTrigger);
      }
      if !(KNOWN_TRIGGERS <= triggers) {
        return Err(MissingTriggers);
      }
      if views != 0 {
        return Err(UnsupportedView);
      }
      if foreignKeys != 0 {
        return Err(UnsupportedForeignKey);
      }
      var detached := triggers;
      triggers := {};
      var copied := CopyRows(projection);
      r := ReplaceLayout(copied);
      triggers := detached;
    }
  }

  /** Keyed tables with the same rows are the same table. */
  lemma SameRows(a: map<int, Row>, b: map<int, Row>)
    requires Keyed(a) && Keyed(b)
    ensures RowsOf(a) - RowsOf(b) == {} && RowsOf(b) - RowsOf(a) == {} <==> a == b
  {
    KeyedUnique(a);
    KeyedUnique(b);
    if RowsOf(a) - RowsOf(b) == {} && RowsOf(b) - RowsOf(a) == {} {
      forall id ensures id in a <==> id in b {
        if id in a { assert a[id] in RowsOf(a) && a[id] !in RowsOf(a) - RowsOf(b); }
        if id in b { assert b[id] in RowsOf(b) && b[id] !in RowsOf(b) - RowsOf(a); }
      }
      forall id | id in a ensures a[id] == b[id] {
        assert a[id] in RowsOf(a) && a[id] !in RowsOf(a) - RowsOf(b);
      }
    }
  }

  /** `GROUP BY` day: count the rows one by one. */
  method CountDays(rows: set<Row>) returns (days: map<int, nat>)
    ensures days == Histogram(rows)
  {
    days := map[];
    assert Histogram({}) == map[];
    var todo := rows;
    while todo != {}
      invariant todo <= rows
      invariant days == Histogram(rows - todo)
      decreases todo
    {
      var r :| r in todo;
      InsertKeepsHistogram(rows - todo, r);
      assert rows - todo + {r} == rows - (todo - {r});
      days := DayInserted(days, Day(r.capturedAt));
      todo := todo - {r};
    }
    assert rows - todo == rows;
  }

  /** Copy every row under its key; the two EXCEPT checks of the migration then find nothing. */
  method CopyRows(rows: map<int, Row>) returns (copy: map<int, Row>)
    ensures RowsOf(copy) - RowsOf(rows) == {} && RowsOf(rows) - RowsOf(copy) == {}
    ensures copy == rows
  {
    copy := map[];
    var todo := rows.Keys;
    while todo != {}
      invariant todo <= rows.Keys
      invariant copy == rows - todo
      decreases todo
    {
      HasElement(todo);
      var id :| id in todo;
      copy := copy[id := rows[id]];
      todo := todo - {id};
    }
    assert copy == rows;
  }
}
