/** `Command.handle` of the `incidents_crud_demo` management command: the fixed
    create, get, filter, save, bulk update and delete walkthrough, run against
    the store. The console lines are not modelled; the values they show are
    returned in a report. */
module CrudDemo {
  import opened Incidents
  import opened IncidentStore

  const DemoDescription: string := "Se detecta interrupción intermitente en línea de proceso."
  const DemoResponsible: string := "Juan Pérez"
  /** `open_qs[:5]`: at most this many open incidents are listed. */
  const ListedLimit: nat := 5

  function Min(a: nat, b: nat): nat {
    if a <= b then a else b
  }

  /** The values the walkthrough shows, step by step. */
  datatype Report = Report(
    created: Incident,         // the instance `create` returns
    found: Incident,           // `get(inc_id=...)`
    openRows: seq<Incident>,   // the open incidents; their number is the count shown
    openListed: seq<Incident>, // the first five of them
    saved: Incident,           // the instance after `save(update_fields=[...])`
    refreshed: Incident,       // the instance after `refresh_from_db()`
    deleted: nat)              // the count `delete()` returns

  /** The row the walkthrough creates when the next id is `id` and the clock reads `now`. */
  function DemoRow(id: nat, now: Time): Incident {
    Incident(id, now, Operacion, DemoDescription, Abierto, DemoResponsible, true, now, now)
  }

  /** What the walkthrough shows once its create succeeds on a table holding
      `rows` with next id `id`: the new row, read back unchanged; the open
      incidents (the new one among them) in the default order, five listed;
      the status change stamped with the save's clock; the deactivation with
      that stamp left alone; one row deleted. */
  ghost predicate Expected(rep: Report, rows: seq<Incident>, id: nat, now: Time, later: Time) {
    var created := DemoRow(id, now);
    && rep.created == created
    && rep.found == created
    && SortedByDefaultOrder(rep.openRows)
    && created in rep.openRows
    && multiset(rep.openRows) == multiset(Selected(rows + [created], HasStatus(Abierto)))
    && rep.openListed == rep.openRows[..Min(ListedLimit, |rep.openRows|)]
    && rep.saved == created.(status := EnProceso, updatedAt := later)
    && rep.refreshed == rep.saved.(isActive := false)
    && rep.deleted == 1
  }

  /** The newest row is found at the end of the table. */
  lemma NewestRowIsLast(rows: seq<Incident>, row: Incident)
    requires forall i :: 0 <= i < |rows| ==> rows[i].incId < row.incId
    ensures IdIndex(rows + [row], row.incId) == |rows|
    ensures HasId(rows + [row], row.incId)
  {
    var s := rows + [row];
    assert s[|rows|].incId == row.incId;
    assert forall i :: 0 <= i < |rows| ==> s[i] == rows[i];
  }

  /** No older row has the newest row's id. */
  lemma OlderRowsNotSelected(rows: seq<Incident>, row: Incident)
    requires forall i :: 0 <= i < |rows| ==> rows[i].incId < row.incId
    ensures forall r :: r in rows ==> !ById(row.incId)(r)
  {
  }

  /** A bulk update by the newest row's id changes that row only. */
  lemma UpdateByNewestId(rows: seq<Incident>, row: Incident, changes: seq<Assignment>)
    requires forall i :: 0 <= i < |rows| ==> rows[i].incId < row.incId
    ensures UpdatedWhere(rows + [row], ById(row.incId), changes) == rows + [ApplyAll(row, changes)]
  {
  }

  /** A delete by the newest row's id removes that row only. */
  lemma DeleteByNewestId(rows: seq<Incident>, row: Incident)
    requires forall i :: 0 <= i < |rows| ==> rows[i].incId < row.incId
    ensures Kept(rows + [row], ById(row.incId)) == rows
    ensures |Selected(rows + [row], ById(row.incId))| == 1
  {
    var s := rows + [row];
    OlderRowsNotSelected(rows, row);
    KeptNoneSelected(rows, ById(row.incId));
    assert s[..|s| - 1] == rows;
    assert Kept(s, ById(row.incId)) == Kept(rows, ById(row.incId));
    assert Selected(s, ById(row.incId)) == Selected(rows, ById(row.incId)) + [row];
  }

  /** The READ section: `get` by the new row's id, then the open incidents in
      the default order. Reads only. */
  method ReadSection(store: Store, ghost rows0: seq<Incident>, created: Incident)
    returns (found: Result<Incident>, openRows: seq<Incident>)
    requires store.Valid()
    requires store.rows == rows0 + [created]
    requires forall i :: 0 <= i < |rows0| ==> rows0[i].incId < created.incId
    ensures found == Ok(created)
    ensures SortedByDefaultOrder(openRows)
    ensures multiset(openRows) == multiset(Selected(rows0 + [created], HasStatus(Abierto)))
    ensures created.status == Abierto ==> created in openRows
  {
    NewestRowIsLast(rows0, created);
    found := store.Get(created.incId);
    openRows := store.Filter(HasStatus(Abierto));
    SelectedMembers(rows0 + [created], HasStatus(Abierto));
    if created.status == Abierto {
      assert created in multiset(Selected(rows0 + [created], HasStatus(Abierto)));
    }
  }

  /** The first half of the UPDATE section: the loaded instance gets status
      EN_PROCESO and is saved with `update_fields=["status", "updated_at"]`
      at clock `later`. */
  method SaveStatus(store: Store, ghost rows0: seq<Incident>, found: Incident, later: Time)
    returns (saved: Incident)
    requires store.Valid()
    requires store.rows == rows0 + [found]
    requires forall i :: 0 <= i < |rows0| ==> rows0[i].incId < found.incId
    modifies store
    ensures store.Valid() && store.nextId == old(store.nextId)
    ensures saved == found.(status := EnProceso, updatedAt := later)
    ensures store.rows == rows0 + [saved]
  {
    NewestRowIsLast(rows0, found);
    var fields := {StatusField, UpdatedAtField};
    var inst := found.(status := EnProceso);
    assert Merge(found, Stamped(inst, fields, later), fields) == inst.(updatedAt := later);
    var s := store.Save(inst, fields, later);
    assert s == Ok(inst.(updatedAt := later));
    saved := s.value;
  }

  /** The second half of the UPDATE section: a bulk update by the instance's
      id sets `is_active` to false (and stamps nothing), then the instance is
      reloaded. */
  method DeactivateAndReload(store: Store, ghost rows0: seq<Incident>, saved: Incident)
    returns (refreshed: Incident)
    requires store.Valid()
    requires store.rows == rows0 + [saved]
    requires forall i :: 0 <= i < |rows0| ==> rows0[i].incId < saved.incId
    modifies store
    ensures store.Valid() && store.nextId == old(store.nextId)
    ensures refreshed == saved.(isActive := false)
    ensures store.rows == rows0 + [refreshed]
  {
    var changes := [SetActive(false)];
    assert ApplyAll(saved, changes) == saved.(isActive := false) by {
      assert changes[1..] == [];
    }
    UpdateByNewestId(rows0, saved, changes);
    DeleteByNewestId(rows0, saved);
    var u := store.Update(ById(saved.incId), changes);
    assert u == Ok(1);
    NewestRowIsLast(rows0, saved.(isActive := false));
    var f := store.Get(saved.incId);
    assert f == Ok(saved.(isActive := false));
    refreshed := f.value;
  }

  /** `Command.handle`. The clock reads `now` at the create and `later` at
      the save. Only the create can fail (a row with the same date, type and
      responsible already exists), and then nothing else runs; otherwise the
      walkthrough shows what `Expected` says and leaves the table as it was,
      with one id used up. */
  method Handle(store: Store, now: Time, later: Time) returns (res: Result<Report>)
    requires store.Valid()
    modifies store
    ensures store.Valid()
    ensures res.Err? <==> KeyInUse(old(store.rows), BusinessKey(now, Operacion, DemoResponsible))
    ensures res.Err? ==> res.error == IntegrityError && store.rows == old(store.rows) && store.nextId == old(store.nextId)
    ensures res.Ok? ==> Expected(res.value, old(store.rows), old(store.nextId), now, later)
    ensures res.Ok? ==> store.rows == old(store.rows) && store.nextId == old(store.nextId) + 1
    ensures res.Ok? ==> !HasId(store.rows, res.value.created.incId)
    ensures res.Ok? && now <= later ==> res.value.saved.createdAt <= res.value.saved.updatedAt
  {
    ghost var rows0 := store.rows;

    // CREATE
    var c := store.Create(Some(now), Some(Operacion), DemoDescription, Some(Abierto), DemoResponsible, None, now);
    if c.Err? {
      return Err(c.error);
    }
    var created := c.value;
    assert created == DemoRow(old(store.nextId), now);
    assert store.rows == rows0 + [created];

    // READ
    var found, openRows := ReadSection(store, rows0, created);
    var openListed := openRows[..Min(ListedLimit, |openRows|)];

    // UPDATE
    var saved := SaveStatus(store, rows0, found.value, later);
    var refreshed := DeactivateAndReload(store, rows0, saved);

    // DELETE
    DeleteByNewestId(rows0, refreshed);
    var deleted := store.Delete(ById(refreshed.incId));

    res := Ok(Report(created, found.value, openRows, openListed, saved, refreshed, deleted));
  }
}
