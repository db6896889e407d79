/** The `incidents` table that the `Incident` model declares (incidents/models.py),
    as an in-memory store: rows in insertion order, a running `inc_id` counter,
    and the operations the ORM offers on it (`objects.create`, `objects.get`,
    `filter(...)` with the default ordering, instance `save(update_fields=...)`,
    `QuerySet.update` and `QuerySet.delete`). */
module IncidentStore {
  import opened Incidents

  /** `IntegrityError` (the business key clashes), `Incident.DoesNotExist`
      (lookup by id found nothing) and the `DatabaseError` a save restricted
      to named fields raises when its row is gone. */
  datatype Error = IntegrityError | DoesNotExist | NoRowsAffected

  datatype Result<T> = Ok(value: T) | Err(error: Error)

  /** The columns a save may name in `update_fields` (the primary key is never written). */
  datatype Field =
    | DateField | TypeField | DescriptionField | StatusField
    | ResponsibleField | ActiveField | CreatedAtField | UpdatedAtField

  /** The content of one column. */
  datatype Value =
    | TimeValue(time: Time)
    | TypeChoice(incidentType: IncidentType)
    | StatusChoice(status: IncidentStatus)
    | Text(text: string)
    | Flag(flag: bool)

  function Column(r: Incident, f: Field): Value {
    match f
    case DateField => TimeValue(r.date)
    case TypeField => TypeChoice(r.incidentType)
    case DescriptionField => Text(r.description)
    case StatusField => StatusChoice(r.status)
    case ResponsibleField => Text(r.responsible)
    case ActiveField => Flag(r.isActive)
    case CreatedAtField => TimeValue(r.createdAt)
    case UpdatedAtField => TimeValue(r.updatedAt)
  }

  // ---------------------------------------------------------------------------
  // The table invariant
  // ---------------------------------------------------------------------------

  /** Rows are kept in insertion order, so their auto-incremented ids increase. */
  predicate IdsIncreasing(rows: seq<Incident>) {
    forall i, j :: 0 <= i < j < |rows| ==> rows[i].incId < rows[j].incId
  }

  /** `uq_incident_date_type_responsible`. */
  predicate KeysUnique(rows: seq<Incident>) {
    forall i, j :: 0 <= i < j < |rows| ==> KeyOf(rows[i]) != KeyOf(rows[j])
  }

  /** What every state of the table satisfies: ids are issued from 1 below the
      counter and never repeat, every row respects its declared bounds, and no
      two rows share a business key. */
  predicate TableInvariant(rows: seq<Incident>, nextId: nat) {
    && 1 <= nextId
    && (forall i :: 0 <= i < |rows| ==> 1 <= rows[i].incId < nextId && WellFormed(rows[i]))
    && IdsIncreasing(rows)
    && KeysUnique(rows)
  }

  predicate HasId(rows: seq<Incident>, id: nat) {
    exists i :: 0 <= i < |rows| && rows[i].incId == id
  }

  /** Some row other than the one at position `skip` holds `key`. */
  predicate KeyInUseElsewhere(rows: seq<Incident>, key: BusinessKey, skip: nat) {
    exists j :: 0 <= j < |rows| && j != skip && KeyOf(rows[j]) == key
  }

  predicate KeyInUse(rows: seq<Incident>, key: BusinessKey) {
    exists j :: 0 <= j < |rows| && KeyOf(rows[j]) == key
  }

  /** Position of the row with primary key `id`, or `|rows|` if there is none. */
  function IdIndex(rows: seq<Incident>, id: nat): (k: nat)
    ensures k <= |rows|
    ensures k < |rows| ==> rows[k].incId == id
    ensures forall j :: 0 <= j < k ==> rows[j].incId != id
  {
    if rows == [] then 0
    else if rows[0].incId == id then 0
    else 1 + IdIndex(rows[1..], id)
  }

  /** The lookup `inc_id=id` as a filter predicate. */
  function ById(id: nat): Incident -> bool {
    (r: Incident) => r.incId == id
  }

  /** The lookup `status=st` as a filter predicate. */
  function HasStatus(st: IncidentStatus): Incident -> bool {
    (r: Incident) => r.status == st
  }

  // ---------------------------------------------------------------------------
  // Selections
  // ---------------------------------------------------------------------------

  /** The rows `pred` selects, in table order. */
  function Selected(rows: seq<Incident>, pred: Incident -> bool): seq<Incident> {
    if rows == [] then []
    else
      var last := rows[|rows| - 1];
      Selected(rows[..|rows| - 1], pred) + (if pred(last) then [last] else [])
  }

  /** A filter selects exactly the rows of the table that satisfy `pred`. */
  lemma {:induction false} SelectedMembers(rows: seq<Incident>, pred: Incident -> bool)
    ensures |Selected(rows, pred)| <= |rows|
    ensures forall r :: r in Selected(rows, pred) <==> r in rows && pred(r)
    decreases |rows|
  {
    if rows != [] {
      var init := rows[..|rows| - 1];
      var last := rows[|rows| - 1];
      assert rows == init + [last];
      SelectedMembers(init, pred);
    }
  }

  /** The rows `pred` does not select, in table order: what a delete leaves. */
  function Kept(rows: seq<Incident>, pred: Incident -> bool): seq<Incident> {
    if rows == [] then []
    else
      var last := rows[|rows| - 1];
      Kept(rows[..|rows| - 1], pred) + (if pred(last) then [] else [last])
  }

  /** A delete splits the table: it keeps exactly the rows `pred` does not
      select, and kept and selected rows together are as many as the table's. */
  lemma {:induction false} KeptComplement(rows: seq<Incident>, pred: Incident -> bool)
    ensures |Kept(rows, pred)| + |Selected(rows, pred)| == |rows|
    ensures forall r :: r in Kept(rows, pred) <==> r in rows && !pred(r)
    decreases |rows|
  {
    if rows != [] {
      var init := rows[..|rows| - 1];
      var last := rows[|rows| - 1];
      assert rows == init + [last];
      KeptComplement(init, pred);
    }
  }

  /** Appending a row whose id exceeds all others and whose key is new keeps
      the table invariant. */
  lemma AppendPreservesTable(rows: seq<Incident>, row: Incident, nextId: nat)
    requires TableInvariant(rows, nextId)
    requires 1 <= row.incId < nextId && WellFormed(row)
    requires forall i :: 0 <= i < |rows| ==> rows[i].incId < row.incId && KeyOf(rows[i]) != KeyOf(row)
    ensures TableInvariant(rows + [row], nextId)
  {
  }

  /** A delete keeps the table invariant. */
  lemma {:induction false} KeptPreservesTable(rows: seq<Incident>, pred: Incident -> bool, nextId: nat)
    requires TableInvariant(rows, nextId)
    ensures TableInvariant(Kept(rows, pred), nextId)
    decreases |rows|
  {
    if rows != [] {
      var init := rows[..|rows| - 1];
      var last := rows[|rows| - 1];
      assert forall i :: 0 <= i < |init| ==> init[i] == rows[i];
      assert TableInvariant(init, nextId);
      KeptPreservesTable(init, pred, nextId);
      KeptComplement(init, pred);
      var k := Kept(init, pred);
      if pred(last) {
        assert Kept(rows, pred) == k;
      } else {
        forall i | 0 <= i < |k|
          ensures k[i].incId < last.incId && KeyOf(k[i]) != KeyOf(last)
        {
          assert k[i] in init;
          var m :| 0 <= m < |init| && init[m] == k[i];
          assert rows[m] == k[i];
        }
        AppendPreservesTable(k, last, nextId);
        assert Kept(rows, pred) == k + [last];
      }
    }
  }

  /** A delete that selects nothing leaves the table as it was. */
  lemma {:induction false} KeptNoneSelected(rows: seq<Incident>, pred: Incident -> bool)
    requires forall r :: r in rows ==> !pred(r)
    ensures Kept(rows, pred) == rows && Selected(rows, pred) == []
    decreases |rows|
  {
    if rows != [] {
      var init := rows[..|rows| - 1];
      var last := rows[|rows| - 1];
      assert rows == init + [last];
      KeptNoneSelected(init, pred);
    }
  }

  /** Deleting by primary key removes at most one row: exactly one when the id
      is present and none otherwise. */
  lemma {:induction false} DeleteByIdCount(rows: seq<Incident>, id: nat)
    requires IdsIncreasing(rows)
    ensures |Selected(rows, ById(id))| == if HasId(rows, id) then 1 else 0
    decreases |rows|
  {
    if rows != [] {
      var init := rows[..|rows| - 1];
      var last := rows[|rows| - 1];
      DeleteByIdCount(init, id);
      if last.incId == id {
        assert !HasId(init, id) by {
          forall i | 0 <= i < |init|
            ensures init[i].incId != id
          {
            assert rows[i].incId < rows[|rows| - 1].incId;
          }
        }
      } else {
        assert HasId(rows, id) <==> HasId(init, id) by {
          if HasId(rows, id) {
            var i :| 0 <= i < |rows| && rows[i].incId == id;
            assert init[i] == rows[i];
          }
          if HasId(init, id) {
            var i :| 0 <= i < |init| && init[i].incId == id;
            assert rows[i] == init[i];
          }
        }
      }
    }
  }

  /** Every row selected from before position `i` has a smaller id than the row at `i`. */
  lemma SelectedBelow(rows: seq<Incident>, i: nat, pred: Incident -> bool)
    requires IdsIncreasing(rows) && i < |rows|
    ensures forall y :: y in Selected(rows[..i], pred) ==> y.incId < rows[i].incId
  {
    SelectedMembers(rows[..i], pred);
    forall y | y in Selected(rows[..i], pred)
      ensures y.incId < rows[i].incId
    {
      var m :| 0 <= m < i && rows[..i][m] == y;
    }
  }

  /** One step of evaluating a filter under the default ordering: inserting
      the next selected row keeps the listing sorted and equal, as a multiset,
      to the rows selected so far. */
  lemma FilterStep(rows: seq<Incident>, i: nat, pred: Incident -> bool, listing: seq<Incident>)
    requires IdsIncreasing(rows) && i < |rows|
    requires SortedByDefaultOrder(listing)
    requires multiset(listing) == multiset(Selected(rows[..i], pred))
    ensures pred(rows[i]) ==> forall y :: y in listing ==> y.incId != rows[i].incId
    ensures var next := if pred(rows[i]) then InsertListed(listing, rows[i]) else listing;
            SortedByDefaultOrder(next) && multiset(next) == multiset(Selected(rows[..i + 1], pred))
  {
    var r := rows[i];
    var before := Selected(rows[..i], pred);
    SelectedStep(rows, i, pred);
    SelectedBelow(rows, i, pred);
    assert forall y :: y in listing ==> y in multiset(before);
    if pred(r) {
      assert multiset(before + [r]) == multiset(before) + multiset{r};
    }
  }

  /** Places `x` in a listing sorted by the default ordering: before the
      first row it is listed before. */
  function InsertListed(s: seq<Incident>, x: Incident): (r: seq<Incident>)
    requires SortedByDefaultOrder(s)
    requires forall y :: y in s ==> y.incId != x.incId
    ensures SortedByDefaultOrder(r)
    ensures multiset(r) == multiset(s) + multiset{x}
  {
    if s == [] || ListedBefore(x, s[0]) then [x] + s
    else
      var rest := InsertListed(s[1..], x);
      HeadListedBeforeInsert(s, x, rest);
      assert s == [s[0]] + s[1..];
      [s[0]] + rest
  }

  lemma HeadListedBeforeInsert(s: seq<Incident>, x: Incident, rest: seq<Incident>)
    requires |s| > 0 && SortedByDefaultOrder(s)
    requires s[0].incId != x.incId && !ListedBefore(x, s[0])
    requires multiset(rest) == multiset(s[1..]) + multiset{x}
    ensures forall k :: 0 <= k < |rest| ==> ListedBefore(s[0], rest[k])
  {
    forall k | 0 <= k < |rest|
      ensures ListedBefore(s[0], rest[k])
    {
      var y := rest[k];
      assert y in multiset(rest);
      if y != x {
        assert y in multiset(s[1..]);
        var m :| 0 <= m < |s[1..]| && s[1..][m] == y;
        assert s[m + 1] == y;
      }
    }
  }

  // ---------------------------------------------------------------------------
  // Writes of named columns
  // ---------------------------------------------------------------------------

  /** `save(update_fields=fields)` of instance `inst` over the stored row. */
  function Merge(stored: Incident, inst: Incident, fields: set<Field>): (r: Incident)
    ensures r.incId == stored.incId
  {
    Incident(
      stored.incId,
      if DateField in fields then inst.date else stored.date,
      if TypeField in fields then inst.incidentType else stored.incidentType,
      if DescriptionField in fields then inst.description else stored.description,
      if StatusField in fields then inst.status else stored.status,
      if ResponsibleField in fields then inst.responsible else stored.responsible,
      if ActiveField in fields then inst.isActive else stored.isActive,
      if CreatedAtField in fields then inst.createdAt else stored.createdAt,
      if UpdatedAtField in fields then inst.updatedAt else stored.updatedAt)
  }

  /** A save writes exactly the named columns from the instance; every other
      column keeps its stored value. */
  lemma MergeColumns(stored: Incident, inst: Incident, fields: set<Field>, f: Field)
    ensures Column(Merge(stored, inst, fields), f) == if f in fields then Column(inst, f) else Column(stored, f)
  {
  }

  /** `auto_now`: saving `updated_at` stamps the instance with the clock first. */
  function Stamped(inst: Incident, fields: set<Field>, now: Time): (r: Incident)
    ensures r.updatedAt == if UpdatedAtField in fields then now else inst.updatedAt
    ensures forall f :: f != UpdatedAtField ==> Column(r, f) == Column(inst, f)
  {
    if UpdatedAtField in fields then inst.(updatedAt := now) else inst
  }

  /** One keyword argument of `QuerySet.update`. */
  datatype Assignment =
    | SetDate(date: Time)
    | SetType(incidentType: IncidentType)
    | SetDescription(description: string)
    | SetStatus(status: IncidentStatus)
    | SetResponsible(responsible: string)
    | SetActive(isActive: bool)
    | SetCreatedAt(createdAt: Time)
    | SetUpdatedAt(updatedAt: Time)

  function Target(a: Assignment): Field {
    match a
    case SetDate(_) => DateField
    case SetType(_) => TypeField
    case SetDescription(_) => DescriptionField
    case SetStatus(_) => StatusField
    case SetResponsible(_) => ResponsibleField
    case SetActive(_) => ActiveField
    case SetCreatedAt(_) => CreatedAtField
    case SetUpdatedAt(_) => UpdatedAtField
  }

  function AssignedValue(a: Assignment): Value {
    match a
    case SetDate(t) => TimeValue(t)
    case SetType(t) => TypeChoice(t)
    case SetDescription(d) => Text(d)
    case SetStatus(s) => StatusChoice(s)
    case SetResponsible(p) => Text(p)
    case SetActive(b) => Flag(b)
    case SetCreatedAt(t) => TimeValue(t)
    case SetUpdatedAt(t) => TimeValue(t)
  }

  predicate ChangesWellFormed(changes: seq<Assignment>) {
    forall a :: a in changes && a.SetResponsible? ==> |a.responsible| <= MaxResponsibleLength
  }

  predicate Targets(changes: seq<Assignment>, f: Field) {
    exists a :: a in changes && Target(a) == f
  }

  /** The arguments of one `update(**kwargs)` come from a dict: no column is
      named twice. */
  predicate DistinctTargets(changes: seq<Assignment>) {
    forall i, j :: 0 <= i < j < |changes| ==> Target(changes[i]) != Target(changes[j])
  }

  /** One assignment writes its column and no other. */
  function Apply(r: Incident, a: Assignment): (r': Incident)
    ensures r'.incId == r.incId
    ensures Column(r', Target(a)) == AssignedValue(a)
    ensures forall f :: f != Target(a) ==> Column(r', f) == Column(r, f)
  {
    match a
    case SetDate(t) => r.(date := t)
    case SetType(t) => r.(incidentType := t)
    case SetDescription(d) => r.(description := d)
    case SetStatus(s) => r.(status := s)
    case SetResponsible(p) => r.(responsible := p)
    case SetActive(b) => r.(isActive := b)
    case SetCreatedAt(t) => r.(createdAt := t)
    case SetUpdatedAt(t) => r.(updatedAt := t)
  }

  /** All keyword arguments of one `QuerySet.update`: columns no argument names
      keep their values (no `auto_now` stamping on this path). */
  function ApplyAll(r: Incident, changes: seq<Assignment>): (r': Incident)
    ensures r'.incId == r.incId
    ensures forall f :: !Targets(changes, f) ==> Column(r', f) == Column(r, f)
    ensures WellFormed(r) && ChangesWellFormed(changes) ==> WellFormed(r')
    decreases |changes|
  {
    if changes == [] then r
    else
      assert forall a :: a in changes[1..] ==> a in changes;
      ApplyAll(Apply(r, changes[0]), changes[1..])
  }

  /** When no column is named twice, every column an argument names ends up
      holding that argument's value. */
  lemma {:induction false} ApplyAllWrites(r: Incident, changes: seq<Assignment>)
    requires DistinctTargets(changes)
    ensures forall a :: a in changes ==> Column(ApplyAll(r, changes), Target(a)) == AssignedValue(a)
    decreases |changes|
  {
    if changes != [] {
      var first := changes[0];
      var rest := changes[1..];
      assert DistinctTargets(rest) by {
        forall i, j | 0 <= i < j < |rest|
          ensures Target(rest[i]) != Target(rest[j])
        {
          assert rest[i] == changes[i + 1] && rest[j] == changes[j + 1];
        }
      }
      ApplyAllWrites(Apply(r, first), rest);
      assert !Targets(rest, Target(first)) by {
        forall b | b in rest
          ensures Target(b) != Target(first)
        {
          var m :| 0 <= m < |rest| && rest[m] == b;
          assert changes[m + 1] == b;
        }
      }
      assert changes == [first] + rest;
    }
  }

  /** The table after `QuerySet.update`, before the key constraint is checked. */
  function UpdatedWhere(rows: seq<Incident>, pred: Incident -> bool, changes: seq<Assignment>): (u: seq<Incident>)
    ensures |u| == |rows|
    ensures forall i :: 0 <= i < |rows| ==> u[i] == if pred(rows[i]) then ApplyAll(rows[i], changes) else rows[i]
  {
    if rows == [] then []
    else
      var last := rows[|rows| - 1];
      UpdatedWhere(rows[..|rows| - 1], pred, changes) + [if pred(last) then ApplyAll(last, changes) else last]
  }

  /** A bulk update leaves `created_at` and `updated_at` of every row as they
      were unless an argument names them. */
  lemma UpdateLeavesTimestamps(rows: seq<Incident>, pred: Incident -> bool, changes: seq<Assignment>, i: nat)
    requires i < |rows|
    ensures !Targets(changes, UpdatedAtField) ==> UpdatedWhere(rows, pred, changes)[i].updatedAt == rows[i].updatedAt
    ensures !Targets(changes, CreatedAtField) ==> UpdatedWhere(rows, pred, changes)[i].createdAt == rows[i].createdAt
  {
  }

  /** Extending the scanned prefix by one row extends the selection by that row
      when it is selected. */
  lemma SelectedStep(rows: seq<Incident>, i: nat, pred: Incident -> bool)
    requires i < |rows|
    ensures Selected(rows[..i + 1], pred) == Selected(rows[..i], pred) + if pred(rows[i]) then [rows[i]] else []
  {
    assert rows[..i + 1][..i] == rows[..i];
  }

  lemma KeptStep(rows: seq<Incident>, i: nat, pred: Incident -> bool)
    requires i < |rows|
    ensures Kept(rows[..i + 1], pred) == Kept(rows[..i], pred) + if pred(rows[i]) then [] else [rows[i]]
  {
    assert rows[..i + 1][..i] == rows[..i];
  }

  lemma UpdatedStep(rows: seq<Incident>, i: nat, pred: Incident -> bool, changes: seq<Assignment>)
    requires i < |rows|
    ensures UpdatedWhere(rows[..i + 1], pred, changes)
            == UpdatedWhere(rows[..i], pred, changes) + [if pred(rows[i]) then ApplyAll(rows[i], changes) else rows[i]]
  {
  }

  /** A bulk update whose result keeps the business keys unique keeps the
      table invariant. */
  lemma UpdatedPreservesTable(rows: seq<Incident>, pred: Incident -> bool, changes: seq<Assignment>, nextId: nat)
    requires TableInvariant(rows, nextId)
    requires ChangesWellFormed(changes)
    requires KeysUnique(UpdatedWhere(rows, pred, changes))
    ensures TableInvariant(UpdatedWhere(rows, pred, changes), nextId)
  {
  }

  // ---------------------------------------------------------------------------
  // Query evaluation: one pass over the rows
  // ---------------------------------------------------------------------------

  /** Evaluates a filter under the default ordering. */
  method ListSelected(rows: seq<Incident>, pred: Incident -> bool) returns (listing: seq<Incident>)
    requires IdsIncreasing(rows)
    ensures SortedByDefaultOrder(listing)
    ensures multiset(listing) == multiset(Selected(rows, pred))
  {
    listing := [];
    var i := 0;
    while i < |rows|
      invariant 0 <= i <= |rows|
      invariant SortedByDefaultOrder(listing)
      invariant multiset(listing) == multiset(Selected(rows[..i], pred))
    {
      var r := rows[i];
      FilterStep(rows, i, pred, listing);
      if pred(r) {
        listing := InsertListed(listing, r);
      }
      i := i + 1;
    }
    assert rows[..i] == rows;
  }

  /** Computes the rows after a bulk update and how many rows it selects. */
  method ScanUpdate(rows: seq<Incident>, pred: Incident -> bool, changes: seq<Assignment>)
    returns (updated: seq<Incident>, count: nat)
    ensures updated == UpdatedWhere(rows, pred, changes)
    ensures count == |Selected(rows, pred)|
  {
    updated := [];
    count := 0;
    var i := 0;
    while i < |rows|
      invariant 0 <= i <= |rows|
      invariant updated == UpdatedWhere(rows[..i], pred, changes)
      invariant count == |Selected(rows[..i], pred)|
    {
      var r := rows[i];
      SelectedStep(rows, i, pred);
      UpdatedStep(rows, i, pred, changes);
      if pred(r) {
        updated := updated + [ApplyAll(r, changes)];
        count := count + 1;
      } else {
        updated := updated + [r];
      }
      i := i + 1;
    }
    assert rows[..i] == rows;
  }

  /** Computes the rows a delete keeps and how many it removes. */
  method ScanDelete(rows: seq<Incident>, pred: Incident -> bool) returns (kept: seq<Incident>, count: nat)
    ensures kept == Kept(rows, pred)
    ensures count == |Selected(rows, pred)|
  {
    kept := [];
    count := 0;
    var i := 0;
    while i < |rows|
      invariant 0 <= i <= |rows|
      invariant kept == Kept(rows[..i], pred)
      invariant count == |Selected(rows[..i], pred)|
    {
      var r := rows[i];
      SelectedStep(rows, i, pred);
      KeptStep(rows, i, pred);
      if pred(r) {
        count := count + 1;
      } else {
        kept := kept + [r];
      }
      i := i + 1;
    }
    assert rows[..i] == rows;
  }

  // ---------------------------------------------------------------------------
  // The table
  // ---------------------------------------------------------------------------

  class Store {
    var rows: seq<Incident>
    var nextId: nat

    ghost predicate Valid()
      reads this
    {
      TableInvariant(rows, nextId)
    }

    /** An empty table whose first id will be 1. */
    constructor ()
      ensures Valid() && rows == [] && nextId == 1
    {
      rows := [];
      nextId := 1;
    }

    /** Position of the row with primary key `id` (the primary-key index). */
    method FindIndex(id: nat) returns (k: nat)
      ensures k == IdIndex(rows, id)
      ensures k < |rows| <==> HasId(rows, id)
    {
      k := 0;
      while k < |rows| && rows[k].incId != id
        invariant k <= |rows|
        invariant forall j :: 0 <= j < k ==> rows[j].incId != id
      {
        k := k + 1;
      }
    }

    /** The unique-constraint check: whether a row already holds `key`,
        leaving out the row at position `skip` when one is given (the row a
        save rewrites). */
    method KeyTaken(key: BusinessKey, skip: Option<nat>) returns (taken: bool)
      ensures skip.None? ==> (taken <==> KeyInUse(rows, key))
      ensures skip.Some? ==> (taken <==> KeyInUseElsewhere(rows, key, skip.value))
    {
      taken := false;
      var j: nat := 0;
      while j < |rows| && !taken
        invariant j <= |rows|
        invariant taken <==> exists m: nat :: m < j && skip != Some(m) && KeyOf(rows[m]) == key
      {
        taken := skip != Some(j) && KeyOf(rows[j]) == key;
        j := j + 1;
      }
    }

    /** `Incident.objects.create(...)`: omitted fields take their defaults, the
        row gets the next id and the clock in both timestamps; a clash on the
        business key is an `IntegrityError` and changes nothing. */
    method Create(date: Option<Time>, incidentType: Option<IncidentType>, description: string,
                  status: Option<IncidentStatus>, responsible: string, isActive: Option<bool>,
                  now: Time) returns (res: Result<Incident>)
      requires Valid()
      requires |responsible| <= MaxResponsibleLength
      modifies this
      ensures Valid()
      ensures var row := NewRow(old(nextId), date, incidentType, description, status, responsible, isActive, now);
              if KeyInUse(old(rows), KeyOf(row)) then
                res == Err(IntegrityError) && rows == old(rows) && nextId == old(nextId)
              else
                res == Ok(row) && rows == old(rows) + [row] && nextId == old(nextId) + 1
      ensures res.Ok? ==> !HasId(old(rows), res.value.incId)
    {
      var row := NewRow(nextId, date, incidentType, description, status, responsible, isActive, now);
      var taken := KeyTaken(KeyOf(row), None);
      if taken {
        res := Err(IntegrityError);
      } else {
        rows := rows + [row];
        nextId := nextId + 1;
        res := Ok(row);
      }
    }

    /** `Incident.objects.get(inc_id=id)`. */
    method Get(id: nat) returns (res: Result<Incident>)
      ensures HasId(rows, id) ==> res == Ok(rows[IdIndex(rows, id)])
      ensures !HasId(rows, id) ==> res == Err(DoesNotExist)
    {
      var k := FindIndex(id);
      if k < |rows| {
        res := Ok(rows[k]);
      } else {
        res := Err(DoesNotExist);
      }
    }

    /** `Incident.objects.filter(pred)` under the default ordering: the selected
        rows, each once, sorted by date and then id, both descending. */
    method Filter(pred: Incident -> bool) returns (listing: seq<Incident>)
      requires Valid()
      ensures SortedByDefaultOrder(listing)
      ensures multiset(listing) == multiset(Selected(rows, pred))
    {
      listing := ListSelected(rows, pred);
    }

    /** `inst.save(update_fields=fields)`: writes the named columns of `inst`
        into the row with its id, stamping `updated_at` when it is named. An
        empty list writes nothing; a missing row is an error; a clash on the
        business key is an `IntegrityError` and changes nothing. */
    method Save(inst: Incident, fields: set<Field>, now: Time) returns (res: Result<Incident>)
      requires Valid()
      requires ResponsibleField in fields ==> |inst.responsible| <= MaxResponsibleLength
      modifies this
      ensures Valid() && nextId == old(nextId)
      ensures var k := IdIndex(old(rows), inst.incId);
              var saved := Stamped(inst, fields, now);
              if fields == {} then
                res == Ok(inst) && rows == old(rows)
              else if k == |old(rows)| then
                res == Err(NoRowsAffected) && rows == old(rows)
              else if KeyInUseElsewhere(old(rows), KeyOf(Merge(old(rows)[k], saved, fields)), k) then
                res == Err(IntegrityError) && rows == old(rows)
              else
                res == Ok(saved) && rows == old(rows)[k := Merge(old(rows)[k], saved, fields)]
    {
      if fields == {} {
        res := Ok(inst);
        return;
      }
      var k := FindIndex(inst.incId);
      if k == |rows| {
        res := Err(NoRowsAffected);
        return;
      }
      var saved := Stamped(inst, fields, now);
      var row := Merge(rows[k], saved, fields);
      var clash := KeyTaken(KeyOf(row), Some(k));
      if clash {
        res := Err(IntegrityError);
        return;
      }
      rows := rows[k := row];
      res := Ok(saved);
    }

    /** `Incident.objects.filter(pred).update(**changes)`: every selected row
        gets the assignments, no column is stamped, and the number of selected
        rows is returned; a resulting clash on the business key is an
        `IntegrityError` and changes nothing. With no arguments there is no
        statement to run: nothing changes and the count is 0. */
    method Update(pred: Incident -> bool, changes: seq<Assignment>) returns (res: Result<nat>)
      requires Valid()
      requires ChangesWellFormed(changes) && DistinctTargets(changes)
      modifies this
      ensures Valid() && nextId == old(nextId)
      ensures var updated := UpdatedWhere(old(rows), pred, changes);
              if changes == [] then
                res == Ok(0) && rows == old(rows)
              else if KeysUnique(updated) then
                res == Ok(|Selected(old(rows), pred)|) && rows == updated
              else
                res == Err(IntegrityError) && rows == old(rows)
    {
      if changes == [] {
        res := Ok(0);
        return;
      }
      var updated, count := ScanUpdate(rows, pred, changes);
      if KeysUnique(updated) {
        UpdatedPreservesTable(rows, pred, changes, nextId);
        rows := updated;
        res := Ok(count);
      } else {
        res := Err(IntegrityError);
      }
    }

    /** `Incident.objects.filter(pred).delete()`: removes the selected rows and
        returns how many there were (zero is not an error). */
    method Delete(pred: Incident -> bool) returns (count: nat)
      requires Valid()
      modifies this
      ensures Valid() && nextId == old(nextId)
      ensures rows == Kept(old(rows), pred)
      ensures count == |Selected(old(rows), pred)|
    {
      var kept;
      kept, count := ScanDelete(rows, pred);
      KeptPreservesTable(rows, pred, nextId);
      rows := kept;
    }
  }
}
