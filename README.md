# Incidents: a verified model of the `Incident` table and its CRUD walkthrough

This project models the `incidents` Django application in Dafny. The
application registers operational incidents: a failure, a security
problem, an operations problem or something else. Each incident has a
date, a description, a status (open, in progress, resolved, closed), a
responsible person and a soft-delete flag. The model covers three parts:

- `incidents.dfy` (module `Incidents`) holds the declarative part of the
  `Incident` model:
  - the two closed choice enumerations and the text stored for each choice;
  - the row type and the declared defaults;
  - the `max_length` bound on `responsible`;
  - the composite business key behind `uq_incident_date_type_responsible`;
  - the default ordering `["-date", "-inc_id"]`;
  - the string form `__str__`, together with a parser that reads it back.
- `store.dfy` (module `IncidentStore`) is the `incidents` table as a class
  `Store`. It holds the rows in insertion order and the auto-increment
  counter for `inc_id`. It offers the ORM operations the walkthrough uses:
  - `objects.create`;
  - `objects.get(inc_id=...)`;
  - `filter(...)` under the default ordering;
  - instance `save(update_fields=...)` with `auto_now` stamping;
  - `QuerySet.update`, which stamps nothing;
  - `QuerySet.delete`.

  Every operation keeps the table invariant:
  - ids are issued from 1 upwards and never repeat;
  - rows respect the length bound;
  - no two rows share a business key.

  A clash on the key is an `IntegrityError` that leaves the table as it was.
- `crud_demo.dfy` (module `CrudDemo`) models `Command.handle` of the
  `incidents_crud_demo` management command. It runs the fixed walkthrough on
  a `Store`: create, get, filter open incidents, save the status change, bulk
  deactivate and reload, delete. The values the console would show are
  returned in a `Report`. `Handle` proves two things. If the create clashes
  with an existing row, the walkthrough stops with an `IntegrityError` and
  changes nothing. Otherwise it shows exactly what `Expected` describes and
  leaves the table as it found it, with one id used up.

Clock readings (`timezone.now()`) are integer parameters. The walkthrough
receives one reading for the create (`now`) and one for the save (`later`).

`QuerySet.update` does not run `auto_now`, so a bulk update leaves
`updated_at` as it was. Only an instance save that names `updated_at` stamps
it (`UpdateLeavesTimestamps`, `Store.Save`).

## Model

| member | source | states |
|---|---|---|
| Incidents.TypeValue | incidents/models.py:15-19 | the stored text of every incident type is non-empty, fits `max_length=20` and contains no space |
| Incidents.StatusValue | incidents/models.py:21-25 | the stored text of every status is non-empty, fits `max_length=20` and contains no space |
| Incidents.TypeFromValue | incidents/models.py:37-43 | a column text is accepted as an incident type exactly when it is the stored text of some choice, and then it names that choice |
| Incidents.StatusFromValue | incidents/models.py:49-55 | a column text is accepted as a status exactly when it is the stored text of some choice, and then it names that choice |
| Incidents.ListedBefore | incidents/models.py:81 | `Meta.ordering`: a row is listed first when its date is later, or the dates are equal and its id is larger |
| Incidents.SortedByDefaultOrder | incidents/models.py:81 | a listing follows `Meta.ordering` when each row is listed before every row after it |
| Incidents.CreateDefaults | incidents/models.py:28-77 | a create that names only description and responsible gets type OTRO, status ABIERTO, `is_active` true, and the clock as date, `created_at` and `updated_at` |
| Incidents.NewRow | incidents/models.py:28-77 | a created row gets the issued id, the clock in both `created_at` and `updated_at`, and every field the caller supplies; each omitted field takes its own default: the clock for date, OTRO, ABIERTO and `is_active` true |
| Incidents.ListedBeforeIsStrictTotal | incidents/models.py:81 | the ordering by date then id, both descending, is irreflexive, asymmetric and transitive, and total on rows with distinct ids |
| Incidents.SortedListingUnique | incidents/models.py:81 | two listings of the same rows that both follow the default ordering are the same sequence, so the ordering fixes the listing |
| Incidents.Decimal | incidents/models.py:93 | the rendering of `inc_id` is a non-empty string of decimal digits |
| Incidents.DecimalRoundTrip | incidents/models.py:93 | reading the digits of the rendered `inc_id` gives back the id |
| Incidents.Str | incidents/models.py:92-93 | the string form starts with `#`, the decimal id and a space, and ends with the responsible in parentheses |
| Incidents.StrRoundTrip | incidents/models.py:92-93 | id, type, status and responsible can all be read back from `__str__`'s output |
| IncidentStore.IdIndex | incidents/models.py:28 | the primary-key position is the first row with that id, or the table length when there is none |
| IncidentStore.KeysUnique | incidents/models.py:85-90 | `uq_incident_date_type_responsible`: no two rows share date, type and responsible |
| IncidentStore.TableInvariant | incidents/models.py:28-90 | every table state: ids issued from 1 below the counter and increasing, `responsible` within 120 characters, business keys unique |
| IncidentStore.SelectedMembers | incidents/management/commands/incidents_crud_demo.py:34 | a filter selects exactly the rows that satisfy its lookup, and never more rows than the table has |
| IncidentStore.KeptComplement | incidents/management/commands/incidents_crud_demo.py:57 | a delete keeps exactly the rows its lookup does not select; kept plus deleted rows equal the table's size |
| IncidentStore.AppendPreservesTable | incidents/models.py:85-90 | appending a row with a larger id and an unused business key keeps ids increasing and keys unique |
| IncidentStore.KeptPreservesTable | incidents/management/commands/incidents_crud_demo.py:57 | a delete keeps the table invariant, including key uniqueness |
| IncidentStore.KeptNoneSelected | incidents/management/commands/incidents_crud_demo.py:57 | a delete whose lookup matches no row selects nothing and leaves the table unchanged |
| IncidentStore.DeleteByIdCount | incidents/management/commands/incidents_crud_demo.py:57 | a delete by `inc_id` removes one row when the id is present and none otherwise |
| IncidentStore.FilterStep | incidents/management/commands/incidents_crud_demo.py:34 | inserting each newly selected row keeps the listing sorted and equal, as a multiset, to the rows selected so far |
| IncidentStore.InsertListed | incidents/models.py:81 | inserting a row with a fresh id into a sorted listing keeps it sorted and adds exactly that row |
| IncidentStore.Merge | incidents/management/commands/incidents_crud_demo.py:44 | a save never changes the primary key of the stored row |
| IncidentStore.MergeColumns | incidents/management/commands/incidents_crud_demo.py:44 | a save writes each column named in `update_fields` from the instance and keeps every other column as stored |
| IncidentStore.Stamped | incidents/models.py:74-77 | `auto_now`: a save naming `updated_at` sets it to the clock, otherwise it keeps the instance's; no other column changes |
| IncidentStore.Apply | incidents/management/commands/incidents_crud_demo.py:49 | one keyword argument of `update` writes its own column with its value and no other column |
| IncidentStore.ApplyAll | incidents/management/commands/incidents_crud_demo.py:49 | a bulk update keeps the primary key and every column no argument names, and keeps the length bound |
| IncidentStore.ApplyAllWrites | incidents/management/commands/incidents_crud_demo.py:49 | when no column is named twice, as with keyword arguments, every named column ends up holding its argument's value |
| IncidentStore.UpdatedWhere | incidents/management/commands/incidents_crud_demo.py:49 | a bulk update keeps the table size; selected rows get the arguments and other rows stay as they were |
| IncidentStore.UpdateLeavesTimestamps | incidents/models.py:69-77 | a bulk update stamps neither `created_at` nor `updated_at` unless an argument names it |
| IncidentStore.UpdatedPreservesTable | incidents/management/commands/incidents_crud_demo.py:49 | a bulk update whose result has unique keys keeps the table invariant |
| IncidentStore.ListSelected | incidents/management/commands/incidents_crud_demo.py:34 | the loop evaluating a filter yields the selected rows, each once, in the default order |
| IncidentStore.ScanUpdate | incidents/management/commands/incidents_crud_demo.py:49 | the loop of a bulk update yields the updated table and the number of rows selected |
| IncidentStore.ScanDelete | incidents/management/commands/incidents_crud_demo.py:57 | the loop of a delete yields the kept rows and the number of rows removed |
| IncidentStore.Store.constructor | incidents/models.py:28 | an empty table whose first `inc_id` will be 1 |
| IncidentStore.Store.FindIndex | incidents/management/commands/incidents_crud_demo.py:30 | the primary-key scan finds the row with the id exactly when one exists |
| IncidentStore.Store.KeyTaken | incidents/models.py:85-90 | the unique-constraint check answers whether some row already holds the business key, leaving out the row a save rewrites when one is given |
| IncidentStore.Store.Create | incidents/management/commands/incidents_crud_demo.py:17-23 | a create appends the defaulted row under the next id and advances the counter; on a key clash it fails with `IntegrityError` and changes nothing |
| IncidentStore.Store.Get | incidents/management/commands/incidents_crud_demo.py:30 | a get returns the row with the id, or `DoesNotExist` when there is none |
| IncidentStore.Store.Filter | incidents/management/commands/incidents_crud_demo.py:34 | a filter returns the selected rows, each once, sorted by date and then id, both descending |
| IncidentStore.Store.Save | incidents/management/commands/incidents_crud_demo.py:43-44 | the save overwrites only the named columns of the row with the instance's id and stamps `updated_at` when it is named. An empty list writes nothing. A missing row or a key clash is an error that changes nothing |
| IncidentStore.Store.Update | incidents/management/commands/incidents_crud_demo.py:49 | a bulk update applies the arguments to every selected row and returns the count; a key clash is `IntegrityError` and changes nothing; with no arguments it changes nothing and returns 0 |
| IncidentStore.Store.Delete | incidents/management/commands/incidents_crud_demo.py:57 | a delete removes exactly the selected rows and returns how many there were |
| CrudDemo.NewestRowIsLast | incidents/management/commands/incidents_crud_demo.py:30 | the row just created is found by its id at the end of the table |
| CrudDemo.OlderRowsNotSelected | incidents/management/commands/incidents_crud_demo.py:49 | a lookup by the newest id matches no older row |
| CrudDemo.UpdateByNewestId | incidents/management/commands/incidents_crud_demo.py:49 | a bulk update by the newest id changes that row only |
| CrudDemo.DeleteByNewestId | incidents/management/commands/incidents_crud_demo.py:57 | a delete by the newest id removes that row only and counts one |
| CrudDemo.Expected | incidents/management/commands/incidents_crud_demo.py:17-57 | what the walkthrough shows: the created row read back unchanged; the open incidents, the new one among them, in the default order, five listed; the saved status stamped with the save's clock; the deactivation with that stamp kept; one row deleted |
| CrudDemo.ReadSection | incidents/management/commands/incidents_crud_demo.py:29-37 | `get` returns the created row unchanged, and the open incidents, the new one among them, come in the default order |
| CrudDemo.SaveStatus | incidents/management/commands/incidents_crud_demo.py:42-45 | the saved instance has status EN_PROCESO and `updated_at` stamped with the save's clock, and the table holds it |
| CrudDemo.DeactivateAndReload | incidents/management/commands/incidents_crud_demo.py:48-51 | after the bulk update and `refresh_from_db` the instance is the saved one with `is_active` false and the same `updated_at` |
| CrudDemo.Handle | incidents/management/commands/incidents_crud_demo.py:10-60 | the walkthrough fails exactly when the demo's business key is already in use, and then changes nothing; otherwise it shows the created, read, listed, saved, refreshed and deleted values and restores the table, with the counter advanced by one; when the save's clock is not earlier than the create's, the saved `updated_at` is not before `created_at` |

## Left out

- Console output (`self.stdout.write`, styles) is not modelled; `Handle` returns the shown values in a `Report` instead.
- The admin registration in `incidents/admin.py` is not part of this model.
- Database internals are not modelled: SQL, transactions, lazy querysets, connection errors and concurrency.
- The ORM itself is not modelled beyond the behaviour the walkthrough relies on. Out of scope: a full `save()` without `update_fields`, insert-on-save, and `update_or_create`.
- `Store.Filter` sorts by date and then by id, both descending. The demo's `order_by("-date")` replaces the default ordering, so the database may list rows with equal dates in any order. The model fixes that order with the default tie-break, which is one of the orders the database may produce.
- Clock readings are parameters. Django reads the clock separately for `date`, `created_at` and `updated_at` in one create; the model uses one reading per operation.
- Nothing guarantees that `updated_at >= created_at` in general: that needs a monotonic clock, and a save that strictly increases `updated_at` needs a strictly increasing one; the model assumes neither. Where the walkthrough's two readings are in order (`now <= later`), `Handle` proves the saved instance's `updated_at` is not before its `created_at`.
- IncidentStore.Store.Create: the `max_length=120` bound on `responsible` is a precondition. On a longer text PostgreSQL, and MySQL in strict mode, raise `DataError`; MySQL outside strict mode truncates it; SQLite stores it in full, since Django adds no length check to the table. None of these behaviours is modelled, so the bound in `TableInvariant` holds only because of the precondition. The same holds for `Save` and `Update`.
- Choice membership of `incident_type` and `status` is carried by the datatypes `IncidentType` and `IncidentStatus`, so it is in effect a precondition of `Store.Create`, `Store.Save` and `Store.Update`. Django checks `choices` only in `full_clean()`, which none of these operations calls, and adds no database constraint for them, so the real table would store any other text: up to 20 characters where the backend enforces `max_length`, any length on SQLite. The four declared values all fit `max_length=20` (`TypeValue`, `StatusValue`).
- `inc_id` is an unbounded natural number in the model; Django's `AutoField` is a 32-bit integer column, and running out of ids is not modelled.
- The human-readable labels of the choices, `db_table`, `db_index` and `help_text` are not modelled: they do not affect stored values.
- Instances are values, so aliasing between Python objects is not modelled. `refresh_from_db` is a `Get` by the instance's id.
- IncidentStore.Store.Save: on a failed save, the stamped `updated_at` left on the Python instance is not returned.
- IncidentStore.Store.Update: the arguments are a sequence in which no column is named twice (`DistinctTargets`), because keyword arguments form a dict.
- IncidentStore.Store.Create: a failed insert does not use up an id, as with SQLite's AUTOINCREMENT. On a sequence-backed database such as PostgreSQL a failed insert still consumes one; the model does not capture that gap in the ids.
- IncidentStore.Store.Filter: lookups are total predicates on rows. Field lookups other than exact matches are not modelled.
