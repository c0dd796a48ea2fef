# Lab manager dashboard — a Dafny model of its store, queries and redraw

The lab manager keeps its data in one SQLite file:
- workstations on a floor grid;
- technicians, each assigned to at most one workstation with a PC;
- devices (manufacturer, model) and the links saying which technician handles which device;
- published device updates (firmware versions);
- each technician's confirmations of those updates.

A dashboard draws one card per workstation. The card shows the technician and every update of the technician's devices, with a confirm button on each update the technician has not yet confirmed. An updates dialog publishes one version for several models of a manufacturer at once.

The project models three things:
- **The query layer** (`lab_manager/data/queries.py`). Every SELECT helper is a function of the table state. The two writes are methods of a store class:
  - publish an update, idempotent per (device, version);
  - mark a confirmation row as confirmed.
- **The decision logic of `Dashboard.update_dashboard`** (`lab_manager/dashboard.py`):
  - which workstations get a card under the (manufacturer, models, pending-only) filter;
  - which update lines a card lists, and which of them get a confirm button;
  - where cards go in grid and list mode;
  - the placeholder fill of the grid;
  - the "shown / total" technician counter.
- **The batch-publish handler** `UpdatesDialog.add_device_update` (`lab_manager/updates.py`): input validation, then the publish-per-model loop and its answer.

Files (one module each):
- `schema.dfy` (`Schema`): one record type per table. `Db` holds every table as a sequence in table-scan order. `WellFormed` holds the constraints SQLite enforces: increasing AUTOINCREMENT ids, the two UNIQUE columns of `Assignments`, and the primary key of the confirmation table. `Referential` holds the declared foreign keys. SQLite does not enforce these, because the connection never turns enforcement on.
- `ordering.dfy` (`Ordering`): SQLite's BINARY text order, DISTINCT, a stable ORDER BY and LIMIT.
- `queries.dfy` (`Queries`): the SELECT helpers and what they promise.
- `store.dfy` (`Store`): publish and confirm on values, plus the `LabStore` class whose methods perform them in place.
- `updates.dfy` (`Updates`): Python's `str.strip`, the publish loop and the dialog handler.
- `dashboard.dfy` (`Dashboard`): the redraw.

How SQL is rendered:
- Where SQL leaves an order open, the model fixes one order SQLite is allowed to produce:
  - a scan returns rows in id order;
  - `SELECT DISTINCT` without `ORDER BY` keeps first occurrences;
  - `ORDER BY` keeps scan order among ties, where NULL compares below every number, so under `du.id DESC` the row with a null update id comes last;
  - `fetchone` takes the first matching row.
- A negative `LIMIT` means no limit, as in SQLite.
- An optional manufacturer argument is an `Option`. In the pending count, a missing or empty manufacturer means no filter, matching Python's truthiness test.

Where the code cannot run as written, the model follows its evident intent instead:
- **Link-table name.** Every query reads a link table called `Trainings` (`lab_manager/data/queries.py:46,55,83,101`). Neither schema creates a table of that name: both `lab_manager/data/database.py:58` and `db_setup.py` create it as `TechnicianDevices`, so those SELECTs would fail. The model has one technician–device link relation, `Db.links`, and the queries read it.

Everywhere else, where the code departs from what its names and callers suggest, the model follows the code:
- **Confirm does not insert.** `mark_update_as_confirmed` is an UPDATE, not an insert-or-update. Confirmation rows exist only for the pairs the seeding script `db_setup.py` inserts; no runtime path inserts one for an update published afterwards. See Findings.
- **The dashboard's confirm button.** `Dashboard.mark_update` passes one id to the two-id confirm operation (`lab_manager/dashboard.py:267-269`). The model gives the button its update id as target (`Dashboard.EntryOf`) and models the two-id operation itself (`Store.LabStore.MarkUpdateAsConfirmed`).
- **Top-N query.**
  - `get_latest_updates_for_technician` keeps 2 rows per device by default, not 1.
  - A linked device without updates still yields its one row with a null version and id.
  - The dashboard uses the full list (`get_updates_for_technician`), not this query.
- **The feed.** It orders only by `created_at`, so rows with equal stamps come in an unspecified order. The model keeps scan order among them.
- **Device lookup.** When two devices share (manufacturer, model), the device lookup of the publish takes the first one in scan order.

## Model

| member | source | states |
|---|---|---|
| Ordering.TextLessIrreflexive | lab_manager/data/queries.py:5 | no text sorts before itself under the BINARY collation |
| Ordering.TextLessTotal | lab_manager/data/queries.py:5 | any two distinct texts are ordered one way or the other |
| Ordering.TextLessTransitive | lab_manager/data/queries.py:5 | the text order is transitive |
| Ordering.StrictlySortedHasNoDuplicates | lab_manager/data/queries.py:5 | a strictly ascending list repeats no value |
| Ordering.InsertUnique | lab_manager/data/queries.py:5 | inserting into a strictly ascending list keeps it strictly ascending and adds exactly that value |
| Ordering.Distinct | lab_manager/data/queries.py:11-13 | DISTINCT keeps every value of the column exactly once and nothing else |
| Ordering.InsertBy | lab_manager/data/queries.py:89 | one insertion step of ORDER BY adds exactly that row (as a multiset) |
| Ordering.SortBy | lab_manager/data/queries.py:89 | ORDER BY returns a permutation of its input |
| Ordering.InsertByMembers | lab_manager/data/queries.py:89 | after an insertion step the rows are the old ones plus the new one |
| Ordering.InsertBySorted | lab_manager/data/queries.py:89 | an insertion step keeps a sorted list sorted under a total preorder |
| Ordering.SortByIsSorted | lab_manager/data/queries.py:89 | ORDER BY output is sorted by its key |
| Ordering.SortByMembers | lab_manager/data/queries.py:89 | a row is in the ORDER BY output iff it is in the input |
| Ordering.Limit | lab_manager/data/queries.py:118 | LIMIT n returns the first min(n, length) rows; a negative n returns all rows |
| Ordering.LimitSubMultiset | lab_manager/data/queries.py:118 | LIMIT only drops rows: the result is a sub-multiset of its input |
| Schema.FindTechnician | lab_manager/data/queries.py:36 | the joined technician carries the requested id; when none matches, no technician has that id |
| Schema.FindDevice | lab_manager/data/queries.py:47 | the joined device carries the requested id; when none matches, no device has that id |
| Schema.FindPc | lab_manager/data/queries.py:37 | the joined PC carries the requested id; when none matches, no PC has that id |
| Schema.FindDeviceUnique | lab_manager/data/database.py:18-23 | with primary-key ids the device join finds exactly the device carrying that id |
| Schema.FindTechnicianUnique | lab_manager/data/database.py:25-29 | with primary-key ids the technician join finds exactly the technician carrying that id |
| Schema.FindPcUnique | lab_manager/data/database.py:39-45 | with primary-key ids the PC join finds exactly the PC carrying that id |
| Queries.ManufacturersOf | lab_manager/data/queries.py:3-6 | the manufacturer list is strictly ascending and holds exactly the manufacturers of the given devices |
| Queries.Manufacturers | lab_manager/data/queries.py:3-6 | get_manufacturers yields each manufacturer in Devices exactly once, in ascending order |
| Queries.ModelColumn | lab_manager/data/queries.py:10-13 | the model column holds exactly the models of devices passing the manufacturer condition |
| Queries.ModelsByManufacturer | lab_manager/data/queries.py:8-14 | distinct models: all of them for None or "Todas", only that manufacturer's otherwise, empty for an unknown manufacturer |
| Queries.TotalTechnicians | lab_manager/data/queries.py:21-28 | the distinct assigned-technician count is at most the number of assignments and is 0 iff there are none |
| Queries.TechnicianIdsBound | lab_manager/data/queries.py:24 | COUNT(DISTINCT) never exceeds the number of rows counted |
| Queries.TechnicianIdsExact | lab_manager/data/queries.py:24 | with technician ids unique across rows, COUNT(DISTINCT) equals the row count |
| Queries.TotalTechniciansIsAssignmentCount | lab_manager/data/database.py:47-49 | under the UNIQUE technician_id constraint the total is exactly the number of assignments |
| Queries.AssignmentsOf | lab_manager/data/queries.py:35 | the LEFT JOIN's matches are exactly the assignments of that workstation; there are none iff no assignment names it |
| Queries.RowsFor | lab_manager/data/queries.py:34-37 | a workstation yields at least one joined row (a null-extended one when unassigned), and every row carries the workstation's id, name and position |
| Queries.WorkstationRows | lab_manager/data/queries.py:30-39 | the join yields at least as many rows as there are workstations |
| Queries.WorkstationsWithAssignments | lab_manager/data/queries.py:30-39 | get_workstations_with_assignments yields at least as many rows as there are workstations |
| Queries.WorkstationRowsSource | lab_manager/data/queries.py:30-39 | every joined row comes from the LEFT JOIN of one listed workstation |
| Queries.RowsComeFromWorkstations | lab_manager/data/queries.py:30-39 | every joined row repeats the id, name and position of one of the workstations |
| Queries.AssignmentsOfAtMostOne | lab_manager/data/database.py:48 | with workstation_id UNIQUE a workstation has at most one assignment |
| Queries.RowsForLength | lab_manager/data/database.py:48 | with workstation_id UNIQUE a workstation yields exactly one joined row |
| Queries.RowsForSingle | lab_manager/data/queries.py:30-39 | that one row carries the workstation's columns; its technician id is null iff the workstation has no assignment, and then the name and PC serial are null too; otherwise it holds the assigned technician's id and name and the assigned PC's serial |
| Queries.WorkstationRowsAligned | lab_manager/data/queries.py:30-39 | with workstation_id UNIQUE row i of the join describes workstation i |
| Queries.OneRowPerWorkstation | lab_manager/data/queries.py:30-39 | under the schema's keys get_workstations_with_assignments yields exactly one row per workstation, in workstation order, technician id null iff unassigned, with the assigned technician's name and PC serial |
| Queries.LinkedDevicesOf | lab_manager/data/queries.py:46-48 | every returned device is linked to the technician |
| Queries.LinkedDevicesOfComplete | lab_manager/data/queries.py:46-48 | every device linked to the technician is returned |
| Queries.LinkedDevicesOfLength | lab_manager/data/queries.py:46-48 | the inner join yields exactly one device row per link of the technician whose device exists |
| Queries.LinkedDevices | lab_manager/data/queries.py:41-50 | every device listed for a technician exists and is named by one of the technician's links |
| Queries.LinkedDevicesComplete | lab_manager/data/queries.py:41-50 | every device a link of the technician names is among its linked devices |
| Queries.TechnicianDevices | lab_manager/data/queries.py:41-50 | as many (manufacturer, model) pairs as linked device rows, each taken from a device the technician is linked to |
| Queries.TechnicianDevicesOnePerLink | lab_manager/data/queries.py:41-50 | get_technician_devices yields exactly one pair per link of the technician whose device exists |
| Queries.TechnicianDevicesComplete | lab_manager/data/queries.py:41-50 | every linked device's (manufacturer, model) pair is listed |
| Queries.UpdatesOf | lab_manager/data/queries.py:85 | the LEFT JOIN's matches are exactly that device's updates; none iff the device has no update |
| Queries.ConfirmedValue | lab_manager/data/queries.py:82 | COALESCE gives 0 when no confirmation row exists, and any nonzero value comes from the stored row |
| Queries.ConfirmedValueOfRow | lab_manager/data/queries.py:82 | with the confirmation primary key the stored value of the row is what is reported |
| Queries.DeviceRows | lab_manager/data/queries.py:84-87 | every row of a device is either its null row (no updates) or one of its updates with its confirmation value |
| Queries.JoinRowsOf | lab_manager/data/queries.py:83-88 | every joined row belongs to one of the given devices |
| Queries.JoinRowsOfBlock | lab_manager/data/queries.py:83-88 | the join lists device k's rows as one contiguous block, after the rows of the devices before it |
| Queries.JoinRows | lab_manager/data/queries.py:83-88 | every joined row belongs to a device linked to the technician |
| Queries.JoinRowsOfComplete | lab_manager/data/queries.py:83-88 | every row of a listed device is in the join |
| Queries.DeviceRowsComplete | lab_manager/data/queries.py:85 | every update of the device yields a row |
| Queries.JoinRowsComplete | lab_manager/data/queries.py:83-88 | a linked device without updates yields its null row; each update of a linked device yields its row |
| Queries.NewestFirstIsTotalPreorder | lab_manager/data/queries.py:89 | ORDER BY du.id DESC (NULL last) is a total preorder |
| Queries.UpdatesForTechnician | lab_manager/data/queries.py:78-91 | get_updates_for_technician is a permutation of the join, sorted by non-increasing update id |
| Queries.JoinRowsListed | lab_manager/data/queries.py:78-91 | every joined row appears in the list |
| Queries.DeviceWithoutUpdatesListed | lab_manager/data/queries.py:78-91 | a linked device with no updates is still listed, with null version, null id and confirmed 0 |
| Queries.UpdateListed | lab_manager/data/queries.py:78-91 | each update of a linked device is listed with the stored confirmed value, or 0 when no row exists |
| Queries.CountPending | lab_manager/data/queries.py:60-72 | the pending count is at most the number of joined rows, and is 0 iff no joined row is unconfirmed and passes the filters |
| Queries.CountPendingIsSize | lab_manager/data/queries.py:60-72 | the count is exactly the number of rows that are unconfirmed and pass the filters |
| Queries.PendingUpdatesCount | lab_manager/data/queries.py:52-76 | get_pending_updates_count never exceeds the number of (link, update) pairs |
| Queries.PendingUpdatesCountZero | lab_manager/data/queries.py:52-76 | get_pending_updates_count is 0 iff none of the technician's joined rows is unconfirmed and passes the filters |
| Queries.PendingUpdatesCountIsSize | lab_manager/data/queries.py:52-76 | get_pending_updates_count is exactly the number of the technician's joined rows that are unconfirmed and pass the filters |
| Queries.CountPendingMonotone | lab_manager/data/queries.py:64-72 | adding the manufacturer or the model condition never increases the count |
| Queries.FiltersNeverIncreasePending | lab_manager/data/queries.py:52-76 | the pending count with a filter is at most the count without it, for each of the two filters |
| Queries.CountPendingPositive | lab_manager/data/queries.py:60-72 | a pending row that passes the filters makes the count at least 1 |
| Queries.UnconfirmedByDefault | lab_manager/data/queries.py:52-76 | an update of a linked device with no confirmation row counts as pending under any filter it passes |
| Queries.CountDevice | lab_manager/data/queries.py:100 | a device's row count is at most the list length |
| Queries.KeptInPrefix | lab_manager/data/queries.py:100 | whether a row's ROW_NUMBER is within the limit depends only on the rows before it |
| Queries.TopPerDeviceKeeps | lab_manager/data/queries.py:107 | a row whose ROW_NUMBER is within the limit is kept |
| Queries.TopPerDeviceMembers | lab_manager/data/queries.py:107 | every kept row has a ROW_NUMBER within the limit |
| Queries.TopPerDevice | lab_manager/data/queries.py:100-107 | the window filter keeps a sub-multiset of its input rows |
| Queries.TopPerDeviceCount | lab_manager/data/queries.py:100-107 | after the window filter each device keeps min(its row count, limit) rows |
| Queries.LatestUpdatesForTechnician | lab_manager/data/queries.py:93-109 | get_latest_updates_for_technician returns a sub-multiset of the technician's joined rows |
| Queries.LatestUpdatesBound | lab_manager/data/queries.py:93-109 | get_latest_updates_for_technician returns at most limit_per_model rows per device |
| Queries.CountDevicePrefix | lab_manager/data/queries.py:100 | a device's ROW_NUMBER grows along the list |
| Queries.DroppedAreNotNewer | lab_manager/data/queries.py:100-107 | in id-descending order a dropped row comes after every kept row of its device and has no higher id |
| Queries.LatestAreNewest | lab_manager/data/queries.py:93-109 | the kept rows are the device's highest-id updates: a row with a higher id than a kept one is kept too |
| Queries.CountDeviceMember | lab_manager/data/queries.py:100 | a device has a row iff its count is at least 1 |
| Queries.EveryDeviceListed | lab_manager/data/queries.py:93-109 | with a limit of at least 1 every listed device keeps at least one row (its null row included) |
| Queries.FeedJoin | lab_manager/data/queries.py:114-116 | every feed row is an update joined to its device's manufacturer and model |
| Queries.LatestDeviceUpdates | lab_manager/data/queries.py:111-120 | get_latest_device_updates returns exactly min(limit, joined rows) rows, all of them for a negative limit, ordered by created_at non-increasing |
| Queries.FeedIsSubMultiset | lab_manager/data/queries.py:111-120 | the feed shows distinct rows of the join and never repeats one |
| Queries.FeedRowsAreUpdates | lab_manager/data/queries.py:111-120 | each feed row is an existing update with its device's manufacturer and model |
| Queries.FeedOmitsOnlyOlder | lab_manager/data/queries.py:111-120 | a joined update left out of the feed is no newer than any row shown |
| Queries.FeedIsWholeJoinWhenUnlimited | lab_manager/data/queries.py:111-120 | without a binding limit the feed is a permutation of the whole join |
| Queries.FeedJoinComplete | lab_manager/data/queries.py:114-116 | every update of an existing device appears in the join |
| Store.FindDeviceByName | lab_manager/data/queries.py:146-154 | the lookup returns a device of that name, and finds none iff no device has it |
| Store.PublishOutcomeOf | lab_manager/data/queries.py:144-168 | unknown name: not found (ValueError); version already present: no insert; otherwise a new row with the fresh id, the version and the current stamp for a device of that name |
| Store.AfterPublish | lab_manager/data/queries.py:163-168 | a publish changes only the updates table: it appends one row when it inserts and nothing otherwise |
| Store.PublishAppendsOne | lab_manager/data/queries.py:163-168 | a successful publish appends exactly one row with an unused id and changes no other table |
| Store.AppendUpdateWellFormed | lab_manager/data/queries.py:163-166 | appending a row with a fresh AUTOINCREMENT id keeps every key constraint |
| Store.AppendUpdateReferential | lab_manager/data/queries.py:163-166 | appending an update of an existing device keeps the foreign keys |
| Store.PublishPreservesIntegrity | lab_manager/data/queries.py:144-168 | every publish outcome keeps the key constraints, the id counter and the foreign keys |
| Store.PublishTwice | lab_manager/data/queries.py:156-161 | the same publish right after a successful one finds the version and inserts nothing |
| Store.ConfirmRows | lab_manager/data/queries.py:124-126 | the UPDATE keeps every row and its key |
| Store.ConfirmRowsTail | lab_manager/data/queries.py:124-126 | the UPDATE treats rows one at a time |
| Store.ConfirmSetsExistingRow | lab_manager/data/queries.py:124-126 | an existing (technician, update) row reads back as confirmed |
| Store.ConfirmCreatesNoRow | lab_manager/data/queries.py:124-126 | with no matching row the table is unchanged |
| Store.ConfirmKeepsOtherPairs | lab_manager/data/queries.py:124-126 | every other (technician, update) pair keeps its value |
| Store.ConfirmIdempotent | lab_manager/data/queries.py:122-128 | confirming twice equals confirming once |
| Store.ConfirmKeepsKeysUnique | lab_manager/data/database.py:79 | the UPDATE keeps the confirmation primary key unique |
| Store.ConfirmPreservesIntegrity | lab_manager/data/queries.py:122-128 | the UPDATE keeps the key constraints and the foreign keys |
| Store.FreshUpdateStaysUnconfirmed | lab_manager/data/queries.py:122-128 | a just-published update still reads as unconfirmed after it is confirmed as written |
| Store.FreshUpdateStaysPending | lab_manager/data/queries.py:122-128 | after that confirm, a technician linked to the device still has the update pending |
| Store.ConfirmUpsert | lab_manager/data/queries.py:122-128 | the corrected confirm: the pair reads back as 1, keys stay unique, every other pair keeps its value |
| Store.ConfirmedValueAppendNew | lab_manager/data/database.py:74-79 | a newly inserted row's value is what its key reports |
| Store.ConfirmedValueAppendOther | lab_manager/data/database.py:74-79 | inserting a row does not change what other keys report |
| Store.FreshUpdateConfirmedByUpsert | lab_manager/data/queries.py:122-128 | with the corrected confirm a just-published update reads back as confirmed |
| Store.LabStore.constructor | lab_manager/data/database.py:6-9 | an open store holds the given tables and id counter and is valid |
| Store.LabStore.AddDeviceUpdate | lab_manager/data/queries.py:144-168 | add_device_update in place: its outcome is the publish outcome; tables and counter become the publish's result; validity and foreign keys are kept |
| Store.LabStore.MarkUpdateAsConfirmed | lab_manager/data/queries.py:122-128 | mark_update_as_confirmed in place: the confirmations become the as-written UPDATE's result and the store stays valid |
| Store.LabStore.ConfirmUpdate | lab_manager/data/queries.py:122-128 | the corrected confirm in place: the pair reads back as confirmed and the store stays valid |
| Updates.TrimLeft | lab_manager/updates.py:83 | drops exactly a whitespace prefix and stops at a non-space |
| Updates.TrimRight | lab_manager/updates.py:83 | drops exactly a whitespace suffix and stops at a non-space |
| Updates.Strip | lab_manager/updates.py:83 | the result is a slice with only whitespace outside it and non-space characters at both ends |
| Updates.StripEmptyIffBlank | lab_manager/updates.py:83-93 | the stripped version is empty iff the typed text is all whitespace |
| Updates.PublishAllStep | lab_manager/updates.py:97-99 | one more model advances the loop by one publish call |
| Updates.PublishAll | lab_manager/updates.py:95-99 | the id counter never goes back, and added_any holds iff at least one id was consumed |
| Updates.Advance | lab_manager/updates.py:97-99 | a turn raises iff the device was not found, consumes one id iff it inserted, and otherwise records whether anything was added |
| Updates.AdvanceReaches | lab_manager/updates.py:97-99 | the state one publish call leaves behind is the loop's next state |
| Updates.PublishAllAppends | lab_manager/updates.py:95-99 | the loop only appends updates, consumes one id per inserted row, and added_any holds iff a row was inserted |
| Updates.PublishAllPreservesIntegrity | lab_manager/updates.py:95-99 | the loop keeps the key constraints, the id counter and the foreign keys |
| Updates.FailureIsFinal | lab_manager/updates.py:95-125 | once a publish raises, the remaining models are not published and earlier rows stay |
| Updates.UnknownManufacturerAddsNothing | lab_manager/updates.py:95-125 | a manufacturer with no devices (such as "Todas") raises on the first model and inserts nothing |
| Updates.PublishAllCoversModels | lab_manager/updates.py:97-98 | after a loop that did not raise, every selected model of the manufacturer has the version |
| Updates.RepublishAddsNothing | lab_manager/updates.py:97-122 | when every model already has the version the loop inserts nothing and answers "already exists" |
| Updates.BatchTwice | lab_manager/updates.py:95-122 | the same batch right after one that did not raise changes nothing and answers False |
| Updates.PublishEach | lab_manager/updates.py:95-99 | the loop over the store yields the tables, counter, added_any and failure of PublishAll and keeps the store valid |
| Updates.AddDeviceUpdates | lab_manager/updates.py:81-125 | no model or blank version: False, store untouched; otherwise each model is published with "v" + stripped version, and the answer is True iff some row was added and nothing raised |
| Dashboard.ShownRows | lab_manager/dashboard.py:153-206 | a row gets a card iff it passes the unassigned, device and pending checks |
| Dashboard.ShownRowsAppend | lab_manager/dashboard.py:153-251 | filtering keeps enumeration order: one more row adds its card at the end, if it is shown |
| Dashboard.HasPendingIff | lab_manager/dashboard.py:200-206 | the pending-only check passes iff some joined row of the technician is unconfirmed and passes the manufacturer and model filters |
| Dashboard.UnassignedShownIffNoFilter | lab_manager/dashboard.py:144-156 | an unassigned workstation is shown iff no filter is active and pending-only is off |
| Dashboard.ShownTechnicianPassesChecks | lab_manager/dashboard.py:190-206 | a shown technician serves the manufacturer filter and a selected model when those are set; under pending-only its count is at least 1 and some row of its update list is unconfirmed and passes the manufacturer and model filters |
| Dashboard.DefaultFilterShowsAll | lab_manager/dashboard.py:144-206 | with "Todas", no models and pending-only off every workstation is shown |
| Dashboard.ChecksAreIndependent | lab_manager/dashboard.py:194-198 | the manufacturer and model checks may be met by two different devices of the technician |
| Dashboard.NoLineWithoutMatchingDevice | lab_manager/dashboard.py:216-221 | a technician kept by the two independent checks shows no line when no single device matches both |
| Dashboard.EntryOf | lab_manager/dashboard.py:227-239 | a line shows the row's text; it is confirmed iff confirmed is nonzero, and otherwise its button targets the row's update id |
| Dashboard.Entries | lab_manager/dashboard.py:217-221 | every line comes from a query row passing the model and manufacturer conditions |
| Dashboard.EntriesComplete | lab_manager/dashboard.py:217-221 | every query row passing both conditions gets a line |
| Dashboard.EntriesNone | lab_manager/dashboard.py:217-221 | with no row passing, the card has no lines |
| Dashboard.EntriesAppend | lab_manager/dashboard.py:217-221 | the lines keep query order |
| Dashboard.VisibleEntries | lab_manager/dashboard.py:217-245 | the line loop produces exactly the selected lines in query order |
| Dashboard.Title | lab_manager/dashboard.py:158-159 | the title starts with the workstation name and is longer iff the PC serial is non-empty |
| Dashboard.CardOfDescribes | lab_manager/dashboard.py:158-245 | a card names its workstation, its title starts with the workstation name; an unassigned workstation gets the no-technician body, an assigned one the technician name and exactly the selected rows of its update list |
| Dashboard.LayoutFollowsShownRows | lab_manager/dashboard.py:247-251 | the k-th shown workstation goes to (pos_y, pos_x) in grid mode and to (k, 0) in list mode; skipped rows use no slot |
| Dashboard.StaffedCount | lab_manager/dashboard.py:208 | the assigned-row count is at most the number of rows |
| Dashboard.FillPlaceholders | lab_manager/dashboard.py:257-265 | after the fill every MAX_ROWS x MAX_COLS cell is occupied, and placeholders go only to cells no card took, in row-major order |
| Dashboard.LayoutStep | lab_manager/dashboard.py:153-251 | one turn of the enumeration loop places the row's card (if shown) and counts its technician |
| Dashboard.BuildCard | lab_manager/dashboard.py:154-245 | the loop body decides to show the row exactly when Shown holds and then builds its card |
| Dashboard.DeviceChecks | lab_manager/dashboard.py:190-198 | the two device checks pass iff the technician serves the chosen manufacturer (unless "Todas") and some ticked model (if any) |
| Dashboard.PlaceNext | lab_manager/dashboard.py:153-251 | the loop body advances placements and counter by one row |
| Dashboard.PlaceCards | lab_manager/dashboard.py:150-251 | the enumeration loop yields the layout of all shown rows and counts shown assigned workstations |
| Dashboard.UpdateDashboard | lab_manager/dashboard.py:131-265 | the redraw yields the total, the counter, the list layout or the grid layout filled with placeholders |
| Dashboard.ShownStaffedAtMostStaffed | lab_manager/dashboard.py:208 | the counter is at most the number of assigned rows |
| Dashboard.StaffedCountAppend | lab_manager/dashboard.py:208 | counting assigned rows is additive |
| Dashboard.AssignedTo | lab_manager/data/queries.py:35 | counting assignments of a set of workstations is bounded by the assignment count |
| Dashboard.AssignedToAdd | lab_manager/data/queries.py:35 | adding a new workstation adds its assignments |
| Dashboard.StaffedRowsFor | lab_manager/data/queries.py:35-37 | a workstation contributes at most one assigned row per assignment |
| Dashboard.IdsOfLast | lab_manager/data/database.py:31-37 | with increasing ids the last workstation adds a new id |
| Dashboard.StaffedRowsBound | lab_manager/data/queries.py:30-39 | assigned join rows are at most the assignments of the listed workstations |
| Dashboard.ShownAtMostTotal | lab_manager/dashboard.py:208-254 | under the schema's keys the counter never exceeds get_total_technicians |

## Left out

- Qt widget construction, sizes, scroll areas, signals, tooltips and message boxes (`lab_manager/dashboard.py:20-129`, `lab_manager/updates.py:9-79`), `lab_manager/main.py` and `lab_manager/__main__.py`. They are UI wiring. The redraw returns the placements and counters it would hand to the widgets, and clearing the grid first means it depends on no earlier widget state.
- The dashboard's `mark_update` handler (`lab_manager/dashboard.py:267-269`). As written it calls the two-id confirm with one id and cannot succeed. The two-id operation is modelled, not the handler.
- The dialog's widget updates after a publish (version text, feed refresh, unticking models, message boxes, `lab_manager/updates.py:101-122`). Only the returned answer is modelled.
- Connection handling and schema creation in `lab_manager/data/database.py` are I/O. Only their constraints are modelled, as `Schema.WellFormed` and `Schema.Referential`.
- `db_setup.py` is a one-shot random seeding script, and `lab_manager/utils/export.py` wraps a spreadsheet export. `LabStore` starts from any well-formed table state instead.
- `get_technician_trainings` selects columns that exist in neither schema. `get_all_technicians` is not used by the core.
- Timestamps are an abstract ordered `Stamp` passed in by the caller. All rows of one publish batch share the caller's stamp.
- Building SQL text and binding parameters (`lab_manager/data/queries.py:68-72`). Only the filter semantics is modelled.
- Exceptions other than "device not found" (a database error inside a publish) are not modelled. Such an error takes the same path as "device not found": False, with earlier rows kept.
- Queries.LatestDeviceUpdates: ties on `created_at` come back in scan order; SQLite leaves their order open, so the model commits to one permitted order.
- Queries.ModelsByManufacturer: the order of DISTINCT without ORDER BY is modelled as first occurrence, one order SQLite may produce.

## Findings

| source | as written | input that shows it | evidently intended | confidence | as-written member | corrected member |
|---|---|---|---|---|---|---|
| lab_manager/data/queries.py:122-128 | confirming issues an UPDATE on the (technician, update) row; the seeding script inserts rows only for the updates it seeds, and no runtime path inserts a confirmation row for an update published after seeding | publish a new version for a device linked to technician t, then confirm (t, new id): no row matches, nothing changes, and the update stays pending with its confirm button shown | confirming records the pair as confirmed whether or not a row exists (insert or update) | not executed | Store.FreshUpdateStaysPending | Store.FreshUpdateConfirmedByUpsert |
