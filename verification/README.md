# Non-Stop Parking: a verified model of the RFID gate engine

This project models the server side of an RFID car park built on the Odoo ORM.
RFID tags are issued to vehicles or to people. The gate's reader sends the
codes it sees to a check-in or a check-out endpoint, and each admitted vehicle
tag becomes a vehicle log entry. Every entry records:

- the direction of the vehicle;
- the vehicle's presence;
- how long the vehicle stayed, paired with its entry log;
- whether it repeats the direction of the previous log.

Around that core the project also models:

- tag, vehicle and partner bookkeeping: assignment, revocation, deletion and the unique and check constraints;
- the parking fee and the partner's balance;
- reader validation: IP address, port and uniqueness;
- synchronisation of tags with a cloud service: push, pull and an offline retry queue.

The database is an immutable `Records.Store`. It holds one map per table keyed
by record id, the sequence of logs, the sync queue and the next id to hand out.
Every operation is a pure function that returns its reply together with the new
store.

- `Wf` states what the foreign keys guarantee.
- `Valid` adds the constraints the models declare.
- An operation that raises returns the store it was given, as a rolled-back transaction does.
- A request sees a single `now`.
- Searches return records in id order, as the ORM's default order does.
- "Latest by create_date" picks the log with the greatest creation time, and the later-appended log among equal times.

Modules, in dependency order:

- `Wrappers` and `JsonValues` hold the option and outcome types and a JSON value with Python truthiness.
- `Text` holds digits and decimal rendering.
- `Lookup` holds id-ordered searches over maps.
- `Records` holds the entities, `Wf`, `Valid`, tag and vehicle lookups, and presence.
- `ParkingTime` holds the parking-time display.
- `VehicleLogs` holds log creation, stay pairing, anomaly detection and vehicle status.
- `StoreUpdates` holds the frame lemmas for single-record writes.
- `TagRules`, `VehicleRules` and `PartnerRules` hold tag creation and deletion, assignment and revocation, and citizen ids.
- `Api` holds the standard response and exception mapping.
- `Admission` holds the check-in and check-out endpoints.
- `Billing` holds the fee, deduction and top-up.
- `Readers` holds reader validation and uniqueness.
- `Sync` holds the cloud push, pull and retry queue.

Source paths below are relative to the repository root.

## Model

| member | source | states |
|---|---|---|
| Api.GetResponse | addons/non_stop_parking/controllers/base.py:10-20 | The response always has success, message and data. A falsy data becomes an empty object. error_code is present exactly when a non-empty code is given. No other keys appear. |
| Api.ResponseDataNeverFalsyUnlessEmpty | addons/non_stop_parking/controllers/base.py:15 | The data of a response is either truthy or exactly the empty object. |
| Api.HandleException | addons/non_stop_parking/controllers/base.py:23-30 | An exception becomes a failed response with empty data. A validation error keeps its message and code VALIDATION_ERROR. An access error gets the fixed access message. Anything else gets the system-error message. |
| Records.PresenceBijection | addons/non_stop_parking/models/vehicle.py:53-62 | The current status and the last direction determine each other: inside for in, outside for out, unknown for unset. |
| Records.VehicleUpdateKeepsConstraints | addons/non_stop_parking/models/vehicle.py:48-51 | Writing a vehicle without touching its plate or tag keeps plates unique and tag links unique. |
| Records.FindTag | addons/non_stop_parking/models/vehicle_logs.py:249 | The tag search with limit 1 returns the lowest-id tag with that code, and nothing exactly when no tag has the code. |
| Records.FindTagUnique | addons/non_stop_parking/models/tag.py:40-42 | Under unique codes, the search finds exactly the tag carrying the code. |
| Records.FirstVehicleOf | addons/non_stop_parking/models/vehicle_logs.py:280 | A partner's first vehicle is the lowest-id vehicle they own, and nothing exactly when they own none. |
| ParkingTime.PyInt | addons/non_stop_parking/models/vehicle_logs.py:412-414 | int() of a float truncates toward zero: the result is within one of the input on the side of zero. |
| ParkingTime.SpanAsWritten | addons/non_stop_parking/models/vehicle_logs.py:412-414 | The source's day, hour and minute breakdown of a positive time: days are non-negative and hours fall in 0..23. The minutes are not bounded. |
| ParkingTime.SpanOf | addons/non_stop_parking/models/vehicle_logs.py:409-428 | The corrected breakdown of a positive time has hours in 0..23 and minutes in 0..59, and adds back up to the whole minutes of the stay. |
| ParkingTime.FormatParkingTime | addons/non_stop_parking/models/vehicle_logs.py:409-428 | The display is empty exactly for a non-positive time, and is "< 1 phút" below a minute. |
| ParkingTime.AsWrittenAgreesBelowADay | addons/non_stop_parking/models/vehicle_logs.py:90-113 | Below 24 hours the source's breakdown and display equal the corrected ones, with minutes in 0..59. |
| ParkingTime.AsWrittenMinutesOverflow | addons/non_stop_parking/models/vehicle_logs.py:414-419 | For 24.5 hours the source displays "1 ngày 1470 phút" where 30 minutes are meant. |
| ParkingTime.AsWrittenSpanOverflow | addons/non_stop_parking/models/vehicle_logs.py:412-414 | For 24.5 hours the source's breakdown is 1 day, 0 hours and 1470 minutes. The corrected one is 1 day, 0 hours and 30 minutes. |
| VehicleLogs.LatestMatching | addons/non_stop_parking/models/vehicle_logs.py:155-160 | The chosen log matches and has the greatest creation time among matches. Matches after it are strictly earlier. There is none exactly when nothing matches. |
| VehicleLogs.ComputeStay | addons/non_stop_parking/models/vehicle_logs.py:64-88 | An entry has duration 0 and no entry log. A stay without an entry log has duration 0. |
| VehicleLogs.ComputeStayMeaning | addons/non_stop_parking/models/vehicle_logs.py:64-88 | An exit is paired with the latest strictly earlier entry of its vehicle, and its hours are the time between the two. An exit with such an entry has a positive duration. Without one it has no pairing. |
| VehicleLogs.PreviousOfPairUnique | addons/non_stop_parking/models/vehicle_logs.py:155-160 | The previous log of a vehicle-and-tag pair is unique. |
| VehicleLogs.RepeatedDirection | addons/non_stop_parking/models/vehicle_logs.py:147-172 | A log with no history is never an anomaly. |
| VehicleLogs.RepeatedDirectionMeaning | addons/non_stop_parking/models/vehicle_logs.py:147-172 | A new log is an anomaly exactly when the previous log of the same vehicle and tag has the same direction, and then it names that log. |
| VehicleLogs.ResolveLogTarget | addons/non_stop_parking/models/vehicle_logs.py:249-305 | A resolved target names an existing tag, vehicle and partner. |
| VehicleLogs.Resolution | addons/non_stop_parking/models/vehicle_logs.py:266-305 | The vehicle is the tag's own or else the partner's first vehicle. The partner is the tag's own or else the vehicle's owner. |
| VehicleLogs.ResolveLogTargetCases | addons/non_stop_parking/models/vehicle_logs.py:249-305 | Each refusal happens exactly in the case the source tests: tag not found, not active, not assigned, partner without vehicle, vehicle without owner. The invalid-assignment branch is unreachable. |
| VehicleLogs.AppendLog | addons/non_stop_parking/models/vehicle_logs.py:307-326 | Logging keeps the store well formed. It adds exactly one log and sets the vehicle's last direction, nothing else. |
| VehicleLogs.CreateLogEntry | addons/non_stop_parking/models/vehicle_logs.py:236-351 | A refused entry leaves the store unchanged. An accepted one appends exactly one log and keeps earlier logs and the registry. |
| VehicleLogs.NewLog | addons/non_stop_parking/models/vehicle_logs.py:64-113 | The new log carries the next id, the request time, the direction and the resolved vehicle, partner and tag, with the photo and notes as given. It is flagged as an anomaly exactly when it names the earlier log whose direction it repeats. An entry log has no parking time and no paired entry; a log without a paired entry has parking time 0. The display is empty exactly when the parking time is not positive. |
| VehicleLogs.CreateLogEntryOutcome | addons/non_stop_parking/models/vehicle_logs.py:249-344 | An entry is refused exactly when resolution refuses, with the same error code. An accepted entry reports the new log id, the direction and the vehicle's plate. |
| VehicleLogs.CreateLogEntryKeepsValid | addons/non_stop_parking/models/vehicle_logs.py:307-326 | Creating a log entry preserves every model constraint. |
| VehicleLogs.CreateLogEntrySetsPresence | addons/non_stop_parking/models/vehicle_logs.py:320-324 | After a logged entry the vehicle is inside for "in" and outside for "out". |
| VehicleLogs.ResolveStable | addons/non_stop_parking/models/vehicle_logs.py:249-305 | Resolution only reads tags, owners and vehicles, so appending logs does not change it. |
| VehicleLogs.GetVehicleStatus | addons/non_stop_parking/models/vehicle_logs.py:353-407 | Not found exactly for a missing vehicle. With no log the status is unknown with time 0. A vehicle that has logs never reports unknown: the report describes its latest log by create date. A non-zero parking time occurs only while inside, and the display is that time's format. |
| StoreUpdates.PutTagKeepsValid | addons/non_stop_parking/models/tag.py:40-72 | Writing a tag that keeps its code unique and has at most one owner preserves every model constraint. |
| TagRules.NewTag | addons/non_stop_parking/models/tag.py:12-37 | A new tag carries the given code, status and owners, is stamped with the time, and has never been synced. |
| TagRules.Revoked | addons/non_stop_parking/models/vehicle.py:143-147 | A revoked tag keeps its code, loses both owners, and becomes inactive. |
| TagRules.CreateTag | addons/non_stop_parking/models/tag.py:40-72 | Creation succeeds exactly when the owners exist, the code is free and the tag does not have both owners. On success a new id is added with the given fields. On failure nothing changes. |
| TagRules.CreatedTagIsPending | addons/non_stop_parking/models/tag.py:16-24 | A tag created without a status is pending. |
| TagRules.CreateTagKeepsValid | addons/non_stop_parking/models/tag.py:40-72 | Creating a tag preserves every model constraint. |
| TagRules.CascadeLogs | addons/non_stop_parking/models/vehicle_logs.py:19-21 | Deleting tags deletes exactly their logs. The other logs stay, with entry links to deleted logs cleared. |
| TagRules.UnlinkTags | addons/non_stop_parking/models/tag.py:45-50 | Deleting tags fails exactly when one of them is active, and then nothing changes. Otherwise the tags go and the links to them are cleared. |
| TagRules.UnlinkLeavesNoReference | addons/non_stop_parking/models/tag.py:45-50 | After a deletion no vehicle, partner or log refers to a deleted tag, and every other log survives. |
| TagRules.UnlinkTagsKeepsValid | addons/non_stop_parking/models/tag.py:45-50 | Deleting tags preserves every model constraint. |
| VehicleRules.CreateVehicle | addons/non_stop_parking/models/vehicle.py:48-51 | Creation succeeds exactly when the references exist, the plate is new and the tag is not linked to another vehicle. The new vehicle starts with the default last direction "in". |
| VehicleRules.CreateVehicleKeepsValid | addons/non_stop_parking/models/vehicle.py:48-51 | Creating a vehicle preserves every model constraint. |
| VehicleRules.NewVehicleIsInside | addons/non_stop_parking/models/vehicle.py:26-34 | A vehicle just created is inside the car park. |
| VehicleRules.AssignTagToVehicle | addons/non_stop_parking/models/vehicle.py:75-120 | A declined or failed assignment changes nothing. The "not found" answer is given exactly for a missing vehicle. |
| VehicleRules.AssignExistingTagToVehicle | addons/non_stop_parking/models/vehicle.py:87-110 | An active tag is always refused. A non-active tag is taken over unless it has a partner, which breaks the one-owner rule, or is linked to another vehicle, which breaks UNIQUE(vehicle_tag_id). |
| VehicleRules.AssignUnknownCodeToVehicle | addons/non_stop_parking/models/vehicle.py:111-118 | An unknown code creates a new active tag on the vehicle. |
| VehicleRules.AssignedVehicleTag | addons/non_stop_parking/models/vehicle.py:87-118 | After a successful assignment the tag is active, carries the code and belongs to the vehicle alone, and the vehicle points at it. Nothing else changes. |
| VehicleRules.AssignTagToVehicleKeepsValid | addons/non_stop_parking/models/vehicle.py:75-120 | Assigning a tag to a vehicle preserves every model constraint. |
| VehicleRules.AssignedVehicleTagResolves | addons/non_stop_parking/models/vehicle.py:107-120 | After an assignment a gate read of the code logs against that vehicle and its owner, or is refused because the vehicle has no owner. |
| VehicleRules.RevokeVehicleTag | addons/non_stop_parking/models/vehicle.py:138-148 | Revocation clears the vehicle's link and revokes its tag. A vehicle without a tag is left as it is. |
| VehicleRules.RevokeVehicleTags | addons/non_stop_parking/models/vehicle.py:138-148 | Revoking a set of vehicles keeps every vehicle and every tag record and leaves partners, logs, readers and the queue alone; vehicle tag links still resolve. |
| VehicleRules.RevokeVehicleTagsClearsLinks | addons/non_stop_parking/models/vehicle.py:140-148 | Revoking a set of vehicles clears exactly their tag links. |
| VehicleRules.RevokeVehicleTagsRevokes | addons/non_stop_parking/models/vehicle.py:141-147 | Exactly the tags linked from the revoked vehicles end up revoked. Others are untouched. |
| VehicleRules.RevokedIdempotent | addons/non_stop_parking/models/vehicle.py:143-147 | Revoking a revoked tag again changes nothing. |
| VehicleRules.RevokeVehicleTagsKeepsValid | addons/non_stop_parking/models/vehicle.py:138-148 | Revocation preserves every model constraint. |
| PartnerRules.CitizenIdError | addons/non_stop_parking/models/user.py:54-64 | A citizen id is accepted exactly when unset, empty, or 9 or 12 digits. A wrong length is reported before non-digits. |
| PartnerRules.CitizenIdExamples | addons/non_stop_parking/models/user.py:58-64 | 9- and 12-digit ids and empty ids pass. 8 characters fail on length. A letter fails on digits. |
| PartnerRules.SetCitizenId | addons/non_stop_parking/models/user.py:30-64 | Setting a citizen id succeeds exactly when it is accepted and held by no other partner. Otherwise nothing changes and the first failing check is reported. |
| PartnerRules.SetCitizenIdKeepsValid | addons/non_stop_parking/models/user.py:30-64 | Setting a citizen id preserves every model constraint. |
| PartnerRules.AssignTagToPartner | addons/non_stop_parking/models/user.py:123-167 | A declined assignment changes nothing. The "not found" answer is given exactly for a missing partner. The corrected write order never fails a constraint. |
| PartnerRules.AssignExistingTagToPartner | addons/non_stop_parking/models/user.py:143-165 | An active tag is always refused. A non-active tag is taken over by the partner. |
| PartnerRules.AssignUnknownCodeToPartner | addons/non_stop_parking/models/user.py:135-142 | An unknown code creates a new active tag for the partner. |
| PartnerRules.AssignedPartnerTag | addons/non_stop_parking/models/user.py:135-167 | After a successful assignment the tag is active, carries the code and belongs to the partner alone, and the partner points at it. Nothing else changes. |
| PartnerRules.AssignTagToPartnerKeepsValid | addons/non_stop_parking/models/user.py:123-167 | Assigning a tag to a partner preserves every model constraint. |
| PartnerRules.AssignedPartnerTagResolves | addons/non_stop_parking/models/user.py:135-167 | After an assignment a gate read of the code logs against the partner's first vehicle, or is refused because the partner has no vehicle. |
| PartnerRules.AssignTagToPartnerAsWritten | addons/non_stop_parking/models/user.py:161-165 | The source's field-by-field write order: a refused or failed assignment changes nothing. |
| PartnerRules.AsWrittenPartnerAssignmentDiffers | addons/non_stop_parking/models/user.py:161-165 | The source order and the corrected order differ only on a non-active tag that still has a vehicle. The source fails there with the one-owner error and the corrected order assigns the tag. |
| PartnerRules.AsWrittenPartnerCounterexample | addons/non_stop_parking/models/user.py:162-163 | A pending tag on a vehicle, requested by a partner, is refused by the source and assigned by the corrected order. |
| PartnerRules.RevokePartnerTag | addons/non_stop_parking/models/user.py:185-195 | Revocation clears the partner's link and revokes its tag. A partner without a tag is left as it is. |
| PartnerRules.RevokePartnerTags | addons/non_stop_parking/models/user.py:185-195 | Revoking a set of partners keeps every partner and every tag record and leaves vehicles, logs, readers and the queue alone; partner tag links still resolve. |
| PartnerRules.RevokePartnerTagsClearsLinks | addons/non_stop_parking/models/user.py:187-195 | Revoking a set of partners clears exactly their tag links. |
| PartnerRules.RevokePartnerTagsRevokes | addons/non_stop_parking/models/user.py:188-194 | Exactly the tags linked from the revoked partners end up revoked. |
| PartnerRules.RevokePartnerTagsKeepsValid | addons/non_stop_parking/models/user.py:185-195 | Revocation preserves every model constraint. |
| Admission.Codes | addons/non_stop_parking/controllers/api_parking_logs.py:36 | The filtered codes are exactly the non-empty submitted codes. |
| Admission.BatchTags | addons/non_stop_parking/controllers/api_parking_logs.py:39 | The batch is exactly the tags whose code was submitted, in id order. |
| Admission.ClassesPartition | addons/non_stop_parking/controllers/api_parking_logs.py:123-126 | Every tag is exactly one of: person tag, vehicle tag, unassigned, or mixed. |
| Admission.ClassCountsSum | addons/non_stop_parking/controllers/api_parking_logs.py:123-126 | The four classes of a batch add up to the batch size. |
| Admission.TagsWhere | addons/non_stop_parking/controllers/api_parking_logs.py:123-126 | The filter keeps exactly the matching tags, is empty exactly when none match, and keeps id order. |
| Admission.MissingCodes | addons/non_stop_parking/controllers/api_parking_logs.py:112-115 | The missing codes are exactly the submitted non-empty codes that no tag carries. |
| Admission.AnySuccessCounts | addons/non_stop_parking/controllers/api_parking_logs.py:66 | A batch succeeds exactly when at least one row was logged. |
| Admission.LogEach | addons/non_stop_parking/controllers/api_parking_logs.py:48-64 | There is one result row per admitted tag. |
| Admission.LogEachFrame | addons/non_stop_parking/controllers/api_parking_logs.py:48-64 | Logging a batch keeps the store well formed and changes only logs and presence. |
| Admission.LogEachAppends | addons/non_stop_parking/controllers/api_parking_logs.py:48-64 | The batch appends exactly one log per logged row, after the existing logs. |
| Admission.LogEachRows | addons/non_stop_parking/controllers/api_parking_logs.py:48-64 | Each row reports its tag, code and plate. It is logged exactly when its own resolution succeeds, and otherwise carries that resolution's error. |
| Admission.Execute | addons/non_stop_parking/controllers/api_parking_logs.py:48-72 | A refused batch is rejected with its error and writes nothing. A processed batch has one row per tag and appends one log per success. |
| Admission.ExecuteRowIndependent | addons/non_stop_parking/controllers/api_parking_logs.py:48-64 | Each row's outcome is what a lone create_log_entry for that tag would give on the store before the batch. |
| Admission.CheckInVerdict | addons/non_stop_parking/controllers/api_parking_logs.py:26-42 | MISSING_PARAMS exactly for falsy tag_ids. INVALID_PARAMS exactly for a non-list or non-string notes. Otherwise the batch's vehicle tags are admitted in id order. |
| Admission.CheckIn | addons/non_stop_parking/controllers/api_parking_logs.py:11-75 | Check-in is rejected exactly when its parameters are, and then writes nothing. Otherwise it appends one log per successful row and keeps the registry. |
| Admission.CheckInRowsIndependent | addons/non_stop_parking/controllers/api_parking_logs.py:48-64 | A check-in row fails exactly when a lone "in" entry for that tag would, with the same error. |
| Admission.VehiclesOf | addons/non_stop_parking/controllers/api_parking_logs.py:144 | The vehicles are exactly those carried by the batch's vehicle tags. |
| Admission.PersonsOf | addons/non_stop_parking/controllers/api_parking_logs.py:143 | The persons are exactly the partners of the batch's person tags. |
| Admission.ExitTagChecks | addons/non_stop_parking/controllers/api_parking_logs.py:109-115 | TAGS_NOT_FOUND exactly when a code is unknown, listing the unknown codes. Otherwise the class checks decide. |
| Admission.ClassError | addons/non_stop_parking/controllers/api_parking_logs.py:118-133 | NOT_ACTIVE exactly when a tag is inactive. NOT_ASSIGNED exactly when all are active but one is unassigned. MIXED exactly when none is unassigned but one has both owners. |
| Admission.ExitClassChecks | addons/non_stop_parking/controllers/api_parking_logs.py:118-133 | The class errors come in source order, each under exactly its condition. A clean batch goes on to the pair checks. |
| Admission.ExitPairChecks | addons/non_stop_parking/controllers/api_parking_logs.py:136-167 | NO_PERSON and NO_VEHICLE occur exactly when the batch lacks that class. The ownership and presence errors follow. Admission yields the batch's vehicle tags. |
| Admission.OwnershipByVehicles | addons/non_stop_parking/controllers/api_parking_logs.py:147-158 | Every batch vehicle is owned by a batch person exactly when every vehicle of the vehicle tags has an owner among the persons. |
| Admission.PresenceByVehicles | addons/non_stop_parking/controllers/api_parking_logs.py:161-167 | Every batch vehicle is inside exactly when every vehicle of the vehicle tags has current status inside. |
| Admission.UnownedVehiclesMeaning | addons/non_stop_parking/controllers/api_parking_logs.py:147-158 | The ownership error list is empty exactly when every batch vehicle is owned within the batch. |
| Admission.OutsideVehiclesMeaning | addons/non_stop_parking/controllers/api_parking_logs.py:161-167 | The status error list is empty exactly when every batch vehicle is inside. |
| Admission.ExitOwnershipChecks | addons/non_stop_parking/controllers/api_parking_logs.py:146-167 | INVALID_OWNERSHIP exactly when some vehicle is not owned within the batch. Admission exactly when all are owned and inside. |
| Admission.CheckOutVerdict | addons/non_stop_parking/controllers/api_parking_logs.py:89-167 | MISSING_PARAMS, INVALID_PARAMS and INSUFFICIENT_TAGS occur exactly under their parameter conditions. Admission happens exactly for a batch passing every check, and admits its vehicle tags. |
| Admission.CheckOut | addons/non_stop_parking/controllers/api_parking_logs.py:78-202 | Check-out is rejected exactly when its verdict refuses, and then writes nothing. Otherwise it appends one log per successful row. |
| Admission.CheckOutLogsOnlyAdmissible | addons/non_stop_parking/controllers/api_parking_logs.py:96-167 | A check-out that writes any log had at least two codes and an admissible batch. |
| Admission.CheckOutRowsAreOwnedAndInside | addons/non_stop_parking/controllers/api_parking_logs.py:143-191 | Every processed check-out row is a vehicle tag of the batch. Its vehicle is owned by a batch person and was inside. |
| Admission.ToResponse | addons/non_stop_parking/controllers/api_parking_logs.py:193-199 | A rejection is a failed response with its code. A processed batch succeeds exactly when some row succeeded, with code SUCCESS and one data item per row. An empty batch's data is the empty object. |
| Billing.Overnight | addons/non_stop_parking/models/bill.py:50-51 | Whole days are charged at 5000 each. With no whole day the previous overnight amount stays. |
| Billing.RateOf | addons/non_stop_parking/models/bill.py:56-62 | The base price is the night rate at or after 15:00 and the day rate before. It is zero when no price row matches. |
| Billing.MatchingLogs | addons/non_stop_parking/models/bill.py:36-39 | The matched logs are exactly those with the bill's tag code and parking time. |
| Billing.PricesFor | addons/non_stop_parking/models/bill.py:40-42 | The price rows are exactly those of the bill's vehicle type. |
| Billing.DaysShownIsWholeDays | addons/non_stop_parking/models/bill.py:44-48 | For a positive stay, the day count the regex reads back is the number of whole days of the stay, both from the display the source stores and from the corrected display. |
| Billing.DaysShownAsWritten | addons/non_stop_parking/models/vehicle_logs.py:90-113 | With a whole day or more, the display as written starts with the day count; below a day it shows no day count, so the regex reads 0. |
| Billing.FeeFor | addons/non_stop_parking/models/bill.py:44-62 | The total is base plus overnight, and no other bill field changes. |
| Billing.FeeForAmounts | addons/non_stop_parking/models/bill.py:44-62 | The base is the night or day rate by the log's creation time, or 0 with no price row. When the log's display is its stay in either rendering, the overnight is 5000 per whole day from 24 hours on, and unchanged below. |
| Billing.CalculateFee | addons/non_stop_parking/models/bill.py:31-75 | A non-success response or no matching log changes nothing. The fee is charged exactly when the response succeeds, exactly one log matches and at most one price row matches. It raises NotSingleton exactly when more than one log matches, or one log and several price rows. A charge uses the single matching log, records the fee, and deducts the total from the payer. |
| Billing.CalculateFeeAsWritten | addons/non_stop_parking/models/bill.py:53-54 | As written, every path that reaches the fee raises, so the store is never changed and nothing is charged. |
| Billing.AsWrittenFeeNeverCharges | addons/non_stop_parking/models/bill.py:53-54 | Wherever the corrected fee charges, the source raises NameError and charges nothing. Both leave the bill unchanged in exactly the same cases. |
| Billing.AddFunds | addons/non_stop_parking/models/funds_package.py:18-22 | A top-up adds the amount to this partner's funds only. |
| Billing.SelectPackages | addons/non_stop_parking/models/funds_package.py:18-22 | Selecting packages keeps the set of partners. Only the selecting partner's funds change; every other partner and every other table stays. |
| Billing.Deduct | addons/non_stop_parking/models/bill.py:77-83 | The payer still exists after a deduction. |
| Billing.DeductSubtractsTotal | addons/non_stop_parking/models/bill.py:80-83 | Deducting bills subtracts the sum of their totals. |
| Billing.DeductHasNoFloor | addons/non_stop_parking/models/bill.py:81-83 | An insufficient balance is only warned about: 1000 minus a 3000 bill leaves -2000. |
| Billing.SelectPackagesAddsSum | addons/non_stop_parking/models/funds_package.py:18-22 | Selecting packages adds the sum of their prices. |
| Billing.AddFundsTwice | addons/non_stop_parking/models/funds_package.py:18-22 | Two top-ups equal one top-up of their sum. |
| Billing.AddFundsInverse | addons/non_stop_parking/models/funds_package.py:18-22 | A top-up followed by its negation restores the store. |
| Billing.TopUpThenPayRestores | addons/non_stop_parking/models/bill.py:77-83 | Topping up with the bills' totals and then paying them restores the store. |
| Billing.AddFundsKeepsValid | addons/non_stop_parking/models/funds_package.py:18-22 | Changing funds preserves every model constraint. |
| Billing.PriceRowRule | addons/non_stop_parking/models/vehicle_price.py:15-20 | A price row is rejected exactly when both rates are below 1000. One valid rate is enough. |
| Billing.PackageRule | addons/non_stop_parking/models/funds_package.py:11-16 | A package is rejected exactly when its price is below 2000. |
| Readers.IpAcceptedIffPattern | addons/non_stop_parking/models/reader.py:118-121 | The address check accepts exactly the texts the start-anchored pattern matches. |
| Readers.OctetIsByte | addons/non_stop_parking/models/reader.py:118 | An octet of the pattern is exactly 1 to 3 digits with value at most 255. |
| Readers.IpExampleQuad | addons/non_stop_parking/models/reader.py:118-121 | 192.168.1.10 is accepted. |
| Readers.IpExampleTrailingDot | addons/non_stop_parking/models/reader.py:118-121 | 10.0.0. is accepted, because the fourth octet is optional and the end is not anchored. |
| Readers.IpExampleTooLarge | addons/non_stop_parking/models/reader.py:118-121 | 256.1.1.1 is rejected. |
| Readers.IpExampleTwoDots | addons/non_stop_parking/models/reader.py:118-121 | 10.0.0 is rejected, because three dotted octets are required. |
| Readers.ValidateIpPort | addons/non_stop_parking/models/reader.py:115-124 | A pair passes exactly when the address is accepted and the port is in 1..65535. A bad port is reported only after a good address. |
| Readers.CreateClash | addons/non_stop_parking/models/reader.py:59-96 | A new reader clashes exactly when its reader id, port or address is already used. |
| Readers.WriteClash | addons/non_stop_parking/models/reader.py:59-96 | A write clashes exactly when some written reader's id or port is used by another reader, or, when the address is written, its address is. |
| Readers.CreateReader | addons/non_stop_parking/models/reader.py:98-103 | A create is refused exactly when it gives a truthy address and a non-zero port that fail validation, with that validation error, or when the new reader clashes. A refused create changes nothing. A saved one adds exactly one reader under the next id. |
| Readers.CreateValidates | addons/non_stop_parking/models/reader.py:101-102 | When the create gives a truthy address and a non-zero port, it is saved exactly when the address matches the pattern, the port is in 1..65535 and no uniqueness constraint clashes. |
| Readers.CreateSkipsValidation | addons/non_stop_parking/models/reader.py:101-103 | When the address is unset or the port is 0, the pair is not validated: the create is saved exactly when it does not clash. |
| Readers.WriteValidation | addons/non_stop_parking/models/reader.py:107-112 | The write passes validation exactly when every written reader's address and port, new over stored, form a valid pair. |
| Readers.WriteReaders | addons/non_stop_parking/models/reader.py:105-113 | A write is refused exactly when it gives a truthy address or port and some written reader's merged pair fails validation, with that validation error, or when the written readers clash. A refused write changes nothing. A saved one applies the values to exactly the given readers. |
| Readers.WriteValidates | addons/non_stop_parking/models/reader.py:107-112 | A saved write that gave a truthy address or port leaves every written reader with a valid pair. |
| Readers.WriteSavedWhenValid | addons/non_stop_parking/models/reader.py:107-113 | A write that gives a truthy address or port, where every written reader's merged pair is valid and nothing clashes, is saved. |
| Readers.WriteSkipsValidation | addons/non_stop_parking/models/reader.py:107-113 | A write that gives neither a truthy address nor a truthy port is not validated: it is saved exactly when the written readers do not clash. |
| Readers.CreateKeepsUnique | addons/non_stop_parking/models/reader.py:59-96 | A saved create keeps reader ids, addresses and ports unique. |
| Readers.WriteKeepsUnique | addons/non_stop_parking/models/reader.py:59-96 | A saved write keeps reader ids, addresses and ports unique. |
| Readers.DeleteReaders | addons/non_stop_parking/models/reader.py:566-571 | Deletion fails exactly when a reader is active, and then nothing changes. Otherwise exactly the given readers go. |
| Readers.CreateReaderKeepsValid | addons/non_stop_parking/models/reader.py:98-103 | Creating a reader preserves every model constraint. |
| Readers.WriteReadersKeepsValid | addons/non_stop_parking/models/reader.py:105-113 | Writing readers preserves every model constraint. |
| Readers.DeleteReadersKeepsValid | addons/non_stop_parking/models/reader.py:566-571 | Deleting readers preserves every model constraint. |
| Sync.PayloadOf | addons/non_stop_parking/models/sync_service.py:103-114 | A tag's payload carries its code, epc, status, validity, write date and owners. |
| Sync.StatusName | addons/non_stop_parking/models/sync_service.py:108 | Every status's name reads back as that status. |
| Sync.EncodePayload | addons/non_stop_parking/models/sync_service.py:103-114 | The sent object has exactly the eight keys of the source. |
| Sync.PayloadRoundTrip | addons/non_stop_parking/models/sync_service.py:184-198 | A queued payload decodes back to the payload that was encoded. |
| Sync.EncodePayloadInjective | addons/non_stop_parking/models/sync_service.py:103-114 | Two payloads encode alike exactly when they are equal. |
| Sync.QueueRow | addons/non_stop_parking/models/sync_service.py:177-186 | A queued row is a pending "create" of nsp.tag with record 0, no retries and no error. |
| Sync.Enqueue | addons/non_stop_parking/models/sync_service.py:177-186 | Queueing keeps the old rows and appends one pending row per payload, in order. Nothing else changes. |
| Sync.Attempt | addons/non_stop_parking/models/sync_service.py:195-212 | A success marks the row synced. A failure adds a retry, marks the row failed from 3 retries on and pending below, and records the message or the exception text. |
| Sync.AttemptSettles | addons/non_stop_parking/models/sync_service.py:197-212 | No row is left syncing. An eligible row stays within 0..3 retries. It stays eligible exactly after a failure below the third retry. |
| Sync.RetriesAreBounded | addons/non_stop_parking/models/sync_service.py:190-212 | However many runs happen, a row is attempted at most 3 minus its retries times and never exceeds 3 retries. |
| Sync.FailingRowEndsFailed | addons/non_stop_parking/models/sync_service.py:204-212 | A row that keeps failing ends failed with exactly 3 retries. |
| Sync.Selected | addons/non_stop_parking/models/sync_service.py:190-193 | The batch holds at most 50 eligible rows, newest first. An eligible row is left out only when 50 newer ones were taken. |
| Sync.ProcessSyncQueue | addons/non_stop_parking/models/sync_service.py:188-214 | It returns the batch size, attempts exactly the selected rows with their call outcomes, leaves the other rows untouched, and keeps retries bounded. |
| Sync.TagsToSync | addons/non_stop_parking/models/sync_service.py:91-96 | The tags pushed by default are exactly those never synced or written within the last hour, in id order. |
| Sync.MarkSynced | addons/non_stop_parking/models/sync_service.py:118-121 | A successful push stamps exactly the pushed tags with the sync time. Codes and owners are unchanged. |
| Sync.SyncTagsToCloud | addons/non_stop_parking/models/sync_service.py:89-131 | Missing ids raise and change nothing. No tags means nothing to sync. A success stamps the tags. A refusal or a failed call queues one row per tag. |
| Sync.SyncTagsKeepsValid | addons/non_stop_parking/models/sync_service.py:89-131 | A push preserves every model constraint and the queue's retry bound. |
| Sync.QueuedRowsCarryTags | addons/non_stop_parking/models/sync_service.py:122-131 | Each queued row decodes to the payload of the tag it stands for. |
| Sync.PushedTagsStillMatch | addons/non_stop_parking/models/sync_service.py:93-120 | A pushed tag still matches the default push search for the next hour, because the push itself writes it. |
| Sync.Overwritten | addons/non_stop_parking/models/sync_service.py:150-163 | A cloud entry overwrites the tag's code, epc, status and validity and flags it as from the cloud. Owners and last sync stay. |
| Sync.FromCloud | addons/non_stop_parking/models/sync_service.py:150-166 | A tag created from the cloud has the cloud fields, no owners, and has never been synced. |
| Sync.MergeCloudTag | addons/non_stop_parking/models/sync_service.py:146-166 | One cloud entry changes only tags and the next id, and the store stays well formed. |
| Sync.MergeInto | addons/non_stop_parking/models/sync_service.py:159-163 | A known tag is overwritten exactly when the cloud copy is strictly newer. Otherwise nothing changes. Stamps with an offset are handled by Sync.MergeCloudTagsAsWritten. |
| Sync.MergeFindsTag | addons/non_stop_parking/models/sync_service.py:147-163 | A known code merges into the tag that carries it. |
| Sync.UnknownEntryCreated | addons/non_stop_parking/models/sync_service.py:164-166 | An unknown code creates a new tag from the cloud entry and counts it. |
| Sync.MergeCloudTags | addons/non_stop_parking/models/sync_service.py:144-166 | The count never exceeds the number of entries, and only tags change. |
| Sync.MergeCountsFresh | addons/non_stop_parking/models/sync_service.py:144-166 | With distinct codes, the count is exactly the number of entries that are unknown locally or strictly newer than the local tag. |
| Sync.PullCountsFresh | addons/non_stop_parking/models/sync_service.py:133-171 | With distinct codes, a successful pull reports exactly the number of entries that created or overwrote a tag. |
| Sync.PullFromCloud | addons/non_stop_parking/models/sync_service.py:133-175 | A failed call changes nothing and reports its reason. A refused answer returns nothing. A success reports at most as many changes as entries; with distinct codes, exactly the created or overwritten ones (Sync.PullCountsFresh). |
| Sync.MergeCloudTagsAsWritten | addons/non_stop_parking/models/sync_service.py:146-175 | As written, an entry for a known tag whose stamp carries an offset or Z raises when compared with the naive local date. The merges before it stay. |
| Sync.PullFromCloudAsWritten | addons/non_stop_parking/models/sync_service.py:133-175 | As written, that raise turns the pull into a failure with the comparison message, and the store keeps the earlier merges. |
| Sync.AsWrittenAgreesWithoutOffsets | addons/non_stop_parking/models/sync_service.py:159-166 | Without offset stamps the merge as written and the corrected merge agree on count and store. |
| Sync.AsWrittenOffsetFails | addons/non_stop_parking/models/sync_service.py:159-175 | An offset stamp on a known tag after one entry makes the pull as written fail with the first merge kept, where the corrected pull succeeds. |
| Sync.AsWrittenOffsetCounterexample | addons/non_stop_parking/models/sync_service.py:159-161 | A single entry for the known tag T1 stamped with Z makes the pull as written fail and change nothing, while the corrected pull reports 1. |
| Sync.PullKeepsValid | addons/non_stop_parking/models/sync_service.py:133-175 | A pull preserves every model constraint. |
| Sync.PullKnowsAll | addons/non_stop_parking/models/sync_service.py:142-166 | After a successful pull every pulled code is known locally. |
| Sync.MergeTwiceIsOnce | addons/non_stop_parking/models/sync_service.py:159-166 | Merging the same entry twice equals merging it once, and the second merge counts nothing. |
| Sync.StaleEntryIgnored | addons/non_stop_parking/models/sync_service.py:160-163 | An entry not newer than the local tag changes nothing. |
| Sync.NewerEntryWins | addons/non_stop_parking/models/sync_service.py:160-163 | A strictly newer entry replaces the local fields and is counted. |

## Left out

- The JavaScript client, the reader's network code, websocket and mail notifications, roles and groups, and the HTTP plumbing are left out. Request bodies arrive already parsed as JSON values. These are I/O or UI and hold no rule of the core.
- The cloud API call is a parameter of the sync operations: an answer or a raised exception. The queue processor takes one outcome per selected row.
- Clocks are parameters. One `now` stands for both `datetime.now()` and `fields.Datetime.now()` within a request, and datetimes are integer seconds.
- Money is an unbounded integer. Parking time is a real number. Float rounding and the 2-decimal storage of parking_time are not modelled.
- A reader port of 0 stands for an unset Integer field, as the ORM reads it.
- Message texts and translations are left out. Error codes and the success flag are kept.
- `isdigit()` and the `\d` and `\s` classes accept only ASCII here. Python also accepts other Unicode digits and spaces.
- Billing.CalculateFee: the second nsp.bill record created at bill.py:64-73 is not modelled. As written it omits the required vehicle_logs_id (bill.py:9), so even with `time` imported that create would raise and roll back before the deduction at line 75. The corrected member charges the fee on the bill and deducts it, as the evident intent is.
- VehicleLogs.CreateLogEntry: the stored parking_time_display uses the corrected ParkingTime.FormatParkingTime. The source computes it as written (vehicle_logs.py:90-113), which shows over-long minutes after a whole day; see Findings.
- VehicleLogs.GetVehicleStatus: the reported display uses the corrected format, where the source's _format_parking_time (vehicle_logs.py:409-428) has the same minutes defect; see Findings.
- Admission.CheckIn: items of tag_ids are modelled as strings. A truthy non-string JSON item, which the source keeps and passes to the `in` search, is not modelled.
- Admission.CheckOut: items of tag_ids are modelled as strings, as for check-in; a truthy non-string item is not modelled.
- Readers.WriteClash: when several uniqueness checks fail at once, the model reports one of them in a fixed order. Odoo's order of field constraints is an implementation detail.
- Sync.PullFromCloud: malformed cloud entries, a missing or non-dictionary data field and the `sync.last_pull_date` parameter are left out. Entries arrive as already decoded cloud tags.
- Sync.Selected: the queue is ordered by create date, newest first. The model orders it by queue position, so rows queued in the same instant are not told apart by time.
- Sync.SyncTagsToCloud: the push sends its payload under the key `tag`, while the retry sends `tags`. The model carries the payload and not the request body.
- Sync.PayloadRoundTrip: `json.dumps` and `json.loads` are modelled as carrying the JSON value unchanged.
- The thin REST controllers for tags, users and vehicles, the fee model and the add-funds wizard only forward to the modelled operations and are not modelled on their own.

## Findings

| source | as written | input that shows it | evidently intended | confidence | as-written member | corrected member |
|---|---|---|---|---|---|---|
| addons/non_stop_parking/models/vehicle_logs.py:412-419 | minutes = int((parking_time - hours) * 60), with `hours` already reduced to the hour of the day | parking time 24.5 hours displays "1 ngày 1470 phút" | "1 ngày 30 phút": minutes within the current hour | high, not executed | ParkingTime.AsWrittenMinutesOverflow | ParkingTime.FormatParkingTime |
| addons/non_stop_parking/models/bill.py:53-54 | `time(15, 0)` is called, but bill.py imports only odoo, ValidationError and re | any successful response with a matching log raises NameError, so no fee is ever charged | compare the log's time with 15:00 and charge the day or night rate | high, not executed | Billing.CalculateFeeAsWritten | Billing.CalculateFee |
| addons/non_stop_parking/models/user.py:162-163 | partner_id is written before vehicle_id is cleared, and each assignment is validated on its own | a pending tag still on a vehicle, assigned to a partner, fails the one-owner constraint | the non-active tag passes to the partner, as the comment above it says | medium, not executed | PartnerRules.AsWrittenPartnerCounterexample | PartnerRules.AssignTagToPartner |
| addons/non_stop_parking/models/sync_service.py:160-161 | the cloud write_date is parsed with fromisoformat after replacing Z by +00:00, giving an offset-aware datetime, and compared with the naive local write_date | a pull whose entry for the known tag T1 is stamped "...Z" returns failure with "can't compare offset-naive and offset-aware datetimes"; entries merged before it stay written | compare the two dates as UTC instants and count the entry when it is newer | high, not executed | Sync.AsWrittenOffsetCounterexample | Sync.PullFromCloud |
