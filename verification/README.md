# Villagers scheduling core, modelled in Dafny

This project models the scheduling and signup-integrity engine of the
villagers conference-volunteering application:

- the timeslot generator, which turns a conference's date range, its default
  daily hours and a program's per-day schedule map into 15-minute timeslots;
- the timeslot record: its end time, `full?`/`available?`, its validations and
  the per-program start-time uniqueness;
- volunteer signup admission and the occupancy counter. Admission checks
  duplicates, half-open overlap, capacity and qualifications; create adds 1
  to the slot's count and destroy subtracts 1;
- the bulk capacity job, which skips or updates each slot and returns a tally;
- the pure rules around them:
  - conference date validation;
  - the day-schedule normalisation of the program form and its permitted parameters;
  - the schedule grid's labels and cells;
  - the report filters;
  - conference-role assignment and the last-lead guard;
  - the user role predicates;
  - the three authorisation policies.

Times are integer minutes. An absolute time is `date * 1440 + minute-of-day`,
and an "HH:MM" value is a minute of the day (`Times`). Records are immutable
datatypes. Collections are sequences, sets and maps. Each operation is a pure
function, except the capacity job, which is a method with a loop.

Files, one module each unless noted:

| file | module |
|---|---|
| `wrappers.dfy` | `Option`, `Result` |
| `times.dfy` | minute encoding, 15-minute stepping |
| `decimal.dfy` | `Integer#to_s` for day indexes |
| `timeslots.dfy` | `Timeslot` |
| `conferences.dfy` | `Conference` |
| `conference_programs.dfy` | `ConferenceProgram`, day schedules, the form's normalisation |
| `generator.dfy` | `TimeslotGenerator` |
| `signups.dfy` | `VolunteerSignup` and the store invariants; `SignupExamples` |
| `capacity_job.dfy` | `UpdateTimeslotCapacityJob` |
| `schedule_grid.dfy` | the schedule page's labels and cells |
| `reports.dfy` | the two reports and their filters |
| `conference_roles.dfy` | `ConferenceRole` |
| `users.dfy` | `User`'s role predicates |
| `policies.dfy` | `ConferencePolicy`, `ConferenceProgramPolicy`, `ProgramPolicy` |
| `role_assignment.dfy` | `ConferenceRolesController#create` / `#destroy` |

In these places the model follows the code, where a reader of the repository's
tests (for example `test/services/timeslot_generator_test.rb` and
`test/jobs/update_timeslot_capacity_job_test.rb`) might expect otherwise:

- The generator emits a last slot that starts before the window's end and
  runs past it when the window is not a multiple of 15 minutes.
- Every generated slot gets capacity 1; the program's own `max_volunteers` is
  not consulted.
- The signup validations do not stop at the first failure. All of them run,
  and the model returns the set of every error that fired.
- Neither `ConferenceProgram` nor `Conference` has a callback that generates or
  regenerates timeslots, so nothing in the model does either.
- `Program#conference_specific?` is not defined in the program model the
  policies read. It is modelled as "the program belongs to a conference",
  which is what its schema column suggests.
- Three associations the code calls are not declared in the model files:
  `Conference#timeslots` (reports and schedule page), `ConferenceProgram#timeslots`
  (capacity job and schedule page) and `User#volunteer_signups` (the overlap
  check). The model reads them as the evident joins: a conference's
  timeslots are those of its conference programs, a program's timeslots are
  the rows that reference it, and a user's signups are the rows with that user.
- A day's "start" or "end" is copied from the form as it is. An unfilled time
  field submits the empty string, which is not `nil`, so it does not fall back
  to the conference hours; after the date it parses as midnight.

## Model

| member | source | states |
|---|---|---|
| Times.Steps | app/services/timeslot_generator.rb:42-50 | The 15-minute grid of a window: ceil((e-s)/15) starts (none when e <= s), the i-th at s + 15i, all before the end, and the last within 15 minutes of it, so the last slot may overrun |
| Times.WalkIsSteps | app/services/timeslot_generator.rb:42-50 | The generator's loop (emit the start, add 15 minutes, repeat while before the end) visits exactly that grid |
| Times.StepsMembership | app/services/timeslot_generator.rb:42-50 | A time is visited exactly when it lies in [s, e) and is a whole number of 15-minute steps after s |
| Times.StepsIncreasing | app/services/timeslot_generator.rb:42-50 | The visited starts are strictly increasing |
| Times.AtRoundTrip | app/services/timeslot_generator.rb:39-40 | Combining a date with an HH:MM minute and splitting the result gives back the date and the minute |
| Times.SplitRoundTrip | app/services/timeslot_generator.rb:39-40 | Every absolute minute is its date combined with its minute of day |
| Decimal.DecimalString | app/services/timeslot_generator.rb:12 | The day index's key is a non-empty run of decimal digits ending in the index's last digit, with two digits or more from 10 on |
| Decimal.DecimalStringInjective | app/services/timeslot_generator.rb:12 | Distinct day indexes have distinct keys, so a day never reads another day's entry |
| Timeslots.NewTimeslot | app/models/timeslot.rb:27-29 | A slot created with a start ends exactly 15 minutes later and has count 0 |
| Timeslots.DefaultTimeslot | db/migrate/20251124033225_create_timeslots.rb:7-8 | A slot with no capacity or count given has capacity 1 and count 0 |
| Timeslots.Available | app/models/timeslot.rb:17-19 | A slot is available exactly when at least one spot is open |
| Timeslots.NewTimeslotDefaults | db/migrate/20251124033225_create_timeslots.rb:7-8 | A default slot passes the field checks, is available and is not full |
| Timeslots.Full | app/models/timeslot.rb:17-23 | `full?` is exactly the negation of `available?` |
| Timeslots.FieldErrors | app/models/timeslot.rb:11-12 | The field checks pass exactly when capacity is positive and count is non-negative |
| Timeslots.ValidationErrors | app/models/timeslot.rb:11-13 | A slot is valid exactly when capacity > 0, count >= 0 and no other slot of its program has its start; the uniqueness error fires exactly on such a clash |
| Timeslots.ValidAppendKeepsUnique | app/models/timeslot.rb:13 | Saving a valid slot keeps per-program start times unique |
| Conferences.ConferenceErrors | app/models/conference.rb:8-19 | One error each for a name that is blank in the Unicode-whitespace sense of `blank?`, a missing start date or end date, and an end before the start; the order check fires only when both dates exist |
| Conferences.NoBreakSpaceNameBlank | app/models/conference.rb:8 | A name of one no-break space is rejected like an empty one; a name with a letter among Unicode spaces is present |
| Conferences.ValidIffOrdered | app/models/conference.rb:15-19 | A conference is valid exactly when the name is present, both dates exist and the end is not before the start; a single-day conference is valid |
| Conferences.NumDays | app/services/timeslot_generator.rb:11 | A valid conference's inclusive date range has end - start + 1 >= 1 days |
| ConferencePrograms.PairingErrors | app/models/conference_program.rb:5-6 | Errors for a missing conference, a missing program, and a program already paired with the same conference |
| ConferencePrograms.ValidAppendKeepsPairsUnique | app/models/conference_program.rb:6 | Saving rows one by one, each without errors, never pairs one program twice with one conference |
| ConferencePrograms.DaySchedulesOf | app/models/conference_program.rb:8-10 | A stored nil reads as the empty map; a stored map reads as itself |
| ConferencePrograms.SameProgramOtherConference | app/models/conference_program.rb:6 | A program may be paired with a different conference, because uniqueness is scoped by conference |
| ConferencePrograms.ProcessDaySchedules | app/controllers/conference_programs_controller.rb:78-93 | With no submitted map the stored map stays. Otherwise the output keys are a subset of the submitted keys, and a key survives exactly when its checkbox is "1" or true. A kept entry is rewritten to enabled true with its start and end copied |
| ConferencePrograms.Normalise | app/controllers/conference_programs_controller.rb:83-91 | Every output entry is enabled exactly true and every output key was submitted |
| ConferencePrograms.NormaliseIdempotent | app/controllers/conference_programs_controller.rb:84-90 | Normalising a normalised map returns it unchanged |
| ConferencePrograms.AssignParams | app/controllers/conference_programs_controller.rb:74-76 | Submitting the form never changes the capacity or the conference; the program changes only when given, and day schedules only through the normalisation |
| Generator.ResolveBound | app/services/timeslot_generator.rb:22-40 | Only a nil field falls back to the conference default; an empty string is kept and reads as midnight; an "HH:MM" field is that minute |
| Generator.ResolveWindowCases | app/services/timeslot_generator.rb:22-37 | Start and end each fall back to the conference hours independently and only when nil; an empty field gives midnight; the window exists exactly when both bounds resolve |
| Generator.DaySlots | app/services/timeslot_generator.rb:42-50 | A day's slots start at the window start, step by 15 minutes while before the end, number ceil((e-s)/15), all fall on that date, and each is a fresh slot of capacity 1 and count 0 |
| Generator.SlotsForDay | app/services/timeslot_generator.rb:11-15 | A day that is missing from the map, or whose enabled is not exactly true, yields nothing |
| Generator.SlotsForDayShape | app/services/timeslot_generator.rb:21-51 | One day's slots are fresh capacity-1 slots of the program, strictly increasing in start, all starting on that day |
| Generator.SlotsForDayStarts | app/services/timeslot_generator.rb:11-51 | A time is a start of day d's slots exactly when it falls on day d and is scheduled there |
| Generator.GenerateFromShape | app/services/timeslot_generator.rb:11-16 | The slots from day d on are fresh slots of the program, strictly increasing in start, and none starts before day d |
| Generator.Generate | app/services/timeslot_generator.rb:8-17 | An empty schedule map yields nothing; every run's slots are fresh capacity-1 slots of the program with strictly increasing starts |
| Generator.SaveEachOutcome | app/services/timeslot_generator.rb:44-48 | Saving a run with `create!` keeps every record exactly when each passes validation against what is saved before it; otherwise it raises at the first failure and the records before it stay saved |
| Generator.GeneratedSavesCleanly | app/models/timeslot.rb:11-13 | A generated record fails validation only when an existing row of its program already holds its start |
| Generator.GenerateAndSaveOutcome | app/services/timeslot_generator.rb:8-51 | A run over the program's existing rows saves completely exactly when none of its starts is taken; otherwise it raises at the first taken start, after saving the records before it |
| Generator.SecondRunRaises | app/services/timeslot_generator.rb:44-48 | Generating again over a completed non-empty run raises on its first record and saves nothing more |
| Generator.SaveEachKeepsUnique | app/models/timeslot.rb:13 | A completed save over rows with unique starts keeps them unique |
| Generator.GenerateKeepsStartsUnique | app/services/timeslot_generator.rb:42-50 | One run never produces two slots with the same start |
| Generator.GeneratedStartsExactly | app/services/timeslot_generator.rb:8-51 | A time is a generated start exactly when its date is in the range, that day is enabled, its window resolves, and the time lies on the 15-minute grid of the window |
| Generator.DisabledDayYieldsNothing | app/services/timeslot_generator.rb:11-15 | No slot starts on a day whose entry is missing or whose enabled is not exactly true |
| Generator.OnlyDayKeysConsulted | app/services/timeslot_generator.rb:11-13 | Two schedule maps that agree on the keys "0".."n-1" generate the same slots |
| Generator.EarlyReturnImmaterial | app/services/timeslot_generator.rb:9 | The early return for an empty map gives what the day loop would give anyway |
| Generator.ExampleOneHour | app/services/timeslot_generator.rb:42-50 | 09:00-10:00 gives 4 slots, starting 09:00 through 09:45 |
| Generator.ExampleHalfHour | app/services/timeslot_generator.rb:42-50 | 09:00-09:30 gives 2 slots, 15 minutes apart |
| Generator.ExampleDefaultHours | app/services/timeslot_generator.rb:26-37 | An enabled day with no times, under 09:00-17:00 defaults, gives 32 slots |
| Generator.ExampleOverrun | app/services/timeslot_generator.rb:42-50 | 09:00-09:20 gives 2 slots, the second ending at 09:30, past the window |
| Generator.ExampleEmptyTime | app/services/timeslot_generator.rb:26-40 | An empty start under 09:00 defaults reads as midnight, so "" to 10:00 gives 40 slots from 00:00; an empty end leaves the day empty |
| Generator.SubmittedDaysEnabled | app/controllers/conference_programs_controller.rb:84-90 | After normalisation, a day passes the generator's strict enabled test exactly when its checkbox was submitted |
| Generator.RawCheckboxNotEnabled | app/services/timeslot_generator.rb:13 | A stored entry whose enabled is the string "1" does not enable its day |
| Signups.OverlapsSymmetric | app/models/volunteer_signup.rb:21-25 | The half-open overlap test is symmetric |
| Signups.ClashesWithOwnSignup | app/models/volunteer_signup.rb:18-30 | The user has a signup on another slot, of any program, whose start is before this slot's end and whose end is after this slot's start |
| Signups.SignupErrors | app/models/volunteer_signup.rb:7-51 | Each error fires exactly under its condition: missing user or slot; the same (user, slot) already signed up; the user holds an overlapping signup on another slot of any program; count >= capacity; or a required qualification is not held, with the error naming exactly the missing set |
| Signups.AdmittedIff | app/models/volunteer_signup.rb:7-11 | A signup is admitted exactly when no check fires: both present, not a duplicate, no overlap, the slot available, and the required qualifications held |
| Signups.Create | app/models/volunteer_signup.rb:53-55 | Success exactly when there are no errors. Success inserts the signup and adds exactly 1 to its slot's count, leaving count <= capacity. Failure changes nothing and reports every error |
| Signups.Destroy | app/models/volunteer_signup.rb:57-59 | Removing a signup subtracts exactly 1 from its slot's count, changes no other column of that slot, and leaves every other slot unchanged |
| Signups.AddKeepsCounts | app/models/volunteer_signup.rb:53-55 | Inserting a new signup and adding 1 to its slot keeps every count equal to its number of signups |
| Signups.AddKeepsNoOverlaps | app/models/volunteer_signup.rb:18-30 | A signup that passes the overlap check leaves no user with two overlapping signups |
| Signups.CreatePreservesConsistency | app/models/volunteer_signup.rb:13-30 | Create keeps every count equal to its number of signups, and keeps each user's signups free of overlaps |
| Signups.CreatePreservesCapacity | app/models/volunteer_signup.rb:32-38 | When every count is within capacity, it stays within capacity after a create |
| Signups.DestroyPreservesConsistency | app/models/volunteer_signup.rb:57-59 | Destroy keeps counts equal to signups and keeps signups overlap-free |
| Signups.ReplayCount | app/models/volunteer_signup.rb:53-59 | After any run of signups and removals, a slot's count is its initial count plus the creates minus the destroys that took effect on it |
| Signups.ReplayPreservesConsistency | app/models/volunteer_signup.rb:13-14 | Any run of creates and destroys keeps counts equal to signups and signups overlap-free |
| SignupExamples.BackToBackAccepted | app/models/volunteer_signup.rb:18-30 | A slot starting when the user's held slot ends is admitted |
| SignupExamples.OverlapRejected | app/models/volunteer_signup.rb:21-25 | An overlapping slot of another program is rejected for the user who holds the first one, and admitted for another user |
| CapacityJob.ApplyAll | app/jobs/update_timeslot_capacity_job.rb:11-19 | Counts, programs and times are never changed. Other programs' slots and slots with count above the new value are left as they were. Every other slot of the program gets the new capacity and ends with count <= capacity |
| CapacityJob.TallyCoversProgram | app/jobs/update_timeslot_capacity_job.rb:8-22 | updated + skipped equals the number of the program's slots |
| CapacityJob.Perform | app/jobs/update_timeslot_capacity_job.rb:4-23 | An unknown program returns {0, 0} and changes nothing. A known program, with a positive new value and non-negative counts, finishes with the update applied and the matching tally. A raise happens at the first row that would fail validation, with every earlier row already processed and no failing row saved |
| CapacityJob.CascadeIdempotent | app/jobs/update_timeslot_capacity_job.rb:11-19 | A second run with the same value leaves the state unchanged and gives the same tally |
| CapacityJob.ExampleTally | app/jobs/update_timeslot_capacity_job.rb:13-19 | Counts 2, 4 and 6 under a new capacity of 3 give one update and two skips, with the skipped rows unchanged |
| ScheduleGrid.TimeLabels | app/controllers/schedule_controller.rb:64-80 | The labels are start, start+15, ... while before the end: ceil((e-s)/15) of them, strictly increasing, each missing hour defaulting to 08:00 and 18:00 |
| ScheduleGrid.DefaultLabels | app/controllers/schedule_controller.rb:66-69 | With no conference hours there are 40 labels, 08:00 through 17:45 |
| ScheduleGrid.CellOf | app/controllers/schedule_controller.rb:50-56 | A cell copies the slot's count and capacity, and its full flag is exactly `full?` |
| ScheduleGrid.DayCells | app/controllers/schedule_controller.rb:49-57 | The cells of a day are keyed by the HH:MM of exactly the slots starting on that date |
| ScheduleGrid.EveryCellShown | app/controllers/schedule_controller.rb:49-57 | With per-program unique starts, every slot of the day appears under its own HH:MM with its own cell |
| Reports.Filter | app/controllers/conference_reports_controller.rb:46-60 | The output holds exactly the input's elements that pass the test, with their multiplicities |
| Reports.SortByStart | app/controllers/conference_reports_controller.rb:16 | The output is ordered by start time and is a permutation of the input |
| Reports.ShiftAssignments | app/controllers/conference_reports_controller.rb:12-16 | Exactly the filtered slots with count > 0, ordered by start time |
| Reports.UnmannedShifts | app/controllers/conference_reports_controller.rb:24-28 | Exactly the filtered slots that are available (count < capacity), ordered by start time |
| Reports.Kept | app/controllers/conference_reports_controller.rb:46-60 | A kept slot belongs to the conference and passes each filter that is present; with no filters every slot of the conference is kept |
| Reports.SpotsAvailable | app/controllers/conference_reports_controller.rb:95 | The column is positive exactly for an available slot, and count plus the column is the capacity |
| Reports.UnmannedRowsHaveRoom | app/controllers/conference_reports_controller.rb:95 | Every unmanned row has at least one spot available |
| Reports.NoParamsKeepsConference | app/controllers/conference_reports_controller.rb:46-47 | With neither parameter, every slot of the conference is kept |
| Reports.FiltersIntersect | app/controllers/conference_reports_controller.rb:49-57 | Both parameters together keep exactly the slots that each keeps on its own |
| ConferenceRoles.RoleErrors | app/models/conference_role.rb:5-6 | A role row is rejected exactly for a name other than the two allowed, or for an already-held (user, conference, role name) |
| ConferenceRoles.LeadAndAdminCoexist | app/models/conference_role.rb:5 | A lead of a conference may also be made its admin |
| Users.VillageAdmin | app/models/user.rb:16-18 | A user is a village admin exactly when it holds the village-wide role named "village_admin" |
| Users.ConferenceLeadOf | app/models/user.rb:20-22 | A user leads c exactly when some role row of c gives it the name "conference_lead" |
| Users.ConferenceAdminOf | app/models/user.rb:24-26 | A user administers c exactly when some role row of c gives it the name "conference_admin" |
| Users.Volunteer | app/models/user.rb:36-39 | Every saved user is a volunteer, whatever its roles |
| Users.LeadOrAdminOf | app/models/user.rb:28-30 | Lead-or-admin of c holds exactly when a role row of c with an allowed name exists for the user |
| Users.CanManage | app/models/user.rb:32-34 | A village admin manages every conference; anyone else manages exactly the conferences they hold a role in |
| Users.RolelessManagesNothing | app/models/user.rb:32-34 | A user with no global role and no role row manages no conference |
| Users.LeadIsScoped | app/models/user.rb:20-26 | A lead of one conference is not a lead or admin of another |
| ConferencePolicy.Index | app/policies/conference_policy.rb:2-4 | Any signed-in saved user may list conferences |
| ConferencePolicy.Show | app/policies/conference_policy.rb:6-8 | Any signed-in saved user may view a conference |
| ConferencePolicy.Create | app/policies/conference_policy.rb:10-12 | Only a signed-in village admin may create a conference |
| ConferencePolicy.Update | app/policies/conference_policy.rb:14-16 | Update is allowed exactly to a signed-in village admin or holder of a role in the conference |
| ConferencePolicy.Destroy | app/policies/conference_policy.rb:18-20 | Only a signed-in village admin may destroy a conference; conference roles do not count |
| ConferencePolicy.DestroyImpliesUpdate | app/policies/conference_policy.rb:14-20 | Whoever may destroy a conference may update it |
| ConferencePolicy.LeadUpdatesButCannotDestroy | app/policies/conference_policy.rb:10-20 | A lead who is not a village admin may update but neither create nor destroy |
| ConferencePolicy.NilUserDenied | app/policies/conference_policy.rb:2-20 | No user, no action |
| ConferenceProgramPolicy.AllActionsAgree | app/policies/conference_program_policy.rb:2-20 | All five actions return the same value, the conference update permission |
| ConferenceProgramPolicy.OtherConferenceLeadDenied | app/policies/conference_program_policy.rb:2-20 | A lead of a different conference is denied |
| ConferenceProgramPolicy.VillageAdminAllowed | app/policies/conference_program_policy.rb:2-20 | A village admin is allowed for any conference |
| ProgramPolicy.Index | app/policies/program_policy.rb:2-4 | Any signed-in saved user may list programs |
| ProgramPolicy.Show | app/policies/program_policy.rb:6-8 | Any signed-in saved user may view a program |
| ProgramPolicy.ManagesProgram | app/policies/program_policy.rb:17-21 | A program can be managed through its conference only when it is conference-specific, and then by whoever manages that conference |
| ProgramPolicy.Create | app/policies/program_policy.rb:10-22 | Create is allowed to a village admin, and otherwise only on a conference-specific program instance to a holder of a role in its conference; never on the class for anyone else |
| ProgramPolicy.Update | app/policies/program_policy.rb:24-33 | Update is allowed to a village admin, or on a conference-specific program to a holder of a role in its conference |
| ProgramPolicy.Destroy | app/policies/program_policy.rb:35-44 | Destroy is allowed to a village admin, or on a conference-specific program to a holder of a role in its conference |
| ProgramPolicy.VillageAdminAllowed | app/policies/program_policy.rb:10-44 | A village admin may create, update and destroy any record |
| ProgramPolicy.VillageLevelDenied | app/policies/program_policy.rb:10-44 | For anyone else a village-level program, or the Program class, gives false for create, update and destroy |
| ProgramPolicy.ConferenceSpecificFollowsConference | app/policies/program_policy.rb:16-44 | For anyone else and a conference-specific program, create, update and destroy equal managing the program's conference |
| RoleAssignment.RoleNameOrDefault | app/controllers/conference_roles_controller.rb:6 | A missing role name means conference admin |
| RoleAssignment.Assign | app/controllers/conference_roles_controller.rb:4-25 | Both role names need the same permission, and without it nothing happens. On success the role is held. An already-held role leaves the rows unchanged. No existing row is altered. An invalid name is reported and changes nothing |
| RoleAssignment.AssignLeavesOneCopy | app/controllers/conference_roles_controller.rb:16-20 | After an assignment exactly one row holds that (user, conference, role name) and the rows stay unique |
| RoleAssignment.AssignIdempotent | app/controllers/conference_roles_controller.rb:16-20 | Assigning the same role a second time changes nothing |
| RoleAssignment.RemoveAsWritten | app/controllers/conference_roles_controller.rb:27-41 | The role is looked up among all rows. Without permission on the route's conference nothing happens. The last-lead guard counts the route's conference. Otherwise exactly that row goes |
| RoleAssignment.AsWrittenEmptiesOtherConference | app/controllers/conference_roles_controller.rb:28-39 | A non-village-admin who manages conference 1 removes the only lead of conference 2 through conference 1's route |
| RoleAssignment.Remove | app/controllers/conference_roles_controller.rb:27-41 | The role must belong to the route's conference. Without permission nothing happens. Removal is refused exactly when the role is a lead, the conference has at most one lead and the actor is not a village admin. In every other case exactly that row goes |
| RoleAssignment.LeadCountAfterRemoval | app/controllers/conference_roles_controller.rb:33-39 | Removing a row lowers a conference's lead count by one if it was one of its leads, and leaves it otherwise |
| RoleAssignment.KeepsALead | app/controllers/conference_roles_controller.rb:32-39 | With the scoped lookup, no one but a village admin takes any conference from one lead or more to none |

## Findings

| source | as written | input that shows it | evidently intended | confidence | as-written member | corrected member |
|---|---|---|---|---|---|---|
| app/controllers/conference_roles_controller.rb:28 | `destroy` finds the role among all role rows. The permission check and the last-lead count both use the route's conference | Conference 1 has leads 10 and 11; conference 2 has only lead 12. User 10, not a village admin, deletes role 3 (user 12's lead of conference 2) through conference 1's route | The role is looked up within the route's conference, so the last-lead guard counts the right conference | high, not executed | RoleAssignment.RemoveAsWritten, RoleAssignment.AsWrittenEmptiesOtherConference | RoleAssignment.Remove, RoleAssignment.KeepsALead |

## Left out

- Request plumbing is left out: redirects, flash messages, parameter parsing, Devise sign-in and Pundit's `authorize` raising. A denied or refused action is modelled as an outcome with no change.
- Time zones and string parsing are left out. "HH:MM" values and dates are integers. The empty time field is modelled; any other unparseable time string is out of scope.
- Concurrency is left out. The signup's check-then-insert, the unlocked `increment!`/`decrement!`, the generator's `create!` loop outside any transaction, and job queuing are all modelled as sequential steps. Nothing here claims race-freedom. A run that hits a taken start keeps the records saved before it, as `Generator.GenerateAndSaveOutcome` states.
- CSV and iCalendar exports, mailers and the browser-side controllers are left out. Only the "spots available" column of the unmanned CSV is modelled, as `Reports.SpotsAvailable`.
- Qualification lookups are inputs. `User#has_qualification?` and `Program#qualifications` are not part of this model, so the required and held sets are taken as given.
- `TimeslotsController#update` is left out. It can set a capacity below the current count, so count <= capacity is not a global invariant. The model proves it is preserved by the signup path and by the capacity job only.
- The other controllers and the thin join models are left out: the setup wizard, villages, qualifications, the leaderboard, the calendar, program roles and the rest. Where the core needs them, they are sets and maps.
- Behaviour found only in tests, with no source behind it, is left out: generation on program create, regeneration on date or hour changes, capacity inheritance, archiving, statistics and program-lead permissions.
- Generator.Generate: requires both conference dates. A saved conference always has them, because both columns are `null: false` (db/migrate/20251123044805_create_conferences.rb:7-8). On an unsaved conference the source misbehaves differently for each date: with no start date the range raises, and with no end date `start_date..nil` is an endless range, so a non-empty map loops forever. Neither case is modelled.
- Generator.ResolveBound: a time field that is neither empty nor "HH:MM" (such as " " or "9am") is not modelled; `Time.zone.parse` accepts some such strings and rejects others.
- Conferences.NumDays: requires both dates, for the same reason.
- Signups.Destroy: requires the signup to exist with its slot. Destroying a record that was never saved is not modelled.
- CapacityJob.Perform: visits the slots in the order given. `find_each` visits them in id order in batches, and the batching is not modelled.
- Signups.ClashesWithOwnSignup only sees signups whose slot is present in the store. Signups of deleted slots are removed by the slot's `dependent: :destroy`.
- RoleAssignment.Assign: a missing user (`User.find` raising) and an empty role-name string are not modelled separately. The empty string is just an invalid name.
