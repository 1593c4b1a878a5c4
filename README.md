# Activity session manager of the home screen

This project models the session logic of `ActivityHomeScreen` in
`src/screens/Home.js`, an activity-tracking app. The model covers four parts:

- the activity list, a sequence of `{id, title, time, isActive}` records;
- the commands that change the list: `checkActivity` (set-active), `addItem`,
  `updateItem` and `deleteItem`;
- the running millisecond counter (`timeRef`, `startTimeRef`, displayed
  `time`), which `tick` advances and the activation effect seeds or zeroes;
- the time commit (`updateTimeOnActiveItem`) and the storage gate
  (`saveToStorage`), which the suspend handler also uses.

The project has four modules:

- `Wrappers` holds `Option`.
- `Activities` holds the record types and the pure list transforms
  (`findIndex`/`find`, commit, set-active map, merge map, append, delete
  filter), with lemmas about them.
- `Timer` holds the counter: one tick, a run of ticks, and the activation
  effect as a function of the list.
- `Home` holds the class `ActivityHomeScreen`. Its fields are the list, the
  three counter fields, the `isStorageEnabled` prop and a ghost log `saves` of
  every stored list. Its methods are the screen's commands, each specified by
  the `Activities` and `Timer` functions. The invariant `Valid()` says that
  with no active item the counter and the display are 0.

The clock reading `now` is a parameter of every step that reads the clock.
The stored list is an `Option` input to the constructor, and the default list
(`activities.json`) is a parameter too.

Some behaviours of the code are easy to misread; the model follows the code:

- The suspend handler saves through the same `isStorageEnabled` gate as every
  command (Home.js:40 calls `saveToStorage`). It is not a forced save.
- `updateItem` merges the edit first and commits the counter afterwards
  (Home.js:122-129). A `time` carried by an edit of the active record is
  therefore overwritten by the counter; see `UpdateItemOverridesTimeEdit`.
- `tick` fires when the advance is at least 100 ms (`>=`, Home.js:81), not
  only when it exceeds 100 ms.
- `deleteItem` removes every record with the id, not only one.
- Seeding the counter on activation does not touch the displayed time. The
  display catches up at the first tick that fires.
- The screen tracks one activity at a time, but the code does not keep "at
  most one active record" across every command. `checkActivity` keeps it when
  ids are unique: its map switches on every record with the id. `deleteItem`
  keeps it too (`WithoutKeepsAtMostOneActive`). `addItem` of an active record (Home.js:115) and an edit with
  `isActive: true` (Home.js:124) both add a second active record, even with
  unique ids; see `AddItemCanAddSecondActive` and `AddItemSecondActiveExample`. The invariant is therefore a
  precondition of the lemmas that rely on it, not an invariant of the class.
- `updateItem` with an id that no record has is not a no-op, unlike
  `checkActivity` and `deleteItem`. It still commits the counter into the
  first active record and saves (Home.js:129-130); see
  `UpdateItemAbsentIdCommits`.
- An edit that switches a record on while nothing is active commits the
  counter, which is 0 then, into that record. Its stored time is reset to 0;
  see `UpdateItemSwitchOnCommitsCounter`. Whether an edit carries `isActive`
  depends on the item-detail dialog, which is not part of this model.

React runs the activation effect only when `activeItem` changes identity.
The model runs it in exactly those cases, one condition per command:

- `checkActivity` runs it whenever it changes the list, because every record
  is copied.
- `addItem` runs it when there was no active item and the new item is active.
- `updateItem` runs it when the first active record moved, or when that
  record is the edited one (a new object).
- `deleteItem` runs it when the deleted id was the active item's.

## Model

| member | source | states |
|---|---|---|
| `Activities.FindIndex` | src/screens/Home.js:94 | the result is the first index whose element satisfies the predicate (none before it does), or none when no element does |
| `Activities.ActiveIndex` | src/screens/Home.js:94 | the position of the first active record, or none when no record is active |
| `Activities.IndexOfId` | src/screens/Home.js:101 | the position of the first record with the id, or none when no record has it |
| `Activities.ActiveItem` | src/screens/Home.js:25-27 | `activeItem` is none exactly when no record is active; otherwise it is the first active record of the list (the one at `ActiveIndex`) |
| `Activities.ActiveId` | src/screens/Home.js:62 | `activeItem?.id`: none exactly when no record is active, otherwise the id of the first active record |
| `Activities.CommitTime` | src/screens/Home.js:93-98 | only the first active record's `time` changes, to the counter; ids, titles, flags and length are kept; with no active record the list is unchanged |
| `Activities.CommitTimeKeepsActive` | src/screens/Home.js:93-98 | a commit leaves the active record's position and id unchanged |
| `Activities.CommitTimeLastWins` | src/screens/Home.js:93-98 | two commits in a row equal the second one alone |
| `Activities.SetActive` | src/screens/Home.js:104-106 | a record ends active exactly when it has the id and the state is true; every other field of every record is kept |
| `Activities.Toggles` | src/screens/Home.js:101-102 | the guard of `checkActivity`; `TogglesIff` states what it means |
| `Activities.TogglesIff` | src/screens/Home.js:101-102 | the guard holds exactly when some record has the id, no earlier record has it, and that record's flag differs from the requested state |
| `Activities.CheckedList` | src/screens/Home.js:99-112 | without the guard the list is returned unchanged; with it, ids, titles and order are kept, a record is active iff it has the id and state is true, and only the previously active record's time becomes the counter |
| `Activities.CheckActivityNoOpIff` | src/screens/Home.js:101-102 | `checkActivity` changes the list if and only if the id is present and its first record's flag differs from the requested state |
| `Activities.CheckActivityAtMostOneActive` | src/screens/Home.js:104-106 | with unique ids, after a change at most one record is active: the id's record when state is true, none when false |
| `Activities.CheckActivityIdempotent` | src/screens/Home.js:101-110 | repeating the same `checkActivity` (whatever the counter then) changes nothing more |
| `Activities.CheckActivityKeepsIds` | src/screens/Home.js:104-106 | `checkActivity` keeps ids unique |
| `Activities.ActiveIndexAppend` | src/screens/Home.js:115 | the first active record of an appended list is the first list's one if it has one, otherwise the appended part's, shifted |
| `Activities.AddItemKeepsAtMostOneActive` | src/screens/Home.js:113-119 | appending an inactive record, or any record to a list with none active, keeps at most one active, and says which item is then active |
| `Activities.AddItemCanAddSecondActive` | src/screens/Home.js:115 | appending an active record to any list that already has an active record breaks the at-most-one-active invariant |
| `Activities.AddItemSecondActiveExample` | src/screens/Home.js:115 | for example, a one-record list with its record active plus a second active record: ids are unique, the invariant held before and fails after |
| `Activities.Merge` | src/screens/Home.js:124 | `{...a, ...itemData}`: the id is the edit's; each field present in the edit replaces the record's, each absent field keeps the record's |
| `Activities.MergeInto` | src/screens/Home.js:122-128 | length and ids are kept; records with the edit's id are merged, the others are kept unchanged |
| `Activities.UpdatedList` | src/screens/Home.js:122-129 | the list `updateItem` leaves keeps length, ids and order; a record with the edit's id takes the edit's title and flag where present, every other record keeps its own |
| `Activities.UpdateItemShape` | src/screens/Home.js:120-131 | `updateItem` keeps length, ids and order; matched records are merged, others unchanged, except the first active record afterwards takes the counter as its time |
| `Activities.UpdateItemOverridesTimeEdit` | src/screens/Home.js:122-129 | an edit of the record that stays active ends with the counter as its time, whatever time the edit carried |
| `Activities.UpdateItemAbsentIdCommits` | src/screens/Home.js:122-130 | an edit whose id no record has is not a no-op: the list becomes the commit of the counter into the first active record |
| `Activities.UpdateItemKeepsAtMostOneActive` | src/screens/Home.js:120-131 | an edit that does not switch a record on keeps at most one active |
| `Activities.UpdateItemSwitchOnCommitsCounter` | src/screens/Home.js:122-129 | an edit switching a record on while none is active makes the first record with that id the active one and commits the counter into its time, whatever it stored or the edit carried |
| `Activities.Without` | src/screens/Home.js:143 | a record is kept iff it was in the list and its id differs from the deleted id; the list does not grow |
| `Activities.WithoutAppend` | src/screens/Home.js:143 | the filter distributes over concatenation, so kept records stay in their relative order |
| `Activities.WithoutAbsent` | src/screens/Home.js:143 | deleting an id no record has leaves the list unchanged |
| `Activities.WithoutIdempotent` | src/screens/Home.js:143 | deleting the same id twice equals deleting it once |
| `Activities.WithoutKeepsActive` | src/screens/Home.js:136-143 | deleting an id other than the active item's keeps the same active item |
| `Activities.WithoutDropsActive` | src/screens/Home.js:136-143 | with at most one active, deleting the active item's id leaves no active item, and still at most one active |
| `Activities.AtMostOneActiveCons` | src/screens/Home.js:26 | a list with one more record in front has at most one active record iff, when that record is active, the rest has none, and otherwise the rest has at most one |
| `Activities.WithoutKeepsAtMostOneActive` | src/screens/Home.js:143 | deleting any id keeps the at-most-one-active invariant |
| `Timer.Ticked` | src/screens/Home.js:78-87 | below 100 ms nothing changes (iff); otherwise the counter grows by at least 100, the display equals it and the baseline is the reading; the counter never decreases; counter minus baseline is conserved; the pending rest is below 100 ms |
| `Timer.TickedAsWritten` | src/screens/Home.js:78-85 | as written, a firing tick adds the advance measured from the first reading but puts the baseline at the second reading |
| `Timer.TickAsWrittenLosesGap` | src/screens/Home.js:79-84 | a firing tick whose second reading is later than its first loses exactly the gap between them from counter minus baseline |
| `Timer.TickAsWrittenCounterexample` | src/screens/Home.js:79-84 | baseline 0, readings 100/101 then 201: as written the counter shows 200 with nothing pending; the corrected tick shows 201 |
| `Timer.RunTicks` | src/screens/Home.js:78-87 | over any run of ticks the counter never decreases and counter minus baseline is conserved |
| `Timer.TicksTrackElapsed` | src/screens/Home.js:78-87 | after ticks at non-decreasing readings, the counter is the start value plus the elapsed time, less a rest below 100 ms |
| `Timer.TickCoalescing` | src/screens/Home.js:81-85 | ticks 40 and 80 ms after the baseline change nothing; one at 120 ms makes one update by the whole 120 ms |
| `Timer.Activation` | src/screens/Home.js:61-73 | with no active item, counter and display are 0; a newly active id seeds the counter from its stored time and puts the baseline at now; the same id only ticks |
| `Home.ActivityHomeScreen.Load` | src/screens/Home.js:29-35 | the stored list when there is one, otherwise the defaults; nothing saved; the counter is as the activation effect leaves it |
| `Home.ActivityHomeScreen.SaveToStorage` | src/screens/Home.js:88-92 | the list is appended to the save log exactly when storage is enabled |
| `Home.ActivityHomeScreen.Tick` | src/screens/Home.js:78-87 | one frame leaves the counter fields as `Timer.Ticked` of the old ones, and keeps `Valid()` |
| `Home.ActivityHomeScreen.ActivationEffect` | src/screens/Home.js:61-77 | the counter fields become `Timer.Activation` of the list, the previous active id and the old counter; `Valid()` holds afterwards |
| `Home.ActivityHomeScreen.CheckActivity` | src/screens/Home.js:99-112 | the list becomes `CheckedList` of the old list and counter; without the guard nothing else changes (no save, same counter); with it the save goes through the gate and the effect runs against the previously active id; `Valid()` is kept |
| `Home.ActivityHomeScreen.SwitchActive` | src/screens/Home.js:102-108 | when the guard holds: the list becomes `CheckedList`, the gated save receives it, and the counter fields become `Timer.Activation` of the new list against the previously active id |
| `Home.ActivityHomeScreen.AddItem` | src/screens/Home.js:113-119 | the new item is appended; the save goes through the gate; the counter changes only if the new item became the active one |
| `Home.ActivityHomeScreen.UpdateItem` | src/screens/Home.js:120-133 | the list becomes merge-then-commit of the old list; the save goes through the gate; the effect runs exactly when the active item is a new object |
| `Home.ActivityHomeScreen.DeleteItem` | src/screens/Home.js:135-147 | the list becomes the filtered list; the save goes through the gate; when the deleted id is not the active item's, the counter is unchanged; when it is, the counter is zeroed and the effect runs on the new list: with at most one active record nothing is active afterwards and counter and display stay 0, while another active record left in the list reseeds the counter from its time |
| `Home.ActivityHomeScreen.Suspend` | src/screens/Home.js:36-43 | the counter is committed into the active record; the save goes through the same gate; `Valid()` is kept |
| `Home.ActivateTickDeactivate` | src/screens/Home.js:61-112 | switching a record on, ticking and switching it off again commits exactly the counter into it; that value is its old time plus the elapsed time, less a rest below 100 ms; other records are unchanged and nothing is active afterwards |

## Left out

- Home.ActivityHomeScreen.Tick: the baseline is reset to the clock reading the advance was measured against, not to a second reading; see Findings.
- Timer.Ticked: the same single-reading tick as `Home.ActivityHomeScreen.Tick`; `Timer.TickedAsWritten` models the second reading.
- Rendering, the JSX tree, `StyleSheet`, and the focus, scroll and create-dialog flags: presentation, not session logic.
- `requestAnimationFrame` and `cancelAnimationFrame`: one `Tick(now)` call is one frame. `Tick` requires an active item because the frame loop is cancelled whenever none is active.
- Registering the `beforeunload` and `AppState` listeners: platform plumbing. `Suspend` is the handler body.
- `loadDayFlowItems` and `storeDayFlowItems` are asynchronous I/O. Saving appends to the ghost log `saves`. Loading is an `Option` input. A command that arrives before the load resolves is not modelled.
- `Date.now()` and `new Date()` become integer parameters. The coercion of the stored `Date` object to a number is not modelled.
- `usePrevious`: the previous render's active id is passed to the effect explicitly.
- React's state batching: each `setActivities` updater is one atomic step. The identity-based effect trigger is written out per command, as described above.
- In-place mutation by `updateTimeOnActiveItem`: it also changes the record objects that the previous state shares. The model works on values, so that aliasing is not captured.
- `isStorageEnabled` is fixed at construction. A prop that changes between renders is not modelled.
- `usePrevious`, `formatTime` and `getCurrentDate` live in `utils/functions`, which is not part of this model. `activities.json` is not part of this model either; it is the `defaults` parameter.
- `src/components/activity/Item.js` (swipe gestures, springs, double-tap detection) and the `Modal`/`Button` overrides: UI gesture handling and styling.
- `deleteItem` with a null or undefined `itemData`: `DeleteItem` takes the id as a plain string. The guard at Home.js:136 tolerates a missing `itemData`, but the filter at Home.js:143 would throw inside the updater; the caller, the item-detail dialog, is not part of this model.
- JavaScript loose equality in `a.id != itemData.id`: ids are strings, so it is plain inequality here.

## Findings

| source | as written | input that shows it | evidently intended | confidence | as-written member | corrected member |
|---|---|---|---|---|---|---|
| src/screens/Home.js:79-84 | `tick` measures the advance against one `Date.now()` reading (line 79) but resets the baseline from a second reading (line 84) | baseline 0; a tick reads 100 then 101; the next tick reads 201: the counter shows 200 with nothing pending although 201 ms passed | reset the baseline to the reading the advance was measured against, so that no millisecond is lost | not executed; low impact: the readings differ only when the millisecond turns over between the two calls | `Timer.TickAsWrittenCounterexample` | `Timer.TicksTrackElapsed` |
