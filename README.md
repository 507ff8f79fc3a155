# SporeAutoSave, modelled in Dafny

SporeAutoSave is a mod for the game Spore. It saves the player's game
periodically and keeps a rotating set of backup copies of the save
folder. The repository holds three generations of the autosave policy,
and this project models all three:

- **`AutoSaveStrategy`** (`autosave_strategy.dfy`, `backup_rotation.dfy`) is a
  simulator strategy class.
  - Entering the cell, creature, tribe, civilization or space stage arms a
    deadline one interval ahead.
  - The game's save message restarts the interval. Pausing freezes the time
    left, in whole seconds, and resuming restores it.
  - When `Update` finds the deadline reached, it backs up the save folder
    and calls the game's save routine only if the backup succeeded. If the
    backup failed, it retries one minute later. Nothing happens while
    paused, or while on a planet in the space stage.
  - The backup evicts the oldest `*.Backup.*` directory when the count has
    reached the maximum. It then copies the save into
    `\Game0.Backup.YYYY-MM-DD.HH_MM_SS`.
- **The newer `AutosaveThreadFunc`** (`autosave_loop.dfy`,
  `autosave_thread.dfy`) is a background thread that wakes up once a
  second.
  - It decides whether the game may be saved. The simulator must not be
    loading, and the game must be in a stage, but not on a planet in space.
    A window gate must also pass: the options button is shown, and the
    options window, a communication panel and the message box are not.
  - It then runs a counter machine over `secondsPassed`, `minutesPassed`,
    `justInGameHasSlept` and the `g_ManuallySavedByUser` flag, which the
    game's hooked save function raises.
  - `Initialize` starts the thread only for a positive interval read with
    `std::stoi`.
- **The first `AutosaveThreadFunc`** (`legacy_autosave_thread.dfy`) is the
  same counter machine with a coarser eligibility test and no window gate.
  Lemmas state where the two versions differ.

Modelling choices:
- The clock, the file system, `localtime_s` and the simulator's state are
  explicit inputs.
  - Time is in nanosecond ticks, the period of the Microsoft library's
    `high_resolution_clock`.
  - The backup root is a `Disk` value: whether it exists, and its entries
    (path, is a directory, last write time).
  - `BackupSave` takes the outcomes of `remove_all`, `localtime_s` and the
    recursive `copy` as an `FsOutcomes` value, and returns the result and
    the disk afterwards.
- `size_t` is 32 bits wide, as in the 32-bit game process. A negative
  configured maximum therefore wraps to a value of at least 2^31.
- `std::stoi` follows the Microsoft library: it skips white space, reads an
  optional sign and the leading digits (`ReadNumber`), and ignores what
  follows them. No
  digits, or a value outside 32 bits, is an error.
- `std::sort` does not fix the order of backups with equal write times, so
  the evicted backup is specified as *an* oldest one.

Where the code does less than its names, comments and configuration keys
suggest, the model follows the code:
- Successful autosaves do not restart the deadline in `Update` itself. Only
  the game's `OnSave` message does that (`AutoSaveStrategy.cpp:143-154`).
- A manual save does not restart either thread's counters: it only sets the
  flags (`SporeAutoSave/dllmain.cpp:205-209`,
  `SporeAutoSave/SporeAutoSave/dllmain.cpp:103-107`). An autosave can
  therefore follow it one iteration later (`ManualSaveDoesNotRestartCount`).
- Eviction removes one backup per call. With more backups than the maximum
  (after the maximum was lowered), a successful call leaves the count
  unchanged rather than bringing it down to the maximum
  (`BackupSaveEvictsOnlyOne`).
- With a maximum of 0 and no backups, `backupSaveList.at(0)` throws outside
  the `try`. The model's result is `OutOfRange`, with nothing touched.
- The per-stage settings `SaveInCellStage` … `SaveInSpaceStage` are written
  to the configuration (`SporeAutoSave/Config.cpp:35-39`) but never read. Every stage arms the timer.
- The window list examined by the newer thread omits two of the five
  windows on its exclusion list (`0x0755F180`, `0x076B3543`), so those two
  have no effect. The model keeps the lists as written, and
  `UnlistedPanelDoesNotBlock` exhibits the case.

## Model

| member | source | states |
|---|---|---|
| Host.SizeT | SporeAutoSave/AutoSaveStrategy.hpp:47-52 | the `int` maximum stored into a 32-bit `size_t`: unchanged when non-negative, otherwise congruent modulo 2^32 and at least 2^31 |
| Decimal.DecimalString | SporeAutoSave/dllmain.cpp:259 | the decimal spelling of a number is all digits, has no leading zero and denotes the number |
| Decimal.TwoDigits | SporeAutoSave/AutoSaveStrategy.cpp:76 | a zero-padded two-digit field denotes its value |
| Decimal.FourDigits | SporeAutoSave/AutoSaveStrategy.cpp:76 | a four-digit year field denotes its value |
| Decimal.SkipSpaces | SporeAutoSave/dllmain.cpp:262 | the text after the leading white space is a suffix of the input, starts with a non-space, and everything skipped is white space |
| Decimal.LeadingDigits | SporeAutoSave/dllmain.cpp:262 | the longest all-digit prefix: a prefix, all digits, followed by a non-digit or the end |
| Decimal.ReadNumber | SporeAutoSave/dllmain.cpp:262 | reading a sign and digits succeeds only on text that contains a digit |
| Decimal.Stoi | SporeAutoSave/dllmain.cpp:262 | `std::stoi` succeeds only on text that contains a digit |
| Decimal.StoiSkipsSpaces | SporeAutoSave/dllmain.cpp:262 | any run of leading white space is skipped: the text reads as what follows it |
| Decimal.SkipSpacesPrefix | SporeAutoSave/dllmain.cpp:262 | skipping white space stops exactly at the first character that is not white space |
| Decimal.StoiReadsDigits | SporeAutoSave/dllmain.cpp:262-268 | any run of digits followed by non-digit text reads as its value, or throws `std::out_of_range` above 2147483647 |
| Decimal.StoiReadsPlusDigits | SporeAutoSave/dllmain.cpp:262-268 | a plus sign, a run of digits and non-digit text read as the digits' value, or throw `std::out_of_range` above 2147483647 |
| Decimal.StoiReadsMinusDigits | SporeAutoSave/dllmain.cpp:262-268 | a minus sign, a run of digits and non-digit text read as the negated value, or throw `std::out_of_range` below -2147483648 |
| Decimal.StoiRejectsNonDigit | SporeAutoSave/dllmain.cpp:262-268 | text that starts with neither white space, a sign nor a digit throws `std::invalid_argument` |
| Decimal.StoiReadsDecimal | SporeAutoSave/dllmain.cpp:259-262 | every decimal spelling of an `int`, followed by any non-digit text, reads back as that number |
| Decimal.StoiRejectsTooLarge | SporeAutoSave/dllmain.cpp:262-268 | a decimal spelling above 2147483647, followed by any non-digit text, does not read (`std::out_of_range`) |
| BackupRotation.BackupsMembers | SporeAutoSave/AutoSaveStrategy.cpp:17-28 | an entry is listed exactly when it is on the disk, is a directory and its path contains `.Backup.` |
| BackupRotation.Backups | SporeAutoSave/AutoSaveStrategy.cpp:17-28 | filtering never lengthens the entry list |
| BackupRotation.BackupsConcat | SporeAutoSave/AutoSaveStrategy.cpp:17-28 | the filter keeps directory order: the backups of two consecutive runs of entries are the backups of each, concatenated |
| BackupRotation.InsertByWriteTime | SporeAutoSave/AutoSaveStrategy.cpp:31-37 | inserting into an oldest-first list keeps it oldest-first and adds exactly that entry |
| BackupRotation.SortOldestFirst | SporeAutoSave/AutoSaveStrategy.cpp:31-37 | the sort returns a permutation of its input ordered by ascending last write time |
| BackupRotation.GetBackupSaveList | SporeAutoSave/AutoSaveStrategy.cpp:13-40 | the list is a permutation of the backup directories of the root, oldest first |
| BackupRotation.RemovePathMembers | SporeAutoSave/AutoSaveStrategy.cpp:57 | `remove_all` deletes exactly the entries at the evicted path and keeps every other one |
| BackupRotation.RemovePath | SporeAutoSave/AutoSaveStrategy.cpp:57 | removal never lengthens the entry list |
| BackupRotation.RemovePathConcat | SporeAutoSave/AutoSaveStrategy.cpp:57 | removal keeps the order of the remaining entries: it acts on two consecutive runs of entries separately |
| BackupRotation.AddDirectory | SporeAutoSave/AutoSaveStrategy.cpp:84 | after the copy the new backup directory is on the disk with the copy's write time |
| BackupRotation.AddDirectoryMembers | SporeAutoSave/AutoSaveStrategy.cpp:84 | after the copy the disk holds exactly the new directory and every earlier entry at another path |
| BackupRotation.DatePart | SporeAutoSave/AutoSaveStrategy.cpp:76 | `%F` is ten characters wide |
| BackupRotation.ClockPart | SporeAutoSave/AutoSaveStrategy.cpp:76 | `%H_%M_%S` is eight characters wide |
| BackupRotation.Timestamp | SporeAutoSave/AutoSaveStrategy.cpp:76 | the timestamp is nineteen characters wide |
| BackupRotation.BackupDirectoryName | SporeAutoSave/AutoSaveStrategy.cpp:76 | the directory name is `\Game0.Backup.` followed by the nineteen-character timestamp |
| BackupRotation.FieldsRoundTrip | SporeAutoSave/AutoSaveStrategy.cpp:76 | three digit fields joined by a separator parse back into their values |
| BackupRotation.DatePartRoundTrip | SporeAutoSave/AutoSaveStrategy.cpp:76 | the `%F` field reads back as the year, month and day it was formatted from |
| BackupRotation.ClockPartRoundTrip | SporeAutoSave/AutoSaveStrategy.cpp:76 | the `%H_%M_%S` field reads back as the hours, minutes and seconds it was formatted from |
| BackupRotation.TimestampRoundTrip | SporeAutoSave/AutoSaveStrategy.cpp:76 | parsing the timestamp recovers the local time it was formatted from |
| BackupRotation.BackupDirectoryNameInjective | SporeAutoSave/AutoSaveStrategy.cpp:76 | two different local times give two different backup names |
| BackupRotation.NewBackupIsListed | SporeAutoSave/AutoSaveStrategy.cpp:20-21 | every backup this code creates is found by the next `GetBackupSaveList` |
| BackupRotation.FinishBackup | SporeAutoSave/AutoSaveStrategy.cpp:66-92 | the result is true exactly when `localtime_s` and the copy both succeed; a failure leaves the entries as they were |
| BackupRotation.BackupSaveListsNewBackup | SporeAutoSave/AutoSaveStrategy.cpp:42-93 | a successful backup of an existing root had a local time and a successful copy, and the next listing contains the new backup directory |
| BackupRotation.BackupSave | SporeAutoSave/AutoSaveStrategy.cpp:42-93 | a missing root: true, nothing touched; below the maximum: no eviction, then the copy; at or above it: an oldest backup is removed (a failed removal returns false with no copy), then the copy; a maximum of 0 with no backups throws |
| BackupRotation.RemoveAbsentPath | SporeAutoSave/AutoSaveStrategy.cpp:57 | removing a path that is not on the disk changes nothing |
| BackupRotation.RemovePathNoMoreBackups | SporeAutoSave/AutoSaveStrategy.cpp:57 | a removal never adds backups |
| BackupRotation.RemoveBackupCount | SporeAutoSave/AutoSaveStrategy.cpp:54-57 | evicting a listed backup removes exactly one backup |
| BackupRotation.AddDirectoryCount | SporeAutoSave/AutoSaveStrategy.cpp:84 | a copy adds at most one backup, and exactly one under a fresh name |
| BackupRotation.BackupSaveKeepsMaximum | SporeAutoSave/AutoSaveStrategy.cpp:49-64 | when the backups did not exceed the maximum, a successful call leaves at most the maximum |
| BackupRotation.BackupSaveEvictsOnlyOne | SporeAutoSave/AutoSaveStrategy.cpp:52-57 | when they exceeded it, a successful call under a fresh name leaves their number unchanged |
| BackupRotation.BackupsOfThree | SporeAutoSave/AutoSaveStrategy.cpp:17-28 | three backup directories are all listed, in order |
| BackupRotation.RemoveFirstOfThree | SporeAutoSave/AutoSaveStrategy.cpp:57 | evicting the first of three distinct paths leaves the other two |
| BackupRotation.OldestOfThree | SporeAutoSave/AutoSaveStrategy.cpp:31-54 | of three backups written at increasing times, the oldest is the first |
| BackupRotation.CopyNextToTwo | SporeAutoSave/AutoSaveStrategy.cpp:82-92 | copying next to two backups appends the new one |
| BackupRotation.ThreeBackupsMaximumTwo | SporeAutoSave/AutoSaveStrategy.cpp:42-93 | with three backups, a maximum of two and every step succeeding, the oldest is removed and the new backup joins the two newest |
| AutoSaveStrategy.HandledMessageIDs | SporeAutoSave/AutoSaveStrategy.cpp:157-165 | the strategy registers for `OnSave` and `OnPauseToggled`, each once, and the two identifiers are distinct |
| AutoSaveStrategy.TruncatedSeconds | SporeAutoSave/AutoSaveStrategy.cpp:193-194 | the stored seconds are the tick difference cut towards zero: within one second of it and never farther from zero, zero or negative when the deadline had passed |
| AutoSaveStrategy.Strategy.constructor | SporeAutoSave/AutoSaveStrategy.hpp:47-52 | interval, maximum (as `size_t`) and backup path are stored unchanged and are constant afterwards; the timer starts disarmed and unpaused with nothing frozen |
| AutoSaveStrategy.Strategy.AddRef | SporeAutoSave/AutoSaveStrategy.hpp:54 | the count goes up by one and is returned |
| AutoSaveStrategy.Strategy.Release | SporeAutoSave/AutoSaveStrategy.hpp:55 | the count goes down by one and is returned; reaching zero deletes the object |
| AutoSaveStrategy.Strategy.OnModeEntered | SporeAutoSave/AutoSaveStrategy.cpp:100-117 | entering one of the five stages arms the timer with deadline now + interval; any other mode disarms it and keeps the deadline |
| AutoSaveStrategy.Strategy.Update | SporeAutoSave/AutoSaveStrategy.cpp:119-155 | a backup is attempted exactly when armed, unpaused, not on a planet in space and the deadline reached; the game is saved only after a successful backup; a failed one sets the deadline one minute after the later clock reading; nothing else moves the deadline |
| AutoSaveStrategy.Strategy.HandleMessage | SporeAutoSave/AutoSaveStrategy.cpp:167-201 | never consumes; while disarmed, or for other messages, nothing changes; `OnSave` restarts the interval; pausing freezes the whole seconds left, resuming from a pause sets the deadline that far ahead; the paused flag follows the payload |
| AutoSaveStrategy.PauseThenResume | SporeAutoSave/AutoSaveStrategy.cpp:184-197 | pausing and resuming at once moves the deadline by less than one second, never later while it lay ahead |
| AutoSaveStrategy.NewStrategyWaitsForStage | SporeAutoSave/AutoSaveStrategy.hpp:39-40 | a new strategy's `Update` attempts nothing and leaves the disk alone |
| AutoSaveStrategy.OtherModeNeverBacksUp | SporeAutoSave/AutoSaveStrategy.cpp:100-126 | after leaving the stages for another mode, no `Update` attempts a backup |
| AutoSaveStrategy.PlanetDefersBackup | SporeAutoSave/AutoSaveStrategy.cpp:128-143 | a due backup waits while on a planet in space and happens on the first `Update` after leaving it |
| AutosaveCounters.Advance | SporeAutoSave/dllmain.cpp:232-238 | the seconds counter goes up by one and rolls over into the minutes at 60: the seconds stay below 60 and the count of seconds goes up by exactly one |
| AutosaveCounters.Step | SporeAutoSave/dllmain.cpp:199-238 | the seconds stay in [0, 60) and the minutes never exceed the interval |
| AutosaveCounters.StepMeaning | SporeAutoSave/dllmain.cpp:199-238 | save called iff no manual save pending, already slept, eligible and the interval elapsed; the manual flag is consumed; `justInGameHasSlept` becomes "manual save or eligible"; the count restarts when the interval elapsed and advances exactly on eligible or manual-save iterations |
| AutosaveCounters.SaveRestartsCount | SporeAutoSave/dllmain.cpp:199-238 | the iteration that saves leaves exactly one second counted |
| AutosaveCounters.ManualSaveDoesNotRestartCount | SporeAutoSave/dllmain.cpp:199-238 | a manual save one second before the interval elapses does not restart the count: that iteration saves nothing, and the next eligible one autosaves |
| AutosaveCounters.AutosaveLoop.constructor | SporeAutoSave/dllmain.cpp:119-130 | the thread starts with both counters at zero and nothing slept |
| AutosaveCounters.AutosaveLoop.GameSaveCalled | SporeAutoSave/dllmain.cpp:103-110 | the hooked save function raises the manual-save flag and keeps the counters in range |
| AutosaveCounters.AutosaveLoop.Iterate | SporeAutoSave/dllmain.cpp:199-238 | one loop body after `shouldSave` is the specified step, and it keeps the counters in range |
| AutosaveCounters.Run | SporeAutoSave/dllmain.cpp:132-239 | a run keeps the counters in range and reports one outcome per iteration |
| AutosaveCounters.RunLoop | SporeAutoSave/dllmain.cpp:132-239 | the `while` loop over a finite prefix of iterations computes the run |
| AutosaveCounters.RunAppend | SporeAutoSave/dllmain.cpp:132-239 | running one sequence of iterations after another is running both |
| AutosaveCounters.NoSaveBeforeInterval | SporeAutoSave/dllmain.cpp:199-238 | while fewer than the interval's seconds can have been counted, no iteration saves |
| AutosaveCounters.SaveLeavesOneSecond | SporeAutoSave/dllmain.cpp:199-238 | a run whose last iteration saved ends with one second counted |
| AutosaveCounters.NextSaveLate | SporeAutoSave/dllmain.cpp:199-238 | a run that ends in a save, following a run that ended in a save, is at least 60 × interval iterations long |
| AutosaveCounters.RunSplit | SporeAutoSave/dllmain.cpp:132-239 | the outcome of an iteration is the same whether the run is taken whole or split after earlier iterations |
| AutosaveCounters.SavesAtLeastIntervalApart | SporeAutoSave/dllmain.cpp:199-238 | two saves of the loop are at least 60 × interval iterations apart |
| AutosaveCounters.IneligibleRunNeverSaves | SporeAutoSave/dllmain.cpp:214-227 | iterations that may not save never save |
| AutosaveCounters.Initialize | SporeAutoSave/dllmain.cpp:246-276 | the thread starts only when the hook is attached, the configuration is set up and the interval (default "10") reads as a positive number, and it then runs with that number; a refused interval did not read or was not positive; the first version's `Initialize` is the same code |
| AutosaveCounters.DefaultIntervalIsTen | SporeAutoSave/dllmain.cpp:259 | without the key the thread starts with a ten-minute interval |
| AutosaveCounters.IntervalAcceptedIffPositive | SporeAutoSave/dllmain.cpp:260-274 | a decimal interval, with any non-digit suffix, is accepted iff it is positive; a negative one, with the same suffix, is refused |
| AutosaveCounters.StartThread | SporeAutoSave/dllmain.cpp:262-276 | a thread exists exactly when `Initialize` accepts, and starts fresh with the accepted interval |
| AutosaveThread.ArrayContains | SporeAutoSave/dllmain.cpp:81-93 | true iff the item equals one of the first `listSize` entries |
| AutosaveThread.FindFrom | SporeAutoSave/dllmain.cpp:156 | the window found has the identifier asked for; none found means none has it |
| AutosaveThread.FindWindowByID | SporeAutoSave/dllmain.cpp:152-156 | without a main window no window is found |
| AutosaveThread.WindowVisible | SporeAutoSave/dllmain.cpp:156-178 | the parent walk reports a window visible exactly when it and all its ancestors are visible |
| AutosaveThread.WindowStatesAllowSave | SporeAutoSave/dllmain.cpp:150-197 | the scan of `g_WindowList` lets the save through iff every listed window passes: shown and not excluded, or hidden and not required |
| AutosaveThread.GateAllowsExactly | SporeAutoSave/dllmain.cpp:32-63 | the gate passes iff the options button is shown and the options window, the first communication panel and the message box are not |
| AutosaveThread.NoMainWindowNoSave | SporeAutoSave/dllmain.cpp:152-156 | without a main window the gate refuses |
| AutosaveThread.UnlistedPanelDoesNotBlock | SporeAutoSave/dllmain.cpp:38-63 | a shown communication panel that is excluded but not examined does not block a save |
| AutosaveThread.LoopIteration | SporeAutoSave/dllmain.cpp:134-238 | one iteration is the counter step with `shouldSave` = not loading and in a stage (space only off a planet), and the window gate passing |
| AutosaveThread.LoadingNeverSaves | SporeAutoSave/dllmain.cpp:136 | no iteration saves while the game is loading |
| LegacyAutosaveThread.LoopIteration | SporeAutoSave/SporeAutoSave/dllmain.cpp:87-137 | one iteration of the first version is the counter step with `shouldSave` = cell, tribe, civilization or space stage |
| LegacyAutosaveThread.CreatureStageNeverSaves | SporeAutoSave/SporeAutoSave/dllmain.cpp:92-95 | in the creature stage the first version never saves, whatever the counters and manual saves |
| LegacyAutosaveThread.CreatureStageEligibleInNewer | SporeAutoSave/dllmain.cpp:136-148 | the newer version accepts the creature stage, the first does not |
| LegacyAutosaveThread.NewerEligibilityRefinesLegacy | SporeAutoSave/SporeAutoSave/dllmain.cpp:92-95 | outside the creature stage the newer test only adds conditions, namely not loading and not on a planet in space |
| LegacyAutosaveThread.NonPositiveIntervalRefused | SporeAutoSave/SporeAutoSave/dllmain.cpp:157-174 | an interval that does not read, or reads as zero or less, never starts the thread |
| LegacyAutosaveThread.SpacePlanetSavesOnlyInLegacy | SporeAutoSave/SporeAutoSave/dllmain.cpp:92-118 | on a planet in space with the interval elapsed the first version saves and the newer does not |

## Left out

- Threads, sleeping and the cross-thread `g_ManuallySavedByUser` flag. The loop is sequential, one iteration per step, and the hooked save runs between two iterations.
- `DllMain`, `AttachDetours`, `Dispose`, `DisplayError`, the message boxes and the `App::ConsolePrintF` failure messages of `BackupSave` and `Update` (`AutoSaveStrategy.cpp:61`, `:72`, `:88`, `:145`). This is host-process plumbing; `Initialize` takes "the hook was attached" and "the configuration was set up" as inputs.
- The configuration files (`Config.cpp`, in both versions). Values are inputs, and a missing key is `None`. `GetPrivateProfileString`'s truncation to `MAX_PATH` characters is not modelled.
- The game's save routine and the raw call in `SaveGame`. They are the outcome `SavesGame()` of `Update`, or a `true` in the loop's save results.
- The no-op strategy members `Initialize`, `Dispose`, `GetName`, `OnModeExited`, `GetLastGameMode`, `GetCurrentGameMode`, `Write`, `Read`, `OnLoad`, `WriteToXML`, `PostUpdate` and the `func…` stubs. They change nothing.
- The contents of the save folder. A backup is one directory entry; a copy that fails halfway and leaves a partial tree is modelled as adding nothing.
- `remove_all` failing part-way. A failed removal is modelled as removing nothing.
- AutoSaveStrategy.Strategy.Release: the deletion of the object is a ghost flag. Later use of a deleted object is not modelled.
- AutoSaveStrategy.Strategy.Update: the 64-bit range of the clock is not modelled. Deadlines are unbounded integers.
- AutoSaveStrategy.Strategy.OnModeEntered, AutoSaveStrategy.Strategy.HandleMessage: `now + minutes(interval)` (`AutoSaveStrategy.cpp:113` and `:181`) and `now + seconds(left)` (`:189`) overflow the 64-bit nanosecond count for an interval above about 1.5 × 10^8 minutes; the model adds unbounded integers instead.
- BackupRotation.BackupSave: the `filesystem_error` thrown outside any `try` by `exists` (`AutoSaveStrategy.cpp:44`), the `directory_iterator` (`:17`), `is_directory` (`:21`) and `last_write_time` in the sort comparator (`:33-34`), for example when the backup root is a regular file or cannot be read, is not modelled: listing the root always succeeds. Only the `at(0)` throw is a result, `OutOfRange`.
- BackupRotation.SortOldestFirst: `std::sort` is modelled by insertion sort. Only its result, a permutation ordered by write time, is specified, and backups with equal write times may come out in any order.
- UI windows are a finite tree value with parent links, not the live window objects. `FindWindowByID` is modelled as the first window with that identifier below the main window.
