/**
 * The timer-driven autosave scheduler `AutoSaveStrategy`: a simulator
 * strategy that the game calls on mode changes, on every update and for
 * the messages it listens to.
 *
 * The clock is injected: every operation that reads
 * `high_resolution_clock::now()` takes the reading as a parameter, in
 * nanosecond ticks (the clock's period in the Microsoft C++ library).
 * The game's native save routine is the outcome `SavesGame()` of `Update`.
 */
module AutoSaveStrategy {
  import opened Host
  import opened BackupRotation

  /** The message sent after the game has been saved. */
  const OnSave: uint32 := 0x1cd20f0
  /** The message sent when the game is paused (non-null payload) or resumed (null payload). */
  const OnPauseToggled: uint32 := 0x3867294

  /** `GetHandledMessageIDs`: the messages the strategy registers for, each once. */
  function HandledMessageIDs(): (ids: seq<uint32>)
    ensures |ids| == 2 && OnSave in ids && OnPauseToggled in ids
    ensures forall i, j :: 0 <= i < j < |ids| ==> ids[i] != ids[j]
  {
    [OnSave, OnPauseToggled]
  }

  const TicksPerSecond: int := 1_000_000_000
  const TicksPerMinute: int := 60 * TicksPerSecond

  /**
   * `duration_cast<seconds>` of a tick count: whole seconds, the fraction
   * cut off towards zero, so a negative count gives a negative result.
   */
  function TruncatedSeconds(ticks: int): (secs: int)
    ensures 0 <= ticks ==> 0 <= secs * TicksPerSecond <= ticks < secs * TicksPerSecond + TicksPerSecond
    ensures ticks < 0 ==> secs * TicksPerSecond - TicksPerSecond < ticks <= secs * TicksPerSecond <= 0
  {
    if ticks >= 0 then ticks / TicksPerSecond else -((-ticks) / TicksPerSecond)
  }

  /** The modes `OnModeEntered` arms the timer for: cell, creature, tribe, civilization and space. */
  predicate IsSaveMode(m: GameMode)
  {
    m.Cell? || m.Creature? || m.Tribe? || m.Civ? || m.Space?
  }

  /**
   * What one `Update` did: nothing, or a `BackupSave` with its result. The
   * game's save routine is called exactly when the backup succeeded.
   */
  datatype UpdateOutcome = NotDue | Attempted(backup: BackupResult)
  {
    predicate SavesGame() { this == Attempted(Succeeded) }
  }

  class Strategy {
    var refCount: int
    /** Set once `Release` has dropped the count to zero and deleted the object. */
    ghost var deleted: bool

    /** `m_NextSaveTime`, in clock ticks. */
    var nextSaveTime: int
    const saveIntervalInMinutes: int32
    /** `m_TimeLeftUntilSaveWhenPausedInSeconds`, a signed 64-bit count of whole seconds. */
    var timeLeftUntilSaveWhenPausedInSeconds: int
    const backupSavePath: string
    /** `m_MaximumAmountOfBackupSaves`, a 32-bit `size_t`. */
    const maximumAmountOfBackupSaves: nat
    var isInValidMode: bool
    var isPaused: bool

    /**
     * Stores the interval, the maximum and the backup root; the three are
     * never changed afterwards (they are constant fields here). The timer
     * starts disarmed and unpaused, the deadline at the clock's epoch.
     */
    constructor (saveIntervalInMinutes: int32, maximumAmountOfBackupSaves: int32, backupSavePath: string)
      ensures this.saveIntervalInMinutes == saveIntervalInMinutes
      ensures this.maximumAmountOfBackupSaves == SizeT(maximumAmountOfBackupSaves)
      ensures this.backupSavePath == backupSavePath
      ensures refCount == 0 && !deleted
      ensures nextSaveTime == 0 && timeLeftUntilSaveWhenPausedInSeconds == 0
      ensures !isInValidMode && !isPaused
    {
      this.saveIntervalInMinutes := saveIntervalInMinutes;
      this.maximumAmountOfBackupSaves := SizeT(maximumAmountOfBackupSaves);
      this.backupSavePath := backupSavePath;
      refCount := 0;
      deleted := false;
      nextSaveTime := 0;
      timeLeftUntilSaveWhenPausedInSeconds := 0;
      isInValidMode := false;
      isPaused := false;
    }

    /** The save interval in clock ticks (`std::chrono::minutes(m_SaveIntervalInMinutes)`). */
    function SaveInterval(): int
    {
      saveIntervalInMinutes * TicksPerMinute
    }

    method AddRef() returns (count: int)
      modifies this`refCount
      ensures refCount == old(refCount) + 1 && count == refCount
    {
      refCount := refCount + 1;
      count := refCount;
    }

    /** Drops a reference; the object is deleted when none is left (and 0 is returned). */
    method Release() returns (count: int)
      modifies this`refCount, this`deleted
      ensures refCount == old(refCount) - 1 && count == refCount
      ensures deleted == (old(deleted) || refCount == 0)
    {
      refCount := refCount - 1;
      if refCount == 0 {
        deleted := true;
        return 0;
      }
      return refCount;
    }

    /**
     * Entering one of the five stages arms the timer a full interval
     * ahead; entering any other mode disarms it and keeps the deadline.
     * The paused state is left alone either way.
     */
    method OnModeEntered(previousModeID: GameMode, newModeID: GameMode, now: int)
      modifies this`nextSaveTime, this`isInValidMode
      ensures isInValidMode == IsSaveMode(newModeID)
      ensures IsSaveMode(newModeID) ==> nextSaveTime == now + SaveInterval()
      ensures !IsSaveMode(newModeID) ==> nextSaveTime == old(nextSaveTime)
    {
      match newModeID
      case Cell | Creature | Tribe | Civ | Space =>
        nextSaveTime := now + SaveInterval();
        isInValidMode := true;
      case OtherMode(_) =>
        isInValidMode := false;
    }

    /**
     * A backup is due at `now`: the timer is armed, not paused, the
     * player is not on a planet in the space stage, and the deadline has
     * been reached.
     */
    predicate SaveDue(now: int, game: GameStatus)
      reads this
    {
      isInValidMode && !isPaused && !(game.isSpace && game.onPlanet) && nextSaveTime <= now
    }

    /**
     * `Update`: when a backup is due, back the save up and call the
     * game's save routine only if the backup succeeded; after a failed
     * backup, try again one minute after the second clock reading
     * `retryNow`. The deadline is otherwise left alone: it moves only when
     * the game's `OnSave` message arrives. An `OutOfRange` backup is the
     * exception escaping `Update`, before any field changes.
     */
    method Update(now: int, game: GameStatus, disk: Disk, fs: FsOutcomes, retryNow: int)
      returns (outcome: UpdateOutcome, after: Disk)
      modifies this`nextSaveTime
      ensures outcome.Attempted? <==> old(SaveDue(now, game))
      ensures outcome.NotDue? ==> after == disk
      ensures outcome.Attempted? ==>
                BackupSaveSpec(backupSavePath, maximumAmountOfBackupSaves, disk, fs, outcome.backup, after)
      ensures outcome == Attempted(Failed) ==> nextSaveTime == retryNow + TicksPerMinute
      ensures outcome != Attempted(Failed) ==> nextSaveTime == old(nextSaveTime)
    {
      if !isInValidMode || isPaused {
        return NotDue, disk;
      }

      if game.isSpace && game.onPlanet {
        return NotDue, disk;
      }

      if now < nextSaveTime {
        return NotDue, disk;
      }

      var result;
      result, after := BackupSave(backupSavePath, maximumAmountOfBackupSaves, disk, fs);
      outcome := Attempted(result);
      if result == Failed {
        nextSaveTime := retryNow + TicksPerMinute;
      }
    }

    /**
     * `HandleMessage`: never consumes a message. While the timer is armed,
     * `OnSave` restarts the full interval; `OnPauseToggled` with a payload
     * (paused) stores the whole seconds left, and without one, coming out
     * of a pause, sets the deadline that many seconds ahead. Other
     * messages, and every message while disarmed, change nothing.
     */
    method HandleMessage(messageID: uint32, hasPayload: bool, now: int) returns (consumed: bool)
      modifies this`nextSaveTime, this`timeLeftUntilSaveWhenPausedInSeconds, this`isPaused
      ensures !consumed
      ensures !old(isInValidMode) || messageID !in HandledMessageIDs() ==> unchanged(this)
      ensures old(isInValidMode) && messageID == OnSave ==>
                && nextSaveTime == now + SaveInterval()
                && isPaused == old(isPaused)
                && timeLeftUntilSaveWhenPausedInSeconds == old(timeLeftUntilSaveWhenPausedInSeconds)
      ensures old(isInValidMode) && messageID == OnPauseToggled ==>
                && isPaused == hasPayload
                && nextSaveTime == (if old(isPaused) && !hasPayload
                                    then now + old(timeLeftUntilSaveWhenPausedInSeconds) * TicksPerSecond
                                    else old(nextSaveTime))
                && timeLeftUntilSaveWhenPausedInSeconds == (if hasPayload
                                                            then TruncatedSeconds(old(nextSaveTime) - now)
                                                            else old(timeLeftUntilSaveWhenPausedInSeconds))
    {
      if !isInValidMode {
        return false;
      }

      if messageID == OnSave {
        nextSaveTime := now + SaveInterval();
      } else if messageID == OnPauseToggled {
        if isPaused && !hasPayload {
          nextSaveTime := now + timeLeftUntilSaveWhenPausedInSeconds * TicksPerSecond;
        } else if hasPayload {
          timeLeftUntilSaveWhenPausedInSeconds := TruncatedSeconds(nextSaveTime - now);
        }
        isPaused := hasPayload;
      }
      return false;
    }
  }

  /**
   * Pausing and resuming at the same instant puts the deadline back within
   * one second of where it was, never later than it was when it was still
   * ahead.
   */
  method PauseThenResume(s: Strategy, now: int)
    requires s.isInValidMode && !s.isPaused
    modifies s
    ensures !s.isPaused
    ensures old(s.nextSaveTime) - TicksPerSecond < s.nextSaveTime < old(s.nextSaveTime) + TicksPerSecond
    ensures now <= old(s.nextSaveTime) ==> s.nextSaveTime <= old(s.nextSaveTime)
  {
    var _ := s.HandleMessage(OnPauseToggled, true, now);
    var _ := s.HandleMessage(OnPauseToggled, false, now);
  }

  /** A new strategy does nothing on `Update` until a stage is entered. */
  method NewStrategyWaitsForStage(interval: int32, maximum: int32, root: string,
                                  now: int, game: GameStatus, disk: Disk, fs: FsOutcomes, retryNow: int)
    returns (outcome: UpdateOutcome, after: Disk)
    ensures outcome == NotDue && after == disk
  {
    var s := new Strategy(interval, maximum, root);
    outcome, after := s.Update(now, game, disk, fs, retryNow);
  }

  /**
   * Leaving the stages for any other mode disarms the timer: however much
   * later `Update` runs, no backup is attempted.
   */
  method OtherModeNeverBacksUp(s: Strategy, armedAt: int, other: uint32, leftAt: int,
                               now: int, game: GameStatus, disk: Disk, fs: FsOutcomes, retryNow: int)
    returns (outcome: UpdateOutcome, after: Disk)
    modifies s
    ensures outcome == NotDue && after == disk
  {
    s.OnModeEntered(OtherMode(other), Cell, armedAt);
    s.OnModeEntered(Cell, OtherMode(other), leftAt);
    outcome, after := s.Update(now, game, disk, fs, retryNow);
  }

  /**
   * On a planet in the space stage a due backup waits, with the deadline
   * kept; the first `Update` after leaving the planet attempts it.
   */
  method PlanetDefersBackup(s: Strategy, now: int, later: int, disk: Disk, fs: FsOutcomes, retryNow: int)
    returns (first: UpdateOutcome, second: UpdateOutcome, after: Disk)
    requires s.isInValidMode && !s.isPaused && s.nextSaveTime <= now <= later
    modifies s
    ensures first == NotDue && second.Attempted?
  {
    var onPlanet := GameStatus(false, false, false, false, false, true, true);
    var inSpace := GameStatus(false, false, false, false, false, true, false);
    var unchangedDisk;
    first, unchangedDisk := s.Update(now, onPlanet, disk, fs, retryNow);
    second, after := s.Update(later, inSpace, unchangedDisk, fs, retryNow);
  }
}
