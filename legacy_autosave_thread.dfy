/**
 * The first version of `AutosaveThreadFunc`: the same counter machine,
 * with a simpler eligibility test (cell, tribe, civilization or space
 * stage) and no window gate. Its `Initialize` validates the interval
 * exactly as the newer version does (`AutosaveCounters.Initialize`).
 */
module LegacyAutosaveThread {
  import opened Wrappers
  import opened Host
  import Decimal
  import opened AutosaveCounters
  import AutosaveThread

  /** The simulator's test in this version: the creature stage and loading are not considered. */
  predicate LegacyEligible(game: GameStatus)
  {
    game.isCell || game.isTribe || game.isCiv || game.isSpace
  }

  /** One iteration of the first version: eligibility, then the counter machine. */
  method LoopIteration(loop: AutosaveLoop, game: GameStatus) returns (saveCalled: bool)
    requires loop.Valid()
    modifies loop
    ensures loop.Valid()
    ensures StepResult(loop.Snapshot(), saveCalled) == Step(old(loop.Snapshot()), loop.interval, LegacyEligible(game))
  {
    var shouldSave := LegacyEligible(game);
    saveCalled := loop.Iterate(shouldSave);
  }

  /** The creature stage alone, outside every other stage. */
  predicate CreatureStageOnly(game: GameStatus)
  {
    game.isCreature && !game.isCell && !game.isTribe && !game.isCiv && !game.isSpace
  }

  /** The ticks the first version sees for a sequence of game states and manual saves (a helper for the lemmas below). */
  function LegacyTicks(games: seq<GameStatus>, gameSaved: seq<bool>): (ticks: seq<Tick>)
    requires |games| == |gameSaved|
    ensures |ticks| == |games|
    ensures forall k :: 0 <= k < |ticks| ==> ticks[k] == Tick(gameSaved[k], LegacyEligible(games[k]))
  {
    seq(|games|, k requires 0 <= k < |games| => Tick(gameSaved[k], LegacyEligible(games[k])))
  }

  /**
   * However long the player stays in the creature stage, the first
   * version never saves; the newer one can (`CreatureStageEligibleInNewer`).
   */
  lemma CreatureStageNeverSaves(c: Counters, interval: int, games: seq<GameStatus>, gameSaved: seq<bool>)
    requires 0 < interval && CountersValid(c, interval)
    requires |games| == |gameSaved|
    requires forall k :: 0 <= k < |games| ==> CreatureStageOnly(games[k])
    ensures forall k :: 0 <= k < |games| ==> !Run(c, interval, LegacyTicks(games, gameSaved)).1[k]
  {
    IneligibleRunNeverSaves(c, interval, LegacyTicks(games, gameSaved));
  }

  /** The newer test accepts the creature stage when not loading. */
  lemma CreatureStageEligibleInNewer(game: GameStatus)
    requires CreatureStageOnly(game) && !game.isLoading
    ensures AutosaveThread.Eligible(game) && !LegacyEligible(game)
  {
  }

  /**
   * Where the two tests disagree, and why: apart from the creature stage,
   * the newer test only adds conditions (not loading, not on a planet in
   * space).
   */
  lemma NewerEligibilityRefinesLegacy(game: GameStatus)
    ensures AutosaveThread.Eligible(game) && !game.isCreature ==> LegacyEligible(game)
    ensures LegacyEligible(game) && !AutosaveThread.Eligible(game) ==>
              game.isLoading || (game.isSpace && game.onPlanet && !game.isCell && !game.isCreature && !game.isTribe && !game.isCiv)
  {
  }

  /**
   * On a planet in the space stage the first version still counts the
   * iteration as eligible, and so saves once the interval has elapsed;
   * the newer one never does.
   */
  lemma SpacePlanetSavesOnlyInLegacy(c: Counters, interval: int, tree: AutosaveThread.WindowTree)
    requires 0 < interval && CountersValid(c, interval) && tree.WellFormed()
    requires !c.manuallySavedByUser && c.justInGameHasSlept && interval <= c.minutesPassed
    ensures var onPlanet := GameStatus(false, false, false, false, false, true, true);
            && Step(c, interval, LegacyEligible(onPlanet)).saveCalled
            && !Step(c, interval, AutosaveThread.Eligible(onPlanet) && AutosaveThread.GateAllows(tree)).saveCalled
  {
    var onPlanet := GameStatus(false, false, false, false, false, true, true);
    assert LegacyEligible(onPlanet) && !AutosaveThread.Eligible(onPlanet);
    StepMeaning(c, interval, true);
    StepMeaning(c, interval, false);
  }

  /**
   * The first version's `Initialize` refuses an interval that reads as zero
   * or less, or does not read at all, and the thread never starts.
   */
  lemma NonPositiveIntervalRefused(detoursAttached: bool, configInitialized: bool, intervalString: string)
    requires Decimal.Stoi(intervalString).None? || Decimal.Stoi(intervalString).value <= 0
    ensures !Initialize(detoursAttached, configInitialized, Some(intervalString)).ThreadStarted?
  {
  }
}
