/**
 * The full-screen hammer game: a player gets three timed attempts, the
 * peak force of each attempt and of the whole game are tracked while the
 * force is polled, the game's peak is saved into a ranking of at most 50
 * entries, and force bands pick the colour, sound level and message shown.
 */
module ThorHammer {
  import opened Wrappers
  import opened JsText
  import opened Ranking

  const MAX_ATTEMPTS: nat := 3
  const RANKING_SIZE: nat := 50
  /** Standard gravity: newtons per kilogram-force. */
  const G: real := 9.80665

  /** A force in newtons, in kilogram-force. */
  function Kg(forceN: real): real {
    forceN / G
  }

  /** The peak after a reading: the reading when it exceeds the peak so far. */
  function Higher(peak: real, reading: real): real {
    if reading > peak then reading else peak
  }

  /** The largest value, or 0 for none: a maximum that starts at 0. */
  function MaxOr0(xs: seq<real>): (m: real)
    ensures m >= 0.0
    ensures forall i :: 0 <= i < |xs| ==> xs[i] <= m
    ensures m == 0.0 || m in xs
  {
    if |xs| == 0 then 0.0
    else
      var m := MaxOr0(xs[..|xs| - 1]);
      assert forall i :: 0 <= i < |xs| - 1 ==> xs[..|xs| - 1][i] == xs[i];
      if xs[|xs| - 1] > m then xs[|xs| - 1] else m
  }

  lemma MaxOr0Append(xs: seq<real>, x: real)
    ensures MaxOr0(xs + [x]) == Higher(MaxOr0(xs), x)
  {
    assert (xs + [x])[..|xs|] == xs;
  }

  // ---------------------------------------------------------------------------
  // Force bands

  /** `triggerLevelEffect`: the sound level for a force in kg. */
  function Level(kg: real): (l: nat)
    ensures l <= 6
    ensures l == 0 <==> kg <= 0.0
  {
    if kg >= 200.0 then 6
    else if kg >= 100.0 then 5
    else if kg >= 60.0 then 4
    else if kg >= 30.0 then 3
    else if kg >= 10.0 then 2
    else if kg > 0.0 then 1
    else 0
  }

  const COLORS: seq<string> := ["#3498db", "#2ecc71", "#f39c12", "#e74c3c", "#9b59b6", "#ff1493"]

  /** `getForceColor`. */
  function ForceColor(kg: real): (r: string)
    ensures r in COLORS
    ensures r == COLORS[0] <==> kg < 10.0
    ensures r == COLORS[|COLORS| - 1] <==> kg >= 200.0
  {
    if kg < 10.0 then "#3498db"
    else if kg < 30.0 then "#2ecc71"
    else if kg < 60.0 then "#f39c12"
    else if kg < 100.0 then "#e74c3c"
    else if kg < 200.0 then "#9b59b6"
    else "#ff1493"
  }

  const MESSAGES: seq<string> := [
    "🤔 Fraquinho, mas corajoso!",
    "💪 Está ficando forte!",
    "🔥 Excelente! Quase digno do martelo!",
    "⚡ Poder de Asgard flui em você!",
    "👑 ⚡ Digno de empunhar Mjölnir! ⚡"]

  /** Which of the `getMotivationalMessage` bands (10, 50, 100, 200 kg) a force falls in. */
  function MessageBand(kg: real): (b: nat)
    ensures b < |MESSAGES|
    ensures b == 0 <==> kg < 10.0
    ensures b == |MESSAGES| - 1 <==> kg >= 200.0
  {
    if kg < 10.0 then 0
    else if kg < 50.0 then 1
    else if kg < 100.0 then 2
    else if kg < 200.0 then 3
    else 4
  }

  function Message(kg: real): (r: string)
    ensures r in MESSAGES
    ensures r == MESSAGES[0] <==> kg < 10.0
    ensures r == MESSAGES[|MESSAGES| - 1] <==> kg >= 200.0
  {
    MESSAGES[MessageBand(kg)]
  }

  /** The sound level never falls as the force rises. */
  lemma LevelMonotone(a: real, b: real)
    requires a <= b
    ensures Level(a) <= Level(b)
  {
  }

  /** A positive force's colour is the colour of its sound level: both use the bands 10, 30, 60, 100, 200. */
  lemma ColorMatchesLevel(kg: real)
    requires kg > 0.0
    ensures ForceColor(kg) == COLORS[Level(kg) - 1]
  {
  }

  /** The message band never falls as the force rises. */
  lemma MessageMonotone(a: real, b: real)
    requires a <= b
    ensures MessageBand(a) <= MessageBand(b)
  {
  }

  // ---------------------------------------------------------------------------
  // Ranking

  datatype Entry = Entry(name: string, forceKg: real, forceN: real, date: string)

  function ByForce(e: Entry): real {
    e.forceKg
  }

  /** `saveToRanking` on the stored list: append, stable sort by descending force, keep 50. */
  function SaveToRanking(ranking: seq<Entry>, e: Entry): (r: seq<Entry>)
    ensures |r| <= RANKING_SIZE
  {
    Take(SortDesc(ranking + [e], ByForce), RANKING_SIZE)
  }

  /** Saving into a ranking in order keeps it in order, and holds only entries that were there or the new one. */
  lemma SavedRankingOrdered(ranking: seq<Entry>, e: Entry)
    ensures SortedDesc(SaveToRanking(ranking, e), ByForce)
    ensures multiset(SaveToRanking(ranking, e)) <= multiset(ranking) + multiset{e}
    ensures |ranking| < RANKING_SIZE ==> multiset(SaveToRanking(ranking, e)) == multiset(ranking) + multiset{e}
  {
    var all := ranking + [e];
    var s := SortDesc(all, ByForce);
    SortDescSorted(all, ByForce);
    SortDescPermutes(all, ByForce);
    TakeSorted(s, ByForce, RANKING_SIZE);
    assert multiset(all) == multiset(ranking) + multiset{e};
  }

  /**
   * On a ranking in order, the new entry lands after every entry with an
   * equal or higher force, and stays in the list exactly when fewer than 50
   * of those are ahead of it.
   */
  lemma SavedEntryPlace(ranking: seq<Entry>, e: Entry)
    requires SortedDesc(ranking, ByForce)
    ensures var k := LeadingAtLeast(ranking, ByForce, e.forceKg);
      var r := SaveToRanking(ranking, e);
      (k < RANKING_SIZE ==> r[..k] == ranking[..k] && r[k] == e) &&
      (k >= RANKING_SIZE ==> r == ranking[..RANKING_SIZE])
  {
    var k := LeadingAtLeast(ranking, ByForce, ByForce(e));
    AddToSorted(ranking, e, ByForce);
    TakeAround(ranking[..k], e, ranking[k..], RANKING_SIZE);
    if k >= RANKING_SIZE {
      assert ranking[..k][..RANKING_SIZE] == ranking[..RANKING_SIZE];
    }
  }

  // ---------------------------------------------------------------------------
  // The game

  datatype Attempt = Attempt(attempt: nat, force: real, timestamp: string)

  /**
   * The peaks of a game: each attempt's lies between 0 and the game's, and
   * unless an attempt with a peak above 0 has been restarted, the game's
   * peak is one of the attempts' peaks.
   */
  ghost predicate Peaks(per: seq<real>, total: real, noRestart: bool) {
    |per| == MAX_ATTEMPTS &&
    0.0 <= per[0] <= total && 0.0 <= per[1] <= total && 0.0 <= per[2] <= total &&
    (noRestart ==> total == per[0] || total == per[1] || total == per[2])
  }

  /** One reading `kg` in attempt `i` keeps the peaks in their bounds. */
  lemma PeaksAfterReading(per: seq<real>, total: real, noRestart: bool, i: nat, kg: real)
    requires Peaks(per, total, noRestart) && i < MAX_ATTEMPTS
    ensures Peaks(per[i := Higher(per[i], kg)], Higher(total, kg), noRestart)
  {
  }

  /** Restarting attempt `i` sets its peak back to 0 and keeps the bounds. */
  lemma PeaksAfterRestart(per: seq<real>, total: real, noRestart: bool, i: nat)
    requires Peaks(per, total, noRestart) && i < MAX_ATTEMPTS
    ensures Peaks(per[i := 0.0], total, noRestart && per[i] == 0.0)
  {
  }

  /** Without a restarted attempt, the game's peak is the highest attempt peak. */
  lemma TotalIsBestPeak(per: seq<real>, total: real)
    requires Peaks(per, total, true)
    ensures total == MaxOr0(per)
  {
    var m := MaxOr0(per);
    assert per[0] <= m && per[1] <= m && per[2] <= m;
    if m != 0.0 {
      var i :| 0 <= i < |per| && per[i] == m;
    }
  }

  class Game {
    var playerName: string
    var currentAttempt: nat
    var forceMaxPerAttempt: seq<real>
    var attempts: seq<Attempt>
    var totalMaxForce: real
    var isGameRunning: bool
    /** The `martelo_ranking` list in local storage. */
    var ranking: seq<Entry>
    /** No attempt of this game with a peak above 0 has been restarted. */
    ghost var noRestart: bool

    ghost predicate Valid()
      reads this
    {
      1 <= currentAttempt <= MAX_ATTEMPTS &&
      Peaks(forceMaxPerAttempt, totalMaxForce, noRestart)
    }

    constructor (stored: seq<Entry>)
      ensures Valid() && noRestart
      ensures playerName == [] && currentAttempt == 1 && forceMaxPerAttempt == [0.0, 0.0, 0.0]
      ensures attempts == [] && totalMaxForce == 0.0 && !isGameRunning && ranking == stored
    {
      playerName := [];
      currentAttempt := 1;
      forceMaxPerAttempt := [0.0, 0.0, 0.0];
      attempts := [];
      totalMaxForce := 0.0;
      isGameRunning := false;
      ranking := stored;
      noRestart := true;
    }

    /** `startGame`: an empty trimmed name is refused; otherwise a new game begins at attempt 1 with all peaks at 0. */
    method StartGame(nameInput: string) returns (started: bool)
      requires Valid()
      modifies this
      ensures Valid()
      ensures started <==> Trim(nameInput) != []
      ensures !started ==> (playerName == old(playerName) && currentAttempt == old(currentAttempt) &&
                            forceMaxPerAttempt == old(forceMaxPerAttempt) && totalMaxForce == old(totalMaxForce))
      ensures started ==> (playerName == Trim(nameInput) && currentAttempt == 1 &&
                           forceMaxPerAttempt == [0.0, 0.0, 0.0] && totalMaxForce == 0.0 && noRestart)
      ensures attempts == old(attempts) && ranking == old(ranking) && isGameRunning == old(isGameRunning)
    {
      var name := Trim(nameInput);
      if name == [] {
        return false;
      }
      playerName := name;
      currentAttempt := 1;
      forceMaxPerAttempt := [0.0, 0.0, 0.0];
      totalMaxForce := 0.0;
      noRestart := true;
      return true;
    }

    /** `startAttempt`: the current attempt's peak starts again from 0. */
    method StartAttempt()
      requires Valid()
      modifies this
      ensures Valid() && isGameRunning
      ensures forceMaxPerAttempt == old(forceMaxPerAttempt)[currentAttempt - 1 := 0.0]
      ensures totalMaxForce == old(totalMaxForce) && currentAttempt == old(currentAttempt)
      ensures playerName == old(playerName) && attempts == old(attempts) && ranking == old(ranking)
      ensures noRestart == (old(noRestart) && old(forceMaxPerAttempt[currentAttempt - 1]) == 0.0)
    {
      isGameRunning := true;
      var attemptIndex := currentAttempt - 1;
      PeaksAfterRestart(forceMaxPerAttempt, totalMaxForce, noRestart, attemptIndex);
      forceMaxPerAttempt := forceMaxPerAttempt[attemptIndex := 0.0];
      noRestart := noRestart && old(forceMaxPerAttempt[attemptIndex]) == 0.0;
    }

    /**
     * One poll of the running attempt with the force in newtons: the peaks
     * rise to the reading when it exceeds them, and a new attempt peak
     * returns the level whose effect plays.
     */
    method Tick(forceN: real) returns (level: Option<nat>)
      requires Valid() && isGameRunning
      modifies this
      ensures Valid() && noRestart == old(noRestart)
      ensures forceMaxPerAttempt ==
        old(forceMaxPerAttempt)[currentAttempt - 1 := Higher(old(forceMaxPerAttempt[currentAttempt - 1]), Kg(forceN))]
      ensures totalMaxForce == Higher(old(totalMaxForce), Kg(forceN))
      ensures level == if Kg(forceN) > old(forceMaxPerAttempt[currentAttempt - 1]) then Some(Level(Kg(forceN))) else None
      ensures currentAttempt == old(currentAttempt) && isGameRunning
      ensures playerName == old(playerName) && attempts == old(attempts) && ranking == old(ranking)
    {
      var attemptIndex := currentAttempt - 1;
      var forceKg := Kg(forceN);
      PeaksAfterReading(forceMaxPerAttempt, totalMaxForce, noRestart, attemptIndex, forceKg);
      level := None;
      if forceKg > forceMaxPerAttempt[attemptIndex] {
        forceMaxPerAttempt := forceMaxPerAttempt[attemptIndex := forceKg];
        if forceKg > totalMaxForce {
          totalMaxForce := forceKg;
        }
        level := Some(Level(forceKg));
      }
      assert forceMaxPerAttempt == old(forceMaxPerAttempt)[attemptIndex := Higher(old(forceMaxPerAttempt[attemptIndex]), forceKg)];
      assert totalMaxForce == Higher(old(totalMaxForce), forceKg);
    }

    /** In a game with no restarted attempt, the game's peak is the highest attempt peak. */
    lemma TotalIsBestAttempt()
      requires Valid() && noRestart
      ensures totalMaxForce == MaxOr0(forceMaxPerAttempt)
    {
      TotalIsBestPeak(forceMaxPerAttempt, totalMaxForce);
    }

    /**
     * `endAttempt`: the attempt's peak is recorded; before the third attempt
     * the game moves on, after it the game's peak is saved to the ranking and
     * its message returned.
     */
    method EndAttempt(timestamp: string, date: string) returns (message: Option<string>)
      requires Valid()
      modifies this
      ensures Valid() && !isGameRunning && noRestart == old(noRestart)
      ensures attempts == old(attempts) + [Attempt(old(currentAttempt), old(forceMaxPerAttempt[currentAttempt - 1]), timestamp)]
      ensures old(currentAttempt) < MAX_ATTEMPTS ==>
        currentAttempt == old(currentAttempt) + 1 && ranking == old(ranking) && message == None
      ensures old(currentAttempt) == MAX_ATTEMPTS ==>
        currentAttempt == old(currentAttempt) && message == Some(Message(totalMaxForce)) &&
        ranking == SaveToRanking(old(ranking), Entry(playerName, totalMaxForce, totalMaxForce * G, date))
      ensures forceMaxPerAttempt == old(forceMaxPerAttempt) && totalMaxForce == old(totalMaxForce)
      ensures playerName == old(playerName)
    {
      isGameRunning := false;
      var attemptIndex := currentAttempt - 1;
      var forceCurrent := forceMaxPerAttempt[attemptIndex];
      attempts := attempts + [Attempt(currentAttempt, forceCurrent, timestamp)];
      if currentAttempt < MAX_ATTEMPTS {
        currentAttempt := currentAttempt + 1;
        message := None;
      } else {
        var forceKg := totalMaxForce;
        message := Some(Message(forceKg));
        ranking := SaveToRanking(ranking, Entry(playerName, forceKg, forceKg * G, date));
      }
    }

    /** `resetGame`: name, attempt counter, peaks and history return to their initial values. */
    method ResetGame()
      requires Valid()
      modifies this
      ensures Valid() && noRestart
      ensures playerName == [] && currentAttempt == 1 && forceMaxPerAttempt == [0.0, 0.0, 0.0]
      ensures totalMaxForce == 0.0 && attempts == []
      ensures ranking == old(ranking) && isGameRunning == old(isGameRunning)
    {
      playerName := [];
      currentAttempt := 1;
      forceMaxPerAttempt := [0.0, 0.0, 0.0];
      totalMaxForce := 0.0;
      attempts := [];
      noRestart := true;
    }
  }
}
