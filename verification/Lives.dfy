// The player of the apple game: how many lives a run costs, when a game is lost, and where moves lead.

module Lives {
  import opened Maps
  import opened GameSpec

  // ---------- lives

  /** The check of the turn finds the player on a wall. */
  predicate HitsWall(levels: seq<Map>, p: Play, t: Turn)
    requires |levels| == NUM_LEVELS && Allowed(levels, p, t)
  {
    Wall(levels, p.level, Moved(p.player, t.move))
  }

  /** In how many turns that happens before the game ends. */
  ghost function Hits(levels: seq<Map>, p: Play, turns: seq<Turn>): nat
    requires |levels| == NUM_LEVELS && AllAllowed(levels, p, turns)
    decreases |turns|
  {
    if turns == [] || p.shouldExit then 0
    else (if HitsWall(levels, p, turns[0]) then 1 else 0) + Hits(levels, Trip(levels, p, turns[0]), turns[1..])
  }

  lemma TripLives(levels: seq<Map>, p: Play, t: Turn)
    requires |levels| == NUM_LEVELS && Allowed(levels, p, t)
    ensures Trip(levels, p, t).lives == p.lives - if HitsWall(levels, p, t) then 1 else 0
  {
  }

  lemma {:induction false} RunLives(levels: seq<Map>, p: Play, turns: seq<Turn>)
    requires |levels| == NUM_LEVELS && AllAllowed(levels, p, turns) && Good(levels, p) && p.lives >= 0
    ensures Run(levels, p, turns).lives == p.lives - Hits(levels, p, turns) >= 0
    decreases |turns|
  {
    hide Trip, Allowed;
    if turns != [] && !p.shouldExit {
      TripKeeps(levels, p, turns[0]);
      TripLives(levels, p, turns[0]);
      RunLives(levels, Trip(levels, p, turns[0]), turns[1..]);
    }
  }

  lemma RunIsGood(levels: seq<Map>, diff: nat, d: Deal, turns: seq<Turn>)
    requires |levels| == NUM_LEVELS && Dealt(levels, 0, NumApples(diff), d)
    requires AllAllowed(levels, NewPlay(levels, diff, d), turns)
    ensures Good(levels, Run(levels, NewPlay(levels, diff, d), turns))
  {
    NewIsGood(levels, diff, d);
    RunKeeps(levels, NewPlay(levels, diff, d), turns, {});
  }

  /** What a game starts with: half a life less for each step of difficulty, at least one, and two apples more. */
  lemma NewGame(levels: seq<Map>, diff: nat, d: Deal)
    requires |levels| == NUM_LEVELS && Dealt(levels, 0, NumApples(diff), d)
    ensures var p := NewPlay(levels, diff, d);
            && p.lives >= 1 && (diff < 10 ==> 2 * p.lives == 12 - diff + diff % 2) && (diff >= 10 ==> p.lives == 1)
            && |p.apples| == p.left == 2 * diff + 3 && p.score == p.level == 0 && !p.shouldExit
    ensures diff == 0 ==> NewPlay(levels, diff, d).lives == 6 && NewPlay(levels, diff, d).left == 3
  {
  }

  /** Over every run of a new game each wall the player is found on costs one life and nothing else does, and the
      game is lost if and only if there were as many of them as lives at the start. */
  lemma LivesOverRuns(levels: seq<Map>, diff: nat, d: Deal, turns: seq<Turn>)
    requires |levels| == NUM_LEVELS && Dealt(levels, 0, NumApples(diff), d)
    requires AllAllowed(levels, NewPlay(levels, diff, d), turns)
    ensures var p0 := NewPlay(levels, diff, d);
            var p, hits := Run(levels, p0, turns), Hits(levels, p0, turns);
            && p.lives == p0.lives - hits >= 0
            && (p.shouldExit && p.level < NUM_LEVELS <==> hits == p0.lives)
  {
    NewGame(levels, diff, d);
    NewIsGood(levels, diff, d);
    RunIsGood(levels, diff, d, turns);
    RunLives(levels, NewPlay(levels, diff, d), turns);
  }

  // ---------- where the player is

  /** A random placement of the player takes the first roll that is neither wall nor apple. */
  lemma {:induction false} PickOpenIsFirst(levels: seq<Map>, level: nat, apples: seq<Spot>, rolls: seq<Roll>)
    returns (i: nat)
    requires |levels| == NUM_LEVELS && HasOpen(levels, level, apples, rolls)
    ensures i < |rolls| && PickOpen(levels, level, apples, rolls) == Spot(rolls[i].a % 80, rolls[i].b % 21)
    ensures Open(levels, level, apples, rolls[i].At()) && forall j :: 0 <= j < i ==> !Open(levels, level, apples, rolls[j].At())
  {
    if Open(levels, level, apples, rolls[0].At()) {
      i := 0;
    } else {
      var k := PickOpenIsFirst(levels, level, apples, rolls[1..]);
      i := k + 1;
      forall j | 0 <= j < i
        ensures !Open(levels, level, apples, rolls[j].At())
      {
        assert j > 0 ==> rolls[j] == rolls[1..][j - 1];
      }
    }
  }

  /** One of an apple takes the first roll that is no wall. */
  lemma {:induction false} PickFloorIsFirst(levels: seq<Map>, level: nat, rolls: seq<Roll>) returns (i: nat)
    requires |levels| == NUM_LEVELS && HasFloor(levels, level, rolls)
    ensures i < |rolls| && PickFloor(levels, level, rolls) == Spot(rolls[i].a % 80, rolls[i].b % 21)
    ensures Floor(levels, level, rolls[i].At()) && forall j :: 0 <= j < i ==> !Floor(levels, level, rolls[j].At())
  {
    if Floor(levels, level, rolls[0].At()) {
      i := 0;
    } else {
      var k := PickFloorIsFirst(levels, level, rolls[1..]);
      i := k + 1;
      forall j | 0 <= j < i
        ensures !Floor(levels, level, rolls[j].At())
      {
        assert j > 0 ==> rolls[j] == rolls[1..][j - 1];
      }
    }
  }

  /** After a crash the player is where its roll puts it, and the apples are where they were. */
  lemma RespawnsAtRoll(levels: seq<Map>, p: Play, t: Turn) returns (i: nat)
    requires |levels| == NUM_LEVELS && Allowed(levels, p, t) && p.left > 0 && HitsWall(levels, p, t)
    ensures var r := Trip(levels, p, t);
            && r.apples == p.apples && r.left == p.left && r.score == p.score && r.level == p.level
            && i < |t.respawn| && r.player == Spot(t.respawn[i].a % 80, t.respawn[i].b % 21)
            && Open(levels, p.level, p.apples, r.player)
            && forall j :: 0 <= j < i ==> !Open(levels, p.level, p.apples, t.respawn[j].At())
  {
    i := PickOpenIsFirst(levels, p.level, p.apples, t.respawn);
  }

  function Steps(turns: seq<Turn>, m: Move): nat {
    if turns == [] then 0 else (if turns[0].move == m then 1 else 0) + Steps(turns[1..], m)
  }

  /** No turn finds the player on a wall, or ends the level or the game. */
  ghost predicate Undisturbed(levels: seq<Map>, p: Play, turns: seq<Turn>)
    requires |levels| == NUM_LEVELS && AllAllowed(levels, p, turns)
    decreases |turns|
  {
    turns == []
    || (&& !p.shouldExit && !HitsWall(levels, p, turns[0]) && Trip(levels, p, turns[0]).level == p.level
        && Undisturbed(levels, Trip(levels, p, turns[0]), turns[1..]))
  }

  lemma UndisturbedTrip(levels: seq<Map>, p: Play, t: Turn)
    requires |levels| == NUM_LEVELS && Allowed(levels, p, t)
    requires !HitsWall(levels, p, t) && Trip(levels, p, t).level == p.level
    ensures Trip(levels, p, t).player == match t.move
                                         case Stay => p.player
                                         case Left => Spot(p.player.x - 1, p.player.y)
                                         case Right => Spot(p.player.x + 1, p.player.y)
                                         case Up => Spot(p.player.x, p.player.y - 1)
                                         case Down => Spot(p.player.x, p.player.y + 1)
  {
  }

  /** Then the player is as far to the right as it made more steps right than left, and as far down as more down
      than up. */
  lemma {:induction false} MovesAddUp(levels: seq<Map>, p: Play, turns: seq<Turn>)
    requires |levels| == NUM_LEVELS && AllAllowed(levels, p, turns) && Undisturbed(levels, p, turns)
    ensures Run(levels, p, turns).player == Spot(p.player.x + Steps(turns, Right) - Steps(turns, Left),
                                                 p.player.y + Steps(turns, Down) - Steps(turns, Up))
    decreases |turns|
  {
    hide Trip, HitsWall, Allowed;
    if turns != [] {
      UndisturbedTrip(levels, p, turns[0]);
      MovesAddUp(levels, Trip(levels, p, turns[0]), turns[1..]);
    }
  }
}
