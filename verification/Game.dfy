// The apple game of lab/zeos/game.c: as values first (what one trip round the game loop does and what
// every run keeps), then as the record the source updates in place.

module GameSpec {
  import opened Maps

  const NUM_LEVELS: nat := 3
  const MAX_SCORE: nat := 99

  datatype Spot = Spot(x: int, y: int)

  /** Where a collected apple is put. */
  const GONE := Spot(-1, -1)

  datatype Move = Stay | Left | Right | Up | Down

  /** Two results of rand, reduced to a spot of the map. */
  datatype Roll = Roll(a: nat, b: nat) {
    function At(): (s: Spot)
      ensures OnMap(s)
    {
      Spot(a % MAP_WIDTH, b % MAP_HEIGHT)
    }
  }

  /** The rolls that placing every apple, and then the player, may use up. */
  datatype Deal = Deal(apples: seq<seq<Roll>>, player: seq<Roll>)

  datatype Play = Play(score: nat, level: nat, lives: int, shouldExit: bool, player: Spot, left: int, apples: seq<Spot>)

  /** One trip round the loop: at most one move by the player's thread, then the loop body. */
  datatype Turn = Turn(move: Move, respawn: seq<Roll>, deal: Deal)

  // ---------- spots

  predicate OnMap(s: Spot) {
    0 <= s.x < MAP_WIDTH && 0 <= s.y < MAP_HEIGHT
  }

  predicate OnBorder(s: Spot) {
    OnMap(s) && (s.x == 0 || s.x == MAP_WIDTH - 1 || s.y == 0 || s.y == MAP_HEIGHT - 1)
  }

  ghost predicate BorderIsWall(m: Map) {
    forall s: Spot :: OnBorder(s) ==> IsWall(m, s.x, s.y)
  }

  ghost predicate Bordered(levels: seq<Map>) {
    |levels| == NUM_LEVELS && forall l :: 0 <= l < NUM_LEVELS ==> BorderIsWall(levels[l])
  }

  /** game_is_wall, which finds walls everywhere once the levels are used up. */
  predicate Wall(levels: seq<Map>, level: nat, s: Spot)
    requires |levels| == NUM_LEVELS && OnMap(s)
  {
    level >= NUM_LEVELS || IsWall(levels[level], s.x, s.y)
  }

  predicate Floor(levels: seq<Map>, level: nat, s: Spot)
    requires |levels| == NUM_LEVELS
  {
    OnMap(s) && !Wall(levels, level, s)
  }

  predicate Open(levels: seq<Map>, level: nat, apples: seq<Spot>, s: Spot)
    requires |levels| == NUM_LEVELS
  {
    Floor(levels, level, s) && s !in apples
  }

  function Moved(s: Spot, m: Move): Spot {
    match m
    case Stay => s
    case Left => s.(x := s.x - 1)
    case Right => s.(x := s.x + 1)
    case Up => s.(y := s.y - 1)
    case Down => s.(y := s.y + 1)
  }

  // ---------- placing at random

  predicate HasFloor(levels: seq<Map>, level: nat, rolls: seq<Roll>)
    requires |levels| == NUM_LEVELS
  {
    rolls != [] && (Floor(levels, level, rolls[0].At()) || HasFloor(levels, level, rolls[1..]))
  }

  function PickFloor(levels: seq<Map>, level: nat, rolls: seq<Roll>): (s: Spot)
    requires |levels| == NUM_LEVELS && HasFloor(levels, level, rolls)
    ensures Floor(levels, level, s)
  {
    if Floor(levels, level, rolls[0].At()) then rolls[0].At() else PickFloor(levels, level, rolls[1..])
  }

  predicate HasOpen(levels: seq<Map>, level: nat, apples: seq<Spot>, rolls: seq<Roll>)
    requires |levels| == NUM_LEVELS
  {
    rolls != [] && (Open(levels, level, apples, rolls[0].At()) || HasOpen(levels, level, apples, rolls[1..]))
  }

  function PickOpen(levels: seq<Map>, level: nat, apples: seq<Spot>, rolls: seq<Roll>): (s: Spot)
    requires |levels| == NUM_LEVELS && HasOpen(levels, level, apples, rolls)
    ensures Open(levels, level, apples, s)
  {
    if Open(levels, level, apples, rolls[0].At()) then rolls[0].At() else PickOpen(levels, level, apples, rolls[1..])
  }

  predicate ApplesDealt(levels: seq<Map>, level: nat, num: nat, rolls: seq<seq<Roll>>)
    requires |levels| == NUM_LEVELS
  {
    |rolls| == num && forall i :: 0 <= i < num ==> HasFloor(levels, level, rolls[i])
  }

  function Placed(levels: seq<Map>, level: nat, num: nat, rolls: seq<seq<Roll>>): (apples: seq<Spot>)
    requires |levels| == NUM_LEVELS && ApplesDealt(levels, level, num, rolls)
    ensures |apples| == num && forall i :: 0 <= i < num ==> Floor(levels, level, apples[i])
  {
    seq(num, i requires 0 <= i < num => PickFloor(levels, level, rolls[i]))
  }

  predicate Dealt(levels: seq<Map>, level: nat, num: nat, d: Deal)
    requires |levels| == NUM_LEVELS
  {
    && ApplesDealt(levels, level, num, d.apples)
    && HasOpen(levels, level, Placed(levels, level, num, d.apples), d.player)
  }

  // ---------- one trip round the loop

  /** game_is_manzanita from index i on: the first apple at s that is not the one to skip, or -1. */
  function Find(apples: seq<Spot>, s: Spot, skip: int, i: nat): (r: int)
    requires i <= |apples|
    ensures r == -1 || (i <= r < |apples| && r != skip && apples[r] == s)
    ensures forall k :: i <= k < (if r == -1 then |apples| else r) && k != skip ==> apples[k] != s
    decreases |apples| - i
  {
    if i == |apples| then -1
    else if i != skip && apples[i] == s then i
    else Find(apples, s, skip, i + 1)
  }

  function Min(a: int, b: int): int {
    if a < b then a else b
  }

  /** game_process_collisions where the player hit a wall. */
  function Crash(levels: seq<Map>, p: Play, rolls: seq<Roll>): Play
    requires |levels| == NUM_LEVELS && HasOpen(levels, p.level, p.apples, rolls)
  {
    p.(lives := p.lives - 1, player := PickOpen(levels, p.level, p.apples, rolls))
  }

  /** game_process_collisions where the player stands on apple i. */
  function Eat(p: Play, i: nat): Play
    requires i < |p.apples|
  {
    p.(score := Min(MAX_SCORE, p.score + 1), left := p.left - 1, apples := p.apples[i := GONE])
  }

  /** game_process_collisions. */
  function Collide(levels: seq<Map>, p: Play, rolls: seq<Roll>): Play
    requires |levels| == NUM_LEVELS && OnMap(p.player)
    requires Wall(levels, p.level, p.player) ==> HasOpen(levels, p.level, p.apples, rolls)
  {
    if Wall(levels, p.level, p.player) then Crash(levels, p, rolls)
    else
      var i := Find(p.apples, p.player, -1, 0);
      if i == -1 then p else Eat(p, i)
  }

  /** game_advance_level. */
  function Advance(levels: seq<Map>, p: Play, d: Deal): Play
    requires |levels| == NUM_LEVELS
    requires p.level + 1 < NUM_LEVELS ==> Dealt(levels, p.level + 1, |p.apples|, d)
  {
    if p.level + 1 >= NUM_LEVELS then p.(level := p.level + 1, shouldExit := true)
    else
      var apples := Placed(levels, p.level + 1, |p.apples|, d.apples);
      p.(level := p.level + 1, left := |p.apples|, apples := apples,
         player := PickOpen(levels, p.level + 1, apples, d.player))
  }

  /** The end of the loop body. */
  function Settle(p: Play): Play {
    p.(shouldExit := p.lives <= 0 || p.level >= NUM_LEVELS)
  }

  /** The rolls of a turn let its placement loops end. */
  predicate Supplied(levels: seq<Map>, p: Play, t: Turn)
    requires |levels| == NUM_LEVELS && OnMap(Moved(p.player, t.move))
  {
    var m := p.(player := Moved(p.player, t.move));
    && (Wall(levels, p.level, m.player) ==> HasOpen(levels, p.level, p.apples, t.respawn))
    && var c := Collide(levels, m, t.respawn);
       c.left <= 0 && c.level + 1 < NUM_LEVELS ==> Dealt(levels, c.level + 1, |c.apples|, t.deal)
  }

  /** A turn whose check finds the player on the map. */
  predicate Allowed(levels: seq<Map>, p: Play, t: Turn)
    requires |levels| == NUM_LEVELS
  {
    OnMap(Moved(p.player, t.move)) && Supplied(levels, p, t)
  }

  function Trip(levels: seq<Map>, p: Play, t: Turn): Play
    requires |levels| == NUM_LEVELS && Allowed(levels, p, t)
  {
    var c := Collide(levels, p.(player := Moved(p.player, t.move)), t.respawn);
    Settle(if c.left <= 0 then Advance(levels, c, t.deal) else c)
  }

  // ---------- what every trip keeps

  /** How many apples of the level are not collected. */
  function Remaining(apples: seq<Spot>): (n: nat)
    ensures n <= |apples|
  {
    if apples == [] then 0 else (if apples[0] == GONE then 0 else 1) + Remaining(apples[1..])
  }

  lemma {:induction false} RemainingAfterOne(apples: seq<Spot>, i: nat)
    requires i < |apples| && apples[i] != GONE
    ensures Remaining(apples[i := GONE]) == Remaining(apples) - 1
  {
    if i == 0 {
      assert apples[i := GONE][1..] == apples[1..];
    } else {
      RemainingAfterOne(apples[1..], i - 1);
      assert apples[i := GONE][1..] == apples[1..][i - 1 := GONE];
    }
  }

  lemma {:induction false} RemainingAll(apples: seq<Spot>)
    requires forall i :: 0 <= i < |apples| ==> apples[i] != GONE
    ensures Remaining(apples) == |apples|
  {
    if apples != [] {
      RemainingAll(apples[1..]);
    }
  }

  lemma {:induction false} NoneRemains(apples: seq<Spot>, i: nat)
    requires Remaining(apples) == 0 && i < |apples|
    ensures apples[i] == GONE
  {
    if i > 0 {
      NoneRemains(apples[1..], i - 1);
    }
  }

  lemma {:induction false} SomeRemains(apples: seq<Spot>) returns (i: nat)
    requires Remaining(apples) > 0
    ensures i < |apples| && apples[i] != GONE
  {
    if apples[0] != GONE {
      i := 0;
    } else {
      var j := SomeRemains(apples[1..]);
      i := j + 1;
    }
  }

  /** Apples eaten so far: those of the levels done and those missing from this one. */
  function EatenCount(p: Play): int {
    if p.level < NUM_LEVELS then p.level * |p.apples| + |p.apples| - p.left else NUM_LEVELS * |p.apples|
  }

  /** The apples of the level: each collected or on the floor, and the counter counts those left. */
  ghost predicate Stocked(levels: seq<Map>, p: Play)
    requires |levels| == NUM_LEVELS
  {
    && (forall i :: 0 <= i < |p.apples| ==> p.apples[i] == GONE || Floor(levels, p.level, p.apples[i]))
    && p.left == Remaining(p.apples)
    && p.score == Min(MAX_SCORE, EatenCount(p))
  }

  ghost predicate Good(levels: seq<Map>, p: Play)
    requires |levels| == NUM_LEVELS
  {
    && |p.apples| > 0
    && (if p.level < NUM_LEVELS then Stocked(levels, p) && p.left > 0 && Floor(levels, p.level, p.player)
        else p.level == NUM_LEVELS && p.lives > 0 && p.score == Min(MAX_SCORE, EatenCount(p)))
    && (p.shouldExit <==> p.lives <= 0 || p.level == NUM_LEVELS)
  }

  /** One move from a floor spot stays on the map, because borders are walls. */
  lemma OneMoveStaysOnMap(levels: seq<Map>, level: nat, s: Spot, m: Move)
    requires Bordered(levels) && level < NUM_LEVELS && Floor(levels, level, s)
    ensures OnMap(Moved(s, m))
  {
    assert BorderIsWall(levels[level]);
    assert !OnBorder(s);
  }

  lemma CollideKeeps(levels: seq<Map>, p: Play, rolls: seq<Roll>)
    requires |levels| == NUM_LEVELS && p.level < NUM_LEVELS && OnMap(p.player)
    requires Wall(levels, p.level, p.player) ==> HasOpen(levels, p.level, p.apples, rolls)
    requires Stocked(levels, p) && p.left > 0 && p.lives > 0
    ensures var c := Collide(levels, p, rolls);
            Stocked(levels, c) && Floor(levels, c.level, c.player) && (c.left <= 0 ==> c.lives > 0)
  {
    var i := Find(p.apples, p.player, -1, 0);
    if !Wall(levels, p.level, p.player) && i != -1 {
      RemainingAfterOne(p.apples, i);
    }
  }

  lemma AdvanceKeeps(levels: seq<Map>, p: Play, d: Deal)
    requires |levels| == NUM_LEVELS && p.level < NUM_LEVELS && |p.apples| > 0
    requires p.level + 1 < NUM_LEVELS ==> Dealt(levels, p.level + 1, |p.apples|, d)
    requires Stocked(levels, p) && p.left <= 0 && p.lives > 0
    ensures Good(levels, Settle(Advance(levels, p, d)))
  {
    if p.level + 1 < NUM_LEVELS {
      var apples := Placed(levels, p.level + 1, |p.apples|, d.apples);
      RemainingAll(apples);
    }
  }

  /** Every trip round the loop keeps the accounts. */
  lemma TripKeeps(levels: seq<Map>, p: Play, t: Turn)
    requires |levels| == NUM_LEVELS && Good(levels, p) && !p.shouldExit && Allowed(levels, p, t)
    ensures Good(levels, Trip(levels, p, t))
  {
    var m := p.(player := Moved(p.player, t.move));
    CollideKeeps(levels, m, t.respawn);
    var c := Collide(levels, m, t.respawn);
    if c.left <= 0 {
      AdvanceKeeps(levels, c, t.deal);
    }
  }

  // ---------- each apple is eaten once

  /** Apple i of level l has been collected. */
  predicate Collected(p: Play, l: nat, i: nat) {
    i < |p.apples| && l < NUM_LEVELS && (l < p.level || (l == p.level && p.apples[i] == GONE))
  }

  /** eaten holds exactly the apples collected so far, and they are as many as the counters say. */
  ghost predicate Ate(p: Play, eaten: set<(nat, nat)>) {
    (forall l: nat, i: nat :: (l, i) in eaten <==> Collected(p, l, i)) && |eaten| == EatenCount(p)
  }

  /** The apple collected by a trip, if there is one. */
  function Meal(levels: seq<Map>, p: Play, t: Turn): set<(nat, nat)>
    requires |levels| == NUM_LEVELS && Allowed(levels, p, t)
  {
    var s := Moved(p.player, t.move);
    var i := Find(p.apples, s, -1, 0);
    if Wall(levels, p.level, s) || i == -1 then {} else {(p.level, i)}
  }

  lemma EatOnce(p: Play, i: nat, eaten: set<(nat, nat)>)
    requires Ate(p, eaten) && i < |p.apples| && p.apples[i] != GONE && p.level < NUM_LEVELS
    ensures (p.level, i) !in eaten && Ate(Eat(p, i), eaten + {(p.level, i)})
  {
    assert !Collected(p, p.level, i);
    forall l: nat, k: nat ensures (l, k) in eaten + {(p.level, i)} <==> Collected(Eat(p, i), l, k) {
      assert (l, k) in eaten <==> Collected(p, l, k);
    }
  }

  lemma AdvanceEatsNothing(levels: seq<Map>, p: Play, d: Deal, eaten: set<(nat, nat)>)
    requires |levels| == NUM_LEVELS && p.level < NUM_LEVELS && Ate(p, eaten)
    requires p.level + 1 < NUM_LEVELS ==> Dealt(levels, p.level + 1, |p.apples|, d)
    requires p.left == Remaining(p.apples) == 0
    ensures Ate(Advance(levels, p, d), eaten)
  {
    var a := Advance(levels, p, d);
    forall l: nat, i: nat ensures (l, i) in eaten <==> Collected(a, l, i) {
      assert (l, i) in eaten <==> Collected(p, l, i);
      if l == p.level && i < |p.apples| {
        NoneRemains(p.apples, i);
      }
    }
  }

  /** A trip's meal is an apple not eaten before, and the record with it added is the new record. */
  lemma MealIsNew(levels: seq<Map>, p: Play, t: Turn, eaten: set<(nat, nat)>)
    requires |levels| == NUM_LEVELS && Good(levels, p) && !p.shouldExit && Allowed(levels, p, t)
    requires Ate(p, eaten)
    ensures eaten !! Meal(levels, p, t) && Ate(Trip(levels, p, t), eaten + Meal(levels, p, t))
  {
    var m := p.(player := Moved(p.player, t.move));
    CollideKeeps(levels, m, t.respawn);
    var c := Collide(levels, m, t.respawn);
    assert forall l: nat, i: nat :: Collected(m, l, i) <==> Collected(p, l, i);
    var i := Find(p.apples, m.player, -1, 0);
    var now := eaten + Meal(levels, p, t);
    if Wall(levels, p.level, m.player) || i == -1 {
      assert now == eaten;
    } else {
      EatOnce(m, i, eaten);
    }
    assert Ate(c, now);
    if c.left <= 0 {
      AdvanceEatsNothing(levels, c, t.deal, now);
    }
  }

  // ---------- runs

  /** The loop of game_loop over the given turns; once should_exit is set, nothing more happens. */
  ghost predicate AllAllowed(levels: seq<Map>, p: Play, turns: seq<Turn>)
    requires |levels| == NUM_LEVELS
    decreases |turns|
  {
    turns == [] || p.shouldExit
    || (Allowed(levels, p, turns[0]) && AllAllowed(levels, Trip(levels, p, turns[0]), turns[1..]))
  }

  ghost function Run(levels: seq<Map>, p: Play, turns: seq<Turn>): Play
    requires |levels| == NUM_LEVELS && AllAllowed(levels, p, turns)
    decreases |turns|
  {
    if turns == [] || p.shouldExit then p else Run(levels, Trip(levels, p, turns[0]), turns[1..])
  }

  /** The record of apples collected, carried through the run. */
  ghost function Meals(levels: seq<Map>, p: Play, turns: seq<Turn>, eaten: set<(nat, nat)>): set<(nat, nat)>
    requires |levels| == NUM_LEVELS && AllAllowed(levels, p, turns)
    decreases |turns|
  {
    if turns == [] || p.shouldExit then eaten
    else Meals(levels, Trip(levels, p, turns[0]), turns[1..], eaten + Meal(levels, p, turns[0]))
  }

  lemma {:induction false} RunKeeps(levels: seq<Map>, p: Play, turns: seq<Turn>, eaten: set<(nat, nat)>)
    requires |levels| == NUM_LEVELS && AllAllowed(levels, p, turns) && Good(levels, p) && Ate(p, eaten)
    ensures Good(levels, Run(levels, p, turns)) && Ate(Run(levels, p, turns), Meals(levels, p, turns, eaten))
    ensures |Run(levels, p, turns).apples| == |p.apples|
    decreases |turns|
  {
    if turns != [] && !p.shouldExit {
      TripKeeps(levels, p, turns[0]);
      MealIsNew(levels, p, turns[0], eaten);
      RunKeeps(levels, Trip(levels, p, turns[0]), turns[1..], eaten + Meal(levels, p, turns[0]));
    }
  }

  // ---------- a new game

  function StartLives(diff: nat): int {
    if 6 - diff / 2 < 1 then 1 else 6 - diff / 2
  }

  function NumApples(diff: nat): nat {
    3 + diff * 2
  }

  /** game_new for a difficulty that is not negative. */
  function NewPlay(levels: seq<Map>, diff: nat, d: Deal): Play
    requires |levels| == NUM_LEVELS && Dealt(levels, 0, NumApples(diff), d)
  {
    var num := NumApples(diff);
    var apples := Placed(levels, 0, num, d.apples);
    Play(0, 0, StartLives(diff), false, PickOpen(levels, 0, apples, d.player), num, apples)
  }

  lemma NewIsGood(levels: seq<Map>, diff: nat, d: Deal)
    requires |levels| == NUM_LEVELS && Dealt(levels, 0, NumApples(diff), d)
    ensures Good(levels, NewPlay(levels, diff, d)) && Ate(NewPlay(levels, diff, d), {})
  {
    RemainingAll(NewPlay(levels, diff, d).apples);
  }

  lemma WonIffAllEaten(levels: seq<Map>, p: Play, eaten: set<(nat, nat)>)
    requires |levels| == NUM_LEVELS && Good(levels, p) && Ate(p, eaten)
    ensures p.level == NUM_LEVELS <==> forall l: nat, i: nat :: l < NUM_LEVELS && i < |p.apples| ==> (l, i) in eaten
  {
    assert forall l: nat, i: nat :: (l, i) in eaten <==> Collected(p, l, i);
    if p.level < NUM_LEVELS {
      var i := SomeRemains(p.apples);
      assert (p.level, i) !in eaten;
    }
  }

  /**
   * Over every run of a new game, the score is the number of different apples eaten, cut off at 99, and
   * manzanitas_left counts the apples left of the level. A game that has ended is won, lives left over,
   * exactly when it is past the last level, exactly when every apple of all the levels was eaten.
   */
  lemma GameOutcome(levels: seq<Map>, diff: nat, d: Deal, turns: seq<Turn>)
    requires |levels| == NUM_LEVELS && Dealt(levels, 0, NumApples(diff), d)
    requires AllAllowed(levels, NewPlay(levels, diff, d), turns)
    ensures var p := Run(levels, NewPlay(levels, diff, d), turns);
            var eaten := Meals(levels, NewPlay(levels, diff, d), turns, {});
            var num := NumApples(diff);
            && p.score == Min(MAX_SCORE, |eaten|)
            && (p.level < NUM_LEVELS ==> p.left == Remaining(p.apples) > 0 && Floor(levels, p.level, p.player)
                                         && p.score == Min(MAX_SCORE, p.level * num + num - p.left))
            && (p.shouldExit ==> (p.lives > 0 <==> p.level == NUM_LEVELS))
            && (p.level == NUM_LEVELS <==> forall l: nat, i: nat :: l < NUM_LEVELS && i < num ==> (l, i) in eaten)
  {
    var p0 := NewPlay(levels, diff, d);
    NewIsGood(levels, diff, d);
    RunKeeps(levels, p0, turns, {});
    WonIffAllEaten(levels, Run(levels, p0, turns), Meals(levels, p0, turns, {}));
  }

  /** As AllAllowed, but only the rolls are asked for: nothing is said of a turn that finds the player off the map. */
  ghost predicate AllSupplied(levels: seq<Map>, p: Play, turns: seq<Turn>)
    requires |levels| == NUM_LEVELS
    decreases |turns|
  {
    turns == [] || p.shouldExit
    || (OnMap(Moved(p.player, turns[0].move)) ==>
          Supplied(levels, p, turns[0]) && AllSupplied(levels, Trip(levels, p, turns[0]), turns[1..]))
  }

  /** On bordered levels the player is on the map at every check of every run, a check following each move. */
  lemma {:induction false} OnMapAtEveryCheck(levels: seq<Map>, p: Play, turns: seq<Turn>)
    requires Bordered(levels) && Good(levels, p) && AllSupplied(levels, p, turns)
    ensures AllAllowed(levels, p, turns)
    decreases |turns|
  {
    if turns != [] && !p.shouldExit {
      OneMoveStaysOnMap(levels, p.level, p.player, turns[0].move);
      TripKeeps(levels, p, turns[0]);
      OnMapAtEveryCheck(levels, Trip(levels, p, turns[0]), turns[1..]);
    }
  }

  // ---------- the three levels of the game

  type Row = r: seq<bv8> | |r| == ROW_BYTES witness seq(ROW_BYTES, i => 0)

  const BLANK: Row := [0, 0, 0, 0, 0, 0, 0, 0, 0, 0]

  /** A level as a list of different rows and, for each line of the map, which of them it shows. */
  function Bitmap(rows: seq<Row>, plan: seq<nat>): Map
    requires |plan| == MAP_HEIGHT && forall y :: 0 <= y < |plan| ==> plan[y] < |rows|
  {
    seq(MAP_HEIGHT * ROW_BYTES, k requires 0 <= k < MAP_HEIGHT * ROW_BYTES => rows[plan[k / ROW_BYTES]][k % ROW_BYTES])
  }

  const ROWS_1: seq<Row> :=
    [BLANK, [0x7f, 0xff, 0xff, 0xff, 0xff, 0xff, 0xff, 0xff, 0xff, 0xfc],
     [0x7f, 0xc0, 0x00, 0x00, 0xff, 0xfc, 0x00, 0x00, 0x01, 0xfc]]
  const PLAN_1: seq<nat> := [0, 1, 1, 1, 2, 2, 2, 2, 2, 2, 2, 2, 2, 2, 2, 2, 2, 1, 1, 1, 0]
  const LEVEL_1: Map := Bitmap(ROWS_1, PLAN_1)

  const ROWS_2: seq<Row> :=
    [BLANK, [0x7f, 0xff, 0xff, 0xff, 0xff, 0xff, 0xff, 0xff, 0xff, 0xfe],
     [0x00, 0x03, 0xff, 0x00, 0x7f, 0xc0, 0x1f, 0xfc, 0x00, 0x00],
     [0x00, 0x03, 0xc3, 0x00, 0x7f, 0xc0, 0x18, 0x3c, 0x00, 0x00],
     [0x00, 0x03, 0xc3, 0xff, 0xff, 0xff, 0xf8, 0x3c, 0x00, 0x00],
     [0x00, 0x03, 0xc3, 0xff, 0xc0, 0x7f, 0xf8, 0x3c, 0x00, 0x00]]
  const PLAN_2: seq<nat> := [0, 1, 1, 1, 2, 2, 2, 2, 3, 3, 3, 3, 3, 3, 3, 4, 5, 5, 5, 5, 0]
  const LEVEL_2: Map := Bitmap(ROWS_2, PLAN_2)

  const ROWS_3: seq<Row> :=
    [BLANK, [0x7f, 0xff, 0xc0, 0x1f, 0xff, 0xff, 0xff, 0x00, 0x7f, 0xfe],
     [0x00, 0x01, 0xc0, 0x1f, 0xff, 0xff, 0xff, 0x00, 0x70, 0x00],
     [0x00, 0x01, 0xc0, 0x18, 0x00, 0x40, 0x03, 0x00, 0x70, 0x00],
     [0x00, 0x01, 0xff, 0xf8, 0x00, 0x40, 0x03, 0xff, 0xf0, 0x00]]
  const PLAN_3: seq<nat> := [0, 1, 1, 1, 1, 1, 2, 3, 3, 4, 4, 4, 3, 3, 1, 1, 1, 1, 1, 1, 0]
  const LEVEL_3: Map := Bitmap(ROWS_3, PLAN_3)

  const LEVELS: seq<Map> := [LEVEL_1, LEVEL_2, LEVEL_3]

  lemma BitmapByte(rows: seq<Row>, plan: seq<nat>, x: nat, y: nat)
    requires |plan| == MAP_HEIGHT && (forall k :: 0 <= k < |plan| ==> plan[k] < |rows|) && x < MAP_WIDTH && y < MAP_HEIGHT
    ensures Bitmap(rows, plan)[y * MAP_WIDTH / 8 + x / 8] == rows[plan[y]][x / 8]
  {
    var k := y * MAP_WIDTH / 8 + x / 8;
    assert k / ROW_BYTES == y && k % ROW_BYTES == x / 8;
  }

  lemma BitmapIsBordered(rows: seq<Row>, plan: seq<nat>)
    requires |plan| == MAP_HEIGHT && forall y :: 0 <= y < |plan| ==> plan[y] < |rows|
    requires rows[plan[0]] == rows[plan[MAP_HEIGHT - 1]] == BLANK
    requires forall k :: 0 <= k < |rows| ==> rows[k][0] & 0x80 == 0 && rows[k][ROW_BYTES - 1] & 0x01 == 0
    ensures BorderIsWall(Bitmap(rows, plan))
  {
    forall s: Spot | OnBorder(s) ensures IsWall(Bitmap(rows, plan), s.x, s.y) {
      BitmapByte(rows, plan, s.x, s.y);
      BorderByte(rows[plan[s.y]], s);
    }
  }

  /** The mask of a border spot selects nothing in a blank row, nor the outer bits of a bordered one. */
  lemma BorderByte(row: Row, s: Spot)
    requires OnBorder(s) && row[0] & 0x80 == 0 && row[ROW_BYTES - 1] & 0x01 == 0
    requires s.y == 0 || s.y == MAP_HEIGHT - 1 ==> row == BLANK
    ensures row[s.x / 8] & (0x80 as bv8 >> (s.x % 8)) == 0
  {
    if s.x == 0 {
      assert s.x / 8 == 0;
    } else if s.x == MAP_WIDTH - 1 {
      assert s.x / 8 == ROW_BYTES - 1 && s.x % 8 == 7;
    } else {
      assert row[s.x / 8] == 0;
    }
  }

  lemma Level1IsBordered()
    ensures BorderIsWall(LEVEL_1)
  {
    BitmapIsBordered(ROWS_1, PLAN_1);
  }

  lemma Level2IsBordered()
    ensures BorderIsWall(LEVEL_2)
  {
    BitmapIsBordered(ROWS_2, PLAN_2);
  }

  lemma Level3IsBordered()
    ensures BorderIsWall(LEVEL_3)
  {
    BitmapIsBordered(ROWS_3, PLAN_3);
  }

  lemma LevelsAreBordered()
    ensures Bordered(LEVELS)
  {
    Level1IsBordered();
    Level2IsBordered();
    Level3IsBordered();
  }
}

module Games {
  import opened Maps
  import opened GameSpec

  /** struct game, with manzanitas as an array of num_manzanitas spots. */
  class Game {
    const levels: seq<Map>
    var score: nat
    var level: nat
    var lives: int
    var shouldExit: bool
    var player: Spot
    var left: int
    const apples: array<Spot>

    ghost predicate Valid() reads this {
      |levels| == NUM_LEVELS
    }

    function Abs(): Play reads this, apples {
      Play(score, level, lives, shouldExit, player, left, apples[..])
    }

    /** game_is_wall, asked for a level that exists or for one past the last. */
    method IsWallAt(s: Spot) returns (wall: bool)
      requires Valid() && OnMap(s)
      modifies this`shouldExit
      ensures wall == Wall(levels, level, s)
      ensures shouldExit == (old(shouldExit) || level >= NUM_LEVELS)
    {
      if level >= NUM_LEVELS {
        shouldExit := true;
        return true;
      }
      wall := IsWall(levels[level], s.x, s.y);
    }

    /** game_is_manzanita. */
    method IsManzanita(s: Spot, skip: int) returns (r: int)
      ensures r == Find(apples[..], s, skip, 0)
      ensures r >= 0 ==> r < apples.Length && apples[r] == s
      ensures r == -1 <==> forall k :: 0 <= k < apples.Length && k != skip ==> apples[k] != s
    {
      for i := 0 to apples.Length
        invariant Find(apples[..], s, skip, 0) == Find(apples[..], s, skip, i)
      {
        if i != skip && apples[i] == s {
          return i;
        }
      }
      r := -1;
    }

    /** game_move_player_random. */
    method MovePlayerRandom(rolls: seq<Roll>)
      requires Valid() && level < NUM_LEVELS && HasOpen(levels, level, apples[..], rolls)
      modifies this`player, this`shouldExit
      ensures Abs() == old(Abs()).(player := PickOpen(levels, level, apples[..], rolls))
    {
      ghost var spots := apples[..];
      var i := 0;
      var s := rolls[0].At();
      var wall := IsWallAt(s);
      var apple := IsManzanita(s, -1);
      while wall || apple >= 0
        invariant i < |rolls| && s == rolls[i].At() && wall == Wall(levels, level, s)
        invariant apples[..] == spots && (apple >= 0 <==> s in spots) && unchanged(this)
        invariant HasOpen(levels, level, spots, rolls[i..])
        invariant PickOpen(levels, level, spots, rolls) == PickOpen(levels, level, spots, rolls[i..])
        decreases |rolls| - i
      {
        assert rolls[i..][1..] == rolls[i + 1..];
        i := i + 1;
        s := rolls[i].At();
        wall := IsWallAt(s);
        apple := IsManzanita(s, -1);
      }
      player := s;
    }

    /** game_move_manzanita_random, which calls itself until a roll is not a wall. */
    method MoveManzanitaRandom(i: nat, rolls: seq<Roll>)
      requires Valid() && level < NUM_LEVELS && i < apples.Length && HasFloor(levels, level, rolls)
      modifies this`shouldExit, apples
      ensures apples[..] == old(apples[..])[i := PickFloor(levels, level, rolls)]
      ensures unchanged(this)
      decreases |rolls|
    {
      var s := rolls[0].At();
      var wall := IsWallAt(s);
      if !wall {
        apples[i] := s;
      } else {
        MoveManzanitaRandom(i, rolls[1..]);
      }
    }

    /** The loop that places every apple. */
    method PlaceApples(rolls: seq<seq<Roll>>)
      requires Valid() && level < NUM_LEVELS && ApplesDealt(levels, level, apples.Length, rolls)
      modifies this`shouldExit, apples
      ensures apples[..] == Placed(levels, level, apples.Length, rolls)
      ensures unchanged(this)
    {
      for i := 0 to apples.Length
        invariant unchanged(this)
        invariant apples[..i] == Placed(levels, level, apples.Length, rolls)[..i]
      {
        MoveManzanitaRandom(i, rolls[i]);
      }
    }

    /** game_new, past the test of diff. */
    constructor (levels: seq<Map>, diff: nat, d: Deal)
      requires |levels| == NUM_LEVELS && Dealt(levels, 0, NumApples(diff), d)
      ensures Valid() && fresh(apples) && this.levels == levels
      ensures Abs() == NewPlay(levels, diff, d)
    {
      this.levels := levels;
      score, level, shouldExit := 0, 0, false;
      lives := if 6 - diff / 2 < 1 then 1 else 6 - diff / 2;
      var num := 3 + diff * 2;
      left := num;
      apples := new Spot[num](i => GONE);
      player := GONE;
      new;
      PlaceApples(d.apples);
      MovePlayerRandom(d.player);
    }

    /** One key of game_process_input. */
    method MovePlayer(m: Move)
      modifies this`player
      ensures Abs() == old(Abs()).(player := Moved(old(player), m))
    {
      match m {
        case Stay =>
        case Left => player := player.(x := player.x - 1);
        case Right => player := player.(x := player.x + 1);
        case Up => player := player.(y := player.y - 1);
        case Down => player := player.(y := player.y + 1);
      }
    }

    /** game_process_collisions. */
    method ProcessCollisions(rolls: seq<Roll>)
      requires Valid() && level < NUM_LEVELS && OnMap(player)
      requires Wall(levels, level, player) ==> HasOpen(levels, level, apples[..], rolls)
      modifies this, apples
      ensures Abs() == Collide(levels, old(Abs()), rolls)
      ensures lives == old(lives) - if Wall(levels, old(level), old(player)) then 1 else 0
    {
      var wall := IsWallAt(player);
      if wall {
        lives := lives - 1;
        MovePlayerRandom(rolls);
        return;
      }
      var i := IsManzanita(player, -1);
      if i == -1 {
        return;
      }
      score := score + 1;
      if score > MAX_SCORE {
        score := MAX_SCORE;
      }
      left := left - 1;
      apples[i] := GONE;
    }

    /** game_advance_level. */
    method AdvanceLevel(d: Deal)
      requires Valid() && (level + 1 < NUM_LEVELS ==> Dealt(levels, level + 1, apples.Length, d))
      modifies this, apples
      ensures Abs() == Advance(levels, old(Abs()), d)
    {
      level := level + 1;
      if level >= NUM_LEVELS {
        shouldExit := true;
        return;
      }
      left := apples.Length;
      PlaceApples(d.apples);
      MovePlayerRandom(d.player);
    }

    /** The body of game_loop after a move, or none, of the player's thread. */
    method LoopBody(t: Turn)
      requires Valid() && level < NUM_LEVELS && Allowed(levels, Abs(), t)
      modifies this, apples
      ensures Abs() == Trip(levels, old(Abs()), t)
    {
      MovePlayer(t.move);
      ProcessCollisions(t.respawn);
      if left <= 0 {
        AdvanceLevel(t.deal);
      }
      shouldExit := lives <= 0 || level >= NUM_LEVELS;
    }

    /** game_loop, over the turns it is given; it says whether the game was won. */
    method GameLoop(turns: seq<Turn>) returns (won: bool)
      requires Valid() && Good(levels, Abs()) && AllAllowed(levels, Abs(), turns)
      modifies this, apples
      ensures Abs() == Run(levels, old(Abs()), turns)
      ensures shouldExit ==> (won <==> level == NUM_LEVELS)
    {
      ghost var p0 := Abs();
      var i := 0;
      while !shouldExit && i < |turns|
        invariant i <= |turns| && Valid() && Good(levels, Abs()) && AllAllowed(levels, Abs(), turns[i..])
        invariant Run(levels, p0, turns) == Run(levels, Abs(), turns[i..])
      {
        assert turns[i..][0] == turns[i] && turns[i..][1..] == turns[i + 1..];
        TripKeeps(levels, Abs(), turns[i]);
        LoopBody(turns[i]);
        i := i + 1;
      }
      assert turns[i..] == [] || shouldExit;
      won := lives > 0;
    }
  }

  /** game_new: no game for a negative difficulty. */
  method GameNew(levels: seq<Map>, diff: int, d: Deal) returns (g: Game?)
    requires |levels| == NUM_LEVELS && (diff >= 0 ==> Dealt(levels, 0, NumApples(diff), d))
    ensures g == null <==> diff < 0
    ensures g != null ==> fresh(g) && g.Valid() && g.levels == levels && g.Abs() == NewPlay(levels, diff, d)
  {
    if diff < 0 {
      return null;
    }
    g := new Game(levels, diff, d);
  }
}
