/**
 * The "catch the hearts" game: a reducer over the game state with five
 * actions. Hearts fall at their own speed; a TICK moves every heart, counts
 * those that land in the basket or fall off the bottom, and raises the
 * `won` / `lost` flags against fixed thresholds.
 *
 * Coordinates, speeds and the time step are `real`s. `Math.random` becomes
 * draws in [0, 1) carried by the SPAWN_HEART action.
 */
module Reaction {
  import opened Common

  const GAME_W: real := 420.0
  const GAME_H: real := 520.0
  const BASKET_W: real := 90.0
  const BASKET_H: real := 18.0
  const HEART_SIZE: real := 26.0
  const SPAWN_MS: nat := 650
  /** Fall speeds in pixels per second. */
  const FALL_SPEED_MIN: real := 120.0
  const FALL_SPEED_MAX: real := 220.0
  const TARGET_SCORE: nat := 10
  const MAX_MISSES: nat := 7
  /** Distance of the basket's top edge from the bottom of the field. */
  const BASKET_LIFT: real := 52.0
  /** Extra depth of the catch band below the basket. */
  const CATCH_SLACK: real := 8.0
  /** Pixels the basket moves per arrow-key press. */
  const KEY_STEP: real := 18.0

  // ---------------------------------------------------------------------------
  // Helpers

  /** `rand(min, max)` for a draw `u` of `Math.random()`. */
  function Rand(lo: real, hi: real, u: real): (r: real)
    requires lo <= hi && 0.0 <= u < 1.0
    ensures lo <= r <= hi
    ensures lo < hi ==> r < hi
  {
    Scale(u, hi - lo) + lo
  }

  /** A draw `u` in [0, 1) scaled to the width `w`. */
  function Scale(u: real, w: real): (r: real)
    requires w >= 0.0 && 0.0 <= u < 1.0
    ensures 0.0 <= r <= w
    ensures w > 0.0 ==> r < w
  {
    if w > 0.0 then
      MulPositive(1.0 - u, w);
      assert (1.0 - u) * w == w - u * w;
      if u > 0.0 then MulPositive(u, w); u * w else u * w
    else u * w
  }

  lemma MulPositive(a: real, b: real)
    requires a > 0.0 && b > 0.0
    ensures a * b > 0.0
  {
  }

  /** `clamp(n, min, max)`: `Math.max(min, Math.min(max, n))`. */
  function Clamp(n: real, lo: real, hi: real): (r: real)
    ensures lo <= hi ==> lo <= r <= hi
    ensures lo <= n <= hi ==> r == n
    ensures r == lo || r == hi || r == n
  {
    var m := if hi < n then hi else n;
    if lo > m then lo else m
  }

  // ---------------------------------------------------------------------------
  // State and actions

  datatype Heart = Heart(id: nat, x: real, y: real, vy: real)

  datatype State = State(
    basketX: real,
    hearts: seq<Heart>,
    score: nat,
    misses: nat,
    running: bool,
    won: bool,
    lost: bool)

  datatype Action =
    | Reset
    | SetBasket(x: real)
    | ToggleRunning
      /** `id` stands for the generated identifier, `ux`/`uv` for the two random draws. */
    | SpawnHeart(id: nat, ux: real, uv: real)
    | Tick(dt: real)
      /** Any other action type, which the reducer ignores. */
    | Other

  /** Random draws come from `Math.random()` and so lie in [0, 1). */
  predicate ValidAction(a: Action)
  {
    a.SpawnHeart? ==> 0.0 <= a.ux < 1.0 && 0.0 <= a.uv < 1.0
  }

  /** `initialState()`. */
  function Initial(): State
  {
    State((GAME_W - BASKET_W) / 2.0, [], 0, 0, true, false, false)
  }

  /** The hearts move and spawn only while running and neither won nor lost. */
  predicate Active(s: State)
  {
    s.running && !s.won && !s.lost
  }

  // ---------------------------------------------------------------------------
  // One tick, heart by heart

  /** Where a heart's top edge is after falling for `dt` seconds. */
  function NextY(h: Heart, dt: real): real
  {
    h.y + h.vy * dt
  }

  /** What a tick does to one heart. */
  datatype Fate = Caught | Dropped | Falls(ny: real)

  /**
   * The per-heart classification of the TICK loop: the catch test (centre
   * within the basket, bottom within the catch band) comes before the drop
   * test (top below the field).
   */
  function FateOf(h: Heart, basketX: real, dt: real): (f: Fate)
    ensures f.Falls? ==> f.ny <= GAME_H
    ensures f.Falls? ==> f.ny == NextY(h, dt)
    ensures f.Dropped? ==> NextY(h, dt) > GAME_H
  {
    var ny := NextY(h, dt);
    var hxCenter := h.x + HEART_SIZE / 2.0;
    var hyBottom := ny + HEART_SIZE;
    var basketTopY := GAME_H - BASKET_LIFT;
    var withinBasketX := basketX <= hxCenter <= basketX + BASKET_W;
    var hitsBasketY := basketTopY <= hyBottom <= basketTopY + BASKET_H + CATCH_SLACK;
    if withinBasketX && hitsBasketY then Caught
    else if ny > GAME_H then Dropped
    else Falls(ny)
  }

  /** A heart whose position after the tick is inside the catch band has not left the field. */
  lemma CaughtIsOnField(h: Heart, basketX: real, dt: real)
    requires FateOf(h, basketX, dt).Caught?
    ensures NextY(h, dt) <= GAME_H
    ensures NextY(h, dt) >= GAME_H - BASKET_LIFT - HEART_SIZE
  {
  }

  /** The surviving hearts and the two counters of one tick. */
  datatype Outcome = Outcome(survivors: seq<Heart>, caught: nat, dropped: nat)

  /** Account for one more heart, appended after those already classified. */
  function Record(o: Outcome, h: Heart, f: Fate): Outcome
  {
    match f
    case Caught => o.(caught := o.caught + 1)
    case Dropped => o.(dropped := o.dropped + 1)
    case Falls(ny) => o.(survivors := o.survivors + [h.(y := ny)])
  }

  /**
   * The outcome of a tick over `hs`: every heart is caught, dropped or kept,
   * and every kept heart is on the field.
   */
  function Classify(hs: seq<Heart>, basketX: real, dt: real): (o: Outcome)
    ensures |o.survivors| + o.caught + o.dropped == |hs|
    ensures forall k :: 0 <= k < |o.survivors| ==> o.survivors[k].y <= GAME_H
    decreases |hs|
  {
    if hs == [] then Outcome([], 0, 0)
    else
      var rest := Classify(hs[1..], basketX, dt);
      match FateOf(hs[0], basketX, dt)
      case Caught => rest.(caught := rest.caught + 1)
      case Dropped => rest.(dropped := rest.dropped + 1)
      case Falls(ny) => rest.(survivors := [hs[0].(y := ny)] + rest.survivors)
  }

  lemma {:induction false} ClassifySnoc(hs: seq<Heart>, h: Heart, basketX: real, dt: real)
    ensures Classify(hs + [h], basketX, dt) == Record(Classify(hs, basketX, dt), h, FateOf(h, basketX, dt))
    decreases |hs|
  {
    if hs == [] {
      assert [h][1..] == [];
      assert hs + [h] == [h];
    } else {
      assert (hs + [h])[1..] == hs[1..] + [h];
      assert (hs + [h])[0] == hs[0];
      ClassifySnoc(hs[1..], h, basketX, dt);
    }
  }

  /** The TICK loop over `state.hearts` with its `caught` / `dropped` accumulators. */
  method TickHearts(hearts: seq<Heart>, basketX: real, dt: real)
    returns (nextHearts: seq<Heart>, caught: nat, dropped: nat)
    ensures Outcome(nextHearts, caught, dropped) == Classify(hearts, basketX, dt)
  {
    nextHearts, caught, dropped := [], 0, 0;
    var i := 0;
    while i < |hearts|
      invariant 0 <= i <= |hearts|
      invariant Outcome(nextHearts, caught, dropped) == Classify(hearts[..i], basketX, dt)
    {
      var h := hearts[i];
      assert hearts[..i + 1] == hearts[..i] + [h];
      ClassifySnoc(hearts[..i], h, basketX, dt);
      var ny := NextY(h, dt);
      var hxCenter := h.x + HEART_SIZE / 2.0;
      var hyBottom := ny + HEART_SIZE;
      var basketTopY := GAME_H - BASKET_LIFT;
      var withinBasketX := hxCenter >= basketX && hxCenter <= basketX + BASKET_W;
      var hitsBasketY := hyBottom >= basketTopY && hyBottom <= basketTopY + BASKET_H + CATCH_SLACK;
      if withinBasketX && hitsBasketY {
        caught := caught + 1;
      } else if ny > GAME_H {
        dropped := dropped + 1;
      } else {
        nextHearts := nextHearts + [h.(y := ny)];
      }
      i := i + 1;
    }
    assert hearts[..i] == hearts;
  }

  /** The hearts a tick keeps, as they were before it. */
  function Kept(hs: seq<Heart>, basketX: real, dt: real): (k: seq<Heart>)
    ensures |k| <= |hs|
    ensures forall j :: 0 <= j < |k| ==> k[j] in hs && FateOf(k[j], basketX, dt).Falls?
  {
    if hs == [] then []
    else (if FateOf(hs[0], basketX, dt).Falls? then [hs[0]] else []) + Kept(hs[1..], basketX, dt)
  }

  /**
   * The survivors of a tick are exactly the kept hearts, in their original
   * order, each with its id, x and speed unchanged and its y advanced by vy*dt.
   */
  lemma {:induction false} SurvivorsAreKeptHearts(hs: seq<Heart>, basketX: real, dt: real)
    ensures var o := Classify(hs, basketX, dt); var k := Kept(hs, basketX, dt);
      |o.survivors| == |k| &&
      forall j :: 0 <= j < |k| ==> o.survivors[j] == k[j].(y := NextY(k[j], dt))
    decreases |hs|
  {
    if hs != [] {
      var o := Classify(hs, basketX, dt);
      var k := Kept(hs, basketX, dt);
      var rest := Classify(hs[1..], basketX, dt);
      var kr := Kept(hs[1..], basketX, dt);
      SurvivorsAreKeptHearts(hs[1..], basketX, dt);
      match FateOf(hs[0], basketX, dt)
      case Falls(ny) =>
        assert o.survivors == [hs[0].(y := ny)] + rest.survivors;
        assert k == [hs[0]] + kr;
      case Caught =>
        assert o.survivors == rest.survivors;
        assert k == kr;
      case Dropped =>
        assert o.survivors == rest.survivors;
        assert k == kr;
    }
  }

  /** With nothing caught or dropped, every heart survives and just moves down. */
  lemma {:induction false} QuietTick(hs: seq<Heart>, basketX: real, dt: real)
    requires forall h :: h in hs ==> FateOf(h, basketX, dt).Falls?
    ensures var o := Classify(hs, basketX, dt);
      o.caught == 0 && o.dropped == 0 && |o.survivors| == |hs| &&
      forall j :: 0 <= j < |hs| ==> o.survivors[j] == hs[j].(y := NextY(hs[j], dt))
    decreases |hs|
  {
    if hs != [] {
      assert hs[0] in hs;
      QuietTick(hs[1..], basketX, dt);
      var o := Classify(hs, basketX, dt);
      var rest := Classify(hs[1..], basketX, dt);
      assert o.survivors == [hs[0].(y := NextY(hs[0], dt))] + rest.survivors;
    }
  }

  // ---------------------------------------------------------------------------
  // The reducer

  /** The heart SPAWN_HEART appends. */
  function NewHeart(id: nat, ux: real, uv: real): (h: Heart)
    requires 0.0 <= ux < 1.0 && 0.0 <= uv < 1.0
    ensures 0.0 <= h.x <= GAME_W - HEART_SIZE && h.y == -HEART_SIZE
    ensures FALL_SPEED_MIN <= h.vy <= FALL_SPEED_MAX
  {
    Heart(id, Rand(0.0, GAME_W - HEART_SIZE, ux), -HEART_SIZE, Rand(FALL_SPEED_MIN, FALL_SPEED_MAX, uv))
  }

  /** `reducer(state, action)`. */
  function Reduce(s: State, a: Action): State
    requires ValidAction(a)
  {
    match a
    case Reset => Initial()
    case SetBasket(x) => s.(basketX := x)
    case ToggleRunning =>
      if s.won || s.lost then s else s.(running := !s.running)
    case SpawnHeart(id, ux, uv) =>
      if !Active(s) then s else s.(hearts := s.hearts + [NewHeart(id, ux, uv)])
    case Tick(dt) =>
      if !Active(s) then s
      else
        var o := Classify(s.hearts, s.basketX, dt);
        var nextScore := s.score + o.caught;
        var nextMisses := s.misses + o.dropped;
        var nextWon := nextScore >= TARGET_SCORE;
        var nextLost := nextMisses >= MAX_MISSES;
        var nextRunning := if nextWon || nextLost then false else s.running;
        s.(hearts := o.survivors, score := nextScore, misses := nextMisses,
           won := nextWon, lost := nextLost, running := nextRunning)
    case Other => s
  }

  // ---------------------------------------------------------------------------
  // Properties of the reducer

  /** RESET yields the initial state from any state: basket centred, nothing on the field. */
  lemma ResetIsInitial(s: State)
    ensures var r := Reduce(s, Reset);
      r.basketX == 165.0 && r.hearts == [] && r.score == 0 && r.misses == 0 &&
      r.running && !r.won && !r.lost
  {
  }

  /** SET_BASKET stores the position verbatim, without clamping or a phase guard. */
  lemma SetBasketVerbatim(s: State, x: real)
    ensures Reduce(s, SetBasket(x)) == s.(basketX := x)
    ensures Reduce(s, SetBasket(x)).basketX == x
  {
  }

  /** TOGGLE_RUNNING is ignored once won or lost, and otherwise flips only `running`. */
  lemma ToggleGuard(s: State)
    ensures s.won || s.lost ==> Reduce(s, ToggleRunning) == s
    ensures !s.won && !s.lost ==>
      Reduce(s, ToggleRunning).running == !s.running &&
      Reduce(s, ToggleRunning).(running := s.running) == s
  {
  }

  /** SPAWN_HEART and TICK leave an inactive game untouched. */
  lemma InactiveIsFrozen(s: State, a: Action)
    requires ValidAction(a) && (a.SpawnHeart? || a.Tick?) && !Active(s)
    ensures Reduce(s, a) == s
  {
  }

  /** SPAWN_HEART on an active game appends exactly one heart, in range, at the top. */
  lemma SpawnAppendsOne(s: State, id: nat, ux: real, uv: real)
    requires Active(s) && 0.0 <= ux < 1.0 && 0.0 <= uv < 1.0
    ensures var r := Reduce(s, SpawnHeart(id, ux, uv));
      |r.hearts| == |s.hearts| + 1 && r.hearts[..|s.hearts|] == s.hearts &&
      r.hearts[|s.hearts|].id == id &&
      0.0 <= r.hearts[|s.hearts|].x <= GAME_W - HEART_SIZE &&
      r.hearts[|s.hearts|].y == -HEART_SIZE &&
      FALL_SPEED_MIN <= r.hearts[|s.hearts|].vy <= FALL_SPEED_MAX &&
      r.(hearts := s.hearts) == s
  {
    var r := Reduce(s, SpawnHeart(id, ux, uv));
    assert r.hearts[..|s.hearts|] == s.hearts;
  }

  /**
   * TICK on an active game: every heart is accounted for, the counters grow by
   * exactly the numbers caught and dropped, the flags are the two thresholds
   * taken independently, and the game stops exactly when either flag is set.
   */
  lemma TickCounters(s: State, dt: real)
    requires Active(s)
    ensures var r := Reduce(s, Tick(dt)); var o := Classify(s.hearts, s.basketX, dt);
      |r.hearts| + o.caught + o.dropped == |s.hearts| &&
      r.score == s.score + o.caught && r.misses == s.misses + o.dropped &&
      r.score >= s.score && r.misses >= s.misses &&
      (r.won <==> r.score >= TARGET_SCORE) && (r.lost <==> r.misses >= MAX_MISSES) &&
      (!r.running <==> r.won || r.lost) &&
      r.basketX == s.basketX
  {
  }

  /** Only RESET can lower the score or the miss count. */
  lemma CountersMonotone(s: State, a: Action)
    requires ValidAction(a) && !a.Reset?
    ensures Reduce(s, a).score >= s.score && Reduce(s, a).misses >= s.misses
  {
  }

  /** The states the game can reach. */
  ghost predicate Inv(s: State)
  {
    && (s.won <==> s.score >= TARGET_SCORE)
    && (s.lost <==> s.misses >= MAX_MISSES)
    && (s.won || s.lost ==> !s.running)
    && forall k :: 0 <= k < |s.hearts| ==>
      && 0.0 <= s.hearts[k].x <= GAME_W - HEART_SIZE
      && FALL_SPEED_MIN <= s.hearts[k].vy <= FALL_SPEED_MAX
      && s.hearts[k].y <= GAME_H
  }

  lemma InitialInv()
    ensures Inv(Initial())
  {
  }

  lemma {:induction false} KeptInRange(hs: seq<Heart>, basketX: real, dt: real)
    requires forall h :: h in hs ==> 0.0 <= h.x <= GAME_W - HEART_SIZE && FALL_SPEED_MIN <= h.vy <= FALL_SPEED_MAX
    ensures var o := Classify(hs, basketX, dt);
      forall k :: 0 <= k < |o.survivors| ==>
        0.0 <= o.survivors[k].x <= GAME_W - HEART_SIZE && FALL_SPEED_MIN <= o.survivors[k].vy <= FALL_SPEED_MAX
  {
    var o := Classify(hs, basketX, dt);
    var kept := Kept(hs, basketX, dt);
    SurvivorsAreKeptHearts(hs, basketX, dt);
    forall k | 0 <= k < |o.survivors|
      ensures 0.0 <= o.survivors[k].x <= GAME_W - HEART_SIZE && FALL_SPEED_MIN <= o.survivors[k].vy <= FALL_SPEED_MAX
    {
      assert kept[k] in hs;
    }
  }

  /** Every action keeps the game in a reachable-state shape. */
  lemma ReducePreservesInv(s: State, a: Action)
    requires Inv(s) && ValidAction(a)
    ensures Inv(Reduce(s, a))
  {
    match a
    case Tick(dt) =>
      if Active(s) {
        forall h | h in s.hearts
          ensures 0.0 <= h.x <= GAME_W - HEART_SIZE && FALL_SPEED_MIN <= h.vy <= FALL_SPEED_MAX
        {
          var k :| 0 <= k < |s.hearts| && s.hearts[k] == h;
        }
        KeptInRange(s.hearts, s.basketX, dt);
        TickCounters(s, dt);
        var r := Reduce(s, a);
        assert r.hearts == Classify(s.hearts, s.basketX, dt).survivors;
      }
    case SpawnHeart(id, ux, uv) =>
      if Active(s) {
        var r := Reduce(s, a);
        assert forall k :: 0 <= k < |s.hearts| ==> r.hearts[k] == s.hearts[k];
      }
    case _ =>
  }

  // ---------------------------------------------------------------------------
  // Status and controls

  datatype Status = StatusWon | StatusLost | StatusPaused | StatusRunning

  /** `gameStatus`: won, then lost, then paused, then running. */
  function StatusOf(s: State): Status
  {
    if s.won then StatusWon
    else if s.lost then StatusLost
    else if !s.running then StatusPaused
    else StatusRunning
  }

  /** In a reachable state the status reads "running" exactly when hearts spawn and move. */
  lemma RunningStatusIffActive(s: State)
    requires Inv(s)
    ensures StatusOf(s) == StatusRunning <==> Active(s)
    ensures StatusOf(s) == StatusPaused <==> !s.running && s.score < TARGET_SCORE && s.misses < MAX_MISSES
  {
  }

  /**
   * A tick that reaches both thresholds at once sets both flags, and the
   * status reports the win: one heart caught and one dropped, from 9 points
   * and 6 misses.
   */
  lemma TickCanSetBothFlags()
    ensures var caughtHeart := Heart(0, 200.0, 430.0, 200.0);
      var droppedHeart := Heart(1, 0.0, 510.0, 200.0);
      var s := State(170.0, [caughtHeart, droppedHeart], 9, 6, true, false, false);
      var r := Reduce(s, Tick(0.1));
      Inv(s) && r.won && r.lost && !r.running && r.hearts == [] && StatusOf(r) == StatusWon
  {
    var caughtHeart := Heart(0, 200.0, 430.0, 200.0);
    var droppedHeart := Heart(1, 0.0, 510.0, 200.0);
    assert FateOf(caughtHeart, 170.0, 0.1) == Caught;
    assert FateOf(droppedHeart, 170.0, 0.1) == Dropped;
    var s := State(170.0, [caughtHeart, droppedHeart], 9, 6, true, false, false);
    assert s.hearts[1..] == [droppedHeart];
    assert s.hearts[1..][1..] == [];
  }

  /**
   * The keyboard controls: when the game is not over, an arrow key dispatches
   * SET_BASKET with the basket moved by one step and clamped to the field.
   */
  function ArrowKey(s: State, right: bool): (a: Option<Action>)
    ensures a.Some? <==> !s.won && !s.lost
    ensures a.Some? ==> a.value.SetBasket? && 0.0 <= a.value.x <= GAME_W - BASKET_W
    ensures a.Some? && 0.0 <= s.basketX <= GAME_W - BASKET_W - KEY_STEP && right ==>
      a.value.x == s.basketX + KEY_STEP
    ensures a.Some? && KEY_STEP <= s.basketX <= GAME_W - BASKET_W && !right ==>
      a.value.x == s.basketX - KEY_STEP
  {
    if s.won || s.lost then None
    else if right then Some(SetBasket(Clamp(s.basketX + KEY_STEP, 0.0, GAME_W - BASKET_W)))
    else Some(SetBasket(Clamp(s.basketX - KEY_STEP, 0.0, GAME_W - BASKET_W)))
  }
}
