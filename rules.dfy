/** The game's rules as functions on a snapshot of the play state: speed by
    score, the start position, key handling, the pause toggle, the movement
    tick and one frame of the main loop, with the facts they keep. */
module Rules {
  import opened Grid
  import opened Body

  /** Moves per second at score 0, score points per speed step, and the cap. */
  const StartSpeed: nat := 7
  const SpeedIncreaseEvery: nat := 5
  const MaxSpeed: nat := 24

  datatype Option<T> = None | Some(value: T)

  /** Everything the main loop keeps between frames, except clocks. */
  datatype GameState = GameState(
    snake: seq<Cell>,     // head first
    dir: Direction,       // the direction of the last tick
    pending: Direction,   // the direction the next tick will apply
    food: Cell,
    score: nat,
    high: int,            // as loaded from the high-score store, then raised
    speed: nat,           // moves per second, recomputed every frame
    paused: bool,
    gameOver: bool)

  /** Keys the loop reacts to; anything else is OtherKey. */
  datatype Key =
    | Escape | KeyP | KeyR
    | KeyUp | KeyW | KeyDown | KeyS | KeyLeft | KeyA | KeyRight | KeyD
    | OtherKey

  /** Window events: closing the window, or a key press. */
  datatype Event = WindowClose | KeyPress(key: Key)

  /** What the loop does after handling input: go on, return to the start
      menu, or end the program. */
  datatype Signal = Continue | Restart | Quit

  datatype Reaction = Reaction(state: GameState, signal: Signal)

  function Min(a: int, b: int): int { if a <= b then a else b }

  /** Speed by score: one step faster every SpeedIncreaseEvery points, capped. */
  function Speed(score: nat): (r: nat)
    ensures StartSpeed <= r <= MaxSpeed
  {
    Min(MaxSpeed, StartSpeed + score / SpeedIncreaseEvery)
  }

  /** Speed never drops as the score grows, and one more point adds at most
      one step. */
  lemma SpeedMonotone(a: nat, b: nat)
    requires a <= b
    ensures Speed(a) <= Speed(b)
    ensures b == a + 1 ==> Speed(b) <= Speed(a) + 1
  {
  }

  /** The cap is reached exactly from score 85 on; below it the speed is the
      start speed plus the number of whole steps. */
  lemma SpeedSchedule(score: nat)
    ensures Speed(score) == MaxSpeed <==> score >= 85
    ensures score < 85 ==> Speed(score) == StartSpeed + score / SpeedIncreaseEvery
    ensures Speed(0) == 7 && Speed(4) == 7 && Speed(5) == 8 && Speed(1000) == 24
  {
  }

  /** The starting body: three cells in a row at the board's centre, head
      rightmost. */
  function InitialSnake(): (s: seq<Cell>)
    ensures s == [Cell(15, 10), Cell(14, 10), Cell(13, 10)]
    ensures WellFormed(s) && s[0] == Step(s[1], Right)
  {
    var start := Cell(GridW / 2, GridH / 2);
    [start, Cell(start.x - 1, start.y), Cell(start.x - 2, start.y)]
  }

  /** A fresh game: heading right, score 0, start speed, running. */
  function Initial(loadedHigh: int, food: Cell): (r: GameState)
    ensures r.snake == InitialSnake() && r.dir == Right && r.pending == Right
    ensures r.score == 0 && r.high == loadedHigh && r.speed == Speed(0)
    ensures !r.paused && !r.gameOver
  {
    GameState(InitialSnake(), Right, Right, food, 0, loadedHigh, StartSpeed, false, false)
  }

  /** The facts every state of a game keeps. */
  predicate Inv(st: GameState)
  {
    && |st.snake| == 3 + st.score
    && WellFormed(st.snake)
    && (!st.gameOver ==> st.snake[0] == Step(st.snake[1], st.dir))
    && st.pending != Opposite(st.dir)
    && (st.gameOver ==> !st.paused)
    && InInterior(st.food) && st.food !in st.snake
    && (st.score > 0 ==> st.score <= st.high)
    && StartSpeed <= st.speed <= Speed(st.score)
  }

  /** A fresh game with its food on a free interior cell satisfies Inv. */
  lemma InitialInv(loadedHigh: int, food: Cell)
    requires InInterior(food) && food !in InitialSnake()
    ensures Inv(Initial(loadedHigh, food))
  {
  }

  /** The pause key: flips pausing unless the game is over. */
  function TogglePause(st: GameState): (r: GameState)
    ensures r.(paused := st.paused) == st
    ensures r.paused <==> (st.paused != !st.gameOver)
  {
    if st.gameOver then st else st.(paused := !st.paused)
  }

  lemma TogglePauseSpec(st: GameState)
    ensures st.gameOver ==> TogglePause(st) == st
    ensures !st.gameOver ==> TogglePause(st).paused != st.paused
    ensures TogglePause(TogglePause(st)) == st
    ensures TogglePause(st).(paused := st.paused) == st
  {
  }

  /** A direction key: buffered as the next direction unless it reverses the
      direction of the last tick; ignored while paused or over. */
  function Steer(st: GameState, d: Direction): (r: GameState)
    ensures r == st || r == st.(pending := d)
    ensures r.pending != st.pending ==> r.pending != Opposite(st.dir) && Ticking(st)
  {
    if st.paused || st.gameOver then st
    else if st.dir == Opposite(d) then st
    else st.(pending := d)
  }

  lemma SteerSpec(st: GameState, d: Direction)
    ensures st.paused || st.gameOver ==> Steer(st, d) == st
    ensures d == Opposite(st.dir) ==> Steer(st, d) == st
    ensures !st.paused && !st.gameOver && d != Opposite(st.dir) ==> Steer(st, d) == st.(pending := d)
  {
  }

  /** The direction a key stands for: arrows and W, A, S, D. */
  function KeyDirection(k: Key): (r: Option<Direction>)
    ensures r.None? <==> k in {Escape, KeyP, KeyR, OtherKey}
  {
    match k
    case KeyUp | KeyW => Some(Up)
    case KeyDown | KeyS => Some(Down)
    case KeyLeft | KeyA => Some(Left)
    case KeyRight | KeyD => Some(Right)
    case _ => None
  }

  /** One event of the loop's event queue. */
  function React(st: GameState, ev: Event): (r: Reaction)
    ensures r.signal == Restart ==> st.gameOver
    ensures r.signal != Continue ==> r.state == st
    ensures r.signal == Quit <==> (ev == WindowClose || ev == KeyPress(Escape))
    ensures ev == KeyPress(OtherKey) || (ev == KeyPress(KeyR) && !st.gameOver) ==>
      r == Reaction(st, Continue)
    ensures ev == KeyPress(KeyR) ==> (r.signal == Restart <==> st.gameOver)
    ensures ev == KeyPress(KeyP) ==> r == Reaction(TogglePause(st), Continue)
    ensures ev.KeyPress? && KeyDirection(ev.key).Some? ==>
      r == Reaction(Steer(st, KeyDirection(ev.key).value), Continue)
    ensures r.state.snake == st.snake && r.state.food == st.food && r.state.score == st.score
    ensures r.state.high == st.high
  {
    match ev
    case WindowClose => Reaction(st, Quit)
    case KeyPress(k) =>
      if k == Escape then Reaction(st, Quit)
      else if k == KeyP then Reaction(TogglePause(st), Continue)
      else if k == KeyR then Reaction(st, if st.gameOver then Restart else Continue)
      else match KeyDirection(k)
        case Some(d) => Reaction(Steer(st, d), Continue)
        case None => Reaction(st, Continue)
  }

  /** The events of one frame, in order, up to the first that leaves the loop. */
  function ReactAll(st: GameState, evs: seq<Event>): (r: Reaction)
    ensures r.state.speed == st.speed
    decreases |evs|
  {
    if evs == [] then Reaction(st, Continue)
    else
      var r := React(st, evs[0]);
      if r.signal != Continue then r else ReactAll(r.state, evs[1..])
  }

  /** Restart is only offered once the game is over; input never moves the
      snake, the food or the score. */
  lemma {:induction false} ReactAllSpec(st: GameState, evs: seq<Event>)
    ensures var r := ReactAll(st, evs);
      && (r.signal == Restart ==> st.gameOver)
      && (r.signal == Quit ==> WindowClose in evs || KeyPress(Escape) in evs)
      && r.state.snake == st.snake && r.state.food == st.food
      && r.state.score == st.score && r.state.high == st.high
      && r.state.dir == st.dir && r.state.gameOver == st.gameOver
    decreases |evs|
  {
    if evs != [] {
      var r := React(st, evs[0]);
      if r.signal == Continue {
        ReactAllSpec(r.state, evs[1..]);
      }
    }
  }

  /** Any run of key presses leaves a next direction that does not reverse
      the current one. */
  lemma {:induction false} ReactAllKeepsInv(st: GameState, evs: seq<Event>)
    requires Inv(st)
    ensures Inv(ReactAll(st, evs).state)
    ensures ReactAll(st, evs).state.pending != Opposite(st.dir)
    decreases |evs|
  {
    if evs != [] {
      var r := React(st, evs[0]);
      assert Inv(r.state);
      if r.signal == Continue {
        ReactAllKeepsInv(r.state, evs[1..]);
        ReactAllSpec(r.state, evs[1..]);
      }
    }
  }

  /** Whether the next tick moves the snake at all. */
  predicate Ticking(st: GameState)
  {
    !st.paused && !st.gameOver
  }

  /** Whether the next tick eats the food. */
  predicate Eats(st: GameState)
    requires |st.snake| > 0
  {
    Ticking(st) && Advance(st.snake, st.pending, st.food).Grow?
  }

  /** The next tick would eat with no free cell left for new food; the
      game's food placement never returns then. */
  predicate FillsBoard(st: GameState)
    requires |st.snake| > 0
  {
    Eats(st) && |st.snake| + 1 >= InteriorSize
  }

  /** The movement tick. The pending direction is applied first, then the
      head is moved; a collision ends the game with body, score and food
      untouched; eating grows the body, scores a point, places `newFood`
      and raises the high score; otherwise the body slides. */
  function Tick(st: GameState, newFood: Cell): (r: GameState)
    requires |st.snake| > 0
    ensures r.score == st.score || (r.score == st.score + 1 && Eats(st))
    ensures |r.snake| == |st.snake| + (r.score - st.score)
    ensures r.high >= st.high && r.speed == st.speed
    ensures st.gameOver ==> r == st
  {
    if !Ticking(st) then st
    else
      var st1 := st.(dir := st.pending);
      match Advance(st.snake, st.pending, st.food)
      case HitWall => st1.(gameOver := true)
      case HitBody => st1.(gameOver := true)
      case Slide(body) => st1.(snake := body)
      case Grow(body) =>
        var score := st.score + 1;
        st1.(snake := body, score := score, food := newFood,
             high := if score > st.high then score else st.high)
  }

  /** No tick while paused or over. */
  lemma TickHalted(st: GameState, newFood: Cell)
    requires |st.snake| > 0 && !Ticking(st)
    ensures Tick(st, newFood) == st
  {
  }

  /** A firing tick applies the buffered direction before moving, and never
      turns the snake around. */
  lemma TickAppliesPending(st: GameState, newFood: Cell)
    requires Inv(st) && Ticking(st)
    ensures Tick(st, newFood).dir == st.pending
    ensures Tick(st, newFood).dir != Opposite(st.dir)
    ensures NextHead(st.snake, st.pending) != st.snake[1]
  {
  }

  /** A head on or beyond the wall ring ends the game; nothing else but the
      direction changes. */
  lemma TickWall(st: GameState, newFood: Cell)
    requires |st.snake| > 0 && Ticking(st) && HitsWall(NextHead(st.snake, st.pending))
    ensures Tick(st, newFood) == st.(dir := st.pending, gameOver := true)
  {
  }

  /** A head on any cell of the current body, the tail included, ends the
      game; nothing else but the direction changes. */
  lemma TickBody(st: GameState, newFood: Cell)
    requires |st.snake| > 0 && Ticking(st)
    requires InInterior(NextHead(st.snake, st.pending)) && NextHead(st.snake, st.pending) in st.snake
    ensures Tick(st, newFood) == st.(dir := st.pending, gameOver := true)
  {
  }

  /** A tick without food: same length, same score and food, the head moves
      in front and the tail is dropped. */
  lemma TickSlide(st: GameState, newFood: Cell)
    requires |st.snake| > 0 && Ticking(st)
    requires var h := NextHead(st.snake, st.pending); InInterior(h) && h !in st.snake && h != st.food
    ensures var r := Tick(st, newFood);
      && r.snake == [NextHead(st.snake, st.pending)] + st.snake[..|st.snake| - 1]
      && |r.snake| == |st.snake| && r.score == st.score && r.food == st.food
      && r.high == st.high && !r.gameOver
  {
  }

  /** An eating tick: one cell longer, one point more, the new food, and the
      high score at least the score. */
  lemma TickGrow(st: GameState, newFood: Cell)
    requires |st.snake| > 0 && Eats(st)
    ensures var r := Tick(st, newFood);
      && r.snake == [st.food] + st.snake
      && |r.snake| == |st.snake| + 1 && r.score == st.score + 1 && r.food == newFood
      && r.high == (if st.high >= r.score then st.high else r.score)
      && !r.gameOver
  {
  }

  /** The food a tick may place: any interior cell off the grown body. */
  predicate FoodFits(st: GameState, newFood: Cell)
    requires |st.snake| > 0
  {
    Eats(st) ==> InInterior(newFood) && newFood !in [st.food] + st.snake
  }

  /** Every tick keeps Inv when the new food is placed on a free interior
      cell: in particular the body stays free of repeats and inside the walls. */
  lemma TickKeepsInv(st: GameState, newFood: Cell)
    requires Inv(st) && FoodFits(st, newFood)
    ensures Inv(Tick(st, newFood))
  {
    if Ticking(st) {
      var m := Advance(st.snake, st.pending, st.food);
      AdvanceKeepsShape(st.snake, st.pending, st.food);
      AdvanceOutcome(st.snake, st.pending, st.food);
      var r := Tick(st, newFood);
      match m
      case HitWall =>
      case HitBody =>
      case Slide(body) =>
        SlideShifts(st.snake, st.pending, st.food);
        assert st.food !in body;
      case Grow(body) =>
        SpeedMonotone(st.score, st.score + 1);
        assert r.snake[1] == st.snake[0];
    }
  }

  /** A free cell for the new food exists exactly when the tick does not
      fill the board: the guard on Session.Game.Tick excludes only the bite
      after which the game's food draw never returns. */
  lemma FoodAvailable(st: GameState)
    requires Inv(st)
    ensures (exists f :: FoodFits(st, f)) <==> !FillsBoard(st)
  {
    if Eats(st) {
      var grown := [st.food] + st.snake;
      if FillsBoard(st) {
        assert Distinct(grown) by {
          forall i, j | 0 <= i < j < |grown| ensures grown[i] != grown[j] {
            if i > 0 { assert grown[i] == st.snake[i - 1]; }
          }
        }
        DistinctCells(grown);
        InteriorCovered(Cells(grown));
        forall f ensures !FoodFits(st, f) {
          if InInterior(f) {
            assert f in Cells(grown);
          }
        }
      } else {
        CellsBound(grown);
        FreeCellExists(Cells(grown));
        var f :| InInterior(f) && f !in Cells(grown);
        assert FoodFits(st, f);
      }
    } else {
      assert FoodFits(st, st.food);
    }
  }

  /** The state after a frame's events and speed update, the one its tick sees. */
  function BeforeTick(st: GameState, evs: seq<Event>): (r: GameState)
    ensures r.snake == st.snake && r.food == st.food && r.score == st.score && r.high == st.high
    ensures r.speed == Speed(st.score)
  {
    ReactAllSpec(st, evs);
    ReactAll(st, evs).state.(speed := Speed(st.score))
  }

  /** One pass of the main loop: the frame's events, then the speed is
      recomputed from the score, then a tick if its interval has elapsed. */
  function Frame(st: GameState, evs: seq<Event>, due: bool, newFood: Cell): (r: Reaction)
    requires |st.snake| > 0
    ensures r.signal != Continue ==> r == ReactAll(st, evs)
    ensures r.signal == Continue && !due ==> r.state == BeforeTick(st, evs)
    ensures r.signal == Continue && due ==> r.state == Tick(BeforeTick(st, evs), newFood)
    ensures r.state.score >= st.score && r.state.high >= st.high
  {
    ReactAllSpec(st, evs);
    var r := ReactAll(st, evs);
    if r.signal != Continue then r
    else
      var st1 := BeforeTick(st, evs);
      Reaction(if due then Tick(st1, newFood) else st1, Continue)
  }

  /** A frame keeps Inv, and the speed shown after it is that of the score
      before its tick. */
  lemma FrameKeepsInv(st: GameState, evs: seq<Event>, due: bool, newFood: Cell)
    requires Inv(st) && (due ==> FoodFits(BeforeTick(st, evs), newFood))
    ensures Inv(Frame(st, evs, due, newFood).state)
    ensures Frame(st, evs, due, newFood).signal == Continue ==>
      Frame(st, evs, due, newFood).state.speed == Speed(st.score)
  {
    ReactAllKeepsInv(st, evs);
    ReactAllSpec(st, evs);
    var r := ReactAll(st, evs);
    if r.signal == Continue {
      var st1 := BeforeTick(st, evs);
      SpeedMonotone(0, st.score);
      assert Inv(st1);
      if due {
        TickKeepsInv(st1, newFood);
      }
    }
  }

  /** A run of the main loop: frames, each with its events, whether its tick
      is due and the food it would place, until a frame leaves the loop or its
      due tick has no free cell to place food on. */
  function Run(st: GameState, frames: seq<(seq<Event>, bool, Cell)>): (r: GameState)
    requires Inv(st)
    ensures r.score >= st.score && r.high >= st.high
    decreases |frames|
  {
    if frames == [] then st
    else
      var (evs, due, f) := frames[0];
      if due && !FoodFits(BeforeTick(st, evs), f) then st
      else
        FrameKeepsInv(st, evs, due, f);
        var r := Frame(st, evs, due, f);
        if r.signal != Continue then r.state
        else Run(r.state, frames[1..])
  }

  /** From a fresh game, through any number of frames, the body stays free of
      repeats, inside the walls and connected, and the food stays off it. */
  lemma {:induction false} RunKeepsInv(loadedHigh: int, food: Cell, frames: seq<(seq<Event>, bool, Cell)>)
    requires InInterior(food) && food !in InitialSnake()
    ensures var st := Initial(loadedHigh, food);
      Inv(st) && Inv(Run(st, frames)) && WellFormed(Run(st, frames).snake)
      && Run(st, frames).food !in Run(st, frames).snake
  {
    InitialInv(loadedHigh, food);
    RunStep(Initial(loadedHigh, food), frames);
  }

  lemma {:induction false} RunStep(st: GameState, frames: seq<(seq<Event>, bool, Cell)>)
    requires Inv(st)
    ensures Inv(Run(st, frames))
    decreases |frames|
  {
    if frames != [] {
      var (evs, due, f) := frames[0];
      if !due || FoodFits(BeforeTick(st, evs), f) {
        FrameKeepsInv(st, evs, due, f);
        var r := Frame(st, evs, due, f);
        if r.signal == Continue {
          RunStep(r.state, frames[1..]);
        }
      }
    }
  }
}
