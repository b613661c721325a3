/** The NetPong server's game state (ex2/p_server.c): the ball physics of
    `move_ball` and `reset_ball`, the top paddle moved by `move_paddle`, the
    bottom paddle position received from the client in
    `receive_client_input`, and the state packet of `send_game_state`. */
module PongServer {
  import opened CText
  import opened PongControls
  import opened PongWire

  /** Position and velocity of the ball. */
  datatype Ball = Ball(x: int, y: int, dx: int, dy: int)

  /** Everything `move_ball` reads and writes: the ball, the client's paddle
      (bottom), the server's paddle (top, the global `paddle2_x`) and the two
      miss counters. */
  datatype World = World(ball: Ball, paddleX: int, paddle2X: int, penalty: int, penalty2: int)

  /** Row on which the bottom paddle returns the ball, and the top paddle's row. */
  const BOTTOM_ROW := HEIGHT - 5
  const TOP_ROW := 3

  /** Where `reset_ball` puts the ball: (WIDTH / 3, HEIGHT / 3) moving down and right. */
  const ServeBall := Ball(WIDTH / 3, HEIGHT / 3, 1, 1)

  /** The state `main` builds; `penalty_2` is never initialised there, so its
      starting value is a parameter. */
  function Initial(penalty2: int): (w: World)
    ensures w.ball == Ball(40, 15, 1, 1) && w.paddleX == 35 && w.paddle2X == 45 && w.penalty == 0
  {
    World(Ball(WIDTH / 2, HEIGHT / 2, 1, 1), WIDTH / 2 - 5, 45, 0, penalty2)
  }

  /** The ball is moved, then `dx` flips at the side walls. */
  function Moved(b: Ball): Ball
  {
    var x, y := b.x + b.dx, b.y + b.dy;
    Ball(x, y, if x <= 2 || x >= WIDTH - 2 then -b.dx else b.dx, b.dy)
  }

  /** The bottom paddle covers the ball: one cell of slack on each side. */
  predicate HitsBottom(b: Ball, paddleX: int)
  {
    b.y == BOTTOM_ROW && paddleX - 1 <= b.x < paddleX + PADDLE_WIDTH + 1
  }

  /** The top paddle covers the ball. */
  predicate HitsTop(b: Ball, paddle2X: int)
  {
    b.y == TOP_ROW && paddle2X <= b.x < paddle2X + PADDLE_WIDTH
  }

  /** One iteration of `move_ball`'s loop. */
  function Step(w: World): World
  {
    var b := Moved(w.ball);
    if HitsBottom(b, w.paddleX) then w.(ball := b.(dy := -b.dy))
    else if HitsTop(b, w.paddle2X) then w.(ball := b.(dy := -b.dy))
    else if b.y >= HEIGHT - 1 then w.(ball := ServeBall, penalty := w.penalty + 1)
    else if b.y <= 2 then w.(ball := ServeBall, penalty2 := w.penalty2 + 1)
    else w.(ball := b)
  }

  /** `n` iterations of `move_ball`'s loop. */
  function Steps(w: World, n: nat): World
    decreases n
  {
    if n == 0 then w else Steps(Step(w), n - 1)
  }

  predicate Unit(d: int)
  {
    d == 1 || d == -1
  }

  /** The ball is on the field, between the side walls and between the two
      miss rows, moving diagonally, and never pressed against a side wall
      while moving into it. */
  predicate InPlay(b: Ball)
  {
    2 <= b.x <= WIDTH - 2 && 3 <= b.y <= HEIGHT - 2 && Unit(b.dx) && Unit(b.dy)
    && (b.x == 2 ==> b.dx == 1) && (b.x == WIDTH - 2 ==> b.dx == -1)
  }

  lemma InitialInPlay(penalty2: int)
    ensures InPlay(Initial(penalty2).ball) && InPlay(ServeBall)
  {
  }

  /** A step keeps the ball in play, whatever the paddles do. */
  lemma StepInPlay(w: World)
    requires InPlay(w.ball)
    ensures InPlay(Step(w).ball)
  {
  }

  /** Any number of steps keeps the ball in play. */
  lemma {:induction false} StepsInPlay(w: World, n: nat)
    requires InPlay(w.ball)
    ensures InPlay(Steps(w, n).ball)
    decreases n
  {
    if n > 0 {
      StepInPlay(w);
      StepsInPlay(Step(w), n - 1);
    }
  }

  /** The ball advances by its velocity; `dx` flips exactly when the new x
      is at or beyond a side wall; the speed stays one cell per step. */
  lemma StepMovesBall(w: World)
    requires Unit(w.ball.dx) && Unit(w.ball.dy)
    ensures var b := Step(w).ball; var x := w.ball.x + w.ball.dx;
      Unit(b.dx) && Unit(b.dy) &&
      (b == ServeBall || (b.x == x && b.y == w.ball.y + w.ball.dy
                          && (b.dx == -w.ball.dx <==> x <= 2 || x >= WIDTH - 2)))
  {
  }

  /** A ball that reaches the bottom paddle's row over the paddle turns
      around; nothing else changes. */
  lemma BottomBounce(w: World)
    requires HitsBottom(Moved(w.ball), w.paddleX)
    ensures var b := Moved(w.ball);
      Step(w) == w.(ball := Ball(b.x, b.y, b.dx, -w.ball.dy))
  {
  }

  /** A ball that reaches the top paddle's row under the paddle turns around. */
  lemma TopBounce(w: World)
    requires HitsTop(Moved(w.ball), w.paddle2X)
    ensures var b := Moved(w.ball);
      Step(w) == w.(ball := Ball(b.x, b.y, b.dx, -w.ball.dy))
  {
  }

  /** Passing the bottom edge is a point against the client: the ball is
      served again and `penalty` grows by one. */
  lemma BottomMiss(w: World)
    requires Moved(w.ball).y >= HEIGHT - 1
    ensures Step(w) == w.(ball := ServeBall, penalty := w.penalty + 1)
  {
  }

  /** Passing the top edge is a point against the server. */
  lemma TopMiss(w: World)
    requires Moved(w.ball).y <= 2
    ensures Step(w) == w.(ball := ServeBall, penalty2 := w.penalty2 + 1)
  {
  }

  /** In any step at most one counter grows, by exactly one, the paddles
      stay where they are, and a counter grows only when the ball is served again. */
  lemma StepScores(w: World)
    requires InPlay(w.ball)
    ensures var v := Step(w);
      v.paddleX == w.paddleX && v.paddle2X == w.paddle2X &&
      ((v.penalty == w.penalty && v.penalty2 == w.penalty2) ||
       (v.penalty == w.penalty + 1 && v.penalty2 == w.penalty2) ||
       (v.penalty == w.penalty && v.penalty2 == w.penalty2 + 1)) &&
      (v.penalty + v.penalty2 != w.penalty + w.penalty2 ==> v.ball == ServeBall)
  {
  }

  /** Over `n` steps the counters never fall and together grow by at most `n`. */
  lemma {:induction false} StepsScore(w: World, n: nat)
    requires InPlay(w.ball)
    ensures var v := Steps(w, n);
      w.penalty <= v.penalty && w.penalty2 <= v.penalty2 &&
      v.penalty + v.penalty2 <= w.penalty + w.penalty2 + n &&
      v.paddleX == w.paddleX && v.paddle2X == w.paddle2X
    decreases n
  {
    if n > 0 {
      StepScores(w);
      StepInPlay(w);
      StepsScore(Step(w), n - 1);
    }
  }

  /** What one call of `recv` on the client's socket yields: one paddle
      position, the end of the stream, or an error. */
  datatype Input = Position(x: int) | Closed | Failed

  /** Where `receive_client_input` leaves the bottom paddle and how it
      ends: the last position received before the stream ends, exit status 0
      when the client disconnects, the thread simply stopping on an error,
      or `None` while input is still awaited. */
  function Receive(paddleX: int, inputs: seq<Input>): (r: (int, Option<int>))
    ensures r.1.Some? ==> r.1.value == 0
    ensures (forall k :: 0 <= k < |inputs| ==> inputs[k].Position?) ==> r.1.None?
    ensures r.0 == paddleX || exists k :: 0 <= k < |inputs| && inputs[k] == Position(r.0)
    decreases |inputs|
  {
    if inputs == [] then (paddleX, None)
    else match inputs[0]
      case Position(x) =>
        var r := Receive(x, inputs[1..]);
        assert r.0 == x || exists k :: 0 <= k < |inputs[1..]| && inputs[1..][k] == Position(r.0);
        assert r.0 != x ==> exists k :: 0 <= k < |inputs| && inputs[k] == Position(r.0) by {
          if r.0 != x {
            var k :| 0 <= k < |inputs[1..]| && inputs[1..][k] == Position(r.0);
            assert inputs[k + 1] == Position(r.0);
          }
        }
        r
      case Closed => (paddleX, Some(0))
      case Failed => (paddleX, None)
  }

  /** The inputs that deliver `xs`, one position per `recv`. */
  function Positions(xs: seq<int>): (r: seq<Input>)
    ensures |r| == |xs| && forall k :: 0 <= k < |xs| ==> r[k] == Position(xs[k])
  {
    seq(|xs|, k requires 0 <= k < |xs| => Position(xs[k]))
  }

  /** While the client keeps the connection open, the bottom paddle is at
      the last position it sent. */
  lemma {:induction false} ReceivePositions(paddleX: int, xs: seq<int>)
    ensures Receive(paddleX, Positions(xs)) == (if xs == [] then paddleX else xs[|xs| - 1], None)
    decreases |xs|
  {
    if xs != [] {
      assert Positions(xs)[1..] == Positions(xs[1..]);
      ReceivePositions(xs[0], xs[1..]);
    }
  }

  /** A close or an error ends the loop: the paddle stays at the last
      position received before it, a close exits with status 0, an error
      only stops the thread, and nothing after it is read. */
  lemma {:induction false} ReceiveStops(paddleX: int, xs: seq<int>, end: Input, rest: seq<Input>)
    requires !end.Position?
    ensures Receive(paddleX, Positions(xs) + [end] + rest)
            == (if xs == [] then paddleX else xs[|xs| - 1], if end == Closed then Some(0) else None)
    decreases |xs|
  {
    var inputs := Positions(xs) + [end] + rest;
    if xs == [] {
      assert inputs[0] == end;
    } else {
      assert inputs[0] == Position(xs[0]);
      assert inputs[1..] == Positions(xs[1..]) + [end] + rest;
      ReceiveStops(xs[0], xs[1..], end, rest);
    }
  }

  /** The game state shared by the server's threads. */
  class Game {
    var ball: Ball
    var paddleX: int
    var paddle2X: int
    var penalty: int
    var penalty2: int

    function State(): World
      reads this
    {
      World(ball, paddleX, paddle2X, penalty, penalty2)
    }

    /** The five values `send_game_state` formats, in packet order. */
    function Snapshot(): PongWire.Snapshot
      reads this
    {
      PongWire.Snapshot(ball.x, ball.y, penalty, paddle2X, penalty2)
    }

    constructor(penalty2Start: int)
      ensures State() == Initial(penalty2Start)
    {
      ball := Ball(WIDTH / 2, HEIGHT / 2, 1, 1);
      paddleX := WIDTH / 2 - 5;
      paddle2X := 45;
      penalty := 0;
      penalty2 := penalty2Start;
    }

    /** `reset_ball`: the ball is served again; paddles and counters stay. */
    method ResetBall()
      modifies this
      ensures State() == old(State()).(ball := ServeBall)
    {
      ball := Ball(WIDTH / 3, HEIGHT / 3, 1, 1);
    }

    /** One iteration of `move_ball`. */
    method MoveBall()
      modifies this
      ensures State() == Step(old(State()))
    {
      var x := ball.x + ball.dx;
      var y := ball.y + ball.dy;
      var dx := ball.dx;
      if x <= 2 || x >= WIDTH - 2 {
        dx := -dx;
      }
      ball := Ball(x, y, dx, ball.dy);
      if y == HEIGHT - 5 && x >= paddleX - 1 && x < paddleX + PADDLE_WIDTH + 1 {
        ball := ball.(dy := -ball.dy);
      } else if y == 3 && x >= paddle2X && x < paddle2X + PADDLE_WIDTH {
        ball := ball.(dy := -ball.dy);
      } else if y >= HEIGHT - 1 {
        ResetBall();
        penalty := penalty + 1;
      } else if y <= 2 {
        ResetBall();
        penalty2 := penalty2 + 1;
      }
    }

    /** `n` iterations of `move_ball`'s loop. */
    method Play(n: nat)
      modifies this
      ensures State() == Steps(old(State()), n)
    {
      var i := 0;
      while i < n
        invariant 0 <= i <= n
        invariant Steps(old(State()), n) == Steps(State(), n - i)
      {
        MoveBall();
        i := i + 1;
      }
    }

    /** One key of `move_paddle` other than 'q': 'a' moves the top paddle one
        cell left and 'd' one cell right, within the limits; any other key
        leaves it. */
    method PressKey(key: int)
      modifies this
      ensures paddle2X == Steer(ServerControls, old(paddle2X), key)
      ensures ball == old(ball) && paddleX == old(paddleX) && penalty == old(penalty) && penalty2 == old(penalty2)
    {
      if key == KEY_A && paddle2X > MIN_X {
        paddle2X := paddle2X - 1;
      } else if key == KEY_D && paddle2X < MAX_X {
        paddle2X := paddle2X + 1;
      }
    }

    /** `move_paddle`: the keys typed at the server, up to the first 'q',
        which ends the program with `EXIT_FAILURE`. */
    method MovePaddle(keys: seq<int>) returns (exit: Option<int>)
      modifies this
      ensures State() == old(State()).(paddle2X := Final(ServerControls, old(paddle2X), keys))
      ensures exit == (if KEY_QUIT in keys then Some(1) else None)
    {
      var i := 0;
      exit := None;
      while i < |keys|
        invariant 0 <= i <= |keys|
        invariant forall k :: 0 <= k < i ==> keys[k] != KEY_QUIT
        invariant ball == old(ball) && paddleX == old(paddleX) && penalty == old(penalty) && penalty2 == old(penalty2)
        invariant Final(ServerControls, old(paddle2X), keys) == Final(ServerControls, paddle2X, keys[i..])
      {
        if keys[i] == KEY_QUIT {
          FinalAtQuit(ServerControls, paddle2X, keys, i);
          assert keys[i] in keys;
          exit := Some(1);
          return;
        }
        FinalFrom(ServerControls, paddle2X, keys, i);
        PressKey(keys[i]);
        i := i + 1;
      }
    }

    /** `receive_client_input`: each position the client sends replaces the
        bottom paddle's; the end of the stream ends the program with status 0
        and an error ends only this loop. */
    method ReceiveInput(inputs: seq<Input>) returns (exit: Option<int>)
      modifies this
      ensures State() == old(State()).(paddleX := Receive(old(paddleX), inputs).0)
      ensures exit == Receive(old(paddleX), inputs).1
    {
      var i := 0;
      while i < |inputs|
        invariant 0 <= i <= |inputs|
        invariant State() == old(State()).(paddleX := paddleX)
        invariant Receive(old(paddleX), inputs) == Receive(paddleX, inputs[i..])
      {
        assert inputs[i..][1..] == inputs[i + 1..];
        match inputs[i] {
          case Position(x) =>
            paddleX := x;
          case Closed =>
            return Some(0);
          case Failed =>
            return None;
        }
        i := i + 1;
      }
      return None;
    }

    /** `send_game_state`: the bytes of one state packet. */
    method SendState() returns (bytes: string)
      ensures bytes == Packet(Snapshot())
      ensures Int32Fields(Snapshot()) ==> Decode(bytes) == Some(Snapshot())
    {
      bytes := Snprintf(Format(Snapshot()), PACKET_SIZE);
      if Int32Fields(Snapshot()) {
        assert bytes + [] == bytes;
        DecodePacket(Snapshot(), []);
      }
    }
  }
}
