/** Paddle steering shared by both NetPong programs: the server moves the top
    paddle with 'a' and 'd' (ex2/p_server.c, `move_paddle`), the client moves
    the bottom paddle with the arrow keys (ex2/p_client.c, `send_data`).
    Both keep the paddle's left edge between 1 and WIDTH - 11, and both stop
    reading keys at 'q'. */
module PongControls {

  const WIDTH := 80
  const HEIGHT := 30
  /** The paddles are 10 cells wide. */
  const PADDLE_WIDTH := 10
  /** Leftmost and rightmost positions a key can move a paddle to. */
  const MIN_X := 1
  const MAX_X := WIDTH - 11

  /** Key codes as `getch` returns them. */
  const KEY_LEFT := 260
  const KEY_RIGHT := 261
  const KEY_A := 'a' as int
  const KEY_D := 'd' as int
  const KEY_QUIT := 'q' as int
  const KEY_CLEAR := 'c' as int
  /** `getch` with a timeout and no key pressed. */
  const NO_KEY := -1

  /** Which keys move a paddle left and right. */
  datatype Controls = Controls(left: int, right: int)

  const ServerControls := Controls(KEY_A, KEY_D)
  const ClientControls := Controls(KEY_LEFT, KEY_RIGHT)

  /** Neither steering key is the quit key, and they differ. */
  predicate Distinct(c: Controls)
  {
    c.left != c.right && c.left != KEY_QUIT && c.right != KEY_QUIT
  }

  predicate InRange(x: int)
  {
    MIN_X <= x <= MAX_X
  }

  /** One key that is not 'q': the left key moves one cell left unless the
      paddle is at the left limit, the right key one cell right unless it is
      at the right limit, any other key leaves the paddle where it is. */
  function Steer(c: Controls, x: int, key: int): (y: int)
    ensures y == x - 1 <==> key == c.left && x > MIN_X
    ensures Distinct(c) ==> (y == x + 1 <==> key == c.right && x < MAX_X)
    ensures key != c.left && key != c.right ==> y == x
    ensures x - 1 <= y <= x + 1
    ensures InRange(x) ==> InRange(y)
  {
    if key == c.left && x > MIN_X then x - 1
    else if key == c.right && x < MAX_X then x + 1
    else x
  }

  /** The paddle position after each key, up to but not including the first 'q'. */
  function Trace(c: Controls, x: int, keys: seq<int>): (r: seq<int>)
    ensures |r| <= |keys|
    ensures KEY_QUIT !in keys ==> |r| == |keys|
    ensures KEY_QUIT !in keys[..|r|]
    ensures r != [] ==> r[0] == Steer(c, x, keys[0])
    ensures InRange(x) ==> forall k :: 0 <= k < |r| ==> InRange(r[k])
    decreases |keys|
  {
    if keys == [] || keys[0] == KEY_QUIT then []
    else
      var y := Steer(c, x, keys[0]);
      assert keys[1..][..|Trace(c, y, keys[1..])|] == keys[1..|Trace(c, y, keys[1..])| + 1];
      [y] + Trace(c, y, keys[1..])
  }

  /** Where the paddle ends up. */
  function Final(c: Controls, x: int, keys: seq<int>): int
  {
    var t := Trace(c, x, keys);
    if t == [] then x else t[|t| - 1]
  }

  /** Starting inside the range, no key sequence moves a paddle out of it. */
  lemma FinalInRange(c: Controls, x: int, keys: seq<int>)
    requires InRange(x)
    ensures InRange(Final(c, x, keys))
  {
  }

  /** Reading stops exactly at the first 'q'. */
  lemma {:induction false} TraceStopsAtQuit(c: Controls, x: int, before: seq<int>, after: seq<int>)
    requires KEY_QUIT !in before
    ensures Trace(c, x, before + [KEY_QUIT] + after) == Trace(c, x, before)
    decreases |before|
  {
    if before == [] {
      assert before + [KEY_QUIT] + after == [KEY_QUIT] + after;
    } else {
      var y := Steer(c, x, before[0]);
      assert (before + [KEY_QUIT] + after)[1..] == before[1..] + [KEY_QUIT] + after;
      TraceStopsAtQuit(c, y, before[1..], after);
    }
  }

  /** Keys that are neither steering key nor 'q' never move the paddle. */
  lemma {:induction false} OtherKeysKeepPlace(c: Controls, x: int, keys: seq<int>)
    requires forall k :: 0 <= k < |keys| ==> keys[k] != c.left && keys[k] != c.right && keys[k] != KEY_QUIT
    ensures Trace(c, x, keys) == seq(|keys|, _ => x)
    decreases |keys|
  {
    if keys != [] {
      OtherKeysKeepPlace(c, x, keys[1..]);
    }
  }

  /** One key that is not 'q' moves the paddle once, and the rest of the keys
      go on from there. */
  lemma FinalStep(c: Controls, x: int, keys: seq<int>)
    requires keys != [] && keys[0] != KEY_QUIT
    ensures Trace(c, x, keys) == [Steer(c, x, keys[0])] + Trace(c, Steer(c, x, keys[0]), keys[1..])
    ensures Final(c, x, keys) == Final(c, Steer(c, x, keys[0]), keys[1..])
  {
  }

  /** The same step, `i` keys into a key sequence. */
  lemma FinalFrom(c: Controls, x: int, keys: seq<int>, i: nat)
    requires i < |keys| && keys[i] != KEY_QUIT
    ensures Trace(c, x, keys[i..]) == [Steer(c, x, keys[i])] + Trace(c, Steer(c, x, keys[i]), keys[i + 1..])
    ensures Final(c, x, keys[i..]) == Final(c, Steer(c, x, keys[i]), keys[i + 1..])
  {
    assert keys[i..][0] == keys[i] && keys[i..][1..] == keys[i + 1..];
    FinalStep(c, x, keys[i..]);
  }

  /** At a 'q' the paddle stays where it is and nothing more is traced. */
  lemma FinalAtQuit(c: Controls, x: int, keys: seq<int>, i: nat)
    requires i < |keys| && keys[i] == KEY_QUIT
    ensures Trace(c, x, keys[i..]) == [] && Final(c, x, keys[i..]) == x
  {
    assert keys[i..][0] == KEY_QUIT;
  }
}
