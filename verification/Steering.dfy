/// Two buttons that turn the snake left and right: a debouncer for each button
/// and a shadow of the game's heading that turns them into absolute keys.
module Steering {

  /** A GPIO level; 0 is pressed. */
  type Level = l: int | 0 <= l <= 1

  const STABLE_FRAMES := 3

  const NO_KEY := 0
  const KEY_LEFT := 16
  const KEY_RIGHT := 32
  const KEY_UP := 64
  const KEY_DOWN := 128

  datatype Debouncer = Debouncer(last: Level, cnt: nat, fired: bool)

  const RELEASED := Debouncer(1, 0, false)

  /** What one sample does to a debouncer. */
  function AfterSample(d: Debouncer, lvl: Level): Debouncer {
    var settled :=
      if lvl == d.last then d.(cnt := if d.cnt < STABLE_FRAMES then d.cnt + 1 else d.cnt)
      else Debouncer(lvl, 0, false);
    if lvl == 0 && settled.cnt >= STABLE_FRAMES then settled.(fired := true) else settled
  }

  /** Whether that sample is reported as a press. */
  function Fires(d: Debouncer, lvl: Level): bool {
    AfterSample(d, lvl).fired && !(d.fired && lvl == d.last)
  }

  datatype Heading = Heading(dx: int, dy: int) {
    predicate UnitAxis() {
      || (dx == 0 && (dy == 1 || dy == -1))
      || (dy == 0 && (dx == 1 || dx == -1))
    }

    /** A quarter turn on a screen whose y axis points down. */
    function Turned(clockwise: bool): Heading {
      if clockwise then Heading(-dy, dx) else Heading(dy, -dx)
    }

    function Key(): int {
      if dx > 0 then KEY_RIGHT else if dx < 0 then KEY_LEFT else if dy > 0 then KEY_DOWN else KEY_UP
    }
  }

  const RIGHTWARDS := Heading(1, 0)

  datatype Host = Host(left: Debouncer, right: Debouncer, heading: Heading)

  const POWER_ON := Host(RELEASED, RELEASED, RIGHTWARDS)

  /** One frame of the host: the new state and the byte for the game.  The right button is not
      sampled on a frame on which the left one fires. */
  function Frame(h: Host, leftLevel: Level, rightLevel: Level): (Host, int) {
    var left := AfterSample(h.left, leftLevel);
    if Fires(h.left, leftLevel) then
      var heading := h.heading.Turned(false);
      (Host(left, h.right, heading), heading.Key())
    else
      var right := AfterSample(h.right, rightLevel);
      if Fires(h.right, rightLevel) then
        var heading := h.heading.Turned(true);
        (Host(left, right, heading), heading.Key())
      else (Host(left, right, h.heading), NO_KEY)
  }

  /** A turn to the left goes from up to left, down, right and up again, one to the right the other
      way round. */
  lemma TurnedKeys(h: Heading)
    requires h.UnitAxis()
    ensures h.Key() == 64 ==> h.Turned(false).Key() == 16 && h.Turned(true).Key() == 32
    ensures h.Key() == 16 ==> h.Turned(false).Key() == 128 && h.Turned(true).Key() == 64
    ensures h.Key() == 128 ==> h.Turned(false).Key() == 32 && h.Turned(true).Key() == 16
    ensures h.Key() == 32 ==> h.Turned(false).Key() == 64 && h.Turned(true).Key() == 128
  {
  }

  /** The left button turns left, the right one right, and the left one comes first. */
  lemma ButtonsTurn(h: Host, leftLevel: Level, rightLevel: Level)
    requires h.heading.UnitAxis()
    ensures var was, key := h.heading.Key(), Frame(h, leftLevel, rightLevel).1;
            if Fires(h.left, leftLevel) then
              key == if was == 64 then 16 else if was == 16 then 128 else if was == 128 then 32 else 64
            else if Fires(h.right, rightLevel) then
              key == if was == 64 then 32 else if was == 32 then 128 else if was == 128 then 16 else 64
            else key == 0
  {
    hide Fires, AfterSample, Heading.Turned;
    TurnedKeys(h.heading);
  }

  /** The static variables of the source. */
  class Controller {
    const last: array<Level>
    const cnt: array<nat>
    const fired: array<bool>
    var dx: int
    var dy: int

    ghost predicate Valid()
      reads this
    {
      last.Length == 2 && cnt.Length == 2 && fired.Length == 2
    }

    ghost function Button(idx: nat): Debouncer
      requires Valid() && idx < 2
      reads this, last, cnt, fired
    {
      Debouncer(last[idx], cnt[idx], fired[idx])
    }

    ghost function State(): Host
      requires Valid()
      reads this, last, cnt, fired
    {
      Host(Button(0), Button(1), Heading(dx, dy))
    }

    constructor ()
      ensures Valid() && State() == POWER_ON
      ensures fresh(last) && fresh(cnt) && fresh(fired)
    {
      last := new Level[2](_ => 1);
      cnt := new nat[2](_ => 0);
      fired := new bool[2](_ => false);
      dx, dy := 1, 0;
    }

    method PressedOnce(idx: nat, lvl: Level) returns (pressed: bool)
      requires Valid() && idx < 2
      modifies last, cnt, fired
      ensures pressed == Fires(old(Button(idx)), lvl)
      ensures Button(idx) == AfterSample(old(Button(idx)), lvl) && Button(1 - idx) == old(Button(1 - idx))
    {
      if lvl == last[idx] {
        if cnt[idx] < STABLE_FRAMES {
          cnt[idx] := cnt[idx] + 1;
        }
      } else {
        last[idx] := lvl;
        cnt[idx] := 0;
        fired[idx] := false;
      }
      if lvl == 0 && cnt[idx] >= STABLE_FRAMES && !fired[idx] {
        fired[idx] := true;
        return true;
      }
      return false;
    }

    method Turn(clockwise: bool) returns (key: int)
      modifies this
      ensures Heading(dx, dy) == old(Heading(dx, dy)).Turned(clockwise) && key == Heading(dx, dy).Key()
    {
      var x := if clockwise then -dy else dy;
      var y := if clockwise then dx else -dx;
      dx, dy := x, y;
      if x > 0 { return KEY_RIGHT; }
      if x < 0 { return KEY_LEFT; }
      if y > 0 { return KEY_DOWN; }
      return KEY_UP;
    }

    /** The byte for one player; the levels are what the two pins read this frame. */
    method GetPlayerState(player: int, leftLevel: Level, rightLevel: Level) returns (key: int)
      requires Valid()
      modifies this, last, cnt, fired
      ensures if player != 0 then State() == old(State()) && key == NO_KEY
              else (State(), key) == Frame(old(State()), leftLevel, rightLevel)
    {
      if player != 0 {
        return NO_KEY;
      }
      var pressed := PressedOnce(0, leftLevel);
      if pressed {
        key := Turn(false);
        return;
      }
      pressed := PressedOnce(1, rightLevel);
      if pressed {
        key := Turn(true);
        return;
      }
      return NO_KEY;
    }
  }

  /** A sample a button took, and whether it was reported as a press. */
  datatype Sample = Sample(level: Level, press: bool)

  /** The game: it looks at a byte when it changes, and takes a key only across its direction. */
  datatype Game = Game(direction: Heading, seen: int) {
    function Frame(key: int): Game {
      if key == seen then this
      else if (key == KEY_UP || key == KEY_DOWN) && direction.dx != 0 then
        Game(Heading(0, if key == KEY_UP then -1 else 1), key)
      else if (key == KEY_LEFT || key == KEY_RIGHT) && direction.dy != 0 then
        Game(Heading(if key == KEY_LEFT then -1 else 1, 0), key)
      else Game(direction, key)
    }
  }

  /** Host and game after some frames, with the samples each button took and the keys sent. */
  datatype World = World(host: Host, game: Game, left: seq<Sample>, right: seq<Sample>, keys: seq<int>)

  /** The levels of the two pins on one frame. */
  datatype Levels = Levels(left: Level, right: Level)

  function Run(frames: seq<Levels>): World {
    if frames == [] then World(POWER_ON, Game(RIGHTWARDS, NO_KEY), [], [], [])
    else
      var w, now := Run(frames[..|frames| - 1]), frames[|frames| - 1];
      var (host, key) := Frame(w.host, now.left, now.right);
      var l, r := Fires(w.host.left, now.left), Fires(w.host.right, now.right);
      World(host, w.game.Frame(key),
            w.left + [Sample(now.left, l)],
            if l then w.right else w.right + [Sample(now.right, r)],
            w.keys + [key])
  }

  /** How many samples at the end of a history are low. */
  function LowRun(h: seq<Sample>): nat {
    if h == [] || h[|h| - 1].level != 0 then 0 else 1 + LowRun(h[..|h| - 1])
  }

  /** The state of a debouncer after a run of low samples. */
  predicate StateAfter(d: Debouncer, run: nat) {
    && (d.last == 0 <==> run > 0)
    && (d.last == 0 ==> d.cnt == if run <= STABLE_FRAMES then run - 1 else STABLE_FRAMES)
    && d.fired == (run > STABLE_FRAMES)
  }

  /** The state of a debouncer told from the samples it took. */
  predicate Debounces(d: Debouncer, h: seq<Sample>) {
    StateAfter(d, LowRun(h))
  }

  /** Presses are reported exactly on the fourth low sample in a row. */
  predicate FiresOnFourth(h: seq<Sample>) {
    forall k | 0 <= k < |h| :: h[k].press <==> LowRun(h[..k + 1]) == 4
  }

  lemma SampleDebounces(d: Debouncer, h: seq<Sample>, lvl: Level)
    requires Debounces(d, h) && FiresOnFourth(h)
    ensures var h' := h + [Sample(lvl, Fires(d, lvl))];
            Debounces(AfterSample(d, lvl), h') && FiresOnFourth(h')
  {
    hide LowRun, AfterSample, Fires;
    var s := Sample(lvl, Fires(d, lvl));
    LowRunStep(h, s);
    SampleKeepsState(d, LowRun(h), lvl);
    StillOnFourth(h, s);
  }

  lemma LowRunStep(h: seq<Sample>, s: Sample)
    ensures LowRun(h + [s]) == if s.level == 0 then 1 + LowRun(h) else 0
  {
    assert (h + [s])[..|h|] == h;
  }

  /** The debouncer counts up to the fourth low sample, of a run of any length. */
  lemma SampleKeepsState(d: Debouncer, run: nat, lvl: Level)
    requires StateAfter(d, run)
    ensures var run' := if lvl == 0 then 1 + run else 0;
            StateAfter(AfterSample(d, lvl), run') && (Fires(d, lvl) <==> run' == STABLE_FRAMES + 1)
  {
  }

  lemma StillOnFourth(h: seq<Sample>, s: Sample)
    requires FiresOnFourth(h) && (s.press <==> LowRun(h + [s]) == STABLE_FRAMES + 1)
    ensures FiresOnFourth(h + [s])
  {
    hide LowRun;
    var h' := h + [s];
    assert h'[..|h'|] == h';
    forall k | 0 <= k < |h|
      ensures h'[k].press <==> LowRun(h'[..k + 1]) == STABLE_FRAMES + 1
    {
      assert h'[..k + 1] == h[..k + 1];
    }
  }

  /** Over every run each button reports a press exactly on the fourth low sample in a row it takes. */
  lemma {:induction false} RunDebounces(frames: seq<Levels>)
    ensures var w := Run(frames);
            && Debounces(w.host.left, w.left) && FiresOnFourth(w.left)
            && Debounces(w.host.right, w.right) && FiresOnFourth(w.right)
  {
    if frames != [] {
      var before, now := frames[..|frames| - 1], frames[|frames| - 1];
      RunDebounces(before);
      var w := Run(before);
      SampleDebounces(w.host.left, w.left, now.left);
      SampleDebounces(w.host.right, w.right, now.right);
    }
  }

  lemma {:induction false} LowRunGrows(h: seq<Sample>, i: nat, j: nat)
    requires i <= j <= |h| && forall k | i <= k < j :: h[k].level == 0
    ensures LowRun(h[..j]) == LowRun(h[..i]) + (j - i)
    decreases j
  {
    if i < j {
      LowRunGrows(h, i, j - 1);
      assert h[..j][..j - 1] == h[..j - 1];
    }
  }

  /** One press for one hold: between two presses of a button it is seen released. */
  lemma OncePerHold(frames: seq<Levels>, h: seq<Sample>, i: nat, j: nat)
    requires h == Run(frames).left || h == Run(frames).right
    requires i < j < |h| && h[i].press && h[j].press
    ensures exists k | i < k < j :: h[k].level == 1
  {
    hide Run, Debounces, FiresOnFourth;
    RunDebounces(frames);
    ReleasedBetween(h, i, j);
  }

  lemma ReleasedBetween(h: seq<Sample>, i: nat, j: nat)
    requires FiresOnFourth(h) && i < j < |h| && h[i].press && h[j].press
    ensures exists k | i < k < j :: h[k].level == 1
  {
    hide LowRun;
    LowRunEnds(h, j);
    if forall k | i < k < j :: h[k].level == 0 {
      LowRunGrows(h, i + 1, j + 1);
    }
  }

  lemma LowRunEnds(h: seq<Sample>, j: nat)
    requires j < |h|
    ensures LowRun(h[..j + 1]) > 0 ==> h[j].level == 0
  {
  }

  /** The last key sent, if any, is the one for the heading. */
  predicate LastKeyIsHeading(keys: seq<int>, heading: Heading) {
    keys == [] || keys[|keys| - 1] == NO_KEY || keys[|keys| - 1] == heading.Key()
  }

  /** Over every run the shadow heading is a unit vector along an axis and is the direction the game
      has taken: every key passes the gate. */
  lemma {:induction false} ShadowIsInStep(frames: seq<Levels>)
    ensures var w := Run(frames);
            && w.host.heading.UnitAxis() && w.game.direction == w.host.heading
            && w.game.seen == (if w.keys == [] then NO_KEY else w.keys[|w.keys| - 1])
            && LastKeyIsHeading(w.keys, w.host.heading)
  {
    if frames != [] {
      var before := frames[..|frames| - 1];
      ShadowIsInStep(before);
    }
  }

  /** A key is sent for a quarter turn and for nothing else, and it is never the key of the old heading. */
  lemma KeyMeansTurn(h: Host, leftLevel: Level, rightLevel: Level)
    requires h.heading.UnitAxis()
    ensures var (h', key) := Frame(h, leftLevel, rightLevel);
            if key == NO_KEY then h'.heading == h.heading
            else key == h'.heading.Key() && key != h.heading.Key()
  {
  }

  lemma RunKeys(frames: seq<Levels>)
    ensures |Run(frames).keys| == |frames|
    ensures frames != [] ==>
              var w, now := Run(frames[..|frames| - 1]), frames[|frames| - 1];
              Run(frames).keys == w.keys + [Frame(w.host, now.left, now.right).1]
  {
  }

  /** Two keys on consecutive frames differ, so the game sees each of them as a change. */
  lemma {:induction false} ConsecutiveKeysDiffer(frames: seq<Levels>, k: nat)
    requires k + 1 < |Run(frames).keys| && Run(frames).keys[k + 1] != NO_KEY
    ensures Run(frames).keys[k] != Run(frames).keys[k + 1]
  {
    hide Run, Frame, Heading.Key, Heading.UnitAxis;
    RunKeys(frames);
    var before, now := frames[..|frames| - 1], frames[|frames| - 1];
    RunKeys(before);
    if k + 2 < |frames| {
      ConsecutiveKeysDiffer(before, k);
    } else {
      ShadowIsInStep(before);
      KeyMeansTurn(Run(before).host, now.left, now.right);
    }
  }
}
