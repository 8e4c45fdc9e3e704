/**
 * Dragging the friend image over the composite canvas.  The handlers keep
 * their state in the canvas's data store: a "mouse down" flag, the friend
 * position and pointer position at the start of the drag; the friend
 * position itself lives in the two position sliders.  DragState holds all
 * of it; the transition functions are the four handlers, and DragSession
 * is the same state as an object the handlers update in place.
 */
module DragSession {

  /** Math.round: the nearest integer, a half rounded up toward +infinity. */
  function Round(x: real): (n: int)
    ensures n as real - 0.5 <= x < n as real + 0.5
  {
    (x + 0.5).Floor
  }

  /** Math.round's result is the only integer within [x - 1/2, x + 1/2). */
  lemma RoundUnique(x: real, n: int)
    requires n as real - 0.5 <= x < n as real + 0.5
    ensures Round(x) == n
  {
  }

  /** Halves go up, also for negative numbers. */
  lemma RoundHalves()
    ensures Round(2.5) == 3 && Round(-2.5) == -2 && Round(-2.6) == -3 && Round(0.4) == 0
  {
    RoundUnique(2.5, 3);
    RoundUnique(-2.5, -2);
    RoundUnique(-2.6, -3);
    RoundUnique(0.4, 0);
  }

  /**
   * The position compositeDragMove writes to one slider: the position at
   * the start of the drag plus the pointer's displacement converted from
   * screen pixels to canvas pixels by the product of the two zooms, rounded.
   */
  function DragPosition(startFriend: int, startPointer: real, pointer: real, scale: real): (pos: int)
    requires scale != 0.0
    ensures (pos - startFriend) as real - 0.5 <= (pointer - startPointer) / scale
            < (pos - startFriend) as real + 0.5
  {
    startFriend + Round((pointer - startPointer) / scale)
  }

  /** A pointer moved by exactly k canvas pixels (k * scale on the screen) moves the friend by k. */
  lemma DragByWholePixels(startFriend: int, startPointer: real, k: int, scale: real)
    requires scale != 0.0
    ensures DragPosition(startFriend, startPointer, startPointer + k as real * scale, scale) == startFriend + k
  {
    assert (startPointer + k as real * scale - startPointer) / scale == k as real;
    RoundUnique(k as real, k);
  }

  /**
   * A drag that starts with the friend at (50, 50) and the pointer at
   * (100, 100) and moves the pointer to (130, 115), at canvas zoom 0.5 and
   * view zoom 2, puts the friend at (80, 65).
   */
  lemma DragExample()
    ensures var start := AfterStart(DragState(false, 0, 0, 0.0, 0.0, 50, 50), true, 100.0, 100.0);
      var moved := AfterMove(start, true, 130.0, 115.0, 0.5 * 2.0);
      moved.friendX == 80 && moved.friendY == 65
  {
    RoundUnique(30.0, 30);
    RoundUnique(15.0, 15);
  }

  /** The handlers' state: the data store of the composite canvas and the two slider values. */
  datatype DragState = DragState(
    active: bool,
    startFriendX: int, startFriendY: int,
    startPointerX: real, startPointerY: real,
    friendX: int, friendY: int)

  /** compositeDragStart: with both images, note the friend and pointer positions and go active. */
  function AfterStart(st: DragState, bothImages: bool, pointerX: real, pointerY: real): (r: DragState)
    ensures !bothImages ==> r == st
    ensures bothImages ==> r.active && r.friendX == st.friendX && r.friendY == st.friendY
                           && r.startFriendX == st.friendX && r.startFriendY == st.friendY
                           && r.startPointerX == pointerX && r.startPointerY == pointerY
  {
    if bothImages then st.(active := true, startFriendX := st.friendX, startFriendY := st.friendY,
                           startPointerX := pointerX, startPointerY := pointerY)
    else st
  }

  /** compositeDragMove: while active with both images, set the sliders from the drag offset. */
  function AfterMove(st: DragState, bothImages: bool, pointerX: real, pointerY: real, scale: real): (r: DragState)
    requires bothImages && st.active ==> scale != 0.0
    ensures !(bothImages && st.active) ==> r == st
    ensures bothImages && st.active ==>
              && r == st.(friendX := r.friendX, friendY := r.friendY)
              && r.friendX == DragPosition(st.startFriendX, st.startPointerX, pointerX, scale)
              && r.friendY == DragPosition(st.startFriendY, st.startPointerY, pointerY, scale)
  {
    if bothImages && st.active then
      st.(friendX := DragPosition(st.startFriendX, st.startPointerX, pointerX, scale),
          friendY := DragPosition(st.startFriendY, st.startPointerY, pointerY, scale))
    else st
  }

  /** mouseup / touchend: with both images, go inactive; the friend stays where the last move put it. */
  function AfterUp(st: DragState, bothImages: bool): (r: DragState)
    ensures !bothImages ==> r == st
    ensures bothImages ==> !r.active && r == st.(active := false)
  {
    if bothImages then st.(active := false) else st
  }

  /** mouseout / touchcancel: an active drag is cancelled and the friend returns to where it started. */
  function AfterLeave(st: DragState, bothImages: bool): (r: DragState)
    ensures !(bothImages && st.active) ==> r == st
    ensures bothImages && st.active ==>
              && !r.active && r.friendX == st.startFriendX && r.friendY == st.startFriendY
              && r == st.(active := false, friendX := r.friendX, friendY := r.friendY)
  {
    if bothImages && st.active then
      st.(active := false, friendX := st.startFriendX, friendY := st.startFriendY)
    else st
  }

  /** The pointer events the four handlers receive. */
  datatype Event = Down(x: real, y: real) | Move(x: real, y: real) | Up | Leave

  /** Whether both images are specified and the canvas and view zooms, fixed over a run of events. */
  datatype Context = Context(bothImages: bool, canvasZoom: real, viewZoom: real) {
    function Scale(): real {
      canvasZoom * viewZoom
    }
    predicate Valid() {
      bothImages ==> Scale() != 0.0
    }
  }

  function Step(st: DragState, ctx: Context, e: Event): DragState
    requires ctx.Valid()
  {
    match e
    case Down(x, y) => AfterStart(st, ctx.bothImages, x, y)
    case Move(x, y) => AfterMove(st, ctx.bothImages, x, y, ctx.Scale())
    case Up => AfterUp(st, ctx.bothImages)
    case Leave => AfterLeave(st, ctx.bothImages)
  }

  /** The state after handling the events in order. */
  function Run(st: DragState, ctx: Context, events: seq<Event>): DragState
    requires ctx.Valid()
    decreases |events|
  {
    if events == [] then st else Run(Step(st, ctx, events[0]), ctx, events[1..])
  }

  lemma {:induction false} RunAppend(st: DragState, ctx: Context, a: seq<Event>, b: seq<Event>)
    requires ctx.Valid()
    ensures Run(st, ctx, a + b) == Run(Run(st, ctx, a), ctx, b)
    decreases |a|
  {
    if a == [] {
      assert a + b == b;
    } else {
      assert (a + b)[0] == a[0] && (a + b)[1..] == a[1..] + b;
      RunAppend(Step(st, ctx, a[0]), ctx, a[1..], b);
    }
  }

  /** Without both images specified, no pointer event changes anything. */
  lemma {:induction false} WithoutBothImagesInert(st: DragState, ctx: Context, events: seq<Event>)
    requires ctx.Valid() && !ctx.bothImages
    ensures Run(st, ctx, events) == st
    decreases |events|
  {
    if events != [] {
      WithoutBothImagesInert(Step(st, ctx, events[0]), ctx, events[1..]);
    }
  }

  predicate AllMoves(events: seq<Event>) {
    forall k :: 0 <= k < |events| ==> events[k].Move?
  }

  /**
   * During a drag, moves leave the session active and its start unchanged,
   * and the friend sits where the last move put it (where it started when
   * there was no move).
   */
  lemma {:induction false} MovesFollowLast(st: DragState, ctx: Context, moves: seq<Event>)
    requires ctx.Valid() && ctx.bothImages && st.active && AllMoves(moves)
    ensures var r := Run(st, ctx, moves);
      && r.active
      && r.startFriendX == st.startFriendX && r.startFriendY == st.startFriendY
      && r.startPointerX == st.startPointerX && r.startPointerY == st.startPointerY
      && (moves == [] ==> r == st)
      && (moves != [] ==>
            var last := moves[|moves| - 1];
            && r.friendX == DragPosition(st.startFriendX, st.startPointerX, last.x, ctx.Scale())
            && r.friendY == DragPosition(st.startFriendY, st.startPointerY, last.y, ctx.Scale()))
    decreases |moves|
  {
    if moves != [] {
      var next := Step(st, ctx, moves[0]);
      assert AllMoves(moves[1..]) by {
        forall k | 0 <= k < |moves[1..]| ensures moves[1..][k].Move? {
          assert moves[1..][k] == moves[k + 1];
        }
      }
      MovesFollowLast(next, ctx, moves[1..]);
    }
  }

  /** A drag released with mouseup leaves the friend where the last move put it, and ends the drag. */
  lemma DragThenRelease(st: DragState, ctx: Context, x: real, y: real, moves: seq<Event>)
    requires ctx.Valid() && ctx.bothImages && AllMoves(moves) && moves != []
    ensures var r := Run(st, ctx, [Down(x, y)] + moves + [Up]);
      var last := moves[|moves| - 1];
      && !r.active
      && r.friendX == DragPosition(st.friendX, x, last.x, ctx.Scale())
      && r.friendY == DragPosition(st.friendY, y, last.y, ctx.Scale())
  {
    var started := Step(st, ctx, Down(x, y));
    RunAppend(st, ctx, [Down(x, y)], moves);
    RunAppend(st, ctx, [Down(x, y)] + moves, [Up]);
    assert Run(st, ctx, [Down(x, y)]) == started;
    MovesFollowLast(started, ctx, moves);
  }

  /** A drag cancelled by leaving the canvas puts the friend back where it was, whatever the moves were. */
  lemma DragThenLeave(st: DragState, ctx: Context, x: real, y: real, moves: seq<Event>)
    requires ctx.Valid() && ctx.bothImages && AllMoves(moves)
    ensures var r := Run(st, ctx, [Down(x, y)] + moves + [Leave]);
      !r.active && r.friendX == st.friendX && r.friendY == st.friendY
  {
    var started := Step(st, ctx, Down(x, y));
    RunAppend(st, ctx, [Down(x, y)], moves);
    RunAppend(st, ctx, [Down(x, y)] + moves, [Leave]);
    assert Run(st, ctx, [Down(x, y)]) == started;
    MovesFollowLast(started, ctx, moves);
  }

  /** Outside a drag, moves and leaving change nothing. */
  lemma {:induction false} IdleIgnoresMovesAndLeave(st: DragState, ctx: Context, events: seq<Event>)
    requires ctx.Valid() && !st.active
    requires forall k :: 0 <= k < |events| ==> events[k].Move? || events[k].Leave?
    ensures Run(st, ctx, events) == st
    decreases |events|
  {
    if events != [] {
      assert forall k :: 0 <= k < |events[1..]| ==> events[1..][k] == events[k + 1];
      IdleIgnoresMovesAndLeave(Step(st, ctx, events[0]), ctx, events[1..]);
    }
  }

  /**
   * The composite canvas's drag data and the two position sliders, updated
   * in place by the four handlers.
   */
  class DragSession {
    var active: bool
    var startFriendX: int
    var startFriendY: int
    var startPointerX: real
    var startPointerY: real
    var friendX: int
    var friendY: int

    function State(): DragState
      reads this
    {
      DragState(active, startFriendX, startFriendY, startPointerX, startPointerY, friendX, friendY)
    }

    /** No drag in progress, the friend at the sliders' position (x, y). */
    constructor (x: int, y: int)
      ensures !active && friendX == x && friendY == y
    {
      active := false;
      startFriendX, startFriendY := 0, 0;
      startPointerX, startPointerY := 0.0, 0.0;
      friendX, friendY := x, y;
    }

    /** compositeDragStart */
    method Start(bothImages: bool, pointerX: real, pointerY: real)
      modifies this
      ensures State() == AfterStart(old(State()), bothImages, pointerX, pointerY)
    {
      if bothImages {
        active := true;
        startFriendX, startFriendY := friendX, friendY;
        startPointerX, startPointerY := pointerX, pointerY;
      }
    }

    /** compositeDragMove */
    method Move(bothImages: bool, pointerX: real, pointerY: real, canvasZoom: real, viewZoom: real)
      requires bothImages && active ==> canvasZoom * viewZoom != 0.0
      modifies this
      ensures State() == AfterMove(old(State()), bothImages, pointerX, pointerY, canvasZoom * viewZoom)
    {
      if bothImages && active {
        var x := startFriendX + Round((pointerX - startPointerX) / (canvasZoom * viewZoom));
        var y := startFriendY + Round((pointerY - startPointerY) / (canvasZoom * viewZoom));
        friendX, friendY := x, y;
      }
    }

    /** The mouseup / touchend handler. */
    method Up(bothImages: bool)
      modifies this
      ensures State() == AfterUp(old(State()), bothImages)
    {
      if bothImages {
        active := false;
      }
    }

    /** The mouseout / touchcancel handler. */
    method Leave(bothImages: bool)
      modifies this
      ensures State() == AfterLeave(old(State()), bothImages)
    {
      if bothImages && active {
        active := false;
        friendX, friendY := startFriendX, startFriendY;
      }
    }
  }
}
