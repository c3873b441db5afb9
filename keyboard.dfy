/**
 * The keyboard movement intent: four booleans that the keydown handler sets
 * and the keyup handler clears, chosen by the event's key code, and the
 * per-frame movement step that reads them unless a VR session is running.
 */
module Keyboard {
  import opened Geometry

  /** The four movement directions, one per flag. */
  datatype Move = Forward | Backward | Left | Right

  /** `moveForward`, `moveBackward`, `moveLeft`, `moveRight`. */
  datatype Intent = Intent(forward: bool, backward: bool, left: bool, right: bool)
  {
    /** The flag of direction m. */
    function Get(m: Move): bool
    {
      match m
      case Forward => forward
      case Backward => backward
      case Left => left
      case Right => right
    }

    /** Overwrite the flag of direction m with v. */
    function Set(m: Move, v: bool): (r: Intent)
      ensures r.Get(m) == v
      ensures forall n :: n != m ==> r.Get(n) == Get(n)
    {
      match m
      case Forward => this.(forward := v)
      case Backward => this.(backward := v)
      case Left => this.(left := v)
      case Right => this.(right := v)
    }
  }

  /** All flags down, as the script starts. */
  const NoIntent: Intent := Intent(false, false, false, false)

  /** The flag a key code drives: WASD and the arrow keys; every other code drives none. */
  function MoveFor(code: string): (m: Option<Move>)
    ensures m.Some? <==> code in MappedCodes
    ensures m.Some? ==> code in CodesFor(m.value)
  {
    if code == "KeyW" || code == "ArrowUp" then Some(Forward)
    else if code == "KeyS" || code == "ArrowDown" then Some(Backward)
    else if code == "KeyA" || code == "ArrowLeft" then Some(Left)
    else if code == "KeyD" || code == "ArrowRight" then Some(Right)
    else None
  }

  /** The key codes the handlers react to. */
  const MappedCodes: set<string> :=
    {"KeyW", "ArrowUp", "KeyS", "ArrowDown", "KeyA", "ArrowLeft", "KeyD", "ArrowRight"}

  /** The two codes that drive each flag: a letter key and an arrow key. */
  function CodesFor(m: Move): set<string>
  {
    match m
    case Forward => {"KeyW", "ArrowUp"}
    case Backward => {"KeyS", "ArrowDown"}
    case Left => {"KeyA", "ArrowLeft"}
    case Right => {"KeyD", "ArrowRight"}
  }

  /**
   * The handlers' switch, read both ways: a code drives flag m exactly when
   * it is one of m's two codes, and exactly the eight mapped codes drive a
   * flag at all.
   */
  lemma MoveForCodes(code: string, m: Move)
    ensures MoveFor(code) == Some(m) <==> code in CodesFor(m)
    ensures MoveFor(code).Some? <==> code in MappedCodes
    ensures |MappedCodes| == 8
  {
    assert "KeyW" != "ArrowUp";
  }

  /** A keydown (`down`) or keyup event with the given code, applied to the flags. */
  function OnKey(f: Intent, code: string, down: bool): (r: Intent)
    ensures forall n :: MoveFor(code) != Some(n) ==> r.Get(n) == f.Get(n)
    ensures MoveFor(code).Some? ==> r.Get(MoveFor(code).value) == down
  {
    match MoveFor(code)
    case None => f
    case Some(m) => f.Set(m, down)
  }

  /**
   * keydown sets and keyup clears exactly the one flag its code maps to and
   * leaves the other three unchanged; any other code changes nothing.
   */
  lemma OnKeySpec(f: Intent, code: string, down: bool)
    ensures MoveFor(code).None? ==> OnKey(f, code, down) == f
    ensures MoveFor(code).Some? ==>
      && OnKey(f, code, down).Get(MoveFor(code).value) == down
      && forall n :: n != MoveFor(code).value ==> OnKey(f, code, down).Get(n) == f.Get(n)
  {
  }

  /** Pressing twice is pressing once; a release undoes any number of presses of that flag. */
  lemma OnKeyIdempotent(f: Intent, code: string, other: string, down: bool)
    requires MoveFor(other) == MoveFor(code)
    ensures OnKey(OnKey(f, code, down), other, down) == OnKey(f, code, down)
    ensures OnKey(OnKey(f, code, true), other, false) == OnKey(f, code, false)
  {
  }

  /** A keyboard event as the document delivers it. */
  datatype KeyEvent = KeyDown(code: string) | KeyUp(code: string)

  /** The flags after the events, handled one by one in order. */
  function Replay(f: Intent, evs: seq<KeyEvent>): Intent
  {
    if evs == [] then f
    else OnKey(Replay(f, evs[..|evs| - 1]), evs[|evs| - 1].code, evs[|evs| - 1].KeyDown?)
  }

  /** Whether the last event whose code drives m was a keydown; None if no event drives m. */
  function LastFor(evs: seq<KeyEvent>, m: Move): Option<bool>
  {
    if evs == [] then None
    else if MoveFor(evs[|evs| - 1].code) == Some(m) then Some(evs[|evs| - 1].KeyDown?)
    else LastFor(evs[..|evs| - 1], m)
  }

  /**
   * After any event sequence, a flag is set exactly when the last event for
   * one of its codes was a keydown; with no such event it keeps its value.
   * In particular a flag never stays stuck after its key's keyup is handled.
   */
  lemma {:induction false} ReplayFollowsLastEvent(f: Intent, evs: seq<KeyEvent>, m: Move)
    ensures Replay(f, evs).Get(m) == match LastFor(evs, m) case None => f.Get(m) case Some(d) => d
    decreases |evs|
  {
    if evs != [] {
      ReplayFollowsLastEvent(f, evs[..|evs| - 1], m);
    }
  }

  /**
   * The displacement branches updateMovement takes this frame, in the order
   * it applies them: none in VR, otherwise one per set flag.
   */
  function AppliedMoves(inVR: bool, f: Intent): (ms: seq<Move>)
    ensures inVR ==> ms == []
    ensures |ms| <= 4
    ensures forall k :: 0 <= k < |ms| ==> f.Get(ms[k])
  {
    if inVR then []
    else
      (if f.forward then [Forward] else []) + (if f.backward then [Backward] else [])
      + (if f.left then [Left] else []) + (if f.right then [Right] else [])
  }

  /**
   * In VR no keyboard movement is applied; on the desktop each direction is
   * applied once exactly when its flag is set. When forward and backward
   * are both held, both branches run.
   */
  lemma AppliedMovesSpec(inVR: bool, f: Intent, m: Move)
    ensures inVR ==> AppliedMoves(inVR, f) == []
    ensures !inVR ==> (m in AppliedMoves(inVR, f) <==> f.Get(m))
    ensures forall a, b :: 0 <= a < b < |AppliedMoves(inVR, f)| ==> AppliedMoves(inVR, f)[a] != AppliedMoves(inVR, f)[b]
  {
  }
}
