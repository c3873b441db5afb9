/**
 * The module-level state of the game script and the handlers that change it
 * in place: the key list and counter, the victory timers, the maze walls of
 * the current scene, the VR-session flag and the four movement flags.
 * Each method is specified by the functions of KeyRegistry, MazeLayout and
 * Keyboard, whose lemmas carry the properties.
 */
module Game {
  import opened Geometry
  import MazeLayout
  import KeyRegistry
  import Keyboard

  class GameState {
    /** `keys`: every key mesh ever created, never cleared. */
    var keys: seq<KeyRegistry.Key>
    /** `keysCollected`. */
    var keysCollected: nat
    /** How many `setTimeout(showVictory, 500)` calls collectKey has made. */
    var victoriesScheduled: nat
    /** `gameStarted`. */
    var gameStarted: bool
    /**
     * The wall positions in the current scene. startGame builds a fresh
     * scene (initThreeJS's `new THREE.Scene()`) right before initGame, so the
     * walls of a new start replace the old ones, while the global `keys`
     * list outlives the scene and keeps growing.
     */
    var walls: seq<Vec3>
    /** `isInVR`, driven by the XR session's start and end events. */
    var isInVR: bool
    var moveForward: bool
    var moveBackward: bool
    var moveLeft: bool
    var moveRight: bool

    /** The registry part of the state. */
    function Progress(): KeyRegistry.Progress
      reads this
    {
      KeyRegistry.Progress(keys, keysCollected, victoriesScheduled)
    }

    /** The four movement flags. */
    function Intent(): Keyboard.Intent
      reads this
    {
      Keyboard.Intent(moveForward, moveBackward, moveLeft, moveRight)
    }

    /** The counter always equals the number of collected keys. */
    ghost predicate Valid()
      reads this
    {
      KeyRegistry.Consistent(Progress())
    }

    /** The globals as the script declares them. */
    constructor ()
      ensures Valid()
      ensures Progress() == KeyRegistry.Initial
      ensures Intent() == Keyboard.NoIntent
      ensures !isInVR && !gameStarted && walls == []
    {
      keys := [];
      keysCollected := 0;
      victoriesScheduled := 0;
      gameStarted := false;
      walls := [];
      isInVR := false;
      moveForward, moveBackward, moveLeft, moveRight := false, false, false, false;
    }

    /** createKeys: push TotalKeys fresh keys onto the list. */
    method CreateKeys()
      requires Valid()
      modifies this`keys
      ensures Valid()
      ensures Progress() == KeyRegistry.WithNewKeys(old(Progress()))
    {
      ghost var before := Progress();
      for i := 0 to KeyRegistry.TotalKeys
        invariant keys == before.keys + KeyRegistry.NewBatch()[..i]
      {
        keys := keys + [KeyRegistry.NewKey(i)];
      }
      assert KeyRegistry.NewBatch()[..KeyRegistry.TotalKeys] == KeyRegistry.NewBatch();
      KeyRegistry.WithNewKeysConsistent(before);
    }

    /**
     * initThreeJS's fresh scene followed by initGame: the new scene holds
     * only the maze createMaze adds, a batch of keys is added to the list
     * (which the previous game may already have filled), and the game is
     * marked started.
     */
    method InitGame()
      requires Valid()
      modifies this`walls, this`keys, this`gameStarted
      ensures Valid()
      ensures walls == MazeLayout.Walls(MazeLayout.MazeMap, |MazeLayout.MazeMap|)
      ensures Progress() == KeyRegistry.WithNewKeys(old(Progress()))
      ensures gameStarted
    {
      walls := MazeLayout.CreateMaze(MazeLayout.MazeMap);
      CreateKeys();
      gameStarted := true;
    }

    /** collectKey on key i of the list. */
    method CollectKey(i: nat)
      requires Valid() && i < |keys|
      modifies this`keys, this`keysCollected, this`victoriesScheduled
      ensures Valid()
      ensures Progress() == KeyRegistry.Collected(old(Progress()), i)
    {
      ghost var before := Progress();
      if keys[i].collected {
        return;
      }
      keys := keys[i := keys[i].(collected := true, visible := false)];
      keysCollected := keysCollected + 1;
      if keysCollected >= KeyRegistry.TotalKeys {
        victoriesScheduled := victoriesScheduled + 1;
      }
      assert Progress() == KeyRegistry.Collected(before, i);
      KeyRegistry.CollectedConsistent(before, i);
    }

    /** restartGame's state changes: zero the counter, then reset every key. */
    method RestartGame()
      requires Valid()
      modifies this`keys, this`keysCollected
      ensures Valid()
      ensures Progress() == KeyRegistry.Restarted(old(Progress()))
    {
      ghost var before := Progress();
      keysCollected := 0;
      for i := 0 to |keys|
        invariant keysCollected == 0 && victoriesScheduled == before.victoriesScheduled
        invariant |keys| == |before.keys|
        invariant forall j :: 0 <= j < i ==> keys[j] == before.keys[j].(collected := false, visible := true)
        invariant forall j :: i <= j < |keys| ==> keys[j] == before.keys[j]
      {
        keys := keys[i := keys[i].(collected := false, visible := true)];
      }
      KeyRegistry.RestartedSpec(before);
      assert keys == KeyRegistry.Restarted(before).keys;
      assert Progress() == KeyRegistry.Restarted(before);
    }

    /**
     * onDocumentClick. `raycast` stands for the Raycaster set from the camera
     * and the mouse position: given the candidate keys it returns the keys the ray
     * hits, nearest first, drawn from those candidates.
     */
    method OnDocumentClick(raycast: seq<nat> -> seq<nat>)
      requires Valid()
      requires forall j :: 0 <= j < |raycast(KeyRegistry.Candidates(keys))| ==>
        raycast(KeyRegistry.Candidates(keys))[j] in KeyRegistry.Candidates(keys)
      modifies this`keys, this`keysCollected, this`victoriesScheduled
      ensures Valid()
      ensures Progress() == KeyRegistry.Clicked(old(Progress()), isInVR, raycast(KeyRegistry.Candidates(old(keys))))
    {
      if isInVR {
        return;
      }
      var intersects := raycast(KeyRegistry.Candidates(keys));
      KeyRegistry.ClickedSpec(Progress(), isInVR, intersects);
      if |intersects| > 0 {
        CollectKey(intersects[0]);
      }
    }

    /** The XR session's `sessionstart` event. */
    method OnSessionStart()
      requires Valid()
      modifies this`isInVR
      ensures Valid()
      ensures isInVR
    {
      isInVR := true;
    }

    /** The XR session's `sessionend` event. */
    method OnSessionEnd()
      requires Valid()
      modifies this`isInVR
      ensures Valid()
      ensures !isInVR
    {
      isInVR := false;
    }

    /** The `keydown` listener. */
    method OnKeyDown(code: string)
      requires Valid()
      modifies this`moveForward, this`moveBackward, this`moveLeft, this`moveRight
      ensures Valid()
      ensures Intent() == Keyboard.OnKey(old(Intent()), code, true)
    {
      if code == "KeyW" || code == "ArrowUp" {
        moveForward := true;
      } else if code == "KeyS" || code == "ArrowDown" {
        moveBackward := true;
      } else if code == "KeyA" || code == "ArrowLeft" {
        moveLeft := true;
      } else if code == "KeyD" || code == "ArrowRight" {
        moveRight := true;
      }
    }

    /** The `keyup` listener. */
    method OnKeyUp(code: string)
      requires Valid()
      modifies this`moveForward, this`moveBackward, this`moveLeft, this`moveRight
      ensures Valid()
      ensures Intent() == Keyboard.OnKey(old(Intent()), code, false)
    {
      if code == "KeyW" || code == "ArrowUp" {
        moveForward := false;
      } else if code == "KeyS" || code == "ArrowDown" {
        moveBackward := false;
      } else if code == "KeyA" || code == "ArrowLeft" {
        moveLeft := false;
      } else if code == "KeyD" || code == "ArrowRight" {
        moveRight := false;
      }
    }
  }
}
