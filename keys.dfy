/**
 * The key registry and game progress: the `keys` list, each key's
 * `collected`/`visible` flags, the `keysCollected` counter and the victory
 * timers that collectKey sets. The functions here are the specification of
 * the state changes made by the methods of Game.GameState; the lemmas state
 * what the game promises about them.
 */
module KeyRegistry {
  import opened Geometry

  /** `totalKeys`: keys created per start and the counter value that wins. */
  const TotalKeys: nat := 3

  /** `keyPositions` of createKeys, one per key id. */
  const KeyPositions: seq<Vec3> := [Vec3(-2.0, 1.5, -2.0), Vec3(3.0, 1.5, 0.0), Vec3(0.0, 1.5, 3.0)]

  /** A key mesh, reduced to its position, its `visible` flag and its `userData`. */
  datatype Key = Key(id: nat, position: Vec3, isKey: bool, collected: bool, visible: bool)

  /**
   * The registry state: the global `keys` list, the `keysCollected` counter,
   * and how many victory timeouts have been scheduled so far.
   */
  datatype Progress = Progress(keys: seq<Key>, keysCollected: nat, victoriesScheduled: nat)

  /** The state when the script is loaded: no keys, counter 0, no victory pending. */
  const Initial: Progress := Progress([], 0, 0)

  /** Key i as createKeys makes it: a fresh, visible, uncollected mesh at keyPositions[i]. */
  function NewKey(i: nat): (k: Key)
    requires i < |KeyPositions|
    ensures k.id == i && k.position == KeyPositions[k.id] && k.isKey
    ensures !k.collected && k.visible
  {
    Key(i, KeyPositions[i], true, false, true)
  }

  /** The keys one run of createKeys's loop pushes, in push order. */
  function NewBatch(): (b: seq<Key>)
    ensures |b| == TotalKeys
    ensures forall i :: 0 <= i < |b| ==> b[i].id == i && !b[i].collected && b[i].visible
  {
    seq(TotalKeys, i requires 0 <= i < TotalKeys => NewKey(i))
  }

  /** The number of keys whose `collected` flag is set. */
  function CountCollected(ks: seq<Key>): (n: nat)
    ensures n <= |ks|
    ensures n == |ks| <==> forall i :: 0 <= i < |ks| ==> ks[i].collected
    ensures n == 0 <==> forall i :: 0 <= i < |ks| ==> !ks[i].collected
  {
    if ks == [] then 0
    else CountCollected(ks[..|ks| - 1]) + (if ks[|ks| - 1].collected then 1 else 0)
  }

  /**
   * The id createKeys gives the key at index i of a list built from whole
   * batches: i modulo TotalKeys, by repeated subtraction.
   */
  function IdAt(i: nat): (id: nat)
    ensures id < TotalKeys
    ensures id <= i
  {
    if i < TotalKeys then i else IdAt(i - TotalKeys)
  }

  /** IdAt is the remainder of division by TotalKeys. */
  lemma {:induction false} IdAtIsRemainder(i: nat)
    ensures IdAt(i) == i % TotalKeys
  {
    if i >= TotalKeys {
      IdAtIsRemainder(i - TotalKeys);
    }
  }

  /**
   * What every key list the game builds looks like: whole batches of
   * TotalKeys keys, key i carrying id IdAt(i) and that id's position, and a
   * key visible exactly when it is not collected.
   */
  predicate WellFormed(ks: seq<Key>)
  {
    && IdAt(|ks|) == 0
    && forall i :: 0 <= i < |ks| ==>
         && ks[i].id == IdAt(i)
         && ks[i].position == KeyPositions[IdAt(i)]
         && ks[i].isKey
         && ks[i].visible == !ks[i].collected
  }

  /** The registry invariant: well-formed keys, and the counter equals the number collected. */
  predicate Consistent(p: Progress)
  {
    WellFormed(p.keys) && p.keysCollected == CountCollected(p.keys)
  }

  /** createKeys: push one fresh batch onto the list, never clearing it. */
  function WithNewKeys(p: Progress): (r: Progress)
    ensures |r.keys| == |p.keys| + TotalKeys && r.keys[..|p.keys|] == p.keys
    ensures forall i :: |p.keys| <= i < |r.keys| ==> !r.keys[i].collected
    ensures r.keysCollected == p.keysCollected && r.victoriesScheduled == p.victoriesScheduled
  {
    p.(keys := p.keys + NewBatch())
  }

  /**
   * collectKey on key i: nothing if it is already collected; otherwise mark
   * it collected and hidden, count it, and schedule a victory when the
   * counter reaches TotalKeys (compared with `>=`).
   */
  function Collected(p: Progress, i: nat): (r: Progress)
    requires i < |p.keys|
    ensures |r.keys| == |p.keys| && r.keys[i].collected
    ensures forall j :: 0 <= j < |p.keys| && j != i ==> r.keys[j] == p.keys[j]
    ensures p.keysCollected <= r.keysCollected <= p.keysCollected + 1
    ensures p.victoriesScheduled <= r.victoriesScheduled <= p.victoriesScheduled + 1
  {
    if p.keys[i].collected then p
    else
      var count := p.keysCollected + 1;
      Progress(
        p.keys[i := p.keys[i].(collected := true, visible := false)],
        count,
        if count >= TotalKeys then p.victoriesScheduled + 1 else p.victoriesScheduled)
  }

  /**
   * restartGame: counter to 0, every key uncollected and visible. A victory
   * timeout already set is not cancelled.
   */
  function Restarted(p: Progress): (r: Progress)
    ensures |r.keys| == |p.keys| && r.keysCollected == 0
    ensures forall i :: 0 <= i < |r.keys| ==>
      && !r.keys[i].collected && r.keys[i].visible
      && r.keys[i].id == p.keys[i].id && r.keys[i].position == p.keys[i].position
    ensures r.victoriesScheduled == p.victoriesScheduled
  {
    Progress(
      seq(|p.keys|, i requires 0 <= i < |p.keys| => p.keys[i].(collected := false, visible := true)),
      0,
      p.victoriesScheduled)
  }

  /** `keys.filter(k => !k.userData.collected)`, as indices into the list, in list order. */
  function Candidates(ks: seq<Key>): (c: seq<nat>)
    ensures forall i :: i in c ==> i < |ks| && !ks[i].collected
  {
    if ks == [] then []
    else Candidates(ks[..|ks| - 1]) + (if ks[|ks| - 1].collected then [] else [|ks| - 1])
  }

  /**
   * onDocumentClick given the raycaster's ordered hit list: nothing in VR or
   * when nothing is hit; otherwise collect the first hit only.
   */
  function Clicked(p: Progress, inVR: bool, hits: seq<nat>): (r: Progress)
    requires |hits| > 0 ==> hits[0] < |p.keys|
    ensures inVR || |hits| == 0 ==> r == p
    ensures |r.keys| == |p.keys|
    ensures forall j :: 0 <= j < |p.keys| && (|hits| == 0 || j != hits[0]) ==> r.keys[j] == p.keys[j]
    ensures p.keysCollected <= r.keysCollected <= p.keysCollected + 1
  {
    if inVR || |hits| == 0 then p else Collected(p, hits[0])
  }

  /** Collect the keys `picks` one after another. */
  function CollectAll(p: Progress, picks: seq<nat>): Progress
    requires forall j :: 0 <= j < |picks| ==> picks[j] < |p.keys|
    decreases |picks|
  {
    if picks == [] then p
    else
      var q := Collected(p, picks[0]);
      assert |q.keys| == |p.keys|;
      CollectAll(q, picks[1..])
  }

  // ---------------------------------------------------------------- counting

  lemma {:induction false} CountCollectedAppend(a: seq<Key>, b: seq<Key>)
    ensures CountCollected(a + b) == CountCollected(a) + CountCollected(b)
    decreases |b|
  {
    if b != [] {
      var last := |b| - 1;
      assert (a + b)[..|a + b| - 1] == a + b[..last];
      CountCollectedAppend(a, b[..last]);
    } else {
      assert a + b == a;
    }
  }

  /** Replacing key i changes the count by exactly the change of its flag. */
  lemma {:induction false} CountCollectedUpdate(ks: seq<Key>, i: nat, k: Key)
    requires i < |ks|
    ensures CountCollected(ks[i := k]) ==
      CountCollected(ks) - (if ks[i].collected then 1 else 0) + (if k.collected then 1 else 0)
    decreases |ks|
  {
    var last := |ks| - 1;
    if i < last {
      assert ks[i := k][..last] == ks[..last][i := k];
      CountCollectedUpdate(ks[..last], i, k);
    } else {
      assert ks[i := k][..last] == ks[..last];
    }
  }

  // ---------------------------------------------------------------- createKeys

  /** Position i of a list of whole batches followed by one more batch. */
  lemma {:induction false} BatchIndex(n: nat, j: nat)
    requires IdAt(n) == 0 && j < TotalKeys
    ensures IdAt(n + j) == j
    ensures IdAt(n + TotalKeys) == 0
  {
    if n >= TotalKeys {
      BatchIndex(n - TotalKeys, j);
    }
  }

  /**
   * createKeys appends exactly TotalKeys keys: key i of the batch has id i,
   * position keyPositions[i], isKey set, not collected, visible. The keys
   * already there, the counter and the pending victories are untouched.
   */
  lemma WithNewKeysSpec(p: Progress)
    ensures |WithNewKeys(p).keys| == |p.keys| + TotalKeys
    ensures WithNewKeys(p).keys[..|p.keys|] == p.keys
    ensures forall i :: 0 <= i < TotalKeys ==>
      WithNewKeys(p).keys[|p.keys| + i] == Key(i, KeyPositions[i], true, false, true)
    ensures WithNewKeys(p).keysCollected == p.keysCollected
    ensures WithNewKeys(p).victoriesScheduled == p.victoriesScheduled
  {
    assert WithNewKeys(p).keys[..|p.keys|] == p.keys;
  }

  /** A fresh batch holds NewKey(0) .. NewKey(TotalKeys - 1), none collected. */
  lemma NewBatchFresh()
    ensures |NewBatch()| == TotalKeys
    ensures forall i :: 0 <= i < TotalKeys ==> NewBatch()[i] == NewKey(i)
    ensures CountCollected(NewBatch()) == 0
  {
  }

  /** Appending a fresh batch to whole batches gives whole batches. */
  lemma AppendBatchWellFormed(ks: seq<Key>)
    requires WellFormed(ks)
    ensures WellFormed(ks + NewBatch())
  {
    NewBatchFresh();
    var n := |ks|;
    var all := ks + NewBatch();
    BatchIndex(n, 0);
    forall i | 0 <= i < |all|
      ensures all[i].id == IdAt(i) && all[i].position == KeyPositions[IdAt(i)]
      ensures all[i].isKey && all[i].visible == !all[i].collected
    {
      if i >= n {
        BatchIndex(n, i - n);
        assert all[i] == NewKey(i - n);
      } else {
        assert all[i] == ks[i];
      }
    }
  }

  /** createKeys keeps the registry invariant: the new keys are uncollected, so the counter stays right. */
  lemma WithNewKeysConsistent(p: Progress)
    requires Consistent(p)
    ensures Consistent(WithNewKeys(p))
  {
    CountCollectedAppend(p.keys, NewBatch());
    NewBatchFresh();
    AppendBatchWellFormed(p.keys);
  }

  // ---------------------------------------------------------------- collectKey

  /** On a key already collected, collectKey changes nothing and schedules nothing. */
  lemma CollectedAlreadyCollected(p: Progress, i: nat)
    requires i < |p.keys| && p.keys[i].collected
    ensures Collected(p, i) == p
  {
  }

  /**
   * On an uncollected key, collectKey sets that key's `collected`, clears its
   * `visible`, adds exactly 1 to the counter and leaves every other key as it
   * was; it schedules a victory exactly when the new counter is at least
   * TotalKeys. The registry invariant is kept, so the counter never exceeds
   * the number of keys.
   */
  lemma CollectedSpec(p: Progress, i: nat)
    requires Consistent(p) && i < |p.keys| && !p.keys[i].collected
    ensures |Collected(p, i).keys| == |p.keys|
    ensures Collected(p, i).keys[i] == p.keys[i].(collected := true, visible := false)
    ensures forall j :: 0 <= j < |p.keys| && j != i ==> Collected(p, i).keys[j] == p.keys[j]
    ensures Collected(p, i).keysCollected == p.keysCollected + 1
    ensures Collected(p, i).victoriesScheduled ==
      p.victoriesScheduled + (if p.keysCollected + 1 >= TotalKeys then 1 else 0)
    ensures Consistent(Collected(p, i))
    ensures Collected(p, i).keysCollected <= |Collected(p, i).keys|
  {
    CountCollectedUpdate(p.keys, i, p.keys[i].(collected := true, visible := false));
  }

  /** Collecting the same key twice counts it once. */
  lemma CollectedIdempotent(p: Progress, i: nat)
    requires i < |p.keys|
    ensures Collected(Collected(p, i), i) == Collected(p, i)
  {
  }

  /** Every step of collectKey keeps the invariant and never lowers the counter. */
  lemma CollectedConsistent(p: Progress, i: nat)
    requires Consistent(p) && i < |p.keys|
    ensures Consistent(Collected(p, i))
    ensures |Collected(p, i).keys| == |p.keys|
    ensures Collected(p, i).keysCollected >= p.keysCollected
    ensures Collected(p, i).keys[i].collected
    ensures forall j :: 0 <= j < |p.keys| && p.keys[j].collected ==> Collected(p, i).keys[j].collected
  {
    if !p.keys[i].collected {
      CollectedSpec(p, i);
    }
  }

  // ---------------------------------------------------------------- restartGame

  /**
   * restartGame zeroes the counter and makes every key uncollected and
   * visible, keeping the number of keys, their ids and their positions; the
   * invariant holds afterwards whatever the counter and the flags were.
   */
  lemma RestartedSpec(p: Progress)
    requires WellFormed(p.keys)
    ensures |Restarted(p).keys| == |p.keys|
    ensures Restarted(p).keysCollected == 0
    ensures forall i :: 0 <= i < |p.keys| ==>
      Restarted(p).keys[i] == p.keys[i].(collected := false, visible := true)
    ensures Restarted(p).victoriesScheduled == p.victoriesScheduled
    ensures Consistent(Restarted(p))
  {
    assert CountCollected(Restarted(p).keys) == 0;
  }

  // ---------------------------------------------------------------- onDocumentClick

  /** The raycast candidates are exactly the uncollected keys, each once, in list order. */
  lemma {:induction false} CandidatesSpec(ks: seq<Key>)
    ensures forall i :: i in Candidates(ks) <==> 0 <= i < |ks| && !ks[i].collected
    ensures forall a, b :: 0 <= a < b < |Candidates(ks)| ==> Candidates(ks)[a] < Candidates(ks)[b]
    decreases |ks|
  {
    if ks != [] {
      var last := |ks| - 1;
      CandidatesSpec(ks[..last]);
      var prev := Candidates(ks[..last]);
      var c := Candidates(ks);
      forall a, b | 0 <= a < b < |c|
        ensures c[a] < c[b]
      {
        assert c[a] == prev[a] && c[a] in prev;
        if b < |prev| {
          assert c[b] == prev[b];
        }
      }
    }
  }

  /**
   * A click does nothing in VR or when the ray hits nothing. Otherwise, the
   * hits being drawn from the candidates, exactly one key changes: the first
   * hit, which was uncollected and is now collected, and the counter goes up
   * by exactly 1.
   */
  lemma ClickedSpec(p: Progress, inVR: bool, hits: seq<nat>)
    requires Consistent(p)
    requires forall j :: 0 <= j < |hits| ==> hits[j] in Candidates(p.keys)
    ensures |hits| > 0 ==> hits[0] < |p.keys|
    ensures inVR || |hits| == 0 ==> Clicked(p, inVR, hits) == p
    ensures !inVR && |hits| > 0 ==>
      && !p.keys[hits[0]].collected
      && Clicked(p, inVR, hits).keys[hits[0]].collected
      && Clicked(p, inVR, hits).keysCollected == p.keysCollected + 1
      && |Clicked(p, inVR, hits).keys| == |p.keys|
      && forall j :: 0 <= j < |p.keys| && j != hits[0] ==> Clicked(p, inVR, hits).keys[j] == p.keys[j]
    ensures Consistent(Clicked(p, inVR, hits))
  {
    CandidatesSpec(p.keys);
    if |hits| > 0 {
      if !inVR {
        CollectedSpec(p, hits[0]);
      }
    }
  }

  // ---------------------------------------------------------------- playthroughs

  /** Collecting a sequence of keys keeps the invariant and the list length, and marks every pick. */
  lemma {:induction false} CollectAllSpec(p: Progress, picks: seq<nat>)
    requires Consistent(p)
    requires forall j :: 0 <= j < |picks| ==> picks[j] < |p.keys|
    ensures Consistent(CollectAll(p, picks))
    ensures |CollectAll(p, picks).keys| == |p.keys|
    ensures CollectAll(p, picks).keysCollected >= p.keysCollected
    ensures forall j :: 0 <= j < |p.keys| && (p.keys[j].collected || j in picks) ==> CollectAll(p, picks).keys[j].collected
    decreases |picks|
  {
    if picks != [] {
      var q := Collected(p, picks[0]);
      CollectedConsistent(p, picks[0]);
      CollectAllSpec(q, picks[1..]);
      forall j | 0 <= j < |p.keys| && (p.keys[j].collected || j in picks)
        ensures CollectAll(p, picks).keys[j].collected
      {
        if j !in picks[1..] {
          assert j == picks[0] || p.keys[j].collected;
        }
      }
    }
  }

  /**
   * With exactly TotalKeys keys, a run of clicks schedules the victory once:
   * one timeout if the run takes the counter from below TotalKeys up to it,
   * none otherwise, however often already-collected keys are clicked again.
   */
  lemma {:induction false} VictoryOncePerPlaythrough(p: Progress, picks: seq<nat>)
    requires Consistent(p) && |p.keys| == TotalKeys
    requires forall j :: 0 <= j < |picks| ==> picks[j] < |p.keys|
    ensures CollectAll(p, picks).victoriesScheduled ==
      p.victoriesScheduled + (if p.keysCollected < TotalKeys <= CollectAll(p, picks).keysCollected then 1 else 0)
    decreases |picks|
  {
    if picks != [] {
      var q := Collected(p, picks[0]);
      CollectedConsistent(p, picks[0]);
      VictoryOncePerPlaythrough(q, picks[1..]);
      CollectAllSpec(q, picks[1..]);
      if !p.keys[picks[0]].collected {
        CollectedSpec(p, picks[0]);
      }
    }
  }

  /**
   * Restartability: from any state with one batch of keys, restartGame
   * followed by collecting every key (in any order, with repeats) schedules
   * exactly one more victory and ends with the counter at TotalKeys.
   */
  lemma RestartThenCollectEveryKey(p: Progress, picks: seq<nat>)
    requires WellFormed(p.keys) && |p.keys| == TotalKeys
    requires forall j :: 0 <= j < |picks| ==> picks[j] < |p.keys|
    requires forall i :: 0 <= i < |p.keys| ==> i in picks
    ensures CollectAll(Restarted(p), picks).keysCollected == TotalKeys
    ensures CollectAll(Restarted(p), picks).victoriesScheduled == p.victoriesScheduled + 1
  {
    var r := Restarted(p);
    RestartedSpec(p);
    CollectAllSpec(r, picks);
    VictoryOncePerPlaythrough(r, picks);
  }

  /**
   * createKeys never clears the list: starting, going back to the menu
   * (which runs restartGame) and starting again leaves two batches of keys,
   * six in all, whose ids repeat 0, 1, 2, while the win threshold stays 3.
   */
  lemma SecondStartDuplicatesKeys()
    ensures WithNewKeys(Restarted(WithNewKeys(Initial))) == Progress(NewBatch() + NewBatch(), 0, 0)
    ensures |(NewBatch() + NewBatch())| == 2 * TotalKeys
    ensures (NewBatch() + NewBatch())[3].id == 0
  {
    var once := WithNewKeys(Initial);
    assert once.keys == NewBatch();
    assert Restarted(once).keys == NewBatch();
  }

  /** The duplicated list still satisfies the registry invariant. */
  lemma DuplicatedKeysConsistent()
    ensures Consistent(Progress(NewBatch() + NewBatch(), 0, 0))
  {
    var once := Progress(NewBatch(), 0, 0);
    assert Consistent(Initial);
    WithNewKeysConsistent(Initial);
    assert WithNewKeys(Initial) == once;
    WithNewKeysConsistent(once);
  }

  /**
   * The same for any finished or unfinished first game: from one batch of
   * keys, restartGame then createKeys leaves exactly two fresh batches, the
   * counter at 0 and the invariant kept; pending victories are kept.
   */
  lemma RestartThenStartDuplicatesKeys(p: Progress)
    requires Consistent(p) && |p.keys| == TotalKeys
    ensures WithNewKeys(Restarted(p)) == Progress(NewBatch() + NewBatch(), 0, p.victoriesScheduled)
    ensures Consistent(WithNewKeys(Restarted(p)))
  {
    var r := Restarted(p);
    RestartedSpec(p);
    NewBatchFresh();
    forall i | 0 <= i < TotalKeys
      ensures r.keys[i] == NewBatch()[i]
    {
      assert IdAt(i) == i;
    }
    assert r.keys == NewBatch();
    WithNewKeysConsistent(r);
  }

  /** How many of the counter values c+1 .. c+n reach TotalKeys: the victories n fresh collections schedule. */
  function VictoryCount(c: nat, n: nat): nat
  {
    if c + n < TotalKeys then 0
    else if c >= TotalKeys then n
    else c + n - TotalKeys + 1
  }

  /**
   * Collecting n distinct uncollected keys raises the counter by n, leaves
   * every other key alone, and schedules one victory for each new counter
   * value that is at least TotalKeys, not just for the one that equals it.
   */
  lemma {:induction false} CollectFreshKeys(p: Progress, picks: seq<nat>)
    requires Consistent(p)
    requires forall j :: 0 <= j < |picks| ==> picks[j] < |p.keys| && !p.keys[picks[j]].collected
    requires forall a, b :: 0 <= a < b < |picks| ==> picks[a] != picks[b]
    ensures CollectAll(p, picks).keysCollected == p.keysCollected + |picks|
    ensures CollectAll(p, picks).victoriesScheduled == p.victoriesScheduled + VictoryCount(p.keysCollected, |picks|)
    ensures |CollectAll(p, picks).keys| == |p.keys|
    ensures forall j :: 0 <= j < |p.keys| && j !in picks ==> CollectAll(p, picks).keys[j] == p.keys[j]
    decreases |picks|
  {
    if picks != [] {
      var q := Collected(p, picks[0]);
      CollectedSpec(p, picks[0]);
      var rest := picks[1..];
      assert forall j :: 0 <= j < |rest| ==> rest[j] == picks[j + 1] && rest[j] != picks[0];
      CollectFreshKeys(q, rest);
      forall j | 0 <= j < |p.keys| && j !in picks
        ensures CollectAll(p, picks).keys[j] == p.keys[j]
      {
        assert j !in rest && j != picks[0];
      }
    }
  }

  /**
   * With a duplicated list (two batches, none collected, as a second start
   * leaves it), collecting keys 0, 1, 2 wins while keys 3, 4, 5 are still
   * uncollected, and collecting all six keys schedules the victory four
   * times and leaves the counter at twice TotalKeys.
   */
  lemma DuplicatedKeysRepeatVictory(p: Progress)
    requires Consistent(p) && |p.keys| == 2 * TotalKeys && p.keysCollected == 0
    ensures CollectAll(p, [0, 1, 2]).victoriesScheduled == p.victoriesScheduled + 1
    ensures forall j :: TotalKeys <= j < 2 * TotalKeys ==> !CollectAll(p, [0, 1, 2]).keys[j].collected
    ensures CollectAll(p, [0, 1, 2, 3, 4, 5]).victoriesScheduled == p.victoriesScheduled + 4
    ensures CollectAll(p, [0, 1, 2, 3, 4, 5]).keysCollected == 2 * TotalKeys
  {
    var three: seq<nat> := [0, 1, 2];
    var six: seq<nat> := [0, 1, 2, 3, 4, 5];
    CollectFreshKeys(p, three);
    CollectFreshKeys(p, six);
    forall j | TotalKeys <= j < 2 * TotalKeys
      ensures !CollectAll(p, three).keys[j].collected
    {
      assert j !in three;
    }
  }
}
