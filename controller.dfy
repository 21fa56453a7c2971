/** The playback controller as the program runs it: the `active_keys`
    dictionary updated in place by key events and by the frame loop, with the
    audio calls recorded in a ghost log. Each method is proved to do what the
    matching function of `Playback` specifies and to keep `Lockstep`. */
module Controller {
  import opened Notes
  import opened NoteBar
  import opened Playback

  class Keyboard {
    /** Keys of `active_keys`, in insertion order. */
    var order: seq<nat>
    /** Hold counter of each active key, in thousandths. */
    var hold: map<nat, nat>
    /** The `play(-1)` and `stop()` calls made on the note sounds so far. */
    ghost var log: seq<Audio>

    ghost function Abs(): State
      reads this
    {
      State(order, hold, log)
    }

    ghost predicate Valid()
      reads this
    {
      Lockstep(Abs())
    }

    constructor ()
      ensures Valid() && Abs() == Initial
    {
      order, hold, log := [], map[], [];
    }

    /** `handle_key_press(index)`. */
    method OnPress(i: nat)
      requires Valid() && i < NumNotes
      modifies this
      ensures Valid() && Abs() == Press(old(Abs()), i)
    {
      ghost var s := Abs();
      if i !in hold {
        order := order + [i];
        hold := hold[i := SeedHold];
        log := log + [Play(i)];
      }
      assert Abs() == Press(s, i);
      PressKeepsLockstep(s, i);
    }

    /** `handle_key_release(index)`. */
    method OnRelease(i: nat)
      requires Valid()
      modifies this
      ensures Valid() && Abs() == Release(old(Abs()), i)
    {
      ghost var s := Abs();
      if i in hold {
        order := Without(order, i);
        hold := hold - {i};
        log := log + [Stop(i)];
      }
      assert Abs() == Release(s, i);
      ReleaseKeepsLockstep(s, i);
    }

    /** The bookkeeping of `loop_events`: the note-bar text and the particle
        counts of this frame, after every active counter has gained 0.001. */
    method Tick() returns (bar: string, spawns: seq<nat>)
      requires Valid()
      modifies this`hold
      ensures Valid() && Abs() == Advance(old(Abs()))
      ensures bar == Join(Names(order), Separator)
      ensures spawns == Spawns(hold, order)
      ensures forall k :: 0 <= k < |spawns| ==> 1 <= spawns[k] <= SpawnCap
    {
      FrameFacts(Abs());
      var acc;
      acc, spawns := WalkActive();
      bar := DropLast3(acc);
    }

    /** The loop of `loop_events`: walks the active keys in order, appending
        each name and the separator to the text, adding 0.001 to the key's
        counter in place and computing its particle count from the new
        counter. */
    method WalkActive() returns (acc: string, spawns: seq<nat>)
      requires forall k :: 0 <= k < |order| ==> order[k] < NumNotes && order[k] in hold
      modifies this`hold
      ensures hold == Bumped(old(hold), order)
      ensures acc == Accumulated(order)
      ensures spawns == SpawnsAlong(old(hold), order)
    {
      var keys := order;
      acc := "";
      spawns := [];
      var k := 0;
      while k < |keys|
        invariant 0 <= k <= |keys| && keys == order
        invariant hold == Bumped(old(hold), keys[..k])
        invariant acc == Accumulated(keys[..k])
        invariant spawns == SpawnsAlong(old(hold), keys[..k])
      {
        var i := keys[k];
        AccumulatedStep(keys, k);
        BumpedStep(old(hold), keys, k);
        SpawnsAlongStep(old(hold), keys, k);
        acc := acc + NoteNames[i] + Separator;
        hold := hold[i := hold[i] + HoldStep];
        spawns := spawns + [SpawnCount(hold[i])];
        k := k + 1;
      }
      assert keys[..k] == keys;
    }

    /** One event of the frame loop's event queue: KEYDOWN and KEYUP of a key
        in `key_map` press or release its note; QUIT is reported. */
    method HandleEvent(ev: Event) returns (quit: bool)
      requires Valid()
      modifies this
      ensures Valid() && Abs() == Step(old(Abs()), ev)
      ensures quit == ev.Quit?
    {
      quit := ev.Quit?;
      match ev
      case KeyDown(c) =>
        var r := KeyToIndex(c);
        if r.Some? { OnPress(r.value); }
      case KeyUp(c) =>
        var r := KeyToIndex(c);
        if r.Some? { OnRelease(r.value); }
      case _ =>
    }

    /** All events of one frame, in order. A QUIT does not stop the remaining
        events of the frame from being handled. */
    method HandleEvents(evs: seq<Event>) returns (quit: bool)
      requires Valid()
      modifies this
      ensures Valid() && Abs() == Run(old(Abs()), evs)
      ensures quit <==> exists k :: 0 <= k < |evs| && evs[k].Quit?
    {
      quit := false;
      var k := 0;
      while k < |evs|
        invariant 0 <= k <= |evs|
        invariant Valid()
        invariant Run(Abs(), evs[k..]) == Run(old(Abs()), evs)
        invariant quit <==> exists j :: 0 <= j < k && evs[j].Quit?
      {
        assert evs[k..][1..] == evs[k + 1..];
        var q := HandleEvent(evs[k]);
        quit := quit || q;
        k := k + 1;
      }
    }

    /** One pass of the game loop: the counter update of `loop_events`, then
        the frame's events; a key pressed in this frame is first counted in
        the next one. */
    method Frame(evs: seq<Event>) returns (bar: string, spawns: seq<nat>, quit: bool)
      requires Valid()
      modifies this
      ensures Valid() && Abs() == Run(Advance(old(Abs())), evs)
      ensures bar == Join(Names(old(order)), Separator)
      ensures spawns == Spawns(Advance(old(Abs())).hold, old(order))
      ensures forall k :: 0 <= k < |spawns| ==> 1 <= spawns[k] <= SpawnCap
      ensures quit <==> exists k :: 0 <= k < |evs| && evs[k].Quit?
    {
      bar, spawns := Tick();
      quit := HandleEvents(evs);
    }
  }
}
