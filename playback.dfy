/** The playback controller as a specification on values: the `active_keys`
    dictionary (note index to hold counter, in insertion order), the audio
    calls issued so far, and what one key event or one frame does to them. */
module Playback {
  import opened Notes
  import opened NoteBar

  /** A call into the audio backend: `sounds[note].play(-1)` starts the note's
      buffer looping, `sounds[note].stop()` stops it. The log records only
      the calls, not whether the mixer found a channel for them. */
  datatype Audio = Play(note: nat) | Stop(note: nat)

  /** Hold counters are kept in thousandths: a fresh press stores 1 (1000
      thousandths) and each frame adds 0.001 (one thousandth). */
  const SeedHold: nat := 1000
  const HoldStep: nat := 1
  /** Most particles one note spawns in one frame. */
  const SpawnCap: nat := 100

  /** `order` lists the keys of `active_keys` in insertion order, `hold` maps
      each of them to its counter, and `log` is every audio call so far. */
  datatype State = State(order: seq<nat>, hold: map<nat, nat>, log: seq<Audio>)

  /** No key held, nothing ever played. */
  const Initial: State := State([], map[], [])

  /** Input events the frame loop reacts to. */
  datatype Event = Quit | KeyDown(key: int) | KeyUp(key: int) | Other

  // ---------------------------------------------------------------------
  // The audio log

  /** The notes whose last call in `log` is a play (as far as the log can
      tell, the notes whose buffer is still playing). */
  function Sounding(log: seq<Audio>): set<nat>
  {
    if log == [] then {}
    else
      var init := log[..|log| - 1];
      match log[|log| - 1]
      case Play(i) => Sounding(init) + {i}
      case Stop(i) => Sounding(init) - {i}
  }

  /** Every play is of a note whose last call was not a play, and every stop
      of one whose last call was: no note is ever played twice without a stop
      in between. */
  predicate WellNested(log: seq<Audio>)
  {
    if log == [] then true
    else
      var init := log[..|log| - 1];
      WellNested(init) &&
      match log[|log| - 1]
      case Play(i) => i !in Sounding(init)
      case Stop(i) => i in Sounding(init)
  }

  function Plays(log: seq<Audio>, i: nat): nat
  {
    if log == [] then 0
    else Plays(log[..|log| - 1], i) + (if log[|log| - 1] == Play(i) then 1 else 0)
  }

  function Stops(log: seq<Audio>, i: nat): nat
  {
    if log == [] then 0
    else Stops(log[..|log| - 1], i) + (if log[|log| - 1] == Stop(i) then 1 else 0)
  }

  /** The set of elements of `s`. */
  function Elems(s: seq<nat>): set<nat>
  {
    if s == [] then {} else Elems(s[..|s| - 1]) + {s[|s| - 1]}
  }

  lemma {:induction false} ElemsMembership(s: seq<nat>)
    ensures forall x :: x in Elems(s) <==> x in s
  {
    if s != [] {
      var init := s[..|s| - 1];
      ElemsMembership(init);
      assert s == init + [s[|s| - 1]];
    }
  }

  predicate Distinct(s: seq<nat>)
  {
    forall j, k :: 0 <= j < k < |s| ==> s[j] != s[k]
  }

  /** The controller's invariant: `active_keys` is a dictionary over valid
      note indices whose counters are at least the seed, and its keys are
      exactly the notes whose last audio call was a play. */
  ghost predicate Lockstep(s: State)
  {
    && Distinct(s.order)
    && (forall k :: 0 <= k < |s.order| ==> s.order[k] < NumNotes)
    && s.hold.Keys == Elems(s.order)
    && (forall k :: 0 <= k < |s.order| ==> s.order[k] in s.hold)
    && (forall i :: i in s.hold ==> s.hold[i] >= SeedHold)
    && WellNested(s.log)
    && Sounding(s.log) == s.hold.Keys
  }

  /** In a lockstep state a note is a key of the dictionary exactly when it
      is in the press order. */
  lemma LockstepKeys(s: State)
    requires Lockstep(s)
    ensures forall i :: i in s.hold <==> i in s.order
  {
    ElemsMembership(s.order);
  }

  /** Under the invariant a note is active exactly when it has been played
      once more than it was stopped, and idle exactly when both counts are
      equal. */
  lemma LockstepCounts(s: State, i: nat)
    requires Lockstep(s)
    ensures i in s.hold <==> Plays(s.log, i) == Stops(s.log, i) + 1
    ensures i !in s.hold <==> Plays(s.log, i) == Stops(s.log, i)
  {
    PlaysMatchSounding(s.log, i);
  }

  // ---------------------------------------------------------------------
  // Operations

  /** `handle_key_press`: an idle note gets counter 1 and its sound is played; a
      sounding note is left alone. */
  function Press(s: State, i: nat): (r: State)
    requires i < NumNotes
    ensures i in r.hold
    ensures i !in s.hold ==> i in r.order
    ensures s.log <= r.log
  {
    if i in s.hold then s
    else State(s.order + [i], s.hold[i := SeedHold], s.log + [Play(i)])
  }

  /** `order` without `i`, the others keeping their relative order. */
  function Without(order: seq<nat>, i: nat): (r: seq<nat>)
    ensures forall x :: x in r <==> x in order && x != i
    ensures |r| <= |order|
    ensures i !in order ==> r == order
  {
    if order == [] then []
    else if order[0] == i then Without(order[1..], i)
    else [order[0]] + Without(order[1..], i)
  }

  /** `handle_key_release`: a sounding note is popped from `active_keys` and
      stopped; an idle note is left alone. */
  function Release(s: State, i: nat): (r: State)
    ensures i !in r.hold
    ensures i in s.hold ==> i !in r.order
    ensures r.hold.Keys <= s.hold.Keys
    ensures s.log <= r.log
  {
    if i in s.hold then State(Without(s.order, i), s.hold - {i}, s.log + [Stop(i)])
    else s
  }

  /** The counter update of one frame: every active counter gains 0.001. */
  function Advance(s: State): (r: State)
    ensures r.order == s.order && r.log == s.log
    ensures r.hold.Keys == s.hold.Keys
  {
    s.(hold := map i | i in s.hold :: s.hold[i] + HoldStep)
  }

  /** Particles spawned for a note with counter `h`: `min(int(h), 100)`. */
  function SpawnCount(h: nat): (n: nat)
    ensures n <= SpawnCap
    ensures h >= SeedHold ==> 1 <= n
    ensures n * SeedHold <= h
    ensures n < SpawnCap ==> h < (n + 1) * SeedHold
  {
    if h / SeedHold < SpawnCap then h / SeedHold else SpawnCap
  }

  /** Particle counts of the notes in `order`, in that order, for the
      counters `hold`. */
  function Spawns(hold: map<nat, nat>, order: seq<nat>): (r: seq<nat>)
    requires forall k :: 0 <= k < |order| ==> order[k] in hold
    ensures |r| == |order|
  {
    if order == [] then []
    else Spawns(hold, order[..|order| - 1]) + [SpawnCount(hold[order[|order| - 1]])]
  }

  /** One event of the frame loop: KEYDOWN and KEYUP of a mapped key press or
      release its note; any other event leaves the controller alone. */
  function Step(s: State, ev: Event): (r: State)
    ensures !(ev.KeyDown? || ev.KeyUp?) ==> r == s
    ensures ev.KeyDown? && ev.key in KeyCodes ==> KeyToIndex(ev.key).value in r.hold
    ensures ev.KeyUp? && ev.key in KeyCodes ==> KeyToIndex(ev.key).value !in r.hold
    ensures s.log <= r.log
  {
    match ev
    case KeyDown(c) => (match KeyToIndex(c) case Some(i) => Press(s, i) case None => s)
    case KeyUp(c) => (match KeyToIndex(c) case Some(i) => Release(s, i) case None => s)
    case _ => s
  }

  /** The events of one frame, handled in order. */
  function Run(s: State, evs: seq<Event>): (r: State)
    ensures s.log <= r.log
    decreases |evs|
  {
    if evs == [] then s else Run(Step(s, evs[0]), evs[1..])
  }

  // ---------------------------------------------------------------------
  // The audio log: counts and overlap

  /** With well-nested calls, a note whose last call was a play has had one
      more play than stops, and any other note as many plays as stops. */
  lemma {:induction false} PlaysMatchSounding(log: seq<Audio>, i: nat)
    requires WellNested(log)
    ensures Plays(log, i) == Stops(log, i) + (if i in Sounding(log) then 1 else 0)
  {
    if log != [] {
      PlaysMatchSounding(log[..|log| - 1], i);
    }
  }

  lemma {:induction false} WellNestedPrefix(log: seq<Audio>, p: nat)
    requires WellNested(log) && p <= |log|
    ensures WellNested(log[..p])
  {
    if p < |log| {
      var init := log[..|log| - 1];
      assert init[..p] == log[..p];
      WellNestedPrefix(init, p);
    } else {
      assert log[..p] == log;
    }
  }

  /** At every moment of a well-nested history, a note has at most one
      playback going: its plays exceed its stops by zero or one. */
  lemma AtMostOnePlayback(log: seq<Audio>, i: nat, p: nat)
    requires WellNested(log) && p <= |log|
    ensures Stops(log[..p], i) <= Plays(log[..p], i) <= Stops(log[..p], i) + 1
  {
    WellNestedPrefix(log, p);
    PlaysMatchSounding(log[..p], i);
  }

  lemma LogAppend(log: seq<Audio>, e: Audio)
    ensures (log + [e])[..|log|] == log
  {
  }

  // ---------------------------------------------------------------------
  // Press and release

  /** Pressing an idle note makes it the newest active key with counter 1 and
      issues exactly one `play(-1)` of it and no stop. */
  lemma PressIdle(s: State, i: nat)
    requires i < NumNotes && i !in s.hold
    ensures Press(s, i).order == s.order + [i]
    ensures Press(s, i).hold[i] == SeedHold
    ensures Plays(Press(s, i).log, i) == Plays(s.log, i) + 1
    ensures Stops(Press(s, i).log, i) == Stops(s.log, i)
  {
    LogAppend(s.log, Play(i));
  }

  /** Pressing a sounding note does nothing: no second play, no counter reset;
      hence pressing twice is pressing once. */
  lemma PressIdempotent(s: State, i: nat)
    requires i < NumNotes
    ensures i in s.hold ==> Press(s, i) == s
    ensures Press(Press(s, i), i) == Press(s, i)
  {
  }

  /** Releasing a sounding note removes it from the active keys and issues
      exactly one stop of it and no play. */
  lemma ReleaseSounding(s: State, i: nat)
    requires i in s.hold
    ensures i !in Release(s, i).hold && i !in Release(s, i).order
    ensures Stops(Release(s, i).log, i) == Stops(s.log, i) + 1
    ensures Plays(Release(s, i).log, i) == Plays(s.log, i)
  {
    LogAppend(s.log, Stop(i));
  }

  /** Releasing an idle note changes nothing and issues no stop. */
  lemma ReleaseIdle(s: State, i: nat)
    requires i !in s.hold
    ensures Release(s, i) == s
  {
  }

  /** Press and release touch only the given note: every other note keeps
      its membership, its counter and its play and stop counts. */
  lemma PressReleaseFrame(s: State, i: nat, j: nat)
    requires i < NumNotes && j != i
    ensures (j in Press(s, i).hold <==> j in s.hold) && (j in Release(s, i).hold <==> j in s.hold)
    ensures j in s.hold ==> Press(s, i).hold[j] == s.hold[j] && Release(s, i).hold[j] == s.hold[j]
    ensures Plays(Press(s, i).log, j) == Plays(s.log, j) && Stops(Press(s, i).log, j) == Stops(s.log, j)
    ensures Plays(Release(s, i).log, j) == Plays(s.log, j) && Stops(Release(s, i).log, j) == Stops(s.log, j)
  {
    LogAppend(s.log, Play(i));
    LogAppend(s.log, Stop(i));
  }

  lemma {:induction false} WithoutAppended(order: seq<nat>, i: nat)
    requires i !in order
    ensures Without(order + [i], i) == order
  {
    if order != [] {
      assert (order + [i])[1..] == order[1..] + [i];
      WithoutAppended(order[1..], i);
    } else {
      assert [i][1..] == [];
    }
  }

  /** `pop` keeps the other keys in their insertion order: removing the note
      at position `p` of a duplicate-free order leaves the keys before it
      followed by the keys after it. */
  lemma {:induction false} WithoutAt(order: seq<nat>, i: nat, p: nat)
    requires Distinct(order) && p < |order| && order[p] == i
    ensures Without(order, i) == order[..p] + order[p + 1..]
  {
    var tail := order[1..];
    if p == 0 {
      assert i !in tail by {
        forall k | 0 <= k < |tail| ensures tail[k] != i {
          assert tail[k] == order[k + 1];
        }
      }
    } else {
      assert Distinct(tail) by {
        forall j, k | 0 <= j < k < |tail| ensures tail[j] != tail[k] {
          assert tail[j] == order[j + 1] && tail[k] == order[k + 1];
        }
      }
      assert tail[p - 1] == i;
      WithoutAt(tail, i, p - 1);
      assert order[..p] == [order[0]] + tail[..p - 1];
      assert order[p + 1..] == tail[p..];
    }
  }

  /** Releasing an active note leaves the other active keys in the order they
      were pressed. */
  lemma ReleaseKeepsOrder(s: State, i: nat, p: nat)
    requires Lockstep(s) && p < |s.order| && s.order[p] == i
    ensures Release(s, i).order == s.order[..p] + s.order[p + 1..]
    ensures |Release(s, i).order| == |s.order| - 1
  {
    assert i in s.hold;
    WithoutAt(s.order, i, p);
  }

  /** Releasing a note right after pressing it while idle restores the active
      keys, their order and their counters; the log gains one play and one
      stop of that note. */
  lemma ReleaseUndoesPress(s: State, i: nat)
    requires Lockstep(s) && i < NumNotes && i !in s.hold
    ensures Release(Press(s, i), i) == s.(log := s.log + [Play(i), Stop(i)])
  {
    WithoutAppended(s.order, i);
    assert s.hold[i := SeedHold] - {i} == s.hold;
  }

  // ---------------------------------------------------------------------
  // The invariant

  /** A play of a note whose last call was not a play keeps the log well
      nested and adds that note to the ones last played. */
  lemma PlayKeepsNested(log: seq<Audio>, i: nat)
    requires WellNested(log) && i !in Sounding(log)
    ensures WellNested(log + [Play(i)])
    ensures Sounding(log + [Play(i)]) == Sounding(log) + {i}
  {
    LogAppend(log, Play(i));
  }

  /** A stop of a note whose last call was a play keeps the log well nested
      and removes that note from the ones last played. */
  lemma StopKeepsNested(log: seq<Audio>, i: nat)
    requires WellNested(log) && i in Sounding(log)
    ensures WellNested(log + [Stop(i)])
    ensures Sounding(log + [Stop(i)]) == Sounding(log) - {i}
  {
    LogAppend(log, Stop(i));
  }

  /** Appending a new note keeps the order free of duplicates and adds the
      note to its elements. */
  lemma AppendKeepsDistinct(order: seq<nat>, i: nat)
    requires Distinct(order) && i !in order
    ensures Distinct(order + [i])
    ensures Elems(order + [i]) == Elems(order) + {i}
  {
    var t := order + [i];
    assert t[..|t| - 1] == order;
    forall j, k | 0 <= j < k < |t| ensures t[j] != t[k] {
      if k == |order| {
        assert t[j] == order[j];
      }
    }
  }

  /** The parts of the invariant, one requirement each. */
  lemma LockstepIntro(s: State)
    requires Distinct(s.order)
    requires forall k :: 0 <= k < |s.order| ==> s.order[k] < NumNotes && s.order[k] in s.hold
    requires s.hold.Keys == Elems(s.order)
    requires forall i :: i in s.hold ==> s.hold[i] >= SeedHold
    requires WellNested(s.log) && Sounding(s.log) == s.hold.Keys
    ensures Lockstep(s)
  {
  }

  /** Pressing an idle note: the note joins the order, the dictionary and
      the notes last played together. */
  lemma PressIdleKeepsLockstep(s: State, i: nat)
    requires Lockstep(s) && i < NumNotes && i !in s.hold
    ensures Lockstep(State(s.order + [i], s.hold[i := SeedHold], s.log + [Play(i)]))
  {
    var order, hold := s.order + [i], s.hold[i := SeedHold];
    LockstepKeys(s);
    PlayKeepsNested(s.log, i);
    AppendKeepsDistinct(s.order, i);
    assert hold.Keys == s.hold.Keys + {i};
    assert forall k :: 0 <= k < |order| ==> order[k] < NumNotes && order[k] in hold by {
      forall k | 0 <= k < |order| ensures order[k] < NumNotes && order[k] in hold {
        if k < |s.order| { assert order[k] == s.order[k]; }
      }
    }
    LockstepIntro(State(order, hold, s.log + [Play(i)]));
  }

  lemma PressKeepsLockstep(s: State, i: nat)
    requires Lockstep(s) && i < NumNotes
    ensures Lockstep(Press(s, i))
  {
    if i !in s.hold {
      PressIdleKeepsLockstep(s, i);
    }
  }

  lemma ReleaseKeepsLockstep(s: State, i: nat)
    requires Lockstep(s)
    ensures Lockstep(Release(s, i))
  {
    if i in s.hold {
      var t := Release(s, i);
      StopKeepsNested(s.log, i);
      assert t.hold.Keys == s.hold.Keys - {i};
      WithoutKeepsDistinct(s.order, i);
      LockstepKeys(s);
      ElemsMembership(t.order);
      assert t.hold.Keys == Elems(t.order);
    }
  }

  lemma {:induction false} WithoutKeepsDistinct(order: seq<nat>, i: nat)
    requires Distinct(order)
    ensures Distinct(Without(order, i))
    ensures (forall k :: 0 <= k < |order| ==> order[k] < NumNotes) ==>
              forall k :: 0 <= k < |Without(order, i)| ==> Without(order, i)[k] < NumNotes
  {
    if order != [] {
      var tail := order[1..];
      DistinctTail(order);
      WithoutKeepsDistinct(tail, i);
      if order[0] != i {
        ConsDistinct(order[0], Without(tail, i));
      }
    }
    WithoutKeepsValid(order, i);
  }

  lemma DistinctTail(order: seq<nat>)
    requires Distinct(order) && order != []
    ensures Distinct(order[1..]) && order[0] !in order[1..]
  {
    var tail := order[1..];
    forall j, k | 0 <= j < k < |tail| ensures tail[j] != tail[k] {
      assert tail[j] == order[j + 1] && tail[k] == order[k + 1];
    }
  }

  lemma ConsDistinct(x: nat, r: seq<nat>)
    requires Distinct(r) && x !in r
    ensures Distinct([x] + r)
  {
    var t := [x] + r;
    forall j, k | 0 <= j < k < |t| ensures t[j] != t[k] {
      assert t[k] == r[k - 1];
      if j > 0 {
        assert t[j] == r[j - 1];
      }
    }
  }

  lemma WithoutKeepsValid(order: seq<nat>, i: nat)
    ensures (forall k :: 0 <= k < |order| ==> order[k] < NumNotes) ==>
              forall k :: 0 <= k < |Without(order, i)| ==> Without(order, i)[k] < NumNotes
  {
    var r := Without(order, i);
    forall k | 0 <= k < |r| ensures r[k] in order {
      assert r[k] in r;
    }
  }

  lemma AdvanceKeepsLockstep(s: State)
    requires Lockstep(s)
    ensures Lockstep(Advance(s))
  {
    assert Advance(s).hold.Keys == s.hold.Keys;
  }

  /** The counters after bumping the keys of `ks` one after the other, as the
      frame loop does. */
  function Bumped(hold: map<nat, nat>, ks: seq<nat>): (r: map<nat, nat>)
    requires forall k :: 0 <= k < |ks| ==> ks[k] in hold
    ensures r.Keys == hold.Keys
  {
    if ks == [] then hold
    else
      var m := Bumped(hold, ks[..|ks| - 1]);
      m[ks[|ks| - 1] := m[ks[|ks| - 1]] + HoldStep]
  }

  /** Walking one more key bumps that key's counter. */
  lemma BumpedStep(hold: map<nat, nat>, ks: seq<nat>, k: nat)
    requires forall k :: 0 <= k < |ks| ==> ks[k] in hold
    requires k < |ks|
    ensures ks[k] in Bumped(hold, ks[..k])
    ensures Bumped(hold, ks[..k + 1]) == Bumped(hold, ks[..k])[ks[k] := Bumped(hold, ks[..k])[ks[k]] + HoldStep]
  {
    assert ks[..k + 1][..k] == ks[..k];
  }

  lemma DistinctInit(ks: seq<nat>)
    requires Distinct(ks) && ks != []
    ensures Distinct(ks[..|ks| - 1]) && ks[|ks| - 1] !in ks[..|ks| - 1]
  {
  }

  /** With distinct keys, the walk bumps each walked counter exactly once and
      leaves the others alone. */
  lemma {:induction false} BumpedAt(hold: map<nat, nat>, ks: seq<nat>, i: nat)
    requires forall k :: 0 <= k < |ks| ==> ks[k] in hold
    requires Distinct(ks) && i in hold
    ensures Bumped(hold, ks)[i] == hold[i] + (if i in ks then HoldStep else 0)
  {
    if ks != [] {
      var init := ks[..|ks| - 1];
      DistinctInit(ks);
      BumpedAt(hold, init, i);
      assert i in ks <==> i in init || i == ks[|ks| - 1];
    }
  }

  /** Walking the keys of a lockstep dictionary is the frame's counter
      update. */
  lemma BumpedIsAdvance(s: State)
    requires Lockstep(s)
    ensures Bumped(s.hold, s.order) == Advance(s).hold
  {
    LockstepKeys(s);
    forall i | i in s.hold ensures Bumped(s.hold, s.order)[i] == Advance(s).hold[i] {
      BumpedAt(s.hold, s.order, i);
    }
  }

  /** A frame's counter update strictly increases every active counter and
      changes nothing else. */
  lemma AdvanceGrows(s: State)
    ensures Advance(s).order == s.order && Advance(s).log == s.log
    ensures Advance(s).hold.Keys == s.hold.Keys
    ensures forall i :: i in s.hold ==> Advance(s).hold[i] > s.hold[i]
  {
  }

  /** The particle counts as the frame loop produces them: each key's count
      is taken right after its own counter is bumped. */
  function SpawnsAlong(hold: map<nat, nat>, ks: seq<nat>): (r: seq<nat>)
    requires forall k :: 0 <= k < |ks| ==> ks[k] in hold
    ensures |r| == |ks|
  {
    if ks == [] then []
    else SpawnsAlong(hold, ks[..|ks| - 1]) + [SpawnCount(Bumped(hold, ks)[ks[|ks| - 1]])]
  }

  /** Walking one more key appends its count, read from the freshly bumped
      counters. */
  lemma SpawnsAlongStep(hold: map<nat, nat>, ks: seq<nat>, k: nat)
    requires forall k :: 0 <= k < |ks| ==> ks[k] in hold
    requires k < |ks|
    ensures SpawnsAlong(hold, ks[..k + 1]) == SpawnsAlong(hold, ks[..k]) + [SpawnCount(Bumped(hold, ks[..k + 1])[ks[k]])]
  {
    assert ks[..k + 1][..k] == ks[..k];
  }

  /** Counts depend only on the counters of the keys counted. */
  lemma {:induction false} SpawnsAgree(m1: map<nat, nat>, m2: map<nat, nat>, ks: seq<nat>)
    requires forall k :: 0 <= k < |ks| ==> ks[k] in m1 && ks[k] in m2 && m1[ks[k]] == m2[ks[k]]
    ensures Spawns(m1, ks) == Spawns(m2, ks)
  {
    if ks != [] {
      SpawnsAgree(m1, m2, ks[..|ks| - 1]);
    }
  }

  /** With distinct keys no counter is bumped after it was counted, so the
      loop's counts are the counts of the final counters. */
  lemma {:induction false} SpawnsAlongIsSpawns(hold: map<nat, nat>, ks: seq<nat>)
    requires forall k :: 0 <= k < |ks| ==> ks[k] in hold
    requires Distinct(ks)
    ensures SpawnsAlong(hold, ks) == Spawns(Bumped(hold, ks), ks)
  {
    if ks != [] {
      var init := ks[..|ks| - 1];
      var last := ks[|ks| - 1];
      DistinctInit(ks);
      SpawnsAlongIsSpawns(hold, init);
      var m := Bumped(hold, init);
      assert Bumped(hold, ks) == m[last := m[last] + HoldStep];
      SpawnsAgree(m, Bumped(hold, ks), init);
    }
  }

  /** The count for the k-th key in press order comes from that key's counter. */
  lemma {:induction false} SpawnsAt(hold: map<nat, nat>, order: seq<nat>, k: nat)
    requires forall k :: 0 <= k < |order| ==> order[k] in hold
    requires k < |order|
    ensures Spawns(hold, order)[k] == SpawnCount(hold[order[k]])
  {
    if k < |order| - 1 {
      var init := order[..|order| - 1];
      SpawnsAt(hold, init, k);
    }
  }

  /** Every count of a frame lies between 1 and 100, because every counter
      starts at 1 and only grows. */
  lemma SpawnsBounded(s: State)
    requires Lockstep(s)
    ensures forall k :: 0 <= k < |s.order| ==> s.order[k] in Advance(s).hold
    ensures forall k :: 0 <= k < |s.order| ==> 1 <= Spawns(Advance(s).hold, s.order)[k] <= SpawnCap
  {
    forall k | 0 <= k < |s.order| ensures 1 <= Spawns(Advance(s).hold, s.order)[k] <= SpawnCap {
      SpawnsAt(Advance(s).hold, s.order, k);
    }
  }

  /** What one frame of `loop_events` relies on and establishes, for a
      dictionary in lockstep: the keys are valid notes of the dictionary; the
      walk's counters and counts are the frame's counter update and the counts
      of the new counters, each between 1 and 100; the text is the join of the
      names; and the lockstep survives. */
  lemma FrameFacts(s: State)
    requires Lockstep(s)
    ensures forall k :: 0 <= k < |s.order| ==> s.order[k] < NumNotes && s.order[k] in s.hold
    ensures Lockstep(Advance(s))
    ensures Bumped(s.hold, s.order) == Advance(s).hold
    ensures SpawnsAlong(s.hold, s.order) == Spawns(Advance(s).hold, s.order)
    ensures forall k :: 0 <= k < |s.order| ==> 1 <= Spawns(Advance(s).hold, s.order)[k] <= SpawnCap
    ensures DropLast3(Accumulated(s.order)) == Join(Names(s.order), Separator)
  {
    AdvanceKeepsLockstep(s);
    SpawnsBounded(s);
    BarIsJoin(s.order);
    BumpedIsAdvance(s);
    SpawnsAlongIsSpawns(s.hold, s.order);
  }

  /** Key events of codes outside `key_map` change nothing. */
  lemma UnmappedKeyIgnored(s: State, ev: Event)
    requires ev.KeyDown? || ev.KeyUp?
    requires ev.key !in KeyCodes
    ensures Step(s, ev) == s
  {
  }

  lemma StepKeepsLockstep(s: State, ev: Event)
    requires Lockstep(s)
    ensures Lockstep(Step(s, ev))
  {
    match ev
    case KeyDown(c) =>
      if KeyToIndex(c).Some? { PressKeepsLockstep(s, KeyToIndex(c).value); }
    case KeyUp(c) =>
      if KeyToIndex(c).Some? { ReleaseKeepsLockstep(s, KeyToIndex(c).value); }
    case _ =>
  }

  /** Any sequence of key events keeps the active keys and the notes whose
      last call was a play in lockstep. */
  lemma {:induction false} RunKeepsLockstep(s: State, evs: seq<Event>)
    requires Lockstep(s)
    ensures Lockstep(Run(s, evs))
    decreases |evs|
  {
    if evs != [] {
      StepKeepsLockstep(s, evs[0]);
      RunKeepsLockstep(Step(s, evs[0]), evs[1..]);
    }
  }

  /** Pressing 'f' (note 3) twice and releasing it issues exactly one play
      and one stop. */
  lemma PressTwiceReleaseOnce()
    ensures Run(Initial, [KeyDown('f' as int), KeyDown('f' as int), KeyUp('f' as int)]).log
            == [Play(3), Stop(3)]
  {
    var evs := [KeyDown('f' as int), KeyDown('f' as int), KeyUp('f' as int)];
    var s1 := Press(Initial, 3);
    assert Step(Initial, evs[0]) == s1;
    assert Step(s1, evs[1]) == s1;
    assert Run(Initial, evs) == Run(s1, evs[2..]);
  }
}
