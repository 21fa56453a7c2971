# MIDIGame note-playback controller in Dafny

This project models the playback core of `MIDIGame.py`, a pygame on-screen
keyboard. Twelve keyboard keys select the twelve notes of one octave.
Pressing a key starts that note's sound buffer looping and puts the note in the
`active_keys` dictionary with a hold counter of 1. Releasing the key stops the
buffer and removes the note. Once per frame, `loop_events` walks
`active_keys` in insertion order. For each note it appends the note's name and
`" + "` to the note-bar text, adds 0.001 to the note's counter and spawns
`min(int(counter), 100)` particles. The last three characters of the text are
then dropped to get the note bar.

The project has four modules:

- `Notes` (`notes.dfy`) holds the fixed tables: the solfege names and
  `key_map`, which maps keyboard codes to note indices.
- `NoteBar` (`notebar.dfy`) covers the note-bar text: the accumulator built
  by the frame loop, Python's `[:-3]`, and a reference `Join`.
- `Playback` (`playback.dfy`) is the specification on values. A `State`
  holds:
  - the keys of `active_keys` in insertion order;
  - their counters;
  - the log of `play(-1)` / `stop()` calls made on the note sounds.

  The module also defines the operations press, release, frame advance,
  spawn counts and event dispatch. Its lemmas prove the controller's
  properties.
- `Controller` (`controller.dfy`) is the program's own imperative form: a
  class whose fields are updated in place by the key handlers and by the
  frame loop. The constructor establishes the invariant `Lockstep`. The key
  handlers `OnPress` and `OnRelease`, and `Tick`, `HandleEvent`,
  `HandleEvents` and `Frame`, are each proved to produce the state that the
  matching `Playback` function specifies, and to keep `Lockstep`.
  `WalkActive` is the loop inside `Tick`. It is proved against the folds
  `Bumped`, `Accumulated` and `SpawnsAlong`, and `Tick` restores the
  invariant.

`Lockstep` is the central invariant. It says:

- the note indices are valid and distinct;
- the counters are at least the seed;
- the dictionary's keys are exactly the notes whose last audio call was
  `play(-1)`;
- the log never plays a note whose last call was `play(-1)` and never stops
  one whose last call was not.

Hold counters are integers counting thousandths. A press stores 1000 and
each frame adds 1, so `int(counter)` becomes `counter / 1000`.

## Model

| member | source | states |
|---|---|---|
| Notes.KeyToIndex | MIDIGame.py:132-136 | a key found in `key_map` gives an index below 12 whose code is that key; a key is not found exactly when it is not one of the twelve codes |
| Notes.KeyMapIsBijective | MIDIGame.py:132-136 | `key_map` is a bijection onto 0..11: every index is reached by its own code, and two codes that reach the same note are equal |
| NoteBar.DropLast3 | MIDIGame.py:157 | Python's `s[:-3]`: a string of length at least 3 is the result followed by its last three characters; a shorter string gives "" |
| NoteBar.Names | MIDIGame.py:142 | the note names of the active keys, one per key, in the same order |
| NoteBar.AccumulatedStep | MIDIGame.py:140-142 | one more loop iteration appends exactly the key's name and " + " to the text |
| NoteBar.AccumulatedIsJoinPlusSeparator | MIDIGame.py:139-142 | for at least one active note, the accumulated text is the names joined by " + " followed by one trailing " + " |
| NoteBar.Accumulated | MIDIGame.py:139-142 | the text built by the loop is empty exactly when no note is active, and otherwise ends with " + " |
| NoteBar.BarIsJoin | MIDIGame.py:139-157 | dropping the last three characters of the accumulated text leaves the names joined by " + " |
| NoteBar.Label | MIDIGame.py:139-157 | the note bar is the names of the active notes joined by " + " in press order; it is "" with no active note and the bare name with one |
| Playback.PlaysMatchSounding | MIDIGame.py:108-121 | in a well-nested audio log, a note's plays equal its stops plus one if its last call was `play`, plus zero otherwise |
| Playback.WellNestedPrefix | MIDIGame.py:108-121 | every prefix of a well-nested audio log is well nested |
| Playback.AtMostOnePlayback | MIDIGame.py:108-121 | at every point of the log, a note has been played as often as it was stopped, or once more: never two playbacks at once |
| Playback.LockstepKeys | MIDIGame.py:42 | under the invariant, a note is a dictionary key exactly when it is in the insertion order |
| Playback.LockstepCounts | MIDIGame.py:108-121 | under the invariant, a note is in `active_keys` exactly when its plays exceed its stops by one, and idle exactly when the two counts are equal |
| Playback.Press | MIDIGame.py:108-114 | `handle_key_press`: afterwards the note is active, a newly pressed note joins the insertion order, and the audio log only grows |
| Playback.Release | MIDIGame.py:117-121 | `handle_key_release`: afterwards the note is not active, a released note leaves the insertion order, no key is added, and the audio log only grows |
| Playback.Advance | MIDIGame.py:143 | the counter update of one frame keeps the active notes, their order and the audio log |
| Playback.Step | MIDIGame.py:171-181 | one event: QUIT and other events change nothing; KEYDOWN of a mapped key leaves its note active, KEYUP leaves it inactive; the audio log only grows |
| Playback.Run | MIDIGame.py:171-181 | the events of a frame handled in order only ever append to the audio log |
| Playback.PressIdle | MIDIGame.py:110-114 | pressing an idle note appends it to the order, sets its counter to 1 and issues exactly one `play` for it |
| Playback.PressIdempotent | MIDIGame.py:110 | pressing a note that is already active changes nothing, so pressing twice is the same as pressing once |
| Playback.ReleaseSounding | MIDIGame.py:119-121 | releasing an active note removes it from the dictionary and the order and issues exactly one `stop` for it |
| Playback.ReleaseIdle | MIDIGame.py:119 | releasing a note that is not active changes nothing |
| Playback.PressReleaseFrame | MIDIGame.py:108-121 | press and release of one note leave every other note's membership, counter, plays and stops unchanged |
| Playback.Without | MIDIGame.py:120 | `pop` on the insertion order: the result holds exactly the other notes, is no longer, and is the order itself when the note is absent |
| Playback.WithoutAt | MIDIGame.py:120 | removing the note at position p of a duplicate-free order leaves the keys before it followed by the keys after it, in their order |
| Playback.ReleaseKeepsOrder | MIDIGame.py:117-121 | releasing an active note leaves the other active keys in their press order, one shorter, so the note bar keeps their order |
| Playback.WithoutAppended | MIDIGame.py:110-120 | removing a note that was appended last restores the earlier order |
| Playback.WithoutKeepsDistinct | MIDIGame.py:120 | removing a note keeps the order free of duplicates and of invalid indices |
| Playback.ReleaseUndoesPress | MIDIGame.py:108-121 | release is the inverse of press on an idle note: the state returns to the original, and only a `play` then a `stop` are added to the log |
| Playback.PlayKeepsNested | MIDIGame.py:110-114 | playing a note whose last call was not a play keeps the log well nested and adds the note to those last played |
| Playback.StopKeepsNested | MIDIGame.py:119-121 | stopping a note whose last call was a play keeps the log well nested and removes the note from those last played |
| Playback.PressIdleKeepsLockstep | MIDIGame.py:110-114 | adding an idle note to the order, the dictionary and the log together keeps the invariant |
| Playback.PressKeepsLockstep | MIDIGame.py:108-114 | a press keeps the dictionary's keys equal to the notes whose last audio call was `play(-1)`, with the rest of the invariant |
| Playback.ReleaseKeepsLockstep | MIDIGame.py:117-121 | a release keeps the dictionary's keys equal to the notes whose last audio call was `play(-1)`, with the rest of the invariant |
| Playback.AdvanceKeepsLockstep | MIDIGame.py:143 | adding 0.001 to every counter keeps the invariant |
| Playback.AdvanceGrows | MIDIGame.py:143 | a frame keeps the same active notes and audio log and strictly increases every counter |
| Playback.SpawnCount | MIDIGame.py:144 | `min(int(counter), 100)`: the count is at most 100, at least 1 once the counter reaches 1, at most the counter's integer part, and equal to it when below the cap |
| Playback.Bumped | MIDIGame.py:141-143 | the dictionary after the loop has added 0.001 to the counters of a prefix of the keys has the same keys |
| Playback.BumpedStep | MIDIGame.py:141-143 | one more loop iteration adds 0.001 to that key's counter only |
| Playback.BumpedAt | MIDIGame.py:141-143 | after the walk, each counter has gained 0.001 exactly when its key was walked |
| Playback.BumpedIsAdvance | MIDIGame.py:141-143 | walking all active keys once is the frame advance of every counter |
| Playback.SpawnsAlong | MIDIGame.py:141-144 | the spawn counts of the loop come one per walked key |
| Playback.SpawnsAlongStep | MIDIGame.py:141-144 | one more loop iteration appends the count computed from that key's freshly increased counter |
| Playback.Spawns | MIDIGame.py:141-145 | one spawn count per active note |
| Playback.SpawnsAt | MIDIGame.py:144-145 | the k-th spawn count is the capped integer part of the k-th active note's counter |
| Playback.SpawnsAgree | MIDIGame.py:144 | the spawn counts depend only on the counters of the walked keys |
| Playback.SpawnsAlongIsSpawns | MIDIGame.py:141-145 | the counts computed during the walk equal the counts read from the counters after the walk |
| Playback.SpawnsBounded | MIDIGame.py:143-145 | every active note spawns between 1 and 100 particles in a frame |
| Playback.FrameFacts | MIDIGame.py:138-157 | one frame keeps the invariant, updates the counters as the frame advance does, spawns 1..100 particles per note, and shows the names joined by " + " |
| Playback.UnmappedKeyIgnored | MIDIGame.py:175-181 | a KEYDOWN or KEYUP of a key outside `key_map` changes nothing |
| Playback.StepKeepsLockstep | MIDIGame.py:171-181 | handling any one event keeps the invariant |
| Playback.RunKeepsLockstep | MIDIGame.py:171-181 | handling any sequence of events keeps the invariant |
| Playback.PressTwiceReleaseOnce | MIDIGame.py:175-181 | pressing F twice and releasing it once plays note 3 once and stops it once |
| Controller.Keyboard.constructor | MIDIGame.py:41-42 | the controller starts with no active key and no audio call, in lockstep |
| Controller.Keyboard.OnPress | MIDIGame.py:108-114 | updates the dictionary in place exactly as `Press` specifies, and keeps the invariant |
| Controller.Keyboard.OnRelease | MIDIGame.py:117-121 | updates the dictionary in place exactly as `Release` specifies, and keeps the invariant |
| Controller.Keyboard.WalkActive | MIDIGame.py:139-145 | the loop over the active keys leaves the counters as `Bumped`, the text as `Accumulated`, and the spawn counts as `SpawnsAlong` |
| Controller.Keyboard.Tick | MIDIGame.py:138-157 | the frame's bookkeeping: the counters advance, the note bar is the names joined by " + ", and each note's spawn count lies in 1..100 and is read from its new counter |
| Controller.Keyboard.HandleEvent | MIDIGame.py:171-181 | one event does what `Step` specifies, and reports whether it was QUIT |
| Controller.Keyboard.HandleEvents | MIDIGame.py:171-181 | the frame's events in order do what `Run` specifies, and quit is reported exactly when one of them is QUIT |
| Controller.Keyboard.Frame | MIDIGame.py:163-181 | one pass of the game loop: first the counter update and note bar, then the events; the spawn counts are those of the advanced counters, each in 1..100; the invariant holds throughout |

## Left out

- Tone synthesis is not modelled: the sine and granular generators, the FFT low-pass filter, `generate_tone` and the sound buffers (MIDIGame.py:49-96). These are floating-point signal processing. A note's sound appears only through the `play`/`stop` calls it receives, which are recorded in a ghost log.
- Note frequencies are not modelled (MIDIGame.py:31-32). They are floating-point values that the controller never reads.
- Drawing is not modelled: the keyboard, the particles, the note-bar rectangle and the rendered text (MIDIGame.py:98-106, 123-130, 150-158). It is pygame I/O. The model returns the note-bar text and the per-note particle counts instead.
- The key labels `keys` (MIDIGame.py:27) are used only to draw the keys and are not modelled.
- The audio mixer's channel limit is not modelled. The log records that `play(-1)` was called; whether the mixer found a free channel for it is pygame's behaviour and outside this model.
- Particles are modelled by their count per note only. Their random positions, velocities and colours (MIDIGame.py:146-152) come from a random source.
- The hold counter is exact thousandths, not a binary float. Python's repeated `+= 0.001` can drift in the last bits; the model treats each frame as adding exactly 0.001.
- The event queue is a parameter: `pygame.event.get()` (MIDIGame.py:171) becomes the sequence of events given to `HandleEvents`/`Frame`. The `running` flag becomes the returned `quit`; the outer `while running` loop, `screen.fill`, `display.flip` and `pygame.quit` are not modelled.
- Controller.Keyboard.OnPress and Playback.Press require a note index below 12. `sounds[index]` with any other index would raise an error, and every caller passes a `key_map` value. `handle_key_release` has no such precondition, because it touches `sounds` only for an active note.
- The code has no `OutOfRange` error and no playback handles; the model follows the code. The note is the key of both `active_keys` and `sounds`, and `stop()` is called on the note's sound rather than on a handle returned by `play`.
- The choice of synthesis method (MIDIGame.py:44-45) is not modelled. `current_method_index` is never changed, so the sounds are built once.
