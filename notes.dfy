/** The fixed tables of the keyboard: the names of the twelve notes and the
    keyboard codes that select them (the `notes` and `key_map` tables of
    MIDIGame.py). */
module Notes {

  datatype Option<T> = None | Some(value: T)

  /** Number of notes on the on-screen keyboard (one octave, twelve semitones). */
  const NumNotes: nat := 12

  /** Solfege names shown in the note bar, indexed by note. */
  const NoteNames: seq<string> := ["do", "re", "mi", "fa", "sol", "la", "si", "do#", "re#", "fa#", "sol#", "la#"]

  /** Keyboard codes, as pygame numbers them (the ASCII code of the lower-case
      letter), listed in the order of the notes they select: K_a plays note 0,
      K_s note 1, ..., K_u note 11. */
  const KeyCodes: seq<int> := [
    'a' as int, 's' as int, 'd' as int, 'f' as int,
    'g' as int, 'h' as int, 'j' as int, 'w' as int,
    'e' as int, 't' as int, 'y' as int, 'u' as int
  ]

  /** The `key_map` dictionary: keyboard code to note index. */
  const KeyMap: map<int, nat> := map[
    'a' as int := 0, 's' as int := 1, 'd' as int := 2, 'f' as int := 3,
    'g' as int := 4, 'h' as int := 5, 'j' as int := 6, 'w' as int := 7,
    'e' as int := 8, 't' as int := 9, 'y' as int := 10, 'u' as int := 11
  ]

  /** Looks a keyboard code up in `key_map`; `None` for any key outside it.
      The lookup agrees with the code list: the index found is the position of
      the code in `KeyCodes`, and a code with no position there is not found. */
  function KeyToIndex(code: int): (r: Option<nat>)
    ensures r.Some? ==> r.value < NumNotes && KeyCodes[r.value] == code
    ensures r.None? <==> code !in KeyCodes
  {
    if code in KeyMap then Some(KeyMap[code]) else None
  }

  /** `key_map` is a bijection between the twelve codes and the note indices
      0..11: every index is reached by its own code, and two codes that reach a
      note are the same code. */
  lemma KeyMapIsBijective(c1: int, c2: int, i: nat)
    requires i < NumNotes
    ensures KeyToIndex(KeyCodes[i]) == Some(i)
    ensures KeyToIndex(c1).Some? && KeyToIndex(c1) == KeyToIndex(c2) ==> c1 == c2
  {
  }
}
