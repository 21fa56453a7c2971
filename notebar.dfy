/** The text of the music-note bar: the solfege names of the sounding notes,
    in the order their keys went down, separated by " + ". */
module NoteBar {
  import opened Notes

  const Separator: string := " + "

  /** Python's `s[:-3]`: everything but the last three characters, and the
      empty string when `s` is shorter than that. */
  function DropLast3(s: string): (r: string)
    ensures |s| >= 3 ==> s == r + s[|s| - 3..]
    ensures |s| < 3 ==> r == ""
  {
    if |s| >= 3 then s[..|s| - 3] else ""
  }

  /** What the frame loop accumulates: each note's name followed by the
      separator, in iteration order. */
  function Accumulated(order: seq<nat>): (r: string)
    requires forall k :: 0 <= k < |order| ==> order[k] < NumNotes
    ensures order == [] <==> r == ""
    ensures order != [] ==> |r| >= |Separator| && r[|r| - |Separator|..] == Separator
  {
    if order == [] then ""
    else Accumulated(order[..|order| - 1]) + NoteNames[order[|order| - 1]] + Separator
  }

  /** Extending the walk by one more key appends that key's name and the
      separator. */
  lemma AccumulatedStep(order: seq<nat>, k: nat)
    requires forall k :: 0 <= k < |order| ==> order[k] < NumNotes
    requires k < |order|
    ensures Accumulated(order[..k + 1]) == Accumulated(order[..k]) + NoteNames[order[k]] + Separator
  {
    assert order[..k + 1][..k] == order[..k];
  }

  /** Reference definition: the names joined by the separator. */
  function Join(names: seq<string>, sep: string): string
  {
    if |names| == 0 then ""
    else if |names| == 1 then names[0]
    else Join(names[..|names| - 1], sep) + sep + names[|names| - 1]
  }

  /** The solfege names of the given notes, in the same order. */
  function Names(order: seq<nat>): (r: seq<string>)
    requires forall k :: 0 <= k < |order| ==> order[k] < NumNotes
    ensures |r| == |order|
    ensures forall k :: 0 <= k < |order| ==> r[k] == NoteNames[order[k]]
  {
    seq(|order|, k requires 0 <= k < |order| => NoteNames[order[k]])
  }

  /** The note-bar text for the active notes in press order: the names
      joined by " + ", empty with no active note and the bare name with one. */
  function Label(order: seq<nat>): (r: string)
    requires forall k :: 0 <= k < |order| ==> order[k] < NumNotes
    ensures r == Join(Names(order), Separator)
    ensures order == [] ==> r == ""
    ensures |order| == 1 ==> r == NoteNames[order[0]]
  {
    BarIsJoin(order);
    DropLast3(Accumulated(order))
  }

  /** A non-empty accumulator is the join of its names plus one trailing
      separator. */
  lemma {:induction false} AccumulatedIsJoinPlusSeparator(order: seq<nat>)
    requires forall k :: 0 <= k < |order| ==> order[k] < NumNotes
    requires order != []
    ensures Accumulated(order) == Join(Names(order), Separator) + Separator
  {
    var init := order[..|order| - 1];
    var names := Names(order);
    assert Names(init) == names[..|names| - 1];
    if |order| > 1 {
      AccumulatedIsJoinPlusSeparator(init);
    } else {
      assert init == [];
    }
  }

  /** Dropping the trailing separator from the accumulated text leaves
      exactly the names joined by " + ". */
  lemma BarIsJoin(order: seq<nat>)
    requires forall k :: 0 <= k < |order| ==> order[k] < NumNotes
    ensures DropLast3(Accumulated(order)) == Join(Names(order), Separator)
  {
    if order != [] {
      AccumulatedIsJoinPlusSeparator(order);
      var a := Accumulated(order);
      var j := Join(Names(order), Separator);
      assert a[..|a| - 3] == j;
    }
  }
}
