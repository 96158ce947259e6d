/** The lookup from a marker (a board entry above 9) to its clue label
    and from the label to the stop holding it. */
module SudokuReplacement {
  import opened Common

  /** replacements maps a marker to its clue label; stopsForClue maps a
      label to the index of its stop. */
  datatype Replacement = Replacement(replacements: map<int, string>, stopsForClue: map<string, int>)
  {
    /** get_clue(entry): the label of the marker, or None. */
    function GetClue(entry: int): (r: Option<string>)
      ensures r.Some? <==> entry in replacements
      ensures r.Some? ==> r.value == replacements[entry]
    {
      if entry in replacements then Some(replacements[entry]) else None
    }

    /** get_stop(entry): the stop of the marker's label; None when the
        marker has no label, the label is the empty string (falsy), or the
        label has no stop. */
    function GetStop(entry: int): (r: Option<int>)
      ensures r.Some? <==>
        (entry in replacements && replacements[entry] != "" && replacements[entry] in stopsForClue)
      ensures r.Some? ==> r.value == stopsForClue[replacements[entry]]
    {
      var clue := GetClue(entry);
      if clue.Some? && clue.value != "" then
        if clue.value in stopsForClue then Some(stopsForClue[clue.value]) else None
      else
        None
    }

    /** move_stops(translation): the same labels, each stop renamed by
        the translation; a stop missing from the translation raises
        KeyError in the source, hence the precondition. */
    function MoveStops(translation: map<int, int>): (r: Replacement)
      requires forall c :: c in stopsForClue ==> stopsForClue[c] in translation
      ensures r.replacements == replacements
      ensures r.stopsForClue.Keys == stopsForClue.Keys
      ensures forall c :: c in stopsForClue ==> r.stopsForClue[c] == translation[stopsForClue[c]]
    {
      Replacement(replacements, map c | c in stopsForClue :: translation[stopsForClue[c]])
    }
  }

  /** Moving the stops keeps every label and renames every stop found by
      get_stop through the translation. */
  lemma MoveStopsLookup(rep: Replacement, translation: map<int, int>, entry: int)
    requires forall c :: c in rep.stopsForClue ==> rep.stopsForClue[c] in translation
    ensures rep.MoveStops(translation).GetClue(entry) == rep.GetClue(entry)
    ensures rep.MoveStops(translation).GetStop(entry) ==
      (if rep.GetStop(entry).Some? then Some(translation[rep.GetStop(entry).value]) else None)
  {
  }

  /** Two moves in a row are one move by the composed translation. */
  lemma MoveStopsCompose(rep: Replacement, t1: map<int, int>, t2: map<int, int>)
    requires forall c :: c in rep.stopsForClue ==> rep.stopsForClue[c] in t1
    requires forall s :: s in t1 ==> t1[s] in t2
    ensures forall c :: c in rep.MoveStops(t1).stopsForClue ==> rep.MoveStops(t1).stopsForClue[c] in t2
    ensures rep.MoveStops(t1).MoveStops(t2) ==
      rep.MoveStops(map s | s in t1 :: t2[t1[s]])
  {
    var once := rep.MoveStops(t1);
    forall c | c in once.stopsForClue ensures once.stopsForClue[c] in t2 {
      var stop := rep.stopsForClue[c];
      assert stop in t1;
      assert once.stopsForClue[c] == t1[stop];
    }
  }

  /** The translation the main program applies before output: stop n is
      renamed n + 1 for n in 0..stops - 1. */
  function OneBased(stops: nat): (t: map<int, int>)
    ensures forall n :: n in t <==> 0 <= n < stops
    ensures forall n :: n in t ==> t[n] == n + 1
  {
    var stopIndices := Range(0, stops - 1);
    map n | n in stopIndices :: n + 1
  }

  /** After numbering the stops from 1, every stop get_stop finds is
      truthy (non-zero) and lies in 1..stops. */
  lemma OneBasedStopsAreTruthy(rep: Replacement, stops: nat, entry: int)
    requires forall c :: c in rep.stopsForClue ==> 0 <= rep.stopsForClue[c] < stops
    ensures forall c :: c in rep.stopsForClue ==> rep.stopsForClue[c] in OneBased(stops)
    ensures var moved := rep.MoveStops(OneBased(stops)).GetStop(entry);
      moved.Some? ==> 1 <= moved.value <= stops
  {
    assert forall c :: c in rep.stopsForClue ==> rep.stopsForClue[c] in OneBased(stops);
    MoveStopsLookup(rep, OneBased(stops), entry);
  }
}
