/** The stroke-session state machine of DrawNoteCore: the list of stroke
    slots (drawNoteTargets), the drawing flag, the mode, the colour and the
    index of the slot being drawn, and the operations that change them. */
module Session {
  import opened Wrappers
  import opened DrawNoteType
  import opened Resolver

  /** One stroke slot (a DrawNoteTargetModel and its game object): the list
      length when it was created, whether its game object is active, the
      colour baked into its material, and the position it was last moved to
      (None while it still stands where it was instantiated). */
  datatype Slot<P, C> = Slot(index: nat, active: bool, color: C, position: Option<P>)

  /** A slot as the grow loop creates it: active, still where it was
      instantiated, and carrying the colour current at creation. */
  function NewSlot<P, C>(index: nat, color: C): (r: Slot<P, C>)
    ensures r.index == index && r.color == color
    ensures r.active && r.position.None?
  {
    Slot(index, true, color, None)
  }

  /** Every slot's index is its position in the list. */
  predicate IndexedByPosition<P, C>(s: seq<Slot<P, C>>)
  {
    forall i :: 0 <= i < |s| ==> s[i].index == i
  }

  /** The slot list after the grow loop: new slots of the given colour are
      appended until the list holds at least n slots. */
  function Grow<P, C>(s: seq<Slot<P, C>>, n: nat, color: C): (r: seq<Slot<P, C>>)
    ensures |r| == if |s| < n then n else |s|
    ensures r[..|s|] == s
    ensures forall i :: |s| <= i < |r| ==> r[i] == NewSlot(i, color)
    decreases n - |s|
  {
    if n <= |s| then s else Grow(s + [NewSlot(|s|, color)], n, color)
  }

  /** The slot list after a tick whose resolver returned pos: unchanged when
      there is no position; otherwise grown to cover index idx, with slot idx
      moved to the position. */
  function AfterTick<P, C>(s: seq<Slot<P, C>>, idx: nat, color: C, pos: Option<P>): (r: seq<Slot<P, C>>)
    ensures pos.None? ==> r == s
    ensures pos.Some? ==> |r| == (if |s| <= idx then idx + 1 else |s|)
    ensures pos.Some? ==> forall i :: 0 <= i < |s| && i != idx ==> r[i] == s[i]
    ensures pos.Some? ==> forall i :: |s| <= i < |r| && i != idx ==> r[i] == NewSlot(i, color)
    ensures pos.Some? ==> r[idx] == (if idx < |s| then s[idx] else NewSlot(idx, color)).(position := pos)
    ensures IndexedByPosition(s) ==> IndexedByPosition(r)
  {
    if pos.None? then s
    else
      var grown := Grow(s, idx + 1, color);
      assert forall i :: 0 <= i < |s| ==> grown[i] == grown[..|s|][i];
      grown[idx := grown[idx].(position := pos)]
  }

  /** The highest index of an active slot, if there is one. */
  function HighestActive<P, C>(s: seq<Slot<P, C>>): (r: Option<nat>)
    ensures r.Some? ==> r.value < |s| && s[r.value].active
    ensures r.Some? ==> forall j :: r.value < j < |s| ==> !s[j].active
    ensures r.None? <==> forall j :: 0 <= j < |s| ==> !s[j].active
  {
    if |s| == 0 then None
    else if s[|s| - 1].active then Some(|s| - 1)
    else HighestActive(s[..|s| - 1])
  }

  /** The slot list after Undo's scan: the highest-index active slot is
      deactivated; with no active slot the list is unchanged. */
  function Undone<P, C>(s: seq<Slot<P, C>>): (r: seq<Slot<P, C>>)
    ensures |r| == |s|
    ensures HighestActive(s).None? ==> r == s
    ensures HighestActive(s).Some? ==>
      var k := HighestActive(s).value;
      r[k] == s[k].(active := false) && forall i :: 0 <= i < |s| && i != k ==> r[i] == s[i]
  {
    match HighestActive(s)
    case None => s
    case Some(k) => s[k := s[k].(active := false)]
  }

  /** The number of active slots. */
  function ActiveCount<P, C>(s: seq<Slot<P, C>>): (n: nat)
    ensures n <= |s|
    ensures n == 0 <==> forall j :: 0 <= j < |s| ==> !s[j].active
  {
    if |s| == 0 then 0
    else ActiveCount(s[..|s| - 1]) + (if s[|s| - 1].active then 1 else 0)
  }

  /** Deactivating one active slot lowers the number of active slots by one. */
  lemma {:induction false} DeactivateOneActive<P, C>(s: seq<Slot<P, C>>, k: nat)
    requires k < |s| && s[k].active
    ensures ActiveCount(s[k := s[k].(active := false)]) == ActiveCount(s) - 1
  {
    var t := s[k := s[k].(active := false)];
    if k < |s| - 1 {
      assert t[..|t| - 1] == s[..|s| - 1][k := s[k].(active := false)];
      DeactivateOneActive(s[..|s| - 1], k);
    } else {
      assert t[..|t| - 1] == s[..|s| - 1];
    }
  }

  /** Undo deactivates exactly one slot when some slot is active, the highest
      active one, and otherwise nothing. */
  lemma UndoDeactivatesExactlyOne<P, C>(s: seq<Slot<P, C>>)
    ensures ActiveCount(Undone(s)) == if ActiveCount(s) == 0 then 0 else ActiveCount(s) - 1
  {
    if HighestActive(s).Some? {
      DeactivateOneActive(s, HighestActive(s).value);
    }
  }

  /** Undo never touches a slot's index, colour or position. */
  lemma UndoKeepsStrokes<P, C>(s: seq<Slot<P, C>>)
    ensures |Undone(s)| == |s|
    ensures forall i :: 0 <= i < |s| ==>
      Undone(s)[i].index == s[i].index && Undone(s)[i].color == s[i].color &&
      Undone(s)[i].position == s[i].position
  {
  }

  /** Without a wrist pose a tick leaves the slot list exactly as it was. */
  lemma NoWristTickChangesNothing<P, C>(s: seq<Slot<P, C>>, idx: nat, color: C, mode: Mode, f: Frame<P>)
    requires f.wrist.None?
    ensures AfterTick(s, idx, color, Resolve(mode, f)) == s
  {
    NoWristNoPosition(mode, f);
  }

  /** The invariant of the slot list against the session fields: the list
      never reaches past the slot after curDrawIndex, indices match
      positions, and while drawing an existing current slot is active, so a
      tick never moves a stroke that Undo has hidden. */
  predicate SlotsInvariant<P, C>(s: seq<Slot<P, C>>, curDrawIndex: nat, drawing: bool)
  {
    && |s| <= curDrawIndex + 1
    && IndexedByPosition(s)
    && (drawing && curDrawIndex < |s| ==> s[curDrawIndex].active)
  }

  /** A tick keeps the invariant, and after a hit the list holds exactly the
      slots up to the current one. */
  lemma TickKeepsInvariant<P, C>(s: seq<Slot<P, C>>, idx: nat, drawing: bool, color: C, pos: Option<P>)
    requires SlotsInvariant(s, idx, drawing)
    ensures SlotsInvariant(AfterTick(s, idx, color, pos), idx, drawing)
    ensures pos.Some? ==> |AfterTick(s, idx, color, pos)| == idx + 1
  {
  }

  /** A colour switch keeps the invariant: it moves past the current slot
      exactly when that slot exists, and resumes drawing. */
  lemma ColorSwitchKeepsInvariant<P, C>(s: seq<Slot<P, C>>, idx: nat, drawing: bool)
    requires SlotsInvariant(s, idx, drawing)
    ensures SlotsInvariant(s, if idx < |s| then idx + 1 else idx, true)
  {
  }

  /** Undo keeps the invariant. */
  lemma UndoKeepsInvariant<P, C>(s: seq<Slot<P, C>>, idx: nat, drawing: bool)
    requires SlotsInvariant(s, idx, drawing)
    ensures SlotsInvariant(Undone(s), if drawing then idx + 1 else idx, false)
  {
  }

  /** The DrawNoteCore component: the session fields, the slot list and the
      draw plane's enabled flag. */
  class DrawNoteCore<P, C> {
    var drawing: bool
    var curMode: Mode
    var drawColor: C
    var curDrawIndex: nat
    var drawNoteTargets: seq<Slot<P, C>>
    var drawPlaneEnabled: bool
    const colorSwatches: seq<C>

    /** Four swatches, and the slot list invariant. */
    ghost predicate Valid()
      reads this
    {
      |colorSwatches| == 4 && SlotsInvariant(drawNoteTargets, curDrawIndex, drawing)
    }

    /** The component as the scene loads it: drawing, Normal mode, the
        initial colour, no slots. */
    constructor (swatches: seq<C>, initialColor: C, planeEnabled: bool)
      requires |swatches| == 4
      ensures Valid()
      ensures drawing && curMode == Normal && drawColor == initialColor && curDrawIndex == 0
      ensures drawNoteTargets == [] && colorSwatches == swatches && drawPlaneEnabled == planeEnabled
    {
      drawing := true;
      curMode := Normal;
      drawColor := initialColor;
      curDrawIndex := 0;
      drawNoteTargets := [];
      drawPlaneEnabled := planeEnabled;
      colorSwatches := swatches;
    }

    /** One frame: the draw plane is enabled exactly in Normal mode while
        drawing, and only while drawing does the tick run. */
    method Update(f: Frame<P>)
      requires Valid()
      modifies this`drawNoteTargets, this`drawPlaneEnabled
      ensures Valid()
      ensures drawPlaneEnabled == (drawing && curMode == Normal)
      ensures drawNoteTargets ==
        if drawing then AfterTick(old(drawNoteTargets), curDrawIndex, drawColor, Resolve(curMode, f))
        else old(drawNoteTargets)
    {
      var showDrawPlane := false;
      if drawing && curMode == Normal {
        showDrawPlane := true;
      }
      if drawPlaneEnabled != showDrawPlane {
        drawPlaneEnabled := showDrawPlane;
      }
      if drawing {
        TryDrawNote(f);
      } else {
        if drawPlaneEnabled {
          drawPlaneEnabled := false;
        }
      }
    }

    /** Resolve this frame's position; if there is one, grow the list to
        cover curDrawIndex and move that slot there. */
    method TryDrawNote(f: Frame<P>)
      requires Valid()
      modifies this`drawNoteTargets
      ensures Valid()
      ensures drawNoteTargets == AfterTick(old(drawNoteTargets), curDrawIndex, drawColor, Resolve(curMode, f))
      ensures Resolve(curMode, f).Some? ==> |drawNoteTargets| == curDrawIndex + 1
    {
      var drawPosition := ResolveDrawPosition(curMode, f);
      if drawPosition.Some? {
        while |drawNoteTargets| <= curDrawIndex
          invariant |old(drawNoteTargets)| <= |drawNoteTargets| <= curDrawIndex + 1
          invariant drawNoteTargets[..|old(drawNoteTargets)|] == old(drawNoteTargets)
          invariant forall i :: |old(drawNoteTargets)| <= i < |drawNoteTargets| ==>
            drawNoteTargets[i] == NewSlot(i, drawColor)
          decreases curDrawIndex + 1 - |drawNoteTargets|
        {
          drawNoteTargets := drawNoteTargets + [NewSlot(|drawNoteTargets|, drawColor)];
        }
        assert drawNoteTargets == Grow(old(drawNoteTargets), curDrawIndex + 1, drawColor);
        drawNoteTargets := drawNoteTargets[curDrawIndex := drawNoteTargets[curDrawIndex].(position := drawPosition)];
      }
      TickKeepsInvariant(old(drawNoteTargets), curDrawIndex, drawing, drawColor, drawPosition);
    }

    /** Pick swatch setColor for the strokes created from now on: drawing
        resumes, and if the current slot already exists the index moves on so
        the next stroke starts in a fresh slot. */
    method UpdateColor(setColor: int)
      requires Valid()
      requires 0 <= setColor < |colorSwatches|
      modifies this`drawColor, this`curDrawIndex, this`drawing
      ensures Valid()
      ensures drawColor == colorSwatches[setColor] && drawing
      ensures curDrawIndex ==
        if old(curDrawIndex) < |drawNoteTargets| then old(curDrawIndex) + 1 else old(curDrawIndex)
    {
      drawColor := colorSwatches[setColor];
      if curDrawIndex < |drawNoteTargets| {
        curDrawIndex := curDrawIndex + 1;
      }
      drawing := true;
      ColorSwitchKeepsInvariant(drawNoteTargets, old(curDrawIndex), old(drawing));
    }

    /** Stop drawing (moving past the current slot if drawing was on) and
        deactivate the highest-index active slot. */
    method Undo()
      requires Valid()
      modifies this`drawing, this`curDrawIndex, this`drawNoteTargets
      ensures Valid()
      ensures !drawing
      ensures curDrawIndex == if old(drawing) then old(curDrawIndex) + 1 else old(curDrawIndex)
      ensures drawNoteTargets == Undone(old(drawNoteTargets))
    {
      if drawing {
        drawing := false;
        curDrawIndex := curDrawIndex + 1;
      }
      for i := |drawNoteTargets| downto 0
        invariant drawNoteTargets == old(drawNoteTargets)
        invariant forall j :: i <= j < |drawNoteTargets| ==> !drawNoteTargets[j].active
      {
        if drawNoteTargets[i].active {
          drawNoteTargets := drawNoteTargets[i := drawNoteTargets[i].(active := false)];
          break;
        }
      }
      UndoKeepsInvariant(old(drawNoteTargets), old(curDrawIndex), old(drawing));
    }

    /** Remove every stroke and start over at slot 0, not drawing; this
        establishes the invariant whatever state the slots were in. */
    method Clear()
      requires |colorSwatches| == 4
      modifies this`drawing, this`drawNoteTargets, this`curDrawIndex
      ensures Valid()
      ensures !drawing && drawNoteTargets == [] && curDrawIndex == 0
    {
      drawing := false;
      drawNoteTargets := [];
      curDrawIndex := 0;
    }

    /** Move to the next mode, wrapping from the last to the first. */
    method SwitchMode()
      requires Valid()
      modifies this`curMode
      ensures Valid()
      ensures curMode == NextMode(old(curMode))
    {
      var next := Ordinal(curMode) + 1;
      if next >= ModeCount {
        next := 0;
      }
      curMode := FromOrdinal(next);
    }
  }

  /** A session: draw on the plane, switch colour, draw again, undo. */
  method DrawSwitchColourUndo<P, C>(p1: P, p2: P, swatches: seq<C>, white: C)
    requires |swatches| == 4
  {
    var core := new DrawNoteCore<P, C>(swatches, white, false);
    var onPlane := Some(DrawPlaneName);
    var frame1 := Frame(Some(p1), None, [Source(true, [Pointer(false, Some(Hit(p1, onPlane)))])]);
    var frame2 := Frame(Some(p2), None, [Source(true, [Pointer(false, Some(Hit(p2, onPlane)))])]);
    assert Qualifies(Normal, frame1.sources[0].pointers[0]);
    assert Qualifies(Normal, frame2.sources[0].pointers[0]);

    core.Update(frame1);
    assert core.drawPlaneEnabled;
    assert core.drawNoteTargets == [Slot(0, true, white, Some(p1))];

    core.UpdateColor(2);
    assert core.curDrawIndex == 1 && core.drawing;

    core.Update(frame2);
    assert |core.drawNoteTargets| == 2;
    assert core.drawNoteTargets[1] == Slot(1, true, swatches[2], Some(p2));

    core.Undo();
    assert core.drawNoteTargets == [Slot(0, true, white, Some(p1)), Slot(1, false, swatches[2], Some(p2))];
    assert core.curDrawIndex == 2 && !core.drawing;

    var noWrist := Frame(None, Some(p1), frame1.sources);
    core.UpdateColor(0);
    core.Update(noWrist);
    assert |core.drawNoteTargets| == 2;
  }
}
