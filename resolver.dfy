/** The draw-position resolver of DrawNoteCore.TryDrawNote: given one frame's
    snapshot of hand tracking and pointer hits, and the current mode, it
    yields either no position or the one point to draw at. */
module Resolver {
  import opened Wrappers
  import opened DrawNoteType

  /** The name of the scene object that Normal mode draws on. */
  const DrawPlaneName: string := "DrawPlane"

  /** A pointer's hit result: the world-space hit point, and the name of the
      hit object's transform, or None when the result carries no object. */
  datatype Hit<P> = Hit(point: P, obj: Option<string>)

  /** A pointer of an input source: whether it is a near (touch) pointer,
      and its hit result, if any. */
  datatype Pointer<P> = Pointer(isNear: bool, result: Option<Hit<P>>)

  /** A detected input source: whether its type is Hand, and its pointers. */
  datatype Source<P> = Source(isHand: bool, pointers: seq<Pointer<P>>)

  /** What the tracking system reports during one frame: the wrist pose and
      the index-tip pose of any hand, and the detected input sources in
      enumeration order. */
  datatype Frame<P> = Frame(wrist: Option<P>, indexTip: Option<P>, sources: seq<Source<P>>)

  /** A pointer whose hit can supply a draw position in the given mode:
      a far pointer with a hit on an object, and in Normal mode that object
      is the draw plane, in Mesh mode it is anything else. */
  predicate Qualifies<P>(mode: Mode, p: Pointer<P>): (b: bool)
    ensures b ==> !p.isNear && p.result.Some? && p.result.value.obj.Some?
    ensures b && mode == Normal ==> p.result.value.obj.value == DrawPlaneName
    ensures b && mode == Mesh ==> p.result.value.obj.value != DrawPlaneName
  {
    && !p.isNear
    && p.result.Some?
    && p.result.value.obj.Some?
    && (mode == Normal ==> p.result.value.obj.value == DrawPlaneName)
    && (mode == Mesh ==> p.result.value.obj.value != DrawPlaneName)
  }

  /** The hit point of the first qualifying pointer among ps[j..]. */
  function FirstFrom<P>(mode: Mode, ps: seq<Pointer<P>>, j: nat): (r: Option<P>)
    requires j <= |ps|
    ensures r.None? <==> forall k :: j <= k < |ps| ==> !Qualifies(mode, ps[k])
    decreases |ps| - j
  {
    if j == |ps| then None
    else if Qualifies(mode, ps[j]) then Some(ps[j].result.value.point)
    else FirstFrom(mode, ps, j + 1)
  }

  /** What one source contributes: the first qualifying pointer's hit point
      of a hand source; nothing for any other source. */
  function SourceMatch<P>(mode: Mode, s: Source<P>): (r: Option<P>)
    ensures !s.isHand ==> r.None?
    ensures r.None? <==> !s.isHand || forall k :: 0 <= k < |s.pointers| ==> !Qualifies(mode, s.pointers[k])
  {
    if s.isHand then FirstFrom(mode, s.pointers, 0) else None
  }

  /** The draw position after scanning the sources in order: every source
      with a match overwrites the position found so far, so the last such
      source decides. */
  function ScanSources<P>(mode: Mode, ss: seq<Source<P>>): (r: Option<P>)
    ensures r.None? <==> forall i :: 0 <= i < |ss| ==> SourceMatch(mode, ss[i]).None?
  {
    if |ss| == 0 then None
    else
      match SourceMatch(mode, ss[|ss| - 1])
      case Some(x) => Some(x)
      case None => ScanSources(mode, ss[..|ss| - 1])
  }

  /** The position TryDrawNote draws at this frame, if any: nothing without a
      wrist; in Finger mode the index tip; otherwise the pointer scan. */
  function Resolve<P>(mode: Mode, f: Frame<P>): (r: Option<P>)
    ensures r.Some? ==> f.wrist.Some?
    ensures mode == Finger ==> (r.Some? <==> f.wrist.Some? && f.indexTip.Some?)
    ensures mode != Finger ==>
      (r.Some? <==> f.wrist.Some? && exists i :: 0 <= i < |f.sources| && SourceMatch(mode, f.sources[i]).Some?)
  {
    if f.wrist.None? then None
    else if mode == Finger then f.indexTip
    else ScanSources(mode, f.sources)
  }

  /** The resolver as TryDrawNote runs it: nested loops over the sources and
      their pointers, where the break leaves only the pointer loop. */
  method ResolveDrawPosition<P>(mode: Mode, f: Frame<P>) returns (drawPosition: Option<P>)
    ensures drawPosition == Resolve(mode, f)
  {
    if f.wrist.None? {
      return None;
    }
    drawPosition := None;
    if mode == Finger {
      if f.indexTip.Some? {
        drawPosition := Some(f.indexTip.value);
      }
    } else {
      for i := 0 to |f.sources|
        invariant drawPosition == ScanSources(mode, f.sources[..i])
      {
        var source := f.sources[i];
        assert f.sources[..i + 1][..i] == f.sources[..i];
        if source.isHand {
          for j := 0 to |source.pointers|
            invariant FirstFrom(mode, source.pointers, j) == FirstFrom(mode, source.pointers, 0)
            invariant drawPosition == ScanSources(mode, f.sources[..i])
          {
            var p := source.pointers[j];
            if p.isNear {
              continue;
            }
            if p.result.Some? {
              var endPoint := p.result.value.point;
              var hitObject := p.result.value.obj;
              if hitObject.Some? {
                if mode == Normal {
                  if hitObject.value != DrawPlaneName {
                    continue;
                  }
                } else if mode == Mesh {
                  if hitObject.value == DrawPlaneName {
                    continue;
                  }
                }
                drawPosition := Some(endPoint);
                break;
              }
            }
          }
        }
      }
      assert f.sources[..|f.sources|] == f.sources;
    }
  }

  /** Pointer j of ps is the first qualifying one. */
  predicate FirstMatchAt<P>(mode: Mode, ps: seq<Pointer<P>>, j: nat)
  {
    j < |ps| && Qualifies(mode, ps[j]) && forall k :: 0 <= k < j ==> !Qualifies(mode, ps[k])
  }

  /** Source i of ss has a match and no later source has one. */
  predicate LastMatchAt<P>(mode: Mode, ss: seq<Source<P>>, i: nat)
  {
    i < |ss| && SourceMatch(mode, ss[i]).Some? &&
    forall i' :: i < i' < |ss| ==> SourceMatch(mode, ss[i']).None?
  }

  /** A found pointer hit is the hit point of the first qualifying pointer
      from j on. */
  lemma {:induction false} FirstFromWitness<P>(mode: Mode, ps: seq<Pointer<P>>, j: nat) returns (k: nat)
    requires j <= |ps| && FirstFrom(mode, ps, j).Some?
    ensures j <= k < |ps| && Qualifies(mode, ps[k])
    ensures ps[k].result.value.point == FirstFrom(mode, ps, j).value
    ensures forall k' :: j <= k' < k ==> !Qualifies(mode, ps[k'])
    decreases |ps| - j
  {
    if Qualifies(mode, ps[j]) {
      k := j;
    } else {
      k := FirstFromWitness(mode, ps, j + 1);
    }
  }

  /** A found scan result is the contribution of a source after which no
      source contributes. */
  lemma {:induction false} ScanSourcesWitness<P>(mode: Mode, ss: seq<Source<P>>) returns (i: nat)
    requires ScanSources(mode, ss).Some?
    ensures LastMatchAt(mode, ss, i) && SourceMatch(mode, ss[i]) == ScanSources(mode, ss)
  {
    if SourceMatch(mode, ss[|ss| - 1]).Some? {
      i := |ss| - 1;
    } else {
      var front := ss[..|ss| - 1];
      i := ScanSourcesWitness(mode, front);
      assert forall i' :: 0 <= i' < |front| ==> front[i'] == ss[i'];
    }
  }

  /** Every position the scan returns is the hit point of the first
      qualifying pointer of a hand source, and no later source has a
      qualifying pointer. */
  lemma ScanWitness<P>(mode: Mode, f: Frame<P>)
    requires f.wrist.Some? && mode != Finger
    requires Resolve(mode, f).Some?
    ensures exists i: nat, j: nat ::
      && LastMatchAt(mode, f.sources, i) && f.sources[i].isHand
      && FirstMatchAt(mode, f.sources[i].pointers, j)
      && f.sources[i].pointers[j].result.value.point == Resolve(mode, f).value
  {
    var i := ScanSourcesWitness(mode, f.sources);
    var j := FirstFromWitness(mode, f.sources[i].pointers, 0);
    assert FirstMatchAt(mode, f.sources[i].pointers, j);
  }

  /** Within one source the first qualifying pointer decides, whatever the
      pointers after it hit. */
  lemma {:induction false} FirstQualifyingWins<P>(mode: Mode, ps: seq<Pointer<P>>, j: nat, from: nat)
    requires from <= j < |ps| && Qualifies(mode, ps[j])
    requires forall k :: from <= k < j ==> !Qualifies(mode, ps[k])
    ensures FirstFrom(mode, ps, from) == Some(ps[j].result.value.point)
    decreases j - from
  {
    if from < j {
      FirstQualifyingWins(mode, ps, j, from + 1);
    }
  }

  /** Across sources the last one with a match decides: a later hand source
      with a qualifying pointer overrides every earlier source. */
  lemma {:induction false} LastMatchingSourceWins<P>(mode: Mode, ss: seq<Source<P>>, i: nat)
    requires i < |ss| && SourceMatch(mode, ss[i]).Some?
    requires forall i' :: i < i' < |ss| ==> SourceMatch(mode, ss[i']).None?
    ensures ScanSources(mode, ss) == SourceMatch(mode, ss[i])
  {
    if i < |ss| - 1 {
      var front := ss[..|ss| - 1];
      assert forall i' :: i < i' < |front| ==> front[i'] == ss[i'];
      LastMatchingSourceWins(mode, front, i);
    }
  }

  /** The resolver finds a position in Normal or Mesh mode exactly when a
      wrist is tracked and some hand source has a qualifying pointer. */
  lemma {:induction false} ScanFindsIffSomeQualifies<P>(mode: Mode, f: Frame<P>)
    requires mode != Finger
    ensures Resolve(mode, f).Some? <==>
      f.wrist.Some? &&
      exists i, j :: 0 <= i < |f.sources| && f.sources[i].isHand &&
        0 <= j < |f.sources[i].pointers| && Qualifies(mode, f.sources[i].pointers[j])
  {
    if f.wrist.Some? {
      if Resolve(mode, f).Some? {
        ScanWitness(mode, f);
      }
      if exists i, j :: 0 <= i < |f.sources| && f.sources[i].isHand &&
          0 <= j < |f.sources[i].pointers| && Qualifies(mode, f.sources[i].pointers[j]) {
        var i, j :| 0 <= i < |f.sources| && f.sources[i].isHand &&
          0 <= j < |f.sources[i].pointers| && Qualifies(mode, f.sources[i].pointers[j]);
        assert SourceMatch(mode, f.sources[i]).Some?;
      }
    }
  }

  /** Without a wrist pose the resolver yields nothing, in every mode and
      whatever the pointers report. */
  lemma NoWristNoPosition<P>(mode: Mode, f: Frame<P>)
    requires f.wrist.None?
    ensures Resolve(mode, f).None?
  {
  }

  /** In Finger mode the position is the index-tip pose: nothing without one,
      and the pointers are never consulted. */
  lemma FingerUsesIndexTip<P>(f: Frame<P>, g: Frame<P>)
    requires f.wrist.Some? && f.wrist == g.wrist && f.indexTip == g.indexTip
    ensures Resolve(Finger, f) == f.indexTip
    ensures Resolve(Finger, f) == Resolve(Finger, g)
  {
  }

  /** In Normal mode every position found is the hit point of a pointer whose
      hit object is the draw plane. */
  lemma NormalDrawsOnlyOnDrawPlane<P>(f: Frame<P>)
    requires Resolve(Normal, f).Some?
    ensures exists i, j ::
      && 0 <= i < |f.sources| && f.sources[i].isHand && 0 <= j < |f.sources[i].pointers|
      && !f.sources[i].pointers[j].isNear
      && f.sources[i].pointers[j].result == Some(Hit(Resolve(Normal, f).value, Some(DrawPlaneName)))
  {
    ScanWitness(Normal, f);
  }

  /** In Mesh mode every position found is the hit point of a far pointer
      whose hit object exists and is not the draw plane. */
  lemma MeshNeverDrawsOnDrawPlane<P>(f: Frame<P>)
    requires Resolve(Mesh, f).Some?
    ensures exists i, j ::
      && 0 <= i < |f.sources| && f.sources[i].isHand && 0 <= j < |f.sources[i].pointers|
      && !f.sources[i].pointers[j].isNear
      && f.sources[i].pointers[j].result.Some?
      && f.sources[i].pointers[j].result.value.point == Resolve(Mesh, f).value
      && f.sources[i].pointers[j].result.value.obj.Some?
      && f.sources[i].pointers[j].result.value.obj.value != DrawPlaneName
  {
    ScanWitness(Mesh, f);
  }
  /** FirstFrom depends only on which pointers qualify and where they hit. */
  lemma {:induction false} FirstFromAgrees<P>(mode: Mode, ps: seq<Pointer<P>>, qs: seq<Pointer<P>>, from: nat)
    requires from <= |ps| == |qs|
    requires forall k :: from <= k < |ps| ==> (Qualifies(mode, ps[k]) <==> Qualifies(mode, qs[k]))
    requires forall k :: from <= k < |ps| && Qualifies(mode, ps[k]) && Qualifies(mode, qs[k]) ==>
      ps[k].result.value.point == qs[k].result.value.point
    ensures FirstFrom(mode, ps, from) == FirstFrom(mode, qs, from)
    decreases |ps| - from
  {
    if from < |ps| {
      FirstFromAgrees(mode, ps, qs, from + 1);
    }
  }

  /** ScanSources depends only on what each source contributes. */
  lemma {:induction false} ScanAgrees<P>(mode: Mode, ss: seq<Source<P>>, ts: seq<Source<P>>)
    requires |ss| == |ts|
    requires forall i :: 0 <= i < |ss| ==> SourceMatch(mode, ss[i]) == SourceMatch(mode, ts[i])
    ensures ScanSources(mode, ss) == ScanSources(mode, ts)
  {
    if |ss| > 0 {
      ScanAgrees(mode, ss[..|ss| - 1], ts[..|ts| - 1]);
    }
  }

  /** A pointer that does not qualify never contributes: replacing it by any
      other non-qualifying pointer (a near pointer, one without a hit or hit
      object, one hitting the wrong kind of surface) leaves the result as it
      was. */
  lemma NonQualifyingPointerIrrelevant<P>(mode: Mode, f: Frame<P>, i: nat, j: nat, q: Pointer<P>)
    requires i < |f.sources| && j < |f.sources[i].pointers|
    requires !Qualifies(mode, f.sources[i].pointers[j]) && !Qualifies(mode, q)
    ensures Resolve(mode, f) ==
      Resolve(mode, f.(sources := f.sources[i := f.sources[i].(pointers := f.sources[i].pointers[j := q])]))
  {
    var s := f.sources[i];
    var s' := s.(pointers := s.pointers[j := q]);
    ReplaceNonQualifying(mode, s.pointers, j, q);
    assert SourceMatch(mode, s) == SourceMatch(mode, s');
    ScanAgrees(mode, f.sources, f.sources[i := s']);
  }

  /** Swapping one non-qualifying pointer for another leaves FirstFrom as it was. */
  lemma ReplaceNonQualifying<P>(mode: Mode, ps: seq<Pointer<P>>, j: nat, q: Pointer<P>)
    requires j < |ps| && !Qualifies(mode, ps[j]) && !Qualifies(mode, q)
    ensures FirstFrom(mode, ps, 0) == FirstFrom(mode, ps[j := q], 0)
  {
    var qs := ps[j := q];
    assert forall k :: 0 <= k < |ps| && k != j ==> qs[k] == ps[k];
    FirstFromAgrees(mode, ps, qs, 0);
  }

  /** A source that is not a hand never contributes, whatever its pointers hit. */
  lemma NonHandSourceIrrelevant<P>(mode: Mode, f: Frame<P>, i: nat, s: Source<P>)
    requires i < |f.sources| && !f.sources[i].isHand && !s.isHand
    ensures Resolve(mode, f) == Resolve(mode, f.(sources := f.sources[i := s]))
  {
    ScanAgrees(mode, f.sources, f.sources[i := s]);
  }
}
