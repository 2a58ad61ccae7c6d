# DrawNote core in Dafny

This project models the decision logic of `DrawNoteCore`, the Unity/MRTK
component of the DrawNote HoloLens 2 app. It is the part of the app that lets a
user sketch 3D strokes in the air. It has two pieces:

- **The draw-position resolver** (`TryDrawNote`). Each frame it reads the
  tracking data and either finds one point to draw at or finds none. A wrist
  pose is required. Finger mode uses the index-finger tip. Normal and Mesh modes
  go through the far pointers of the hand input sources. Normal mode keeps only
  hits on the object named `DrawPlane`. Mesh mode keeps only hits on other objects.
- **The stroke-session state machine.** Its state is the drawing flag, the
  mode, the colour, the current slot index `curDrawIndex` and the list of stroke
  slots `drawNoteTargets`. UpdateColor, Undo, Clear and SwitchMode change it, and
  so does the per-frame tick.

Files:

- `wrappers.dfy`: `Option`.
- `mode.dfy`: the `DrawNoteType` enum. It holds the enum's integer values and
  the cycle SwitchMode steps through.
- `resolver.dfy`: the tracking snapshot as plain data (`Frame`, `Source`,
  `Pointer`, `Hit`). It has the resolver as a pure function (`Resolve`) and as
  the nested loops the component runs (`ResolveDrawPosition`), proved equal. It
  also has the filtering and ordering lemmas.
- `session.dfy`: the `Slot` record and the specification functions of the slot
  list (`Grow`, `AfterTick`, `HighestActive`, `Undone`, `ActiveCount`). It has
  the class `DrawNoteCore` with the session operations, and a client method
  that plays one session through.

Points and colours (`Vector3`, `Color`) are the type parameters `P` and `C`.
The model only assigns and compares them. A slot's game object is a record
holding its index, its `activeSelf` flag, the colour baked into its material
and the position it was last moved to. `None` stands for the spot where it was
instantiated.

The object invariant `DrawNoteCore.Valid()` states four things:
- there are four swatches;
- `|drawNoteTargets| <= curDrawIndex + 1`;
- every slot's index is its position in the list;
- while drawing, the current slot, if it exists, is active, so a tick never
  moves a stroke that Undo has hidden.

All operations keep it. `Clear` needs only the four swatches and
establishes it from any slot list and index.

Three facts about the code shape the model:

- **The last matching source decides.** The `break` at line 188 leaves only the
  loop over one source's pointers, and the loop over sources goes on (lines
  152-193). So the first qualifying pointer wins within a source, and the last
  hand source with a qualifying pointer decides the position
  (`FirstQualifyingWins`, `LastMatchingSourceWins`).
- **`Clear` leaves `drawing` false** (line 266), unlike the initial state, where
  it is true (line 10).
- **One mode is read.** `TryDrawNote` reads `curMode` at line 141 and its
  parameter `instanceType` at lines 171 and 179. `Update` always passes
  `curMode` (line 115), so the model reads the one mode throughout.

## Model

| member | source | states |
|---|---|---|
| DrawNoteType.Ordinal | Assets/DrawNote/Scripts/DrawNoteCore.cs:75-89 | each mode's integer value is below the number of enum names |
| DrawNoteType.FromOrdinal | Assets/DrawNote/Scripts/DrawNoteCore.cs:75-89 | every value below the number of names belongs to the mode that has that value |
| DrawNoteType.NextMode | Assets/DrawNote/Scripts/DrawNoteCore.cs:276-282 | the mode after a switch has value (old value + 1) mod 3 |
| DrawNoteType.OrdinalInjective | Assets/DrawNote/Scripts/DrawNoteCore.cs:75-89 | two modes with the same value are the same mode |
| DrawNoteType.SwitchModeCycle | Assets/DrawNote/Scripts/DrawNoteCore.cs:276-282 | switching goes Normal to Mesh to Finger and back to Normal |
| DrawNoteType.SwitchThriceIsIdentity | Assets/DrawNote/Scripts/DrawNoteCore.cs:276-282 | three switches return every mode to itself |
| Resolver.Qualifies | Assets/DrawNote/Scripts/DrawNoteCore.cs:159-185 | a qualifying pointer is far, has a hit result with an object, and that object is named DrawPlane in Normal mode and is not in Mesh mode |
| Resolver.SourceMatch | Assets/DrawNote/Scripts/DrawNoteCore.cs:154-191 | a non-hand source contributes nothing, and a source contributes nothing exactly when it is not a hand or none of its pointers qualifies |
| Resolver.Resolve | Assets/DrawNote/Scripts/DrawNoteCore.cs:132-194 | a position needs a wrist pose; in Finger mode one is found exactly when wrist and index tip are tracked; otherwise exactly when the wrist is tracked and some source contributes |
| Resolver.FirstFrom | Assets/DrawNote/Scripts/DrawNoteCore.cs:156-190 | within one source: no result exactly when no pointer from j on qualifies |
| Resolver.FirstFromWitness | Assets/DrawNote/Scripts/DrawNoteCore.cs:156-190 | a result from j on is the hit point of a qualifying pointer with no qualifying pointer between j and it |
| Resolver.ScanSources | Assets/DrawNote/Scripts/DrawNoteCore.cs:152-193 | no result exactly when no source contributes |
| Resolver.ScanSourcesWitness | Assets/DrawNote/Scripts/DrawNoteCore.cs:152-193 | a result is the contribution of a source after which no source contributes |
| Resolver.ResolveDrawPosition | Assets/DrawNote/Scripts/DrawNoteCore.cs:129-194 | the nested loops, with `continue` on near pointers and on hits of the wrong kind and `break` out of the pointer loop only, compute exactly Resolve |
| Resolver.ScanWitness | Assets/DrawNote/Scripts/DrawNoteCore.cs:152-193 | a position found in Normal or Mesh mode is the hit point of the first qualifying pointer of a hand source, and no later source has a qualifying pointer |
| Resolver.FirstQualifyingWins | Assets/DrawNote/Scripts/DrawNoteCore.cs:186-188 | within a source the first qualifying pointer decides, whatever later pointers hit |
| Resolver.LastMatchingSourceWins | Assets/DrawNote/Scripts/DrawNoteCore.cs:152-193 | a matching source with no matching source after it decides the result, overriding every earlier source |
| Resolver.ScanFindsIffSomeQualifies | Assets/DrawNote/Scripts/DrawNoteCore.cs:132-193 | in Normal and Mesh mode a position is found if and only if a wrist is tracked and some hand source has a qualifying pointer |
| Resolver.NoWristNoPosition | Assets/DrawNote/Scripts/DrawNoteCore.cs:132-135 | without a wrist pose nothing is found, in every mode |
| Resolver.FingerUsesIndexTip | Assets/DrawNote/Scripts/DrawNoteCore.cs:141-148 | in Finger mode the position is the index-tip pose, or nothing without one, and the pointers do not matter |
| Resolver.NormalDrawsOnlyOnDrawPlane | Assets/DrawNote/Scripts/DrawNoteCore.cs:171-177 | in Normal mode every position is the hit point of a far hand pointer whose hit object is named DrawPlane |
| Resolver.MeshNeverDrawsOnDrawPlane | Assets/DrawNote/Scripts/DrawNoteCore.cs:179-185 | in Mesh mode every position is the hit point of a far hand pointer whose hit object exists and is not named DrawPlane |
| Resolver.NonQualifyingPointerIrrelevant | Assets/DrawNote/Scripts/DrawNoteCore.cs:159-168 | replacing a non-qualifying pointer (near, no hit, no hit object, wrong surface) by another such pointer never changes the result |
| Resolver.NonHandSourceIrrelevant | Assets/DrawNote/Scripts/DrawNoteCore.cs:154 | replacing a non-hand source by another non-hand source never changes the result |
| Session.NewSlot | Assets/DrawNote/Scripts/DrawNoteCore.cs:202-214 | a new slot has the list length as index, the current colour, is active and has not been moved |
| Session.Grow | Assets/DrawNote/Scripts/DrawNoteCore.cs:199-215 | the grown list has max(old length, n) slots, starts with the old list unchanged, and each new slot is active, unmoved, has its list position as index and the current colour |
| Session.AfterTick | Assets/DrawNote/Scripts/DrawNoteCore.cs:196-221 | with no position the slots are unchanged; with one the list covers idx, every other old slot is unchanged, every other new slot is fresh, only slot idx gets the position, and indices still match positions |
| Session.TickKeepsInvariant | Assets/DrawNote/Scripts/DrawNoteCore.cs:196-221 | a tick keeps the slot-list invariant, and after a hit the list holds exactly curDrawIndex + 1 slots |
| Session.ColorSwitchKeepsInvariant | Assets/DrawNote/Scripts/DrawNoteCore.cs:231-235 | moving past the current slot only when it exists, then resuming drawing, keeps the invariant |
| Session.UndoKeepsInvariant | Assets/DrawNote/Scripts/DrawNoteCore.cs:246-259 | stopping, moving past the current slot when drawing was on, and deactivating the highest active slot keeps the invariant |
| Session.HighestActive | Assets/DrawNote/Scripts/DrawNoteCore.cs:251-259 | the returned slot is active and every slot above it is inactive; nothing is returned exactly when no slot is active |
| Session.Undone | Assets/DrawNote/Scripts/DrawNoteCore.cs:251-259 | the highest active slot is deactivated and every other slot is unchanged; with no active slot the list is unchanged |
| Session.ActiveCount | Assets/DrawNote/Scripts/DrawNoteCore.cs:253 | the number of active slots is zero exactly when no slot is active |
| Session.DeactivateOneActive | Assets/DrawNote/Scripts/DrawNoteCore.cs:255-257 | deactivating one active slot lowers the active count by exactly one |
| Session.UndoDeactivatesExactlyOne | Assets/DrawNote/Scripts/DrawNoteCore.cs:251-259 | Undo's scan lowers the active count by one when a slot is active and leaves it at zero otherwise |
| Session.UndoKeepsStrokes | Assets/DrawNote/Scripts/DrawNoteCore.cs:251-259 | Undo's scan keeps the list length and every slot's index, colour and position |
| Session.NoWristTickChangesNothing | Assets/DrawNote/Scripts/DrawNoteCore.cs:132-135 | a tick without a wrist pose leaves the slot list exactly as it was |
| Session.DrawNoteCore.constructor | Assets/DrawNote/Scripts/DrawNoteCore.cs:10-61 | the initial state: drawing, Normal mode, the initial colour, index 0, no slots, four swatches |
| Session.DrawNoteCore.Update | Assets/DrawNote/Scripts/DrawNoteCore.cs:90-124 | afterwards the draw plane is enabled exactly when drawing in Normal mode; the tick runs only while drawing; the invariant is kept |
| Session.DrawNoteCore.TryDrawNote | Assets/DrawNote/Scripts/DrawNoteCore.cs:129-223 | the slot list becomes AfterTick of the old list for the resolved position, with exactly curDrawIndex + 1 slots after a hit; the session fields are unchanged |
| Session.DrawNoteCore.UpdateColor | Assets/DrawNote/Scripts/DrawNoteCore.cs:226-238 | the colour becomes swatch setColor and drawing is on; the index moves on exactly when the current slot exists; slots and mode are unchanged |
| Session.DrawNoteCore.Undo | Assets/DrawNote/Scripts/DrawNoteCore.cs:244-260 | drawing is off; the index moves on exactly when drawing was on; the slot list becomes Undone of the old list |
| Session.DrawNoteCore.Clear | Assets/DrawNote/Scripts/DrawNoteCore.cs:264-273 | from any slot list and index, drawing is off, the slot list is empty, the index is 0 and the invariant holds; mode and colour are unchanged |
| Session.DrawNoteCore.SwitchMode | Assets/DrawNote/Scripts/DrawNoteCore.cs:276-282 | the mode becomes the next one in the cycle; nothing else changes |

## Left out

- The copy of the camera transform (lines 93-97) and every call to the HUD. This covers `Start` (lines 67-73) and lines 99, 237 and 283. These are presentation side effects with no decision logic.
- The MRTK input system, `HandJointUtils` and the ray casts that produce hit results (lines 132, 143, 152-167). They become the `Frame` snapshot passed to each tick, and the ray cast itself is not modelled.
- `Instantiate`, `new Material`, the `TrailRenderer`, and the naming and parenting of new game objects (lines 202-211). These are engine calls. A new slot is the record `NewSlot`, and its material colour is the opaque colour value.
- The `Destroy` loop in `Clear` (lines 267-270). It releases engine objects. The model only empties the list.
- `Vector3` and `Color` arithmetic, which is floating point. Points and colours are opaque.
- The unused `startPoint` (line 165). The second constructor argument of `DrawNoteTargetModel` (line 213) is also left out, because that class is not part of this model. `activeSelf` is tracked as the slot's own flag instead, true on creation.
- The null check at line 217. Entries are added to `drawNoteTargets` only by the grow loop, each a freshly built `DrawNoteTargetModel` (line 213), and never set to null, so the check always holds and the model moves the slot unconditionally.
- Session.DrawNoteCore.UpdateColor: requires a swatch index from 0 to 3. Out of range, the source throws an index exception before it changes anything. The UI buttons only pass valid indices.
- Session.DrawNoteCore.UpdateColor: `curDrawIndex` is a C# `int` and could wrap past 2^31 - 1 after that many colour switches or undos. The model's index is unbounded.
- The Unity inspector can change the public fields at run time. The model changes them only through the component's operations.
- The edge-triggered write of `drawPlane.enabled` (lines 107-110, 119-122) is modelled by its resulting value only. Whether a write reaches the engine is not observable.
