/** The drawing modes of DrawNoteCore (the DrawNoteType enum) and the cycle
    that SwitchMode walks through them. */
module DrawNoteType {

  /** Normal draws only on the draw plane, Mesh only on other surfaces,
      Finger from the tip of the index finger. */
  datatype Mode = Normal | Mesh | Finger

  /** The number of names the enum declares. */
  const ModeCount: nat := 3

  /** The integer value of an enum member, in declaration order. */
  function Ordinal(m: Mode): (n: nat)
    ensures n < ModeCount
  {
    match m
    case Normal => 0
    case Mesh => 1
    case Finger => 2
  }

  /** The enum member with a given integer value. */
  function FromOrdinal(n: nat): (m: Mode)
    requires n < ModeCount
    ensures Ordinal(m) == n
  {
    if n == 0 then Normal else if n == 1 then Mesh else Finger
  }

  /** The mode after one SwitchMode: the next enum member, wrapping to the
      first once the value reaches the number of names. */
  function NextMode(m: Mode): (r: Mode)
    ensures Ordinal(r) == (Ordinal(m) + 1) % ModeCount
  {
    var n := Ordinal(m) + 1;
    FromOrdinal(if n >= ModeCount then 0 else n)
  }

  /** Distinct modes have distinct values, so a mode is determined by its value. */
  lemma OrdinalInjective(m: Mode, m': Mode)
    requires Ordinal(m) == Ordinal(m')
    ensures m == m'
  {
  }

  /** SwitchMode cycles Normal, Mesh, Finger and back to Normal. */
  lemma SwitchModeCycle()
    ensures NextMode(Normal) == Mesh
    ensures NextMode(Mesh) == Finger
    ensures NextMode(Finger) == Normal
  {
  }

  /** Three switches bring every mode back to itself. */
  lemma SwitchThriceIsIdentity(m: Mode)
    ensures NextMode(NextMode(NextMode(m))) == m
  {
    OrdinalInjective(NextMode(NextMode(NextMode(m))), m);
  }
}
