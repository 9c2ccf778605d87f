/**
 * `MechanicsUI.PerspectiveExtensions.SimToPanel`: how a simulation vector
 * is shown on a WPF panel, whose coordinates are left-handed (+X right,
 * +Y down, +Z out of the screen). Each declared perspective is a signed
 * permutation of the axes; any other value of the enum throws.
 */
module Perspectives {
  import opened Vectors
  import opened Outcomes

  /** The three declared perspectives, and any other value a C# enum variable can hold. */
  datatype Perspective = FromAbove | FromFront | FromRight | Undeclared(code: int)

  /** The simulation-to-panel mapping of each perspective. */
  function SimToPanel(p: Perspective, sim: Vec3): (r: Result<Vec3>)
    ensures r.Err? <==> p.Undeclared?
    ensures r.Err? ==> r.error == ArgumentOutOfRange
    ensures r.Ok? ==> PanelToSim(p, r.value) == sim
    ensures r.Ok? ==> SqLength(r.value) == SqLength(sim)
  {
    match p
    case FromAbove => Ok(Vec3(sim.x, -sim.y, sim.z))
    case FromFront => Ok(Vec3(sim.x, -sim.z, -sim.y))
    case FromRight => Ok(Vec3(sim.y, -sim.z, sim.x))
    case Undeclared(_) => Err(ArgumentOutOfRange)
  }

  /**
   * The inverse mapping, read off the enum's documentation: for example,
   * seen from the right, panel +X is simulation +Y, panel +Y is simulation
   * -Z and panel +Z is simulation +X.
   */
  function PanelToSim(p: Perspective, panel: Vec3): Vec3
    requires !p.Undeclared?
  {
    match p
    case FromAbove => Vec3(panel.x, -panel.y, panel.z)
    case FromFront => Vec3(panel.x, -panel.z, -panel.y)
    case FromRight => Vec3(panel.z, panel.x, -panel.y)
  }

  /** The panel vector of every declared perspective maps back to the simulation vector. */
  lemma PanelRoundTrip(p: Perspective, panel: Vec3)
    requires !p.Undeclared?
    ensures SimToPanel(p, PanelToSim(p, panel)) == Ok(panel)
  {
  }

  /** Different simulation vectors are shown as different panel vectors. */
  lemma SimToPanelInjective(p: Perspective, a: Vec3, b: Vec3)
    requires !p.Undeclared?
    requires SimToPanel(p, a) == SimToPanel(p, b)
    ensures a == b
  {
    assert PanelToSim(p, SimToPanel(p, a).value) == a;
  }

  /** Looking from above twice is the identity: that mapping is its own inverse. */
  lemma FromAboveInvolution(v: Vec3)
    ensures SimToPanel(FromAbove, SimToPanel(FromAbove, v).value) == Ok(v)
  {
  }

  function Dot(a: Vec3, b: Vec3): real {
    a.x * b.x + a.y * b.y + a.z * b.z
  }

  function Cross(a: Vec3, b: Vec3): Vec3 {
    Vec3(a.y * b.z - a.z * b.y, a.z * b.x - a.x * b.z, a.x * b.y - a.y * b.x)
  }

  function Negate(a: Vec3): Vec3 {
    Vec3(-a.x, -a.y, -a.z)
  }

  /** Every declared perspective keeps angles and distances: it preserves dot products. */
  lemma PreservesDot(p: Perspective, a: Vec3, b: Vec3)
    requires !p.Undeclared?
    ensures Dot(SimToPanel(p, a).value, SimToPanel(p, b).value) == Dot(a, b)
  {
    match p
    case FromAbove =>
    case FromFront =>
    case FromRight =>
  }

  /**
   * Every declared perspective reverses orientation, turning the
   * right-handed simulation frame into the left-handed panel frame.
   */
  lemma ReversesCross(p: Perspective, a: Vec3, b: Vec3)
    requires !p.Undeclared?
    ensures Cross(SimToPanel(p, a).value, SimToPanel(p, b).value) == Negate(SimToPanel(p, Cross(a, b)).value)
  {
    match p
    case FromAbove =>
    case FromFront =>
    case FromRight =>
  }
}
