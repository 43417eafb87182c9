/** The page's focus and click flags: which automated camera motion runs,
    whether the reveal of the about text has been started, whether the header
    panel is shown, and the satellite model that is loaded on demand and
    parented to the camera. */
module Focus {

  /** The satellite handle: still null, or loaded with its visibility. */
  datatype Satellite = Absent | Loaded(visible: bool)

  /** `pendingLoads` counts the model loads requested and not yet settled;
      `attached` counts the satellite models parented to the camera. */
  datatype Flags = Flags(
    focusOnStar: bool,
    focusHome: bool,
    focusOnMoon: bool,
    hasTyped: bool,
    headerVisible: bool,
    satellite: Satellite,
    pendingLoads: nat,
    attached: nat)

  /** The flags as the page starts; how the header is first shown is up to the
      page's markup, so it is a parameter. */
  function Initial(headerVisible: bool): (f: Flags)
    ensures !f.focusOnStar && !f.focusHome && !f.focusOnMoon && !f.hasTyped
    ensures f.headerVisible == headerVisible
    ensures f.satellite == Absent && f.pendingLoads == 0 && f.attached == 0
  {
    Flags(false, false, false, false, headerVisible, Absent, 0, 0)
  }

  /** Hide the satellite if one is loaded; a null handle stays null. */
  function Hide(s: Satellite): (r: Satellite)
    ensures r.Loaded? == s.Loaded?
    ensures r.Loaded? ==> !r.visible
  {
    if s.Loaded? then Loaded(false) else s
  }

  /** The home button: start the return home and drop every other focus. */
  function PressHome(f: Flags): (r: Flags)
    ensures r.focusHome && !r.focusOnStar && !r.focusOnMoon && !r.hasTyped
    ensures !r.headerVisible
    ensures r.satellite == Hide(f.satellite)
    ensures r.pendingLoads == f.pendingLoads && r.attached == f.attached
  {
    f.(focusOnStar := false, focusHome := true, focusOnMoon := false, hasTyped := false,
       headerVisible := false, satellite := Hide(f.satellite))
  }

  /** A click on the satellite-bearing moon requests a model load exactly when
      no satellite is loaded yet; a load already in flight does not stop it. */
  predicate RequestsLoad(f: Flags, moonHit: bool)
  {
    moonHit && f.satellite.Absent?
  }

  /** A click starts the text reveal when it misses the moon, hits the sun and
      the reveal has not been started since the last reset. */
  predicate StartsTyping(f: Flags, moonHit: bool, sunHit: bool)
  {
    !moonHit && sunHit && !f.hasTyped
  }

  /** The click handler. The moon is checked first and, when hit, the sun branch
      is skipped. Neither branch touches `focusHome`. */
  function Click(f: Flags, moonHit: bool, sunHit: bool): (r: Flags)
    ensures r.focusHome == f.focusHome && r.attached == f.attached
    ensures moonHit ==>
      r.focusOnMoon && !r.focusOnStar && !r.hasTyped && !r.headerVisible
    ensures moonHit && f.satellite.Absent? ==>
      r.satellite == Absent && r.pendingLoads == f.pendingLoads + 1
    ensures moonHit && f.satellite.Loaded? ==>
      r.satellite == Loaded(true) && r.pendingLoads == f.pendingLoads
    ensures StartsTyping(f, moonHit, sunHit) ==>
      r.focusOnStar && r.hasTyped && !r.focusOnMoon && r.headerVisible &&
      r.satellite == Hide(f.satellite) && r.pendingLoads == f.pendingLoads
    ensures !moonHit && !StartsTyping(f, moonHit, sunHit) ==> r == f
    ensures r.pendingLoads == f.pendingLoads + (if RequestsLoad(f, moonHit) then 1 else 0)
  {
    if moonHit then
      f.(focusOnMoon := true, focusOnStar := false, hasTyped := false, headerVisible := false,
         satellite := if f.satellite.Absent? then Absent else Loaded(true),
         pendingLoads := if f.satellite.Absent? then f.pendingLoads + 1 else f.pendingLoads)
    else if sunHit && !f.hasTyped then
      f.(focusOnStar := true, hasTyped := true, focusOnMoon := false, headerVisible := true,
         satellite := Hide(f.satellite))
    else
      f
  }

  /** The loader's success callback: the new model becomes the satellite,
      parented to the camera and visible (despite the comment "Start hidden"). */
  function LoadSucceeded(f: Flags): (r: Flags)
    requires f.pendingLoads > 0
    ensures r.satellite == Loaded(true)
    ensures r.pendingLoads == f.pendingLoads - 1 && r.attached == f.attached + 1
    ensures r.(satellite := f.satellite, pendingLoads := f.pendingLoads, attached := f.attached) == f
  {
    f.(satellite := Loaded(true), pendingLoads := f.pendingLoads - 1, attached := f.attached + 1)
  }

  /** The loader's error callback only logs: the satellite stays as it is, so
      a later moon click retries while it is still null. */
  function LoadFailed(f: Flags): (r: Flags)
    requires f.pendingLoads > 0
    ensures r.pendingLoads == f.pendingLoads - 1
    ensures r.(pendingLoads := f.pendingLoads) == f
  {
    f.(pendingLoads := f.pendingLoads - 1)
  }

  /** The snap at the end of the return home: when the camera is close enough
      to its home position (`arrived`), `focusHome` is cleared. */
  function Arrive(f: Flags, arrived: bool): (r: Flags)
    ensures r.focusHome == (f.focusHome && !arrived)
    ensures r.(focusHome := f.focusHome) == f
  {
    if f.focusHome && arrived then f.(focusHome := false) else f
  }

  /** Facts every handler keeps: the star focus and the typing latch rise and
      fall together, the star and moon focus exclude each other, the header is
      shown under the star focus and hidden under the moon focus, and a
      satellite is referenced only once one has been attached. Nothing here
      excludes `focusHome` from the other two focus flags. */
  predicate Invariant(f: Flags)
  {
    f.focusOnStar == f.hasTyped &&
    !(f.focusOnStar && f.focusOnMoon) &&
    (f.focusOnStar ==> f.headerVisible) &&
    (f.focusOnMoon ==> !f.headerVisible) &&
    (f.satellite.Loaded? <==> f.attached > 0)
  }
}
