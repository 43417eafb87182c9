/** Hover highlighting of the pickable bodies: the sun and its five moons.
    Each animation tick the ray caster hands over the bodies under the mouse,
    nearest first; the body at the head of that list is the hovered one and is
    drawn enlarged with a highlight tint. */
module Hover {

  /** The bodies given to the ray caster, in order: the sun, then moons 0..4. */
  const OBJECT_COUNT: int := 6
  type ObjectId = i: int | 0 <= i < OBJECT_COUNT
  const SUN: ObjectId := 0

  const DEFAULT_SCALE: real := 1.0
  const HOVER_SCALE: real := 1.05

  /** Emissive colours as 24-bit RGB values. */
  const NO_EMISSIVE: int := 0x000000
  const SUN_EMISSIVE: int := 0xffcc33
  const HIGHLIGHT_EMISSIVE: int := 0xffff66

  datatype Option<T> = None | Some(value: T)

  /** `hovered` is the body currently highlighted (null in the page), `scale`
      and `emissive` hold every body's uniform scale and emissive colour. */
  datatype HoverState = HoverState(hovered: Option<ObjectId>, scale: seq<real>, emissive: seq<int>)

  predicate WellFormed(s: HoverState)
  {
    |s.scale| == OBJECT_COUNT && |s.emissive| == OBJECT_COUNT
  }

  /** The scene as built: nothing hovered, every scale 1, the sun glowing in
      its own colour and the moons without emissive light. */
  function Initial(): (s: HoverState)
    ensures WellFormed(s) && s.hovered == None
    ensures forall i: ObjectId :: s.scale[i] == DEFAULT_SCALE
    ensures s.emissive[SUN] == SUN_EMISSIVE
    ensures forall i: ObjectId :: i != SUN ==> s.emissive[i] == NO_EMISSIVE
  {
    HoverState(None, seq(OBJECT_COUNT, _ => DEFAULT_SCALE),
               seq(OBJECT_COUNT, i => if i == SUN then SUN_EMISSIVE else NO_EMISSIVE))
  }

  /** The previously hovered body is no longer at the head of the hits. */
  predicate Demotes(hovered: Option<ObjectId>, hits: seq<ObjectId>)
  {
    hovered.Some? && (hits == [] || hits[0] != hovered.value)
  }

  /** The head of the hits is a body that was not already hovered. */
  predicate Promotes(hovered: Option<ObjectId>, hits: seq<ObjectId>)
  {
    hits != [] && hovered != Some(hits[0])
  }

  /** The effect of one hover step, body by body. */
  function Next(s: HoverState, hits: seq<ObjectId>): (r: HoverState)
    requires WellFormed(s)
    ensures WellFormed(r)
    // the hovered body is always the nearest hit, or none
    ensures r.hovered == (if hits == [] then None else Some(hits[0]))
    // hovering the same body again changes nothing
    ensures hits != [] && s.hovered == Some(hits[0]) ==> r == s
    // a demoted body is shrunk back and loses its tint, unless it is the sun
    ensures Demotes(s.hovered, hits) ==>
      r.scale[s.hovered.value] == DEFAULT_SCALE &&
      r.emissive[s.hovered.value] == (if s.hovered.value == SUN then s.emissive[SUN] else NO_EMISSIVE)
    // a promoted body, the sun included, is enlarged and tinted
    ensures Promotes(s.hovered, hits) ==>
      r.scale[hits[0]] == HOVER_SCALE && r.emissive[hits[0]] == HIGHLIGHT_EMISSIVE
    // every other body keeps its scale and tint
    ensures forall i: ObjectId :: Some(i) != s.hovered && Some(i) != r.hovered ==>
      r.scale[i] == s.scale[i] && r.emissive[i] == s.emissive[i]
  {
    var demote := Demotes(s.hovered, hits);
    var promote := Promotes(s.hovered, hits);
    if !demote && !promote then s
    else
      HoverState(
        if hits == [] then None else Some(hits[0]),
        seq(OBJECT_COUNT, i requires 0 <= i < OBJECT_COUNT =>
          if promote && i == hits[0] then HOVER_SCALE
          else if demote && i == s.hovered.value then DEFAULT_SCALE
          else s.scale[i]),
        seq(OBJECT_COUNT, i requires 0 <= i < OBJECT_COUNT =>
          if promote && i == hits[0] then HIGHLIGHT_EMISSIVE
          else if demote && i == s.hovered.value && i != SUN then NO_EMISSIVE
          else s.emissive[i]))
  }

  /** What the highlighting keeps true: exactly the hovered body is enlarged,
      exactly the hovered moon is tinted, and the sun shows either its own
      glow or the highlight (the highlight whenever it is hovered). */
  predicate Consistent(s: HoverState)
  {
    WellFormed(s) &&
    (forall i: ObjectId :: s.scale[i] == (if s.hovered == Some(i) then HOVER_SCALE else DEFAULT_SCALE)) &&
    (forall i: ObjectId :: i != SUN ==>
      s.emissive[i] == (if s.hovered == Some(i) then HIGHLIGHT_EMISSIVE else NO_EMISSIVE)) &&
    (s.emissive[SUN] == SUN_EMISSIVE || s.emissive[SUN] == HIGHLIGHT_EMISSIVE) &&
    (s.hovered == Some(SUN) ==> s.emissive[SUN] == HIGHLIGHT_EMISSIVE)
  }

  predicate AtMostOneEnlarged(s: HoverState)
    requires WellFormed(s)
  {
    forall i: ObjectId, j: ObjectId :: s.scale[i] == HOVER_SCALE && s.scale[j] == HOVER_SCALE ==> i == j
  }

  /** Hover steps over a sequence of animation ticks, one hit list per tick. */
  function Run(s: HoverState, ticks: seq<seq<ObjectId>>): (r: HoverState)
    requires WellFormed(s)
    ensures WellFormed(r)
    // only the last tick decides what is hovered
    ensures ticks != [] ==>
      r.hovered == (if ticks[|ticks| - 1] == [] then None else Some(ticks[|ticks| - 1][0]))
    ensures ticks == [] ==> r == s
    decreases |ticks|
  {
    if ticks == [] then s else Run(Next(s, ticks[0]), ticks[1..])
  }

  lemma NextKeepsConsistent(s: HoverState, hits: seq<ObjectId>)
    requires Consistent(s)
    ensures Consistent(Next(s, hits))
  {
  }

  lemma ConsistentEnlargesOnlyHovered(s: HoverState)
    requires Consistent(s)
    ensures AtMostOneEnlarged(s)
    ensures forall i: ObjectId :: s.scale[i] == HOVER_SCALE <==> s.hovered == Some(i)
  {
  }

  /** From the scene as built, after any number of ticks, at most one body is
      enlarged, and it is exactly the hovered one. */
  lemma {:induction false} RunKeepsConsistent(s: HoverState, ticks: seq<seq<ObjectId>>)
    requires Consistent(s)
    ensures Consistent(Run(s, ticks))
    ensures AtMostOneEnlarged(Run(s, ticks))
    ensures forall i: ObjectId :: Run(s, ticks).scale[i] == HOVER_SCALE <==> Run(s, ticks).hovered == Some(i)
    decreases |ticks|
  {
    if ticks == [] {
      ConsistentEnlargesOnlyHovered(s);
    } else {
      NextKeepsConsistent(s, ticks[0]);
      RunKeepsConsistent(Next(s, ticks[0]), ticks[1..]);
    }
  }

  lemma InitialIsConsistent()
    ensures Consistent(Initial())
  {
  }

  /** Once the sun has been tinted by a hover it never loses the tint: a
      demoted sun keeps its emissive colour. */
  lemma {:induction false} SunStaysTinted(s: HoverState, ticks: seq<seq<ObjectId>>)
    requires WellFormed(s) && s.emissive[SUN] == HIGHLIGHT_EMISSIVE
    ensures Run(s, ticks).emissive[SUN] == HIGHLIGHT_EMISSIVE
    decreases |ticks|
  {
    if ticks != [] {
      SunStaysTinted(Next(s, ticks[0]), ticks[1..]);
    }
  }

  /** A tick whose hits start with the sun leaves the sun tinted for good. */
  lemma {:induction false} HoveredSunStaysTinted(s: HoverState, hits: seq<ObjectId>, later: seq<seq<ObjectId>>)
    requires WellFormed(s) && hits != [] && hits[0] == SUN
    requires Consistent(s)
    ensures Run(s, [hits] + later).emissive[SUN] == HIGHLIGHT_EMISSIVE
  {
    assert ([hits] + later)[1..] == later;
    SunStaysTinted(Next(s, hits), later);
  }

  /** The search `hits.find(...)` makes for the hovered body: the first
      position in the hit list holding `o`, if there is one. */
  method FindHit(hits: seq<ObjectId>, o: ObjectId) returns (found: bool, index: nat)
    ensures found <==> o in hits
    ensures found ==> index < |hits| && hits[index] == o
    ensures found ==> forall k :: 0 <= k < index ==> hits[k] != o
  {
    index := 0;
    while index < |hits|
      invariant 0 <= index <= |hits|
      invariant forall k :: 0 <= k < index ==> hits[k] != o
    {
      if hits[index] == o {
        return true, index;
      }
      index := index + 1;
    }
    return false, 0;
  }
}
