# Solar-system page: hover, focus and typing state

A model of the interactive state of the solar-system landing page
(`script.js`): a sun and five orbiting moons drawn with a WebGL scene
library. Three pieces of the page's module-level state are modelled and
proved:

- **Hover highlighting.** Each animation tick the ray caster returns the bodies
  under the mouse, nearest first. The body at the head of that list becomes
  `hoveredObject` and is drawn at scale 1.05 with emissive colour `0xffff66`.
  The body it replaces goes back to scale 1 and loses its emissive colour,
  unless it is the sun, which keeps it. Bodies are ids 0..5: the sun, then
  `moons[0..4]`.
- **Focus and click flags.** These are `focusOnStar`, `focusHome`,
  `focusOnMoon`, `hasTyped`, the header's visibility and the satellite handle
  (null, or loaded and shown or hidden). Four things drive them: the home
  button, a click, the satellite loader's success or error callback, and
  the snap on a tick once the camera is back home.
- **Typing effect.** A counter `currentChar` into the about text, and the
  label's content. Each call appends one character and arms a 40 ms timer
  that calls again.

Layout:

- `hover.dfy` (module `Hover`): the hover step as a function (`Next`) over ticks
  (`Run`), the invariant it keeps (`Consistent`), and the search `hits.find`
  makes (`FindHit`).
- `focus.dfy` (module `Focus`): one function per flag transition and the flag
  invariant.
- `typing.dfy` (module `Typing`): `typeText`, a timer firing, the whole timer
  chain (`Drain`), and what the label shows.
- `session.dfy` (module `Session`): the whole page state, one `Step` per event,
  runs of events, and the lemmas that relate several events.
- `page.dfy` (module `SolarPage`): class `Page`. Its fields are the page's
  variables and it has one method per handler. Each method is written
  assignment by assignment as the handler is. Each event handler is proved to
  do exactly `Session.Step` for its event and to keep `Session.Invariant`; the
  helpers `TypeText`, `Demote` and `Highlight` are proved against the
  `Typing` and `Hover` functions they carry out.

What the code does, where it differs from what one might expect:

- The focus modes are meant as exclusive modes, but the flags are **not**
  kept mutually exclusive; the model follows the code. A moon or sun click never
  clears `focusHome`, so the return home keeps running underneath a new focus
  (`Session.HomeIsNotExclusive`). Only the star and moon focus exclude each
  other.
- The satellite load is requested whenever the satellite is still null. A
  load already in flight does not stop a second request. Two quick moon clicks
  therefore request two loads, and when both succeed two satellite models are
  attached to the camera (`Session.TwoLoadsInFlight`).
- The success callback makes the satellite visible, although its comment says
  "Start hidden". A load that settles after the user has moved on to the sun
  shows it anyway (`Session.LateLoadShowsSatellite`).
- `currentChar` and the label are never reset by any event
  (`Session.RunNeverResetsTyping`). The home button clears `hasTyped`, so a
  later sun click calls `typeText` again. Once the reveal has finished, that
  call and everything after it append nothing
  (`Session.FinishedRevealStaysFinished`). If home is pressed while the reveal
  is still running, the timer chain keeps going, and the next sun click
  appends the next character and arms a second timer: two chains then run
  together, each appending the next character of the text, so the text still
  comes out in order, only faster (`Session.InterruptedRevealRunsTwoChains`,
  `Typing.DrainRevealsRest`).

Inputs the model takes as given:

- The ray-cast results are inputs: a hit list per tick, and the two booleans
  a click tests.
- A press of the home button also reaches the window's click listener, since
  neither listener stops the event. So in the page every `HomeButton` event is
  followed at once by a `Click` whose ray tests are taken at the button's
  place on screen; if the sun lies behind the button, that click sets the star
  focus, the latch and the header again on top of `focusHome`. The model lets
  events come in any order, so these pairs are among the runs every lemma
  covers (`Session.HomeIsNotExclusive` shows the home-then-sun pair).
- The camera's distance test at the end of the return home is an input
  boolean, `arrived`.
- The header's first visibility and the label's first content come from the
  page's markup. They are parameters of `Page`'s constructor.

## Model

| member | source | states |
|---|---|---|
| `Hover.Initial` | script.js:67-110 | as built: nothing hovered, every scale 1, the sun's emissive `0xffcc33`, the moons' emissive none |
| `Hover.Next` | script.js:162-180 | after a hover step `hoveredObject` is the first hit, or null when there are no hits; hovering the body already hovered changes nothing; a demoted body gets scale 1 and loses its emissive unless it is the sun; a promoted body, the sun included, gets scale 1.05 and emissive `0xffff66`; every other body keeps its scale and tint |
| `Hover.Run` | script.js:145-180 | over many ticks, the hovered body is decided by the last tick's hits alone |
| `Hover.FindHit` | script.js:164 | the search `hits.find` makes: it finds the hovered body exactly when the body is among the hits, at its first position |
| `Hover.InitialIsConsistent` | script.js:67-110 | the scene as built satisfies the highlighting invariant |
| `Hover.NextKeepsConsistent` | script.js:164-180 | one hover step keeps the invariant: exactly the hovered body is at 1.05, exactly the hovered moon is tinted, and the sun is tinted or glows its own colour |
| `Hover.ConsistentEnlargesOnlyHovered` | script.js:164-180 | under the invariant, at most one body is enlarged, and a body is enlarged exactly when it is the hovered one |
| `Hover.RunKeepsConsistent` | script.js:164-180 | from a consistent state (the scene as built is one, by `Hover.InitialIsConsistent`), after any number of ticks at most one body is enlarged, and it is exactly `hoveredObject` |
| `Hover.SunStaysTinted` | script.js:165-178 | once the sun carries the highlight tint, no later hover step removes it, because a demoted sun keeps its emissive |
| `Hover.HoveredSunStaysTinted` | script.js:173-178 | a tick whose nearest hit is the sun leaves the sun tinted through every later tick |
| `Focus.Initial` | script.js:17-26 | the page starts with every focus flag and `hasTyped` false, and with no satellite |
| `Focus.Hide` | script.js:130 | hiding the satellite keeps whether it is loaded and makes a loaded one invisible |
| `Focus.PressHome` | script.js:124-131 | the home button sets `focusHome`; clears `focusOnStar`, `focusOnMoon` and `hasTyped`; hides the header; hides a loaded satellite |
| `Focus.Click` | script.js:225-278 | a hit on moon 3 takes priority: it sets `focusOnMoon`, clears `focusOnStar` and `hasTyped`, hides the header, and requests a load when the satellite is null or shows it when loaded. Otherwise a sun hit with `hasTyped` false sets `focusOnStar` and `hasTyped`, clears `focusOnMoon`, shows the header and hides the satellite. Any other click changes nothing. No click touches `focusHome` |
| `Focus.LoadSucceeded` | script.js:247-258 | a successful load makes the new model the satellite, attached to the camera and visible; nothing else changes |
| `Focus.LoadFailed` | script.js:259 | a failed load only settles the request; the satellite stays as it was (null stays null) |
| `Focus.Arrive` | script.js:198-208 | the snap clears `focusHome` exactly when it was set and the camera has arrived; nothing else changes |
| `Typing.Initial` | script.js:134-135 | the counter starts at 0 with no timer armed |
| `Typing.TypeText` | script.js:136-142 | below the text's length, a call appends exactly `aboutText[currentChar]`, increments the counter and arms one timer; at the length it does nothing; the counter never passes the length |
| `Typing.FireTimer` | script.js:140 | a timer firing calls `typeText` once more, consuming the timer it came from |
| `Typing.Drain` | script.js:138-141 | playing out the timer chain ends with no timer armed and the counter still within the text |
| `Typing.TypeTextKeepsRevealed` | script.js:136-142 | after a call the label is still its first content followed by the text's revealed prefix |
| `Typing.FireTimerKeepsRevealed` | script.js:140 | the same holds after a timer fires |
| `Typing.DrainRevealsRest` | script.js:136-142 | once a reveal is under way, the timer chain appends the rest of the text in order and stops at its end |
| `Typing.FinishedRevealAppendsNothing` | script.js:136-142 | with the counter at the end, another reveal and its timers append nothing |
| `Typing.FreshRevealShowsAll` | script.js:136-142 | a reveal started from the beginning shows the whole about text after the label's first content |
| `Session.Initial` | script.js:17-26 | the page's starting state, composed from the three parts |
| `Session.Step` | script.js:124-278 | an event other than a tick leaves the hover state alone; a tick leaves the typing state alone |
| `Session.Run` | script.js:124-278 | a run of events keeps the hover state well formed |
| `Session.InitialInvariant` | script.js:17-26 | the page invariant holds at the start |
| `Session.StepKeepsInvariant` | script.js:124-278 | every event keeps the invariant. The hover part is as above. `focusOnStar` equals `hasTyped`. The star and moon focus never hold together. The header is shown under the star focus and hidden under the moon focus. A satellite is referenced only once one is attached. The counter stays within the text and the label is its first content plus the revealed prefix |
| `Session.RunKeepsInvariant` | script.js:124-278 | every sequence of events from such a state keeps the invariant |
| `Session.OnlyArrivalClearsHome` | script.js:198-208 | once set, `focusHome` survives every click, load and timer, and every tick that has not arrived; only the snap clears it |
| `Session.HomeIsNotExclusive` | script.js:229-234 | after the home button, a moon click leaves `focusHome` and `focusOnMoon` both set, and a sun click leaves `focusHome` and `focusOnStar` both set |
| `Session.TwoLoadsInFlight` | script.js:241-259 | two moon clicks before a load settles request two loads, and two successes attach two models |
| `Session.LateLoadShowsSatellite` | script.js:257-258 | a load that succeeds after a sun click leaves the satellite visible under the star focus |
| `Session.IdleClicks` | script.js:269-277 | a sun click while `hasTyped` is set changes nothing, and neither does a click that hits nothing |
| `Session.StepNeverResetsTyping` | script.js:134-142 | no event moves the counter back or shortens the label, and once the counter is at the end no event changes either |
| `Session.RunNeverResetsTyping` | script.js:134-142 | over any run of events the counter never goes back and the label only grows |
| `Session.FinishedRevealStaysFinished` | script.js:124-142 | once the whole text is shown, no run of events, later sun clicks after a home press included, changes the label or the counter |
| `Session.InterruptedRevealRunsTwoChains` | script.js:124-142 | a sun click, home, and a second sun click leave the counter at 2 with two timers armed and the label showing the first two characters |
| `Session.SunClickRevealsText` | script.js:269-277 | a first sun click sets the latch, and with its timer chain it reveals the whole about text |
| `SolarPage.Page.constructor` | script.js:17-26 | builds the page state `Session.Initial` describes, with the invariant |
| `SolarPage.Page.PressHome` | script.js:124-131 | the home handler performs the home-button step and keeps the invariant |
| `SolarPage.Page.Click` | script.js:225-278 | the click handler performs the click step, calling `typeText` in the sun branch, keeps the invariant, and reports whether it requested a load |
| `SolarPage.Page.LoadSucceeded` | script.js:247-258 | the success callback performs the load-success step |
| `SolarPage.Page.LoadFailed` | script.js:259 | the error callback performs the load-failure step |
| `SolarPage.Page.TypeText` | script.js:136-142 | `typeText` on the fields: exactly the typing step, and it reports whether it armed a timer |
| `SolarPage.Page.FireTimer` | script.js:140 | a timer firing performs the timer step and keeps the invariant |
| `SolarPage.Page.RevealAll` | script.js:138-141 | repeated timer firings until none is left; a reveal under way ends with the whole rest of the text appended |
| `SolarPage.Page.Demote` | script.js:165-166 | restores scale 1 and clears the emissive except on the sun |
| `SolarPage.Page.Highlight` | script.js:162-180 | the hover block, run step by step, leaves exactly the state `Hover.Next` specifies |
| `SolarPage.Page.Tick` | script.js:198-208 | a tick runs the hover block, then the snap, and keeps the invariant |

## Left out

- Scene, mesh, material, light, renderer and camera construction (script.js:1-121). This is library set-up with no logic. Only the initial scales and emissive colours are kept.
- Ray casting (script.js:162-163, 226-229, 269): the hit list and the two click tests are inputs.
- Orbital motion and the sun's spin (script.js:150-158), and the `Math.random` sizes and angles (script.js:96-110). These are floating-point geometry with no effect on the modelled state.
- Camera motion: every `lerp`, `lookAt` and `controls.update` of the moon follow, the star zoom and the return home (script.js:181-208), and `moonTargetPosition` (script.js:23, 237-238), which each moon click writes and nothing reads. Only the snap's distance test is kept, as the input `arrived`. So the model says nothing about convergence of the return home.
- The resize and mousemove handlers (script.js:214-223): viewport arithmetic that does not touch the modelled state.
- The loader itself (script.js:242-256), the satellite's scale and camera-space position, and `console.error`: only success and failure are kept, as events.
- Real timer scheduling and the per-frame callback: a timer's firing and each tick are events, and the model takes them one at a time in any order.
- `Session.Step`: a load callback with no load in flight, or a timer firing with none armed, cannot happen in the page. The step function leaves the state unchanged for them, and the class methods require something to be pending.
- Aliasing of mesh objects: bodies are indices into per-body scale and emissive sequences, not references.
- The satellite models no longer referenced after a second load stay attached to the camera. The model counts them (`attached`) but does not track their visibility.
