/** The whole page as one state and the events that drive it: the home
    button, a click, the two outcomes of the satellite load, an animation tick
    and the firing of a typing timer. */
module Session {
  import opened Hover
  import Focus
  import Typing

  /** `Click` carries the two ray tests of the handler (the satellite-bearing
      moon, then the sun); `Tick` carries the tick's hit list and whether the
      camera is within the snap distance of its home position. */
  datatype Event =
    | HomeButton
    | Click(moonHit: bool, sunHit: bool)
    | LoadSucceeded
    | LoadFailed
    | Tick(hits: seq<ObjectId>, arrived: bool)
    | TypingTimer

  datatype PageState = PageState(hover: HoverState, flags: Focus.Flags, typing: Typing.Typing)

  function Initial(headerVisible: bool, initialText: string): (p: PageState)
    ensures p.hover == Hover.Initial()
    ensures p.flags == Focus.Initial(headerVisible)
    ensures p.typing == Typing.Initial(initialText)
  {
    PageState(Hover.Initial(), Focus.Initial(headerVisible), Typing.Initial(initialText))
  }

  /** One event. A load callback or a timer with nothing pending cannot occur
      in the page; such an event leaves the state as it is. */
  function Step(p: PageState, e: Event): (r: PageState)
    requires WellFormed(p.hover)
    ensures WellFormed(r.hover)
    ensures !e.Tick? ==> r.hover == p.hover
    ensures e.Tick? ==> r.typing == p.typing
  {
    match e
    case HomeButton => p.(flags := Focus.PressHome(p.flags))
    case Click(moonHit, sunHit) =>
      p.(flags := Focus.Click(p.flags, moonHit, sunHit),
         typing := if Focus.StartsTyping(p.flags, moonHit, sunHit) then Typing.TypeText(p.typing) else p.typing)
    case LoadSucceeded =>
      if p.flags.pendingLoads > 0 then p.(flags := Focus.LoadSucceeded(p.flags)) else p
    case LoadFailed =>
      if p.flags.pendingLoads > 0 then p.(flags := Focus.LoadFailed(p.flags)) else p
    case Tick(hits, arrived) =>
      p.(hover := Hover.Next(p.hover, hits), flags := Focus.Arrive(p.flags, arrived))
    case TypingTimer =>
      if p.typing.timers > 0 then p.(typing := Typing.FireTimer(p.typing)) else p
  }

  function Run(p: PageState, es: seq<Event>): (r: PageState)
    requires WellFormed(p.hover)
    ensures WellFormed(r.hover)
    decreases |es|
  {
    if es == [] then p else Run(Step(p, es[0]), es[1..])
  }

  /** Everything the handlers keep true together; `initialText` is what the
      about label held before the first reveal. */
  predicate Invariant(p: PageState, initialText: string)
  {
    Hover.Consistent(p.hover) &&
    Focus.Invariant(p.flags) &&
    Typing.Valid(p.typing) && Typing.Revealed(p.typing, initialText)
  }

  lemma InitialInvariant(headerVisible: bool, initialText: string)
    ensures Invariant(Initial(headerVisible, initialText), initialText)
  {
    Hover.InitialIsConsistent();
  }

  lemma StepKeepsInvariant(p: PageState, e: Event, initialText: string)
    requires Invariant(p, initialText)
    ensures Invariant(Step(p, e), initialText)
  {
    match e
    case Tick(hits, _) => Hover.NextKeepsConsistent(p.hover, hits);
    case Click(moonHit, sunHit) =>
      if Focus.StartsTyping(p.flags, moonHit, sunHit) {
        Typing.TypeTextKeepsRevealed(p.typing, initialText);
      }
    case TypingTimer =>
      if p.typing.timers > 0 {
        Typing.FireTimerKeepsRevealed(p.typing, initialText);
      }
    case _ =>
  }

  /** Every sequence of events from the page's start keeps the invariant: in
      particular at most one body is enlarged, the star and moon focus never
      hold together, and the label is always its first content followed by a
      prefix of the about text. */
  lemma {:induction false} RunKeepsInvariant(p: PageState, es: seq<Event>, initialText: string)
    requires Invariant(p, initialText)
    ensures Invariant(Run(p, es), initialText)
    decreases |es|
  {
    if es != [] {
      StepKeepsInvariant(p, es[0], initialText);
      RunKeepsInvariant(Step(p, es[0]), es[1..], initialText);
    }
  }

  predicate ArrivesHome(e: Event)
  {
    e.Tick? && e.arrived
  }

  /** Once the home button has been pressed, `focusHome` stays set through
      any clicks, loads and timers until a tick reports arrival. */
  lemma {:induction false} OnlyArrivalClearsHome(p: PageState, es: seq<Event>)
    requires WellFormed(p.hover) && p.flags.focusHome
    requires forall i :: 0 <= i < |es| ==> !ArrivesHome(es[i])
    ensures Run(p, es).flags.focusHome
    decreases |es|
  {
    if es != [] {
      assert !ArrivesHome(es[0]);
      var q := Step(p, es[0]);
      forall i | 0 <= i < |es[1..]| ensures !ArrivesHome(es[1..][i]) {
        assert es[1..][i] == es[i + 1];
      }
      OnlyArrivalClearsHome(q, es[1..]);
    }
  }

  /** The focus flags are not exclusive: the home return keeps running while
      a moon or sun click sets another focus on top of it. */
  lemma HomeIsNotExclusive(headerVisible: bool, initialText: string)
    ensures Run(Initial(headerVisible, initialText), [HomeButton, Click(true, false)]).flags.focusHome
    ensures Run(Initial(headerVisible, initialText), [HomeButton, Click(true, false)]).flags.focusOnMoon
    ensures Run(Initial(headerVisible, initialText), [HomeButton, Click(false, true)]).flags.focusHome
    ensures Run(Initial(headerVisible, initialText), [HomeButton, Click(false, true)]).flags.focusOnStar
  {
  }

  /** Nothing guards a load in flight: two moon clicks before the first load
      settles request two loads, and two successes attach two models. */
  lemma TwoLoadsInFlight(headerVisible: bool, initialText: string)
    ensures Run(Initial(headerVisible, initialText), [Click(true, false), Click(true, false)]).flags.pendingLoads == 2
    ensures Run(Initial(headerVisible, initialText),
                [Click(true, false), Click(true, false), LoadSucceeded, LoadSucceeded]).flags.attached == 2
  {
  }

  /** A load that settles after the page has moved on to the sun still makes
      the satellite visible. */
  lemma LateLoadShowsSatellite(headerVisible: bool, initialText: string)
    ensures var p := Run(Initial(headerVisible, initialText), [Click(true, false), Click(false, true), LoadSucceeded]);
      p.flags.focusOnStar && p.flags.satellite == Focus.Loaded(true)
  {
  }

  /** While the reveal latch is set, a sun click changes nothing; so does a
      click that hits neither body. */
  lemma IdleClicks(p: PageState)
    requires WellFormed(p.hover)
    ensures p.flags.hasTyped ==> Step(p, Click(false, true)) == p
    ensures Step(p, Click(false, false)) == p
  {
  }

  /** A sun click from a state where the reveal has not started appends the
      first character at once and, with its timer chain played out, the whole
      about text. */
  lemma SunClickRevealsText(p: PageState, initialText: string)
    requires Invariant(p, initialText) && !p.flags.hasTyped && p.typing.currentChar == 0
    ensures Step(p, Click(false, true)).flags.hasTyped
    ensures Typing.Drain(Step(p, Click(false, true)).typing).text == initialText + Typing.ABOUT_TEXT
  {
    Typing.FreshRevealShowsAll(p.typing, initialText);
  }

  /** No event resets the typing effect: the counter never goes back and the
      label only grows; once the whole text is shown, nothing changes either. */
  lemma StepNeverResetsTyping(p: PageState, e: Event)
    requires WellFormed(p.hover)
    ensures Step(p, e).typing.currentChar >= p.typing.currentChar
    ensures p.typing.text <= Step(p, e).typing.text
    ensures p.typing.currentChar == |Typing.ABOUT_TEXT| ==>
      Step(p, e).typing.currentChar == p.typing.currentChar && Step(p, e).typing.text == p.typing.text
  {
  }

  /** Over any run of events the counter never goes back and the label only
      grows. */
  lemma {:induction false} RunNeverResetsTyping(p: PageState, es: seq<Event>)
    requires WellFormed(p.hover)
    ensures Run(p, es).typing.currentChar >= p.typing.currentChar
    ensures p.typing.text <= Run(p, es).typing.text
    decreases |es|
  {
    if es != [] {
      StepNeverResetsTyping(p, es[0]);
      RunNeverResetsTyping(Step(p, es[0]), es[1..]);
    }
  }

  /** Once the whole about text is shown, no run of events, later sun clicks
      included, changes the label or the counter. */
  lemma {:induction false} FinishedRevealStaysFinished(p: PageState, es: seq<Event>)
    requires WellFormed(p.hover) && p.typing.currentChar == |Typing.ABOUT_TEXT|
    ensures Run(p, es).typing.text == p.typing.text
    ensures Run(p, es).typing.currentChar == p.typing.currentChar
    decreases |es|
  {
    if es != [] {
      StepNeverResetsTyping(p, es[0]);
      FinishedRevealStaysFinished(Step(p, es[0]), es[1..]);
    }
  }

  /** Pressing home during a reveal clears the latch without stopping the
      running timer chain, so the next sun click appends the next character and
      arms a second timer: two chains then run together. */
  lemma InterruptedRevealRunsTwoChains(headerVisible: bool, initialText: string)
    ensures var p := Run(Initial(headerVisible, initialText), [Click(false, true), HomeButton, Click(false, true)]);
      p.typing.currentChar == 2 && p.typing.timers == 2 &&
      p.typing.text == initialText + Typing.ABOUT_TEXT[..2]
  {
  }
}
