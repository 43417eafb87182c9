/** The page's module-level state and its event handlers, written as the
    handlers change it: one field per variable the page reassigns, one method
    per handler. Each handler is proved to perform exactly the event step of
    `Session` and to keep the page invariant. */
module SolarPage {
  import opened Hover
  import Focus
  import Typing
  import Session

  class Page {
    // hover highlighting
    var hovered: Option<ObjectId>
    var scale: seq<real>
    var emissive: seq<int>
    // focus and click flags
    var focusOnStar: bool
    var focusHome: bool
    var focusOnMoon: bool
    var hasTyped: bool
    var headerVisible: bool
    var satellite: Focus.Satellite
    var pendingLoads: nat
    var attached: nat
    // typing effect
    var currentChar: nat
    var text: string
    var timers: nat
    /** What the about label held before any reveal. */
    const initialText: string

    function State(): Session.PageState
      reads this
    {
      Session.PageState(
        HoverState(hovered, scale, emissive),
        Focus.Flags(focusOnStar, focusHome, focusOnMoon, hasTyped, headerVisible, satellite, pendingLoads, attached),
        Typing.Typing(currentChar, text, timers))
    }

    ghost predicate Valid()
      reads this
    {
      Session.Invariant(State(), initialText)
    }

    /** The page as loaded; the header's first visibility and the label's first
        content come from the markup. */
    constructor (headerShown: bool, aboutLabel: string)
      ensures Valid() && initialText == aboutLabel
      ensures State() == Session.Initial(headerShown, aboutLabel)
    {
      var h := Hover.Initial();
      hovered, scale, emissive := h.hovered, h.scale, h.emissive;
      focusOnStar, focusHome, focusOnMoon, hasTyped := false, false, false, false;
      headerVisible := headerShown;
      satellite, pendingLoads, attached := Focus.Absent, 0, 0;
      currentChar, text, timers := 0, aboutLabel, 0;
      initialText := aboutLabel;
      new;
      Session.InitialInvariant(headerShown, aboutLabel);
    }

    /** The home button handler. */
    method PressHome()
      requires Valid()
      modifies this
      ensures Valid()
      ensures State() == Session.Step(old(State()), Session.HomeButton)
    {
      ghost var before := State();
      focusOnStar := false;
      focusHome := true;
      focusOnMoon := false;
      hasTyped := false;
      headerVisible := false;
      if satellite.Loaded? {
        satellite := Focus.Loaded(false);
      }
      Session.StepKeepsInvariant(before, Session.HomeButton, initialText);
    }

    /** `typeText`: append the next character and arm the timer for the
        following one, or do nothing once the whole text is shown. */
    method TypeText() returns (scheduled: bool)
      modifies this
      ensures scheduled == (old(currentChar) < |Typing.ABOUT_TEXT|)
      ensures State() == old(State()).(typing := Typing.TypeText(old(State()).typing))
    {
      scheduled := currentChar < |Typing.ABOUT_TEXT|;
      if scheduled {
        text := text + [Typing.ABOUT_TEXT[currentChar]];
        currentChar := currentChar + 1;
        timers := timers + 1;
      }
    }

    /** An armed typing timer fires. */
    method FireTimer()
      requires Valid() && timers > 0
      modifies this
      ensures Valid()
      ensures State() == Session.Step(old(State()), Session.TypingTimer)
    {
      ghost var before := State();
      timers := timers - 1;
      var _ := TypeText();
      Session.StepKeepsInvariant(before, Session.TypingTimer, initialText);
    }

    /** The chain of typing timeouts played out as repeated calls until no
        timer is left; a reveal that has been started ends with the whole text
        shown. */
    method RevealAll()
      requires Valid()
      modifies this
      ensures Valid() && timers == 0
      ensures State() == old(State()).(typing := Typing.Drain(old(State()).typing))
      ensures old(timers) > 0 ==>
        currentChar == |Typing.ABOUT_TEXT| && text == old(text) + Typing.ABOUT_TEXT[old(currentChar)..]
    {
      ghost var start := State();
      if timers > 0 {
        Typing.DrainRevealsRest(start.typing);
      }
      while timers > 0
        invariant Valid()
        invariant Typing.Drain(State().typing) == Typing.Drain(start.typing)
        invariant State().hover == start.hover && State().flags == start.flags
        decreases |Typing.ABOUT_TEXT| - currentChar, timers
      {
        FireTimer();
      }
    }

    /** The click handler: the satellite-bearing moon is checked first and wins;
        otherwise a sun hit acts while the reveal latch is clear. Returns
        whether a satellite load was requested. */
    method Click(moonHit: bool, sunHit: bool) returns (loadRequested: bool)
      requires Valid()
      modifies this
      ensures Valid()
      ensures State() == Session.Step(old(State()), Session.Click(moonHit, sunHit))
      ensures loadRequested == Focus.RequestsLoad(old(State()).flags, moonHit)
    {
      ghost var before := State();
      loadRequested := false;
      if moonHit {
        focusOnMoon := true;
        focusOnStar := false;
        hasTyped := false;
        headerVisible := false;
        if satellite.Absent? {
          pendingLoads := pendingLoads + 1;
          loadRequested := true;
        } else {
          satellite := Focus.Loaded(true);
        }
        assert State().flags == Focus.Click(before.flags, moonHit, sunHit);
        Session.StepKeepsInvariant(before, Session.Click(moonHit, sunHit), initialText);
        return;
      }
      if sunHit && !hasTyped {
        focusOnStar := true;
        hasTyped := true;
        focusOnMoon := false;
        headerVisible := true;
        if satellite.Loaded? {
          satellite := Focus.Loaded(false);
        }
        var _ := TypeText();
      }
      assert State().flags == Focus.Click(before.flags, moonHit, sunHit);
      Session.StepKeepsInvariant(before, Session.Click(moonHit, sunHit), initialText);
    }

    /** The loader's success callback. */
    method LoadSucceeded()
      requires Valid() && pendingLoads > 0
      modifies this
      ensures Valid()
      ensures State() == Session.Step(old(State()), Session.LoadSucceeded)
    {
      ghost var before := State();
      pendingLoads := pendingLoads - 1;
      attached := attached + 1;
      satellite := Focus.Loaded(true);
      Session.StepKeepsInvariant(before, Session.LoadSucceeded, initialText);
    }

    /** The loader's error callback: the error is only logged. */
    method LoadFailed()
      requires Valid() && pendingLoads > 0
      modifies this
      ensures Valid()
      ensures State() == Session.Step(old(State()), Session.LoadFailed)
    {
      ghost var before := State();
      pendingLoads := pendingLoads - 1;
      Session.StepKeepsInvariant(before, Session.LoadFailed, initialText);
    }

    /** Restore the hovered body's default look; the sun keeps its emissive. */
    method Demote()
      requires hovered.Some? && |scale| == OBJECT_COUNT && |emissive| == OBJECT_COUNT
      modifies this`scale, this`emissive
      ensures scale == old(scale)[hovered.value := DEFAULT_SCALE]
      ensures emissive == if hovered.value == SUN then old(emissive) else old(emissive)[hovered.value := NO_EMISSIVE]
    {
      scale := scale[hovered.value := DEFAULT_SCALE];
      if hovered.value != SUN {
        emissive := emissive[hovered.value := NO_EMISSIVE];
      }
    }

    function HoverView(): HoverState
      reads this
    {
      HoverState(hovered, scale, emissive)
    }

    /** The hover-highlighting block of the animation loop. */
    method Highlight(hits: seq<ObjectId>)
      requires WellFormed(HoverView())
      modifies this`hovered, this`scale, this`emissive
      ensures HoverView() == Hover.Next(old(HoverView()), hits)
    {
      ghost var before := HoverView();
      if hovered.Some? {
        var present, _ := FindHit(hits, hovered.value);
        if !present {
          Demote();
          hovered := None;
        }
      }
      if |hits| > 0 {
        var obj := hits[0];
        if Some(obj) != hovered {
          if hovered.Some? {
            Demote();
          }
          hovered := Some(obj);
          scale := scale[obj := HOVER_SCALE];
          emissive := emissive[obj := HIGHLIGHT_EMISSIVE];
        }
      }
      ghost var expected := Hover.Next(before, hits);
      assert |scale| == OBJECT_COUNT && |emissive| == OBJECT_COUNT;
      forall i | 0 <= i < OBJECT_COUNT
        ensures scale[i] == expected.scale[i] && emissive[i] == expected.emissive[i]
      {
      }
    }

    /** One animation tick as far as the model goes: the hover highlighting
        for the tick's hits, then the snap of the return home when the camera
        has `arrived`. */
    method Tick(hits: seq<ObjectId>, arrived: bool)
      requires Valid()
      modifies this
      ensures Valid()
      ensures State() == Session.Step(old(State()), Session.Tick(hits, arrived))
    {
      ghost var before := State();
      Highlight(hits);
      if focusHome {
        if arrived {
          focusHome := false;
        }
      }
      Session.StepKeepsInvariant(before, Session.Tick(hits, arrived), initialText);
    }
  }
}
