/** The typing effect of the about label: a counter into a fixed text and the
    label's content, one character appended per call, each call that appends
    arming a 40 ms timer that calls again. */
module Typing {

  const ABOUT_TEXT: string := "I'm a software developer interested in space research and data science."

  /** `currentChar` is the next position of the text to reveal, `text` the
      label's content, `timers` the timers armed and not yet fired. */
  datatype Typing = Typing(currentChar: nat, text: string, timers: nat)

  function Initial(text: string): (t: Typing)
    ensures t.currentChar == 0 && t.text == text && t.timers == 0
  {
    Typing(0, text, 0)
  }

  /** The counter never passes the end of the text, and a timer is only armed
      after a character has been appended. */
  predicate Valid(t: Typing)
  {
    t.currentChar <= |ABOUT_TEXT| && (t.currentChar == 0 ==> t.timers == 0)
  }

  /** The label holds what it first held followed by the revealed prefix. */
  predicate Revealed(t: Typing, initialText: string)
  {
    t.currentChar <= |ABOUT_TEXT| && t.text == initialText + ABOUT_TEXT[..t.currentChar]
  }

  /** One call of `typeText`. */
  function TypeText(t: Typing): (r: Typing)
    ensures t.currentChar < |ABOUT_TEXT| ==>
      r.text == t.text + [ABOUT_TEXT[t.currentChar]] &&
      r.currentChar == t.currentChar + 1 && r.timers == t.timers + 1
    ensures t.currentChar >= |ABOUT_TEXT| ==> r == t
    ensures Valid(t) ==> Valid(r)
  {
    if t.currentChar < |ABOUT_TEXT| then
      Typing(t.currentChar + 1, t.text + [ABOUT_TEXT[t.currentChar]], t.timers + 1)
    else
      t
  }

  /** An armed timer fires and calls `typeText` again. */
  function FireTimer(t: Typing): (r: Typing)
    requires t.timers > 0
    ensures Valid(t) ==> Valid(r)
    ensures t.currentChar < |ABOUT_TEXT| ==>
      r.text == t.text + [ABOUT_TEXT[t.currentChar]] &&
      r.currentChar == t.currentChar + 1 && r.timers == t.timers
    ensures t.currentChar >= |ABOUT_TEXT| ==> r == t.(timers := t.timers - 1)
  {
    TypeText(t.(timers := t.timers - 1))
  }

  /** Let every armed timer fire until none is left: the chain of timeouts
      played out as repeated calls. */
  function Drain(t: Typing): (r: Typing)
    ensures r.timers == 0
    ensures Valid(t) ==> Valid(r)
    decreases |ABOUT_TEXT| - t.currentChar, t.timers
  {
    if t.timers == 0 then t else Drain(FireTimer(t))
  }

  lemma TypeTextKeepsRevealed(t: Typing, initialText: string)
    requires Revealed(t, initialText)
    ensures Revealed(TypeText(t), initialText)
  {
    if t.currentChar < |ABOUT_TEXT| {
      AppendNextOfPrefix(initialText, ABOUT_TEXT, t.currentChar);
    }
  }

  lemma FireTimerKeepsRevealed(t: Typing, initialText: string)
    requires Revealed(t, initialText) && t.timers > 0
    ensures Revealed(FireTimer(t), initialText)
  {
    TypeTextKeepsRevealed(t.(timers := t.timers - 1), initialText);
  }

  /** Once the reveal has been started, the timer chain appends the whole rest
      of the text, one character per call, in order, and then stops. */
  lemma {:induction false} DrainRevealsRest(t: Typing)
    requires t.currentChar <= |ABOUT_TEXT| && t.timers > 0
    ensures Drain(t).currentChar == |ABOUT_TEXT|
    ensures Drain(t).text == t.text + ABOUT_TEXT[t.currentChar..]
    decreases |ABOUT_TEXT| - t.currentChar, t.timers
  {
    var u := FireTimer(t);
    assert Drain(t) == Drain(u);
    if t.currentChar < |ABOUT_TEXT| {
      DrainRevealsRest(u);
      AppendNextOfRest(t.text, ABOUT_TEXT, t.currentChar);
    } else {
      AppendEmptyRest(t.text, ABOUT_TEXT);
      if u.timers > 0 {
        DrainRevealsRest(u);
      }
    }
  }

  /** The counter and the label are never reset, so once the whole text is
      shown a new reveal appends nothing. */
  lemma {:induction false} FinishedRevealAppendsNothing(t: Typing)
    requires t.currentChar == |ABOUT_TEXT|
    ensures TypeText(t) == t
    ensures Drain(t).text == t.text && Drain(t).currentChar == t.currentChar
    decreases t.timers
  {
    if t.timers > 0 {
      FinishedRevealAppendsNothing(FireTimer(t));
    }
  }

  lemma AppendNextOfPrefix<T>(a: seq<T>, s: seq<T>, k: nat)
    requires k < |s|
    ensures a + s[..k] + [s[k]] == a + s[..k + 1]
  {
    assert s[..k] + [s[k]] == s[..k + 1];
  }

  lemma AppendNextOfRest<T>(a: seq<T>, s: seq<T>, k: nat)
    requires k < |s|
    ensures a + [s[k]] + s[k + 1..] == a + s[k..]
  {
    assert [s[k]] + s[k + 1..] == s[k..];
  }

  lemma AppendEmptyRest<T>(a: seq<T>, s: seq<T>)
    ensures a + s[|s|..] == a
  {
    assert s[|s|..] == [];
  }

  lemma AppendHeadAndRest<T>(a: seq<T>, s: seq<T>)
    requires |s| > 0
    ensures a + [s[0]] + s[1..] == a + s
  {
    assert [s[0]] + s[1..] == s;
  }

  /** Started from the beginning, one call and its timer chain leave the label
      holding its first content followed by the whole about text. */
  lemma FreshRevealShowsAll(t: Typing, initialText: string)
    requires Revealed(t, initialText) && t.currentChar == 0
    ensures Drain(TypeText(t)).text == initialText + ABOUT_TEXT
  {
    assert t.text == initialText;
    DrainRevealsRest(TypeText(t));
    AppendHeadAndRest(initialText, ABOUT_TEXT);
  }
}
