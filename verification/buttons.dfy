/**
  The button controller of the current front end (`initButtons` in
  buttons.js): which elements each of the Start, Stop, Resume and Reset
  handlers hides and shows, and which of the three callbacks it fires.
  The page state is a record of visibility flags plus whether the render
  loop is running.
 */
module Buttons {
  import opened Wrappers

  /** Which of the seven controlled elements are visible (not `hidden`). */
  datatype Visibility = Visibility(
    start: bool, stop: bool, resume: bool, reset: bool,
    slider: bool, dropdown: bool, generationText: bool)

  datatype Button = Start | Stop | Resume | Reset

  /** The callbacks handed to `initButtons`: start the render loop, stop it,
      and re-seed the universe. */
  datatype Callback = StartLoop | StopLoop | ResetUniverse

  /** The visibility a button's click handler leaves behind, and the
      callback it fires. */
  function Handle(v: Visibility, b: Button): (r: (Visibility, Callback))
    ensures b == Start ==>
      && r.1 == StartLoop
      && !r.0.start && !r.0.slider && !r.0.dropdown && r.0.stop && r.0.generationText
      && r.0.resume == v.resume && r.0.reset == v.reset
    ensures b == Stop ==>
      && r.1 == StopLoop
      && !r.0.stop && r.0.resume && r.0.reset
      && r.0.start == v.start && r.0.slider == v.slider && r.0.dropdown == v.dropdown
      && r.0.generationText == v.generationText
    ensures b == Resume ==>
      && r.1 == StartLoop
      && !r.0.resume && !r.0.reset && r.0.stop
      && r.0.start == v.start && r.0.slider == v.slider && r.0.dropdown == v.dropdown
      && r.0.generationText == v.generationText
    ensures b == Reset ==>
      && r.1 == ResetUniverse
      && !r.0.reset && !r.0.resume && !r.0.generationText && r.0.start && r.0.dropdown && r.0.slider
      && r.0.stop == v.stop
  {
    match b
    case Start =>
      (v.(start := false, slider := false, dropdown := false, stop := true, generationText := true), StartLoop)
    case Stop =>
      (v.(stop := false, resume := true, reset := true), StopLoop)
    case Resume =>
      (v.(resume := false, reset := false, stop := true), StartLoop)
    case Reset =>
      (v.(reset := false, resume := false, generationText := false, start := true, dropdown := true, slider := true), ResetUniverse)
  }

  /** Whether the button can be clicked: a hidden button fires no handler. */
  function Shown(v: Visibility, b: Button): bool {
    match b
    case Start => v.start
    case Stop => v.stop
    case Resume => v.resume
    case Reset => v.reset
  }

  /** The page's buttons plus whether the render loop is running. */
  datatype Session = Session(visible: Visibility, looping: bool)

  /** The effect of a callback on the render loop. */
  function Run(looping: bool, callback: Callback): bool {
    match callback
    case StartLoop => true
    case StopLoop => false
    case ResetUniverse => looping
  }

  /** A click: nothing happens on a hidden button; otherwise the handler runs
      and its callback starts or stops the loop. */
  function Press(s: Session, b: Button): (r: Option<(Session, Callback)>)
    ensures r.None? <==> !Shown(s.visible, b)
    ensures r.Some? ==> r.value.1 == Handle(s.visible, b).1 && r.value.0.visible == Handle(s.visible, b).0
  {
    if !Shown(s.visible, b) then None
    else
      var (v, callback) := Handle(s.visible, b);
      Some((Session(v, Run(s.looping, callback)), callback))
  }

  /** The state the page starts in: what the Reset handler leaves, with the
      Stop button hidden too, and no loop running. */
  const INITIAL := Session(Visibility(true, false, false, false, true, true, false), false)

  /** The invariant the handlers keep: exactly one of Start, Stop and Resume
      is visible; Reset is visible exactly with Resume; the slider and the
      dropdown are visible exactly with Start, and the generation text
      exactly without it; the loop runs exactly while Stop is visible. */
  predicate Consistent(s: Session) {
    var v := s.visible;
    && (if v.start then !v.stop && !v.resume else v.stop != v.resume)
    && v.reset == v.resume
    && v.slider == v.start && v.dropdown == v.start
    && v.generationText == !v.start
    && s.looping == v.stop
  }

  /** Every click allowed in a consistent state leads to a consistent state,
      never starts a loop that is already running and never stops one that
      is not. */
  lemma PressKeepsConsistent(s: Session, b: Button)
    requires Consistent(s)
    ensures Press(s, b).Some? ==> Consistent(Press(s, b).value.0)
    ensures Press(s, b).Some? && Press(s, b).value.1 == StartLoop ==> !s.looping
    ensures Press(s, b).Some? && Press(s, b).value.1 == StopLoop ==> s.looping
  {
  }

  /** The session after a run of clicks, hidden buttons ignored, and the
      callbacks fired on the way. */
  function Clicks(s: Session, buttons: seq<Button>): (r: (Session, seq<Callback>))
    ensures |r.1| <= |buttons|
    decreases |buttons|
  {
    if |buttons| == 0 then (s, [])
    else
      match Press(s, buttons[0])
      case None => Clicks(s, buttons[1..])
      case Some((next, callback)) =>
        var rest := Clicks(next, buttons[1..]);
        (rest.0, [callback] + rest.1)
  }

  /** Whatever is clicked from a consistent state, the buttons stay
      consistent and the loop is started only while stopped and stopped only
      while running. */
  lemma {:induction false} ClicksKeepConsistent(s: Session, buttons: seq<Button>)
    requires Consistent(s)
    ensures Consistent(Clicks(s, buttons).0)
    ensures forall k :: 0 <= k < |Clicks(s, buttons).1| ==>
      && (Clicks(s, buttons).1[k] == StartLoop ==> !LoopingBefore(s.looping, Clicks(s, buttons).1, k))
      && (Clicks(s, buttons).1[k] == StopLoop ==> LoopingBefore(s.looping, Clicks(s, buttons).1, k))
    ensures Clicks(s, buttons).0.looping == LoopingBefore(s.looping, Clicks(s, buttons).1, |Clicks(s, buttons).1|)
    decreases |buttons|
  {
    if |buttons| > 0 {
      PressKeepsConsistent(s, buttons[0]);
      match Press(s, buttons[0])
      case None =>
        ClicksKeepConsistent(s, buttons[1..]);
      case Some((next, callback)) =>
        ClicksKeepConsistent(next, buttons[1..]);
        var rest := Clicks(next, buttons[1..]).1;
        var all := [callback] + rest;
        assert Clicks(s, buttons).1 == all;
        forall k | 0 <= k <= |rest|
          ensures LoopingBefore(s.looping, all, k + 1) == LoopingBefore(next.looping, rest, k)
        {
          LoopingBeforeStep(s.looping, all, k);
        }
    }
  }

  /** Whether the loop runs after the first `k` callbacks, starting from
      `looping`. */
  function LoopingBefore(looping: bool, callbacks: seq<Callback>, k: nat): bool
    requires k <= |callbacks|
    decreases k
  {
    if k == 0 then looping else Run(LoopingBefore(looping, callbacks, k - 1), callbacks[k - 1])
  }

  lemma {:induction false} LoopingBeforeStep(looping: bool, callbacks: seq<Callback>, k: nat)
    requires 0 < |callbacks| && k < |callbacks|
    ensures LoopingBefore(looping, callbacks, k + 1)
         == LoopingBefore(Run(looping, callbacks[0]), callbacks[1..], k)
    decreases k
  {
    if k > 0 {
      LoopingBeforeStep(looping, callbacks, k - 1);
    }
  }

  /** From the initial page, every run of clicks keeps the buttons
      consistent: one of Start, Stop and Resume is on show at a time. */
  lemma ClicksFromInitial(buttons: seq<Button>)
    ensures var v := Clicks(INITIAL, buttons).0.visible;
      (v.start && !v.stop && !v.resume) || (!v.start && v.stop && !v.resume) || (!v.start && !v.stop && v.resume)
    ensures Clicks(INITIAL, buttons).0.visible.reset == Clicks(INITIAL, buttons).0.visible.resume
    ensures Clicks(INITIAL, buttons).0.looping == Clicks(INITIAL, buttons).0.visible.stop
  {
    ClicksKeepConsistent(INITIAL, buttons);
  }
}
