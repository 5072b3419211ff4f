/**
  The start-mode dropdown of the current front end (`initStartModeDropdown`
  in www/startMode.js): the subject starts at Random, a change event maps the
  option's string to a mode (or to null), and the subject is notified only
  when that value differs from the one it holds.
 */
module StartModeDropdown {
  import opened Wrappers
  import opened Engine

  /** The mode the subject holds before any change event. */
  const INITIAL_MODE: StartMode := Random

  /** The option string the dropdown shows for a mode. */
  function Label(mode: StartMode): string {
    match mode
    case Blank => "Blank"
    case Random => "Random"
  }

  /** The mode an option string selects; any other string selects nothing
      (the handler's `null`). */
  function Parse(value: string): (m: Option<StartMode>)
    ensures m.Some? <==> value == Label(Blank) || value == Label(Random)
    ensures m.Some? ==> Label(m.value) == value
  {
    if value == "Blank" then Some(Blank)
    else if value == "Random" then Some(Random)
    else None
  }

  /** Reading an option back gives the mode it shows, and distinct modes
      show distinct strings. */
  lemma LabelRoundTrip(mode: StartMode, other: StartMode)
    ensures Parse(Label(mode)) == Some(mode)
    ensures Label(mode) == Label(other) <==> mode == other
  {
    assert Label(Blank) != Label(Random) by {
      assert Label(Blank)[0] != Label(Random)[0];
    }
  }

  /** The outcome of one change event: the value the subject holds after
      it, and whether subscribers were notified. */
  datatype Change = Change(next: Option<StartMode>, publish: bool)

  /** The change handler: the selected value is published exactly when it
      differs from the current one. */
  function OnChange(current: Option<StartMode>, value: string): (c: Change)
    ensures c.publish <==> Parse(value) != current
    ensures c.next == Parse(value)
  {
    var next := Parse(value);
    if current != next then Change(next, true) else Change(current, false)
  }

  /** Re-selecting the mode already held notifies nobody and changes nothing. */
  lemma ReselectIsSilent(mode: StartMode)
    ensures OnChange(Some(mode), Label(mode)) == Change(Some(mode), false)
  {
    LabelRoundTrip(mode, mode);
  }

  /** The values subscribers see for a run of change events, in order. */
  function Published(current: Option<StartMode>, values: seq<string>): seq<Option<StartMode>>
    decreases |values|
  {
    if |values| == 0 then []
    else
      var c := OnChange(current, values[0]);
      (if c.publish then [c.next] else []) + Published(c.next, values[1..])
  }

  /** The subject only notifies on change: the first published value differs
      from the value held before the run, and no value is published twice in
      a row. */
  lemma {:induction false} PublishedNeverRepeats(current: Option<StartMode>, values: seq<string>)
    ensures |Published(current, values)| > 0 ==> Published(current, values)[0] != current
    ensures forall k :: 0 < k < |Published(current, values)| ==>
      Published(current, values)[k] != Published(current, values)[k - 1]
    decreases |values|
  {
    if |values| > 0 {
      var c := OnChange(current, values[0]);
      var rest := Published(c.next, values[1..]);
      PublishedNeverRepeats(c.next, values[1..]);
      if c.publish {
        assert Published(current, values) == [c.next] + rest;
      } else {
        assert Published(current, values) == rest;
      }
    }
  }

  /** The value held after a run is the last selected one, whatever was
      published on the way. */
  function Held(current: Option<StartMode>, values: seq<string>): (h: Option<StartMode>)
    ensures |values| > 0 ==> h == Parse(values[|values| - 1])
    ensures |values| == 0 ==> h == current
    decreases |values|
  {
    if |values| == 0 then current else Held(OnChange(current, values[0]).next, values[1..])
  }

  /** Subscribers end up with the subject's value: the last value published
      is the one held at the end of the run, and with nothing published the
      held value is the one the run started from. */
  lemma {:induction false} PublishedEndsWithHeld(current: Option<StartMode>, values: seq<string>)
    ensures |Published(current, values)| > 0 ==>
      Published(current, values)[|Published(current, values)| - 1] == Held(current, values)
    ensures |Published(current, values)| == 0 ==> Held(current, values) == current
    decreases |values|
  {
    if |values| > 0 {
      var c := OnChange(current, values[0]);
      PublishedEndsWithHeld(c.next, values[1..]);
      if c.publish {
        assert Published(current, values) == [c.next] + Published(c.next, values[1..]);
      }
    }
  }
}
