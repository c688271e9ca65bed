/**
 * The kiosk screen's state machine: the car-number keypad and the switches
 * between the home, number-entry and grid views.
 *
 * React keeps the five state fields per render and every handler computes
 * the next render's values from the current ones, so each handler is a
 * function from one State to the next.
 */
module Kiosk {
  import opened Wrappers
  import opened Slots

  /** The values `view` takes: 'home', 'input', 'input-exit', 'grid', 'grid-exit'. */
  datatype View = Home | Input | InputExit | ParkGrid | ExitGrid

  datatype State = State(
    carNumber: string,
    alertMessage: Option<string>,
    mode: string,
    view: View,
    selectedCarNumber: Option<string>)

  const MaxDigits: nat := 4
  const EnterAction: string := "입차"
  const ExitAction: string := "출차"
  const NeedFourDigits: string := "차량번호 4자리를 입력해주세요."

  /** The `useState` initial values. */
  const Initial: State := State("", None, EnterAction, Home, None)

  predicate IsCommand(key: string)
  {
    key == "clear" || key == "delete" || key == "confirm"
  }

  /** `handleNumericKeyClick(key)`. Any key that is not a command is appended. */
  function NumericKey(s: State, key: string): (t: State)
    ensures t.mode == s.mode
    ensures key == "clear" ==> t == s.(carNumber := "")
    ensures key == "delete" ==> t == s.(carNumber := t.carNumber)
    ensures key == "delete" && s.carNumber == "" ==> t.carNumber == ""
    ensures key == "delete" && s.carNumber != "" ==> t.carNumber + [s.carNumber[|s.carNumber| - 1]] == s.carNumber
    ensures key == "confirm" && |s.carNumber| != MaxDigits ==> t == s.(alertMessage := Some(NeedFourDigits))
    ensures key == "confirm" && |s.carNumber| == MaxDigits && s.view == Input ==>
      t == s.(selectedCarNumber := Some(s.carNumber), carNumber := "", view := ParkGrid)
    ensures key == "confirm" && |s.carNumber| == MaxDigits && s.view != Input ==> t == s
    ensures !IsCommand(key) && |s.carNumber| < MaxDigits ==> t == s.(carNumber := s.carNumber + key)
    ensures !IsCommand(key) && |s.carNumber| >= MaxDigits ==> t == s
  {
    if key == "clear" then
      s.(carNumber := "")
    else if key == "delete" then
      s.(carNumber := if s.carNumber == [] then [] else s.carNumber[..|s.carNumber| - 1])
    else if key == "confirm" then
      if |s.carNumber| != MaxDigits then
        s.(alertMessage := Some(NeedFourDigits))
      else if s.view == Input then
        s.(selectedCarNumber := Some(s.carNumber), carNumber := "", view := ParkGrid)
      else
        s
    else if |s.carNumber| >= MaxDigits then
      s
    else
      s.(carNumber := s.carNumber + key)
  }

  /** The keypad's own wiring: the confirm key only calls the handler while it is active (four digits). */
  function KeypadPress(s: State, key: string): (t: State)
    ensures key == "confirm" && |s.carNumber| != MaxDigits ==> t == s
    ensures key != "confirm" || |s.carNumber| == MaxDigits ==> t == NumericKey(s, key)
  {
    if key == "confirm" && |s.carNumber| != MaxDigits then s else NumericKey(s, key)
  }

  /** `handleLargeButtonClick(action)`: the mode is set to whatever the button passes. */
  function LargeButton(s: State, action: string): (t: State)
    ensures t.mode == action && t.alertMessage == s.alertMessage
    ensures action == EnterAction ==>
      t.view == Input && t.selectedCarNumber == None && t.carNumber == s.carNumber
    ensures action == ExitAction ==>
      t.view == ExitGrid && t.carNumber == "" && t.selectedCarNumber == s.selectedCarNumber
    ensures action != EnterAction && action != ExitAction ==> t == s.(mode := action)
  {
    var s1 := s.(mode := action);
    if action == EnterAction then s1.(view := Input, selectedCarNumber := None)
    else if action == ExitAction then s1.(view := ExitGrid, carNumber := "")
    else s1
  }

  /** The grid's `onBack`. */
  function Back(s: State): (t: State)
    ensures t.view == Home
    ensures t.(view := s.view) == s
  {
    s.(view := Home)
  }

  /**
   * The grid's `onDone(message)`: show the message when it is truthy (a
   * non-empty string), then return home. The 900 ms delay is not modelled.
   */
  function Done(s: State, message: Option<string>): (t: State)
    ensures t.view == Home && t.carNumber == s.carNumber && t.mode == s.mode
    ensures t.selectedCarNumber == s.selectedCarNumber
    ensures t.alertMessage == if message.Some? && message.value != "" then message else s.alertMessage
  {
    var s1 := if message.Some? && message.value != "" then s.(alertMessage := message) else s;
    s1.(view := Home)
  }

  /** The alert's `onClose`. */
  function CloseAlert(s: State): (t: State)
    ensures t.alertMessage == None && t.(alertMessage := s.alertMessage) == s
  {
    s.(alertMessage := None)
  }

  // ------------------------------------------------------ sequences of clicks

  datatype Event =
    | Press(key: string)
    | Button(action: string)
    | BackClick
    | Finished(message: Option<string>)
    | Dismiss

  function Step(s: State, e: Event): (t: State)
  {
    match e
    case Press(key) => KeypadPress(s, key)
    case Button(action) => LargeButton(s, action)
    case BackClick => Back(s)
    case Finished(message) => Done(s, message)
    case Dismiss => CloseAlert(s)
  }

  function Run(s: State, es: seq<Event>): (t: State)
    decreases |es|
  {
    if es == [] then s else Run(Step(s, es[0]), es[1..])
  }

  /** The keys the keypad renders: '0' to '9', delete and confirm. */
  predicate KeypadKey(key: string)
  {
    (|key| == 1 && IsDigit(key[0])) || key == "delete" || key == "confirm"
  }

  ghost predicate KeypadOnly(es: seq<Event>)
  {
    forall k :: 0 <= k < |es| && es[k].Press? ==> KeypadKey(es[k].key)
  }

  /** The entered number is at most four characters, all of them digits. */
  ghost predicate WellFormed(s: State)
  {
    |s.carNumber| <= MaxDigits && AllDigits(s.carNumber)
  }

  lemma StepKeepsWellFormed(s: State, e: Event)
    requires WellFormed(s)
    requires e.Press? ==> KeypadKey(e.key)
    ensures WellFormed(Step(s, e))
  {
    match e
    case Press(key) =>
      if key == "delete" && s.carNumber != "" {
        var t := NumericKey(s, key);
        assert t.carNumber == s.carNumber[..|s.carNumber| - 1];
      }
    case Button(action) =>
    case BackClick =>
    case Finished(message) =>
    case Dismiss =>
  }

  /** Keypad presses and any other clicks keep the entered number to at most four digits. */
  lemma {:induction false} RunKeepsWellFormed(s: State, es: seq<Event>)
    requires WellFormed(s) && KeypadOnly(es)
    ensures WellFormed(Run(s, es))
    decreases |es|
  {
    if es != [] {
      StepKeepsWellFormed(s, es[0]);
      assert KeypadOnly(es[1..]) by {
        forall k | 0 <= k < |es[1..]| && es[1..][k].Press? ensures KeypadKey(es[1..][k].key) {
          assert es[1..][k] == es[k + 1];
        }
      }
      RunKeepsWellFormed(Step(s, es[0]), es[1..]);
    }
  }

  /** From the start screen, whatever is clicked, the number shown is at most four digits. */
  lemma FromInitial(es: seq<Event>)
    requires KeypadOnly(es)
    ensures |Run(Initial, es).carNumber| <= MaxDigits
    ensures AllDigits(Run(Initial, es).carNumber)
  {
    RunKeepsWellFormed(Initial, es);
  }

  /** Deleting right after typing a digit gives back the state before the digit. */
  lemma DeleteUndoesDigit(s: State, d: char)
    requires |s.carNumber| < MaxDigits
    ensures NumericKey(NumericKey(s, [d]), "delete") == s
  {
    var t := NumericKey(s, [d]);
    assert t.carNumber[..|t.carNumber| - 1] == s.carNumber;
  }

  /** One keypad press per digit of ds. */
  function TypeDigits(ds: string): (es: seq<Event>)
    ensures |es| == |ds|
  {
    if ds == [] then [] else [Press([ds[0]])] + TypeDigits(ds[1..])
  }

  /** Typing digits that fit within the cap appends them. */
  lemma {:induction false} TypingAppends(s: State, ds: string)
    requires |s.carNumber| + |ds| <= MaxDigits
    ensures Run(s, TypeDigits(ds)) == s.(carNumber := s.carNumber + ds)
    decreases |ds|
  {
    if ds != [] {
      var t := Step(s, Press([ds[0]]));
      assert t == s.(carNumber := s.carNumber + [ds[0]]);
      assert (TypeDigits(ds))[1..] == TypeDigits(ds[1..]);
      TypingAppends(t, ds[1..]);
      assert s.carNumber + [ds[0]] + ds[1..] == s.carNumber + ds;
    }
  }

  /**
   * The park flow: press the enter button, type four digits and confirm;
   * the grid opens for exactly that number and the display is cleared.
   */
  lemma EnterFlow(s: State, ds: string)
    requires |ds| == MaxDigits && s.carNumber == ""
    ensures
      var t := Run(s, [Button(EnterAction)] + TypeDigits(ds) + [Press("confirm")]);
      t.view == ParkGrid && t.selectedCarNumber == Some(ds) && t.carNumber == "" &&
      t.mode == EnterAction && t.alertMessage == s.alertMessage
  {
    var s1 := Step(s, Button(EnterAction));
    assert Run(s, [Button(EnterAction)]) == s1;
    RunAppend(s, [Button(EnterAction)], TypeDigits(ds) + [Press("confirm")]);
    RunAppend(s1, TypeDigits(ds), [Press("confirm")]);
    assert [Button(EnterAction)] + TypeDigits(ds) + [Press("confirm")] == [Button(EnterAction)] + (TypeDigits(ds) + [Press("confirm")]);
    TypingAppends(s1, ds);
    var s2 := s1.(carNumber := ds);
    assert s1.carNumber + ds == ds;
    assert Run(s2, [Press("confirm")]) == Step(s2, Press("confirm"));
  }

  lemma {:induction false} RunAppend(s: State, a: seq<Event>, b: seq<Event>)
    ensures Run(s, a + b) == Run(Run(s, a), b)
    decreases |a|
  {
    if a == [] {
      assert a + b == b;
    } else {
      assert (a + b)[0] == a[0] && (a + b)[1..] == a[1..] + b;
      RunAppend(Step(s, a[0]), a[1..], b);
    }
  }
}
