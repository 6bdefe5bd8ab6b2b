/** The user-interface manager's logic: the range check on the settings form,
    and the test on/off state with the control buttons that follow it, driven
    by the buttons, clicks in the test zone and the keyboard. */
module Ui {
  import opened Common
  import opened Config

  // ---------------------------------------------------------------------
  // Settings validation

  /** The four detection settings the form edits. */
  datatype Settings = Settings(duplicateWindow: int, burstWindow: int, burstThreshold: int, intervalThreshold: int)

  /** The form's fields, in the order they are checked. */
  datatype Field = DuplicateWindowField | BurstWindowField | BurstThresholdField | IntervalThresholdField

  const Fields: seq<Field> := [DuplicateWindowField, BurstWindowField, BurstThresholdField, IntervalThresholdField]

  function Value(s: Settings, f: Field): int
  {
    match f
    case DuplicateWindowField => s.duplicateWindow
    case BurstWindowField => s.burstWindow
    case BurstThresholdField => s.burstThreshold
    case IntervalThresholdField => s.intervalThreshold
  }

  /** Inclusive bounds of each field. */
  function Lo(f: Field): int
  {
    match f
    case DuplicateWindowField => 10
    case BurstWindowField => 100
    case BurstThresholdField => 2
    case IntervalThresholdField => 10
  }

  function Hi(f: Field): int
  {
    match f
    case DuplicateWindowField => 200
    case BurstWindowField => 1000
    case BurstThresholdField => 10
    case IntervalThresholdField => 100
  }

  function Message(f: Field): string
  {
    match f
    case DuplicateWindowField => "重複點擊檢測窗口必須在 10-200ms 之間"
    case BurstWindowField => "連擊檢測窗口必須在 100-1000ms 之間"
    case BurstThresholdField => "連擊次數閾值必須在 2-10 之間"
    case IntervalThresholdField => "異常間隔閾值必須在 10-100ms 之間"
  }

  predicate InRange(s: Settings, f: Field)
  {
    Lo(f) <= Value(s, f) <= Hi(f)
  }

  /** All four ranges, written out. */
  predicate SettingsInRange(s: Settings)
  {
    && 10 <= s.duplicateWindow <= 200
    && 100 <= s.burstWindow <= 1000
    && 2 <= s.burstThreshold <= 10
    && 10 <= s.intervalThreshold <= 100
  }

  /** The fields among `fs` that are out of range, in the order of `fs`. */
  function Failing(s: Settings, fs: seq<Field>): seq<Field>
  {
    if fs == [] then []
    else Failing(s, fs[..|fs| - 1]) + (if InRange(s, fs[|fs| - 1]) then [] else [fs[|fs| - 1]])
  }

  /** The failing fields are exactly the out-of-range ones, each listed once,
      in the order of `fs`. */
  lemma {:induction false} FailingSpec(s: Settings, fs: seq<Field>)
    ensures forall f :: f in Failing(s, fs) <==> f in fs && !InRange(s, f)
    ensures |Failing(s, fs)| <= |fs|
    ensures Failing(s, fs) == [] <==> forall i :: 0 <= i < |fs| ==> InRange(s, fs[i])
  {
    if fs != [] {
      var init := fs[..|fs| - 1];
      FailingSpec(s, init);
      assert fs == init + [fs[|fs| - 1]];
    }
  }

  /** Each message names its own field. */
  lemma MessagesDistinct(f: Field, g: Field)
    ensures Message(f) == Message(g) <==> f == g
  {
  }

  /** The messages of a list of fields, in the same order. */
  function Messages(fs: seq<Field>): (ms: seq<string>)
    ensures |ms| == |fs|
    ensures forall i :: 0 <= i < |fs| ==> ms[i] == Message(fs[i])
  {
    if fs == [] then [] else Messages(fs[..|fs| - 1]) + [Message(fs[|fs| - 1])]
  }

  /** `errors.push(message)` when a check fails. */
  function AddIf(errors: seq<string>, bad: bool, message: string): seq<string>
  {
    if bad then errors + [message] else errors
  }

  /** The messages of the four checks, in the order the form runs them. */
  function ErrorsOf(s: Settings): seq<string>
  {
    var e1 := AddIf([], !InRange(s, DuplicateWindowField), Message(DuplicateWindowField));
    var e2 := AddIf(e1, !InRange(s, BurstWindowField), Message(BurstWindowField));
    var e3 := AddIf(e2, !InRange(s, BurstThresholdField), Message(BurstThresholdField));
    AddIf(e3, !InRange(s, IntervalThresholdField), Message(IntervalThresholdField))
  }

  /** Checking one more field adds its message exactly when it is out of range. */
  lemma FailingSnoc(s: Settings, fs: seq<Field>, f: Field)
    ensures Messages(Failing(s, fs + [f])) == AddIf(Messages(Failing(s, fs)), !InRange(s, f), Message(f))
  {
    assert (fs + [f])[..|fs|] == fs;
    var failing := Failing(s, fs);
    if !InRange(s, f) {
      assert (failing + [f])[..|failing|] == failing;
    }
  }

  /** The form's messages are those of the failing fields, in field order. */
  lemma ErrorsAreFailingMessages(s: Settings)
    ensures ErrorsOf(s) == Messages(Failing(s, Fields))
    ensures ErrorsOf(s) == [] <==> SettingsInRange(s)
  {
    var f1: seq<Field> := [DuplicateWindowField];
    var f2 := f1 + [BurstWindowField];
    var f3 := f2 + [BurstThresholdField];
    assert [] + [DuplicateWindowField] == f1;
    assert Fields == f3 + [IntervalThresholdField];
    FailingSnoc(s, [], DuplicateWindowField);
    FailingSnoc(s, f1, BurstWindowField);
    FailingSnoc(s, f2, BurstThresholdField);
    FailingSnoc(s, f3, IntervalThresholdField);
    ValidIffNoFailingField(s);
  }

  /** `validateSettings`: one message per failing field, in field order; valid
      exactly when there is none. */
  method ValidateSettings(s: Settings) returns (ok: bool, errors: seq<string>)
    ensures errors == Messages(Failing(s, Fields))
    ensures ok <==> errors == []
    ensures ok <==> SettingsInRange(s)
  {
    errors := [];
    if s.duplicateWindow < 10 || s.duplicateWindow > 200 {
      errors := errors + [Message(DuplicateWindowField)];
    }
    ghost var e1 := errors;
    assert e1 == AddIf([], !InRange(s, DuplicateWindowField), Message(DuplicateWindowField));
    if s.burstWindow < 100 || s.burstWindow > 1000 {
      errors := errors + [Message(BurstWindowField)];
    }
    ghost var e2 := errors;
    assert e2 == AddIf(e1, !InRange(s, BurstWindowField), Message(BurstWindowField));
    if s.burstThreshold < 2 || s.burstThreshold > 10 {
      errors := errors + [Message(BurstThresholdField)];
    }
    ghost var e3 := errors;
    assert e3 == AddIf(e2, !InRange(s, BurstThresholdField), Message(BurstThresholdField));
    if s.intervalThreshold < 10 || s.intervalThreshold > 100 {
      errors := errors + [Message(IntervalThresholdField)];
    }
    assert errors == AddIf(e3, !InRange(s, IntervalThresholdField), Message(IntervalThresholdField));
    ok := |errors| == 0;
    ErrorsAreFailingMessages(s);
  }

  /** `Failing` over the four fields, unrolled. */
  lemma FailingSteps(s: Settings)
    ensures Failing(s, Fields)
      == (if InRange(s, DuplicateWindowField) then [] else [DuplicateWindowField])
       + (if InRange(s, BurstWindowField) then [] else [BurstWindowField])
       + (if InRange(s, BurstThresholdField) then [] else [BurstThresholdField])
       + (if InRange(s, IntervalThresholdField) then [] else [IntervalThresholdField])
  {
    var f1 := [DuplicateWindowField];
    var f2 := f1 + [BurstWindowField];
    var f3 := f2 + [BurstThresholdField];
    assert Fields == f3 + [IntervalThresholdField];
    assert f1[..0] == [];
    assert Failing(s, f1) == (if InRange(s, DuplicateWindowField) then [] else [DuplicateWindowField]);
    assert f2[..1] == f1;
    assert Failing(s, f2) == Failing(s, f1) + (if InRange(s, BurstWindowField) then [] else [BurstWindowField]);
    assert f3[..2] == f2;
    assert Failing(s, f3) == Failing(s, f2) + (if InRange(s, BurstThresholdField) then [] else [BurstThresholdField]);
    assert Fields[..3] == f3;
  }

  /** A form is accepted exactly when every field is in range. */
  lemma ValidIffNoFailingField(s: Settings)
    ensures SettingsInRange(s) <==> Failing(s, Fields) == []
    ensures SettingsInRange(s) <==> forall f :: InRange(s, f)
  {
    FailingSteps(s);
    if SettingsInRange(s) {
      forall f ensures InRange(s, f) {
        match f
        case DuplicateWindowField =>
        case BurstWindowField =>
        case BurstThresholdField =>
        case IntervalThresholdField =>
      }
    }
  }

  /** The default detection thresholds pass the form's check. */
  lemma DefaultsAreValid()
    ensures SettingsInRange(Settings(DefaultDetection.duplicateWindow, DefaultDetection.burstWindow,
                                     DefaultDetection.burstThreshold, DefaultDetection.intervalThreshold))
  {
  }

  // ---------------------------------------------------------------------
  // Test state and control buttons

  /** What a click in the test zone reports: the time from the caller's clock,
      the position relative to the target's box, the button and modifier keys. */
  datatype ClickData = ClickData(timestamp: int, x: int, y: int, button: int, ctrlKey: bool, shiftKey: bool, altKey: bool)

  /** A keydown event: `key`, `code`, the target element's tag name and Ctrl. */
  datatype KeyEvent = KeyEvent(key: string, code: string, targetTag: string, ctrlKey: bool)

  class UIManager {
    var isTestActive: bool
    var startDisabled: bool
    var stopDisabled: bool
    var resetDisabled: bool

    /** The buttons show the test state: start is off while active, stop is
        off while inactive, reset is always on. */
    predicate ButtonsMatch()
      reads this
    {
      startDisabled == isTestActive && stopDisabled == !isTestActive && !resetDisabled
    }

    /** Starts inactive; the buttons keep whatever state the page gave them. */
    constructor(startDisabled0: bool, stopDisabled0: bool, resetDisabled0: bool)
      ensures !isTestActive
      ensures startDisabled == startDisabled0 && stopDisabled == stopDisabled0 && resetDisabled == resetDisabled0
    {
      isTestActive := false;
      startDisabled := startDisabled0;
      stopDisabled := stopDisabled0;
      resetDisabled := resetDisabled0;
    }

    method UpdateControlButtons()
      modifies this
      ensures isTestActive == old(isTestActive)
      ensures ButtonsMatch()
    {
      startDisabled := isTestActive;
      stopDisabled := !isTestActive;
      resetDisabled := false;
    }

    method StartTest()
      modifies this
      ensures isTestActive && ButtonsMatch()
    {
      isTestActive := true;
      UpdateControlButtons();
    }

    method StopTest()
      modifies this
      ensures !isTestActive && ButtonsMatch()
    {
      isTestActive := false;
      UpdateControlButtons();
    }

    method ResetTest()
      modifies this
      ensures !isTestActive && ButtonsMatch()
    {
      isTestActive := false;
      UpdateControlButtons();
    }

    /** Reports a click only while a test is active. */
    method HandleClick(now: int, clientX: int, clientY: int, rectLeft: int, rectTop: int,
                       button: int, ctrlKey: bool, shiftKey: bool, altKey: bool) returns (emitted: Option<ClickData>)
      ensures emitted.None? <==> !isTestActive
      ensures emitted.Some? ==> emitted.value == ClickData(now, clientX - rectLeft, clientY - rectTop, button, ctrlKey, shiftKey, altKey)
    {
      if !isTestActive {
        return None;
      }
      emitted := Some(ClickData(now, clientX - rectLeft, clientY - rectTop, button, ctrlKey, shiftKey, altKey));
    }

    /** Space outside a text input toggles the test; Ctrl+R, checked after it,
        resets. Escape only closes the settings dialog, which holds no state here. */
    method HandleKeydown(e: KeyEvent)
      modifies this
      ensures IsReset(e) ==> !isTestActive && ButtonsMatch()
      ensures !IsReset(e) && IsToggle(e) ==> isTestActive == !old(isTestActive) && ButtonsMatch()
      ensures !IsReset(e) && !IsToggle(e) ==>
        isTestActive == old(isTestActive) && startDisabled == old(startDisabled)
        && stopDisabled == old(stopDisabled) && resetDisabled == old(resetDisabled)
    {
      if e.code == "Space" && e.targetTag != "INPUT" {
        if isTestActive {
          StopTest();
        } else {
          StartTest();
        }
      }
      if e.key == "r" && e.ctrlKey {
        ResetTest();
      }
    }
  }

  predicate IsToggle(e: KeyEvent) { e.code == "Space" && e.targetTag != "INPUT" }

  predicate IsReset(e: KeyEvent) { e.key == "r" && e.ctrlKey }

  /** Two presses of Space bring the test back to where it was, with the buttons
      in step. */
  method ToggleTwice(ui: UIManager) returns (before: bool, after: bool)
    modifies ui
    ensures before == after
    ensures ui.ButtonsMatch()
  {
    before := ui.isTestActive;
    var space := KeyEvent(" ", "Space", "BODY", false);
    ui.HandleKeydown(space);
    ui.HandleKeydown(space);
    after := ui.isTestActive;
  }
}
