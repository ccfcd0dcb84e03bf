/**
 * The menu's settings and the default show/hide gesture: a key combination on desktop
 * builds, and holding several fingers on the screen for a while on other builds.
 */
module Gestures {

  datatype Config = Config(
    minWindowWidth: real,
    minWindowHeight: real,
    baseScreenHeight: int,
    touchCount: int,       // fingers that start the hold timer
    touchTime: real,       // seconds a hold needs before the menu toggles
    fastTouchCount: int,   // fingers that run the timer faster
    fastTouchTime: real)   // seconds a fast hold needs

  const DefaultConfig: Config := Config(200.0, 200.0, 720, 2, 3.0, 3, 1.0)

  datatype Key =
    | LeftShift | RightShift | LeftAlt | RightAlt
    | LeftControl | RightControl | LeftCommand | RightCommand
    | Code(n: nat)

  /** Which modifiers must be held and which key must go down. */
  datatype KeyCombo = KeyCombo(shift: bool, alt: bool, controlOrCommand: bool, key: Key)

  predicate ShiftHeld(held: set<Key>) { LeftShift in held || RightShift in held }
  predicate AltHeld(held: set<Key>) { LeftAlt in held || RightAlt in held }
  predicate ControlOrCommandHeld(held: set<Key>) {
    LeftControl in held || RightControl in held || LeftCommand in held || RightCommand in held
  }

  /**
   * The keyboard check: each required modifier must be held on either side, and the key
   * must have gone down this frame.
   */
  function KeyboardCheck(combo: KeyCombo, held: set<Key>, pressed: set<Key>): (r: bool)
    ensures r ==> combo.key in pressed
    ensures r <==> && (combo.shift ==> ShiftHeld(held))
                   && (combo.alt ==> AltHeld(held))
                   && (combo.controlOrCommand ==> ControlOrCommandHeld(held))
                   && combo.key in pressed
  {
    if combo.shift && !ShiftHeld(held) then false
    else if combo.alt && !AltHeld(held) then false
    else if combo.controlOrCommand && !ControlOrCommandHeld(held) then false
    else combo.key in pressed
  }

  /** Holding more keys never blocks the combination. */
  lemma KeyboardMonotone(combo: KeyCombo, held: set<Key>, more: set<Key>, pressed: set<Key>)
    requires held <= more
    ensures KeyboardCheck(combo, held, pressed) ==> KeyboardCheck(combo, more, pressed)
  {
  }

  const ShiftKeys: set<Key> := {LeftShift, RightShift}
  const AltKeys: set<Key> := {LeftAlt, RightAlt}
  const ControlOrCommandKeys: set<Key> := {LeftControl, RightControl, LeftCommand, RightCommand}

  /**
   * A modifier the combination does not require makes no difference either way, whatever
   * the other modifiers are; a combination with no modifiers depends on the key alone.
   */
  lemma UnrequiredModifiersIgnored(combo: KeyCombo, held: set<Key>, pressed: set<Key>)
    ensures !combo.shift ==>
      KeyboardCheck(combo, held + ShiftKeys, pressed) == KeyboardCheck(combo, held - ShiftKeys, pressed)
    ensures !combo.alt ==>
      KeyboardCheck(combo, held + AltKeys, pressed) == KeyboardCheck(combo, held - AltKeys, pressed)
    ensures !combo.controlOrCommand ==>
      KeyboardCheck(combo, held + ControlOrCommandKeys, pressed)
        == KeyboardCheck(combo, held - ControlOrCommandKeys, pressed)
    ensures !combo.shift && !combo.alt && !combo.controlOrCommand ==>
      KeyboardCheck(combo, held, pressed) == (combo.key in pressed)
  {
  }

  /** How much faster the timer runs on a fast hold. */
  function Rate(cfg: Config): real
    requires cfg.fastTouchTime != 0.0
  {
    cfg.touchTime / cfg.fastTouchTime
  }

  datatype Step = Step(fired: bool, held: real)

  /**
   * One frame of the touch hold: fewer fingers than needed reset the timer; enough
   * fingers advance it by the frame time, scaled by touchTime / fastTouchTime when there
   * are enough for the fast hold. It fires on the frame the timer reaches touchTime.
   */
  function TouchStep(cfg: Config, held: real, touches: int, deltaTime: real): (s: Step)
    requires cfg.fastTouchTime != 0.0
    ensures touches < cfg.touchCount ==> s == Step(false, 0.0)
    ensures cfg.touchCount <= touches < cfg.fastTouchCount ==> s.held == held + deltaTime
    ensures cfg.touchCount <= touches && cfg.fastTouchCount <= touches ==>
      s.held == held + deltaTime * Rate(cfg)
    ensures s.fired <==> cfg.touchCount <= touches && held < cfg.touchTime <= s.held
  {
    var dt := if touches < cfg.touchCount then 0.0
              else if touches >= cfg.fastTouchCount then deltaTime * Rate(cfg)
              else deltaTime;
    var t := if touches < cfg.touchCount then 0.0 else held;
    var t2 := t + dt;
    Step(t2 - dt < cfg.touchTime && t2 >= cfg.touchTime, t2)
  }

  datatype TouchFrame = TouchFrame(touches: int, deltaTime: real)

  datatype RunResult = RunResult(fires: nat, held: real)

  /** The touch hold over a run of frames: how often it fired and the timer at the end. */
  function TouchRun(cfg: Config, held: real, fs: seq<TouchFrame>): (r: RunResult)
    requires cfg.fastTouchTime != 0.0
    decreases |fs|
  {
    if fs == [] then RunResult(0, held)
    else
      var s := TouchStep(cfg, held, fs[0].touches, fs[0].deltaTime);
      var rest := TouchRun(cfg, s.held, fs[1..]);
      RunResult(rest.fires + (if s.fired then 1 else 0), rest.held)
  }

  /** No finger is lifted and time does not run backwards (at either speed). */
  predicate Holding(cfg: Config, fs: seq<TouchFrame>) {
    forall i | 0 <= i < |fs| :: fs[i].touches >= cfg.touchCount && fs[i].deltaTime >= 0.0
  }

  /**
   * While the fingers stay down the timer only grows, so the menu toggles at most once
   * per hold: exactly when the timer passes touchTime during the run.
   */
  lemma {:induction false} TouchFiresOncePerHold(cfg: Config, held: real, fs: seq<TouchFrame>)
    requires cfg.fastTouchTime > 0.0 && cfg.touchTime >= 0.0
    requires Holding(cfg, fs)
    ensures TouchRun(cfg, held, fs).held >= held
    ensures TouchRun(cfg, held, fs).fires == if held < cfg.touchTime <= TouchRun(cfg, held, fs).held then 1 else 0
    decreases |fs|
  {
    if fs != [] {
      assert fs[0].touches >= cfg.touchCount && fs[0].deltaTime >= 0.0;
      var s := TouchStep(cfg, held, fs[0].touches, fs[0].deltaTime);
      assert s.held >= held by {
        if fs[0].touches >= cfg.fastTouchCount {
          assert cfg.touchTime / cfg.fastTouchTime >= 0.0;
          assert fs[0].deltaTime * Rate(cfg) >= 0.0;
        }
      }
      assert Holding(cfg, fs[1..]) by {
        forall i | 0 <= i < |fs[1..]| ensures fs[1..][i].touches >= cfg.touchCount && fs[1..][i].deltaTime >= 0.0 {
          assert fs[1..][i] == fs[i + 1];
        }
      }
      TouchFiresOncePerHold(cfg, s.held, fs[1..]);
    }
  }

  /** Lifting below touchCount fingers resets the hold: the next hold starts from zero. */
  lemma LiftResets(cfg: Config, held: real, touches: int, deltaTime: real, fs: seq<TouchFrame>)
    requires cfg.fastTouchTime != 0.0 && touches < cfg.touchCount
    ensures TouchRun(cfg, held, [TouchFrame(touches, deltaTime)] + fs) == TouchRun(cfg, 0.0, fs)
  {
    assert ([TouchFrame(touches, deltaTime)] + fs)[1..] == fs;
  }

  /** The sum of the frame times of a run. */
  function Elapsed(fs: seq<TouchFrame>): (e: real)
    ensures (forall i | 0 <= i < |fs| :: fs[i].deltaTime >= 0.0) ==> e >= 0.0
    decreases |fs|
  {
    if fs == [] then 0.0 else fs[0].deltaTime + Elapsed(fs[1..])
  }

  /** The frame times of a run, each scaled by k. */
  function ScaledElapsed(fs: seq<TouchFrame>, k: real): real
    decreases |fs|
  {
    if fs == [] then 0.0 else fs[0].deltaTime * k + ScaledElapsed(fs[1..], k)
  }

  /** Scaling each frame time is scaling their sum. */
  lemma {:induction false} ScaledElapsedIsProduct(fs: seq<TouchFrame>, k: real)
    ensures ScaledElapsed(fs, k) == Elapsed(fs) * k
    decreases |fs|
  {
    if fs != [] {
      ScaledElapsedIsProduct(fs[1..], k);
      Distribute(fs[0].deltaTime, Elapsed(fs[1..]), k);
    }
  }

  lemma Distribute(a: real, b: real, k: real)
    ensures a * k + b * k == (a + b) * k
  {
  }

  /**
   * On a fast hold the timer advances touchTime / fastTouchTime times faster than the
   * clock: by the sum of the scaled frame times, which is the elapsed time scaled.
   */
  lemma {:induction false} FastHoldRate(cfg: Config, held: real, fs: seq<TouchFrame>)
    requires cfg.fastTouchTime != 0.0
    requires forall i | 0 <= i < |fs| :: cfg.fastTouchCount <= fs[i].touches && cfg.touchCount <= fs[i].touches
    ensures TouchRun(cfg, held, fs).held == held + ScaledElapsed(fs, Rate(cfg))
    decreases |fs|
  {
    if fs != [] {
      var s := TouchStep(cfg, held, fs[0].touches, fs[0].deltaTime);
      assert forall i | 0 <= i < |fs[1..]| :: cfg.fastTouchCount <= fs[1..][i].touches && cfg.touchCount <= fs[1..][i].touches by {
        forall i | 0 <= i < |fs[1..]| ensures cfg.fastTouchCount <= fs[1..][i].touches && cfg.touchCount <= fs[1..][i].touches {
          assert fs[1..][i] == fs[i + 1];
        }
      }
      FastHoldRate(cfg, s.held, fs[1..]);
    }
  }

  /** On an ordinary hold the timer advances with the clock. */
  lemma {:induction false} OrdinaryHoldRate(cfg: Config, held: real, fs: seq<TouchFrame>)
    requires cfg.fastTouchTime != 0.0
    requires forall i | 0 <= i < |fs| :: cfg.touchCount <= fs[i].touches < cfg.fastTouchCount
    ensures TouchRun(cfg, held, fs).held == held + Elapsed(fs)
    decreases |fs|
  {
    if fs != [] {
      var s := TouchStep(cfg, held, fs[0].touches, fs[0].deltaTime);
      assert forall i | 0 <= i < |fs[1..]| :: cfg.touchCount <= fs[1..][i].touches < cfg.fastTouchCount by {
        forall i | 0 <= i < |fs[1..]| ensures cfg.touchCount <= fs[1..][i].touches < cfg.fastTouchCount {
          assert fs[1..][i] == fs[i + 1];
        }
      }
      OrdinaryHoldRate(cfg, s.held, fs[1..]);
    }
  }

  datatype Platform = Desktop | Mobile

  /** The default handler: its build platform, key combination and hold timer. */
  datatype Detector = Detector(platform: Platform, combo: KeyCombo, held: real)

  datatype Input = Input(held: set<Key>, pressed: set<Key>, touches: int)

  /** Asks whether the menu should toggle this frame; the keyboard check keeps no state. */
  function CheckVisible(d: Detector, cfg: Config, input: Input, deltaTime: real): (r: (bool, Detector))
    requires cfg.fastTouchTime != 0.0
    ensures d.platform.Desktop? ==> r == (KeyboardCheck(d.combo, input.held, input.pressed), d)
    ensures d.platform.Mobile? ==>
      r.1 == d.(held := TouchStep(cfg, d.held, input.touches, deltaTime).held)
      && r.0 == TouchStep(cfg, d.held, input.touches, deltaTime).fired
  {
    match d.platform
    case Desktop => (KeyboardCheck(d.combo, input.held, input.pressed), d)
    case Mobile =>
      var s := TouchStep(cfg, d.held, input.touches, deltaTime);
      (s.fired, d.(held := s.held))
  }
}
