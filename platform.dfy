/** The run-time state of the board module: the tick counter and idle LED, the
    button state machine, the reset and power shadow flags with the pins they
    drive, and the static buffer of the voltage readout. Every interrupt
    handler is one atomic step. */
module Platform {
  import opened Word32
  import opened Button
  import opened Timebase
  import opened VoltageFormat

  class PlatformState {
    /** `running_status`: set by the rest of the firmware while a target runs. */
    var runningStatus: bool
    /** `time_ms`. */
    var timeMs: u32
    /** Output level of the idle/run LED. */
    var ledLevel: bool

    /** `button_pressed`. */
    var buttonPressed: bool
    /** Edge configured for EIC line 15. */
    var polarity: Edge
    /** Enable bit of counter TC3, the long-press timer. */
    var counterEnabled: bool
    /** Interrupt flag of EIC line 15 (bit 15). */
    var buttonIrqPending: bool

    /** `srst_state`, and the output level of the reset pin. */
    var srstState: bool
    var srstPin: bool
    /** `tpwr_enabled`, and the output level of the power-switch pin (active low). */
    var tpwrEnabled: bool
    var pwrPin: bool

    /** The function-static buffer of `platform_target_voltage`, "0.0V" and its NUL. */
    const out: array<char>

    ghost function ButtonView(): ButtonState
      reads this
    {
      ButtonState(buttonPressed, polarity, counterEnabled)
    }

    /** The button invariant; each shadow flag agrees with the pin it drives;
        the voltage buffer keeps its '.', 'V' and NUL. */
    ghost predicate Valid()
      reads this, out
    {
      Consistent(ButtonView()) &&
      srstPin == srstState &&
      pwrPin == !tpwrEnabled &&
      out.Length == 5 && out[1] == '.' && out[3] == 'V' && out[4] == '\0'
    }

    /** The state once `platform_init` has run: zero-initialised globals, reset
        pin low, power pin high (power off), LED off, button idle with the falling
        edge selected and TC3 stopped. */
    constructor ()
      ensures Valid() && fresh(out)
      ensures ButtonView() == Initial && !buttonIrqPending
      ensures timeMs == 0 && !runningStatus && !ledLevel
      ensures !srstState && !srstPin && !tpwrEnabled && pwrPin
      ensures out[..] == ['0', '.', '0', 'V', '\0']
    {
      runningStatus, timeMs, ledLevel := false, 0, false;
      buttonPressed, polarity, counterEnabled, buttonIrqPending := false, Fall, false, false;
      srstState, srstPin := false, false;
      tpwrEnabled, pwrPin := false, true;
      out := new char[] ['0', '.', '0', 'V', '\0'];
    }

    /** `sys_tick_handler`: ten milliseconds pass; the LED toggles while a target
        runs; nothing else changes. */
    method SysTickHandler()
      requires Valid()
      modifies this
      ensures Valid()
      ensures timeMs == Tick(old(timeMs))
      ensures ledLevel == (old(ledLevel) != runningStatus)
      ensures runningStatus == old(runningStatus)
      ensures ButtonView() == old(ButtonView()) && buttonIrqPending == old(buttonIrqPending)
      ensures srstState == old(srstState) && srstPin == old(srstPin)
      ensures tpwrEnabled == old(tpwrEnabled) && pwrPin == old(pwrPin)
    {
      if runningStatus {
        ledLevel := !ledLevel;
      }
      timeMs := Add(timeMs, 10);
    }

    /** `platform_time_ms`. */
    method TimeMs() returns (t: u32)
      ensures t == timeMs
    {
      t := timeMs;
    }

    /** `eic_isr`: one step of the button state machine, and the line's
        interrupt flag is cleared; nothing else changes. */
    method EicIsr()
      requires Valid()
      modifies this
      ensures Valid()
      ensures ButtonView() == EicStep(old(ButtonView()))
      ensures !buttonIrqPending
      ensures runningStatus == old(runningStatus) && timeMs == old(timeMs) && ledLevel == old(ledLevel)
      ensures srstState == old(srstState) && srstPin == old(srstPin)
      ensures tpwrEnabled == old(tpwrEnabled) && pwrPin == old(pwrPin)
    {
      if !buttonPressed {
        polarity := Rise;
        counterEnabled := true;
        buttonPressed := true;
      } else {
        polarity := Fall;
        counterEnabled := false;
        buttonPressed := false;
      }
      buttonIrqPending := false;
    }

    /** `platform_srst_set_val`: drives the reset pin high to assert reset and
        low to release it, and records the request in the shadow flag. */
    method SrstSetVal(asserted: bool)
      requires Valid()
      modifies this
      ensures Valid()
      ensures srstState == asserted && srstPin == asserted
      ensures runningStatus == old(runningStatus) && timeMs == old(timeMs) && ledLevel == old(ledLevel)
      ensures ButtonView() == old(ButtonView()) && buttonIrqPending == old(buttonIrqPending)
      ensures tpwrEnabled == old(tpwrEnabled) && pwrPin == old(pwrPin)
    {
      if !asserted {
        srstPin := false;
        srstState := false;
      } else {
        srstPin := true;
        srstState := true;
      }
    }

    /** `platform_srst_get_val`: the shadow flag, not the pin. */
    method SrstGetVal() returns (b: bool)
      ensures b == srstState
    {
      b := srstState;
    }

    /** `platform_target_get_power`: the shadow flag, not the pin. */
    method TargetGetPower() returns (b: bool)
      ensures b == tpwrEnabled
    {
      b := tpwrEnabled;
    }

    /** `platform_target_set_power`: drives the active-low power pin to the
        opposite of the request and records the request. */
    method TargetSetPower(power: bool)
      requires Valid()
      modifies this
      ensures Valid()
      ensures tpwrEnabled == power && pwrPin == !power
      ensures runningStatus == old(runningStatus) && timeMs == old(timeMs) && ledLevel == old(ledLevel)
      ensures ButtonView() == old(ButtonView()) && buttonIrqPending == old(buttonIrqPending)
      ensures srstState == old(srstState) && srstPin == old(srstPin)
    {
      pwrPin := !power;
      tpwrEnabled := power;
    }

    /** `platform_target_voltage`, given the code the ADC conversion returned:
        only characters 0 and 2 of the static buffer are written, and the buffer
        then holds the readout of that code whatever it held before. */
    method TargetVoltage(raw: u32) returns (r: array<char>)
      requires Valid()
      modifies out
      ensures Valid()
      ensures r == out
      ensures out[..] == VoltageText(raw)
      ensures forall i :: 0 <= i < out.Length && i != 0 && i != 2 ==> out[i] == old(out[i])
    {
      var voltage := Scale(raw);
      out[0] := DigitChar(voltage / 100);
      out[2] := DigitChar(voltage / 10 % 10);
      r := out;
    }
  }
}
