# Jeff probe platform module, modelled in Dafny

This project models the run-time logic of the board-support module of the
"jeff" variant of the Black Magic debug probe (`src/platforms/jeff/platform.c`):

- the serial number: four 32-bit unique-ID words summed with wrap-around and
  written as eight upper-case hexadecimal digits and a NUL (`serialno_read`);
- the target-voltage readout: the ADC code scaled by `(485*raw)>>12` and the
  hundreds and tens digits written into the static buffer `"0.0V"`
  (`platform_target_voltage`);
- the button state machine of the edge interrupt (`eic_isr`): pressed flag,
  edge polarity of EIC line 15 and enable bit of the long-press counter TC3;
- the millisecond timebase (`sys_tick_handler`, `platform_time_ms`);
- the shadow flags of the reset line and the target power switch, with the
  pins they drive (`platform_srst_set_val`/`get_val`,
  `platform_target_set_power`/`get_power`).

Files:

- `word32.dfy` — `Word32`: `uint32_t` addition and subtraction modulo 2^32.
- `wrappers.dfy` — `Wrappers`: `Option`.
- `serial_number.dfy` — `SerialNumber`: the encoder as functions, the in-place
  two-loop method, and a decoder with round-trip lemmas in both directions.
- `voltage_format.dfy` — `VoltageFormat`: scaling, digit conversion, the
  buffer's text after a conversion, and a reader for it.
- `button.dfy` — `Button`: the edge interrupt as a transition function over
  (pressed, polarity, counter enabled) and its invariant.
- `timebase.dfy` — `Timebase`: one tick and `n` ticks of the counter.
- `platform.dfy` — `Platform.PlatformState`: a class holding the module's
  global and static state; each handler and accessor is a method over it,
  proved against the functions above.

Hardware effects are fields: `polarity`, `counterEnabled`,
`buttonIrqPending` (bit 15 of the EIC flags), `ledLevel`, `srstPin`,
`pwrPin`. The four unique-ID words, read in the source from fixed addresses,
and the ADC result are parameters. Each interrupt handler is one atomic step.

Notes on the code as modelled:

- `tc3_isr` (platform.c:320-324) resets on the TC3 interrupt flag alone and
  does not read `button_pressed`.
- `voltage` is in hundredths of a volt; the readout shows its hundreds and tens
  digits, so it is the value truncated to tenths of a volt.
- The ADC result is taken as a 32-bit unsigned value, and `485*raw` wraps
  modulo 2^32 as `uint32_t` arithmetic would. For any 16-bit code the product
  does not wrap, so the signedness of the promoted type does not matter there.
  The `(char)` casts keep eight bits. The 12-bit range of the ADC is assumed only
  in the lemma about well-formed readouts, not in the operation.

## Model

| member | source | states |
|---|---|---|
| Word32.Add | src/platforms/jeff/platform.c:265-268 | the `uint32_t` sum equals the true sum, minus 2^32 when it overflows |
| SerialNumber.UniqueId | src/platforms/jeff/platform.c:265-268 | the unique ID is the sum of the four ID words modulo 2^32, whatever order the wrapping additions happen in |
| SerialNumber.HexDigit | src/platforms/jeff/platform.c:271-277 | adding '0' and then shifting characters above '9' by 'A'-'9'-1 yields an upper-case hex digit whose value is the nibble: '0'+n below ten, 'A'+(n-10) from ten on |
| SerialNumber.Digits | src/platforms/jeff/platform.c:271-277 | the encoding of k nibbles has exactly k characters, all upper-case hex digits |
| SerialNumber.DigitsAt | src/platforms/jeff/platform.c:271-273 | character k-1-i holds nibble i, so the first character is the most significant nibble |
| SerialNumber.SerialTextShape | src/platforms/jeff/platform.c:271-278 | the serial text is nine characters: eight upper-case hex digits then NUL, with s[7-i] encoding nibble i of the unique ID |
| SerialNumber.DecodeEncode | src/platforms/jeff/platform.c:271-278 | parsing the serial text back gives exactly the 32-bit unique ID |
| SerialNumber.EncodeDecode | src/platforms/jeff/platform.c:271-278 | every string the decoder accepts is the serial text of the value it decodes to (the encoding is canonical) |
| SerialNumber.SerialTextInjective | src/platforms/jeff/platform.c:265-278 | distinct unique IDs give distinct serial numbers |
| SerialNumber.SerialnoRead | src/platforms/jeff/platform.c:255-281 | the two loops and the NUL store leave s[0..8] holding the serial text of the summed unique ID, the rest of the buffer untouched, and the buffer is returned |
| VoltageFormat.Scale | src/platforms/jeff/platform.c:247 | the scaled value fits in 20 bits, and for a 12-bit code it is 485*raw/4096 rounded down |
| VoltageFormat.DigitChar | src/platforms/jeff/platform.c:249-250 | `'0' + (char)n` keeps eight bits and is the decimal digit of n when n is below ten |
| VoltageFormat.TwelveBitReading | src/platforms/jeff/platform.c:239-252 | for a 12-bit code the first digit is '0'..'4', the second a decimal digit, and the readout reads back as the scaled value truncated to tenths of a volt |
| VoltageFormat.ZeroReading | src/platforms/jeff/platform.c:242-250 | a code of 0 gives "0.0V" |
| Button.EicStep | src/platforms/jeff/platform.c:296-314 | every edge interrupt flips the pressed flag and leaves polarity and counter matching the new state |
| Button.InitialConsistent | src/platforms/jeff/platform.c:114-155 | the start-up state (idle, falling edge, counter stopped) satisfies pressed ⇔ RISE ⇔ counter enabled |
| Button.EicStepTwice | src/platforms/jeff/platform.c:296-314 | from a consistent state two edge interrupts restore the state |
| Button.ReachedState | src/platforms/jeff/platform.c:296-314 | after n edge interrupts from start-up the invariant holds and the button is pressed, and TC3 running, exactly when n is odd |
| Timebase.Tick | src/platforms/jeff/platform.c:62-70 | one tick advances the counter so that the unsigned difference from before is 10 |
| Timebase.TicksElapsed | src/platforms/jeff/platform.c:62-75 | after n ticks the counter is t+10n modulo 2^32 and the unsigned elapsed time is 10n modulo 2^32, across wrap-around too |
| Platform.PlatformState.constructor | src/platforms/jeff/platform.c:55-198 | after initialisation the button is idle with falling edge and TC3 stopped, time is 0, reset released with its pin low, power off with its active-low pin high, and the buffer holds "0.0V" |
| Platform.PlatformState.SysTickHandler | src/platforms/jeff/platform.c:62-70 | the counter advances by one tick, the LED toggles exactly when running_status is set, and nothing else changes |
| Platform.PlatformState.TimeMs | src/platforms/jeff/platform.c:72-75 | returns the counter unchanged |
| Platform.PlatformState.EicIsr | src/platforms/jeff/platform.c:296-318 | the button state takes one EicStep (idle→pressed sets RISE and enables TC3, pressed→idle sets FALL and disables it), the bit-15 flag is cleared, the invariant is kept and nothing else changes |
| Platform.PlatformState.SrstSetVal | src/platforms/jeff/platform.c:200-212 | the shadow flag records the request and the reset pin is set when asserting and cleared when releasing; nothing else changes |
| Platform.PlatformState.SrstGetVal | src/platforms/jeff/platform.c:214-218 | returns the shadow flag, so it returns what the last SrstSetVal was given |
| Platform.PlatformState.TargetSetPower | src/platforms/jeff/platform.c:226-230 | the shadow flag records the request and the power pin is driven to its negation; nothing else changes |
| Platform.PlatformState.TargetGetPower | src/platforms/jeff/platform.c:220-224 | returns the shadow flag, so it returns what the last TargetSetPower was given |
| Platform.PlatformState.TargetVoltage | src/platforms/jeff/platform.c:239-253 | only characters 0 and 2 of the static buffer are written, '.', 'V' and the NUL are kept, and the buffer then holds the readout of the given code whatever it held before |

## Left out

- Peripheral bring-up (`gclk` table, `usb_setup`, `timing_init`, `adc_init`, `counter_init`, `button_init`, `platform_init`): register writes through library calls; the constructor gives only the state they leave behind.
- TC3's count value and its reset on release (`tc_enable(3,0)`): only the enable bit is modelled; its only reader, `tc3_isr`, is left out.
- `tc3_isr` and `scb_reset_system`: the reset depends only on a hardware flag of TC3, not on state the module keeps.
- `platform_delay`: it polls `platform_timeout_set`/`platform_timeout_is_expired`, which are not part of this model.
- The ADC start and busy-wait on `ADC->intflag`: the conversion result is a parameter of `TargetVoltage`.
- The 10000-iteration `nop` loop in `platform_srst_set_val`: a timing delay with no effect on state.
- `uart_pop` in the tick handler and `print_serial`: foreign I/O.
- The `CUSTOM_SER` build of `serialno_read`, which writes the fixed "JEFF" without a NUL.
- `platform_request_boot`: its body is empty.
- Interleaving of the tick, edge and TC3 interrupts: each handler is one atomic step.
- The `volatile` reads of the unique-ID words at fixed addresses: they are the four parameters of `UniqueId`.
- `running_status` is written by other parts of the firmware; the model keeps it as a field no method of its own changes.
