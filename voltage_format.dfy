/** The target-voltage readout: a raw ADC code is scaled to hundredths of a
    volt and shown as "D.DV" in a five-byte buffer (four characters and a NUL). */
module VoltageFormat {
  import opened Word32
  import opened Wrappers

  /** `(485 * raw) >> 12` on `uint32_t`. For a 12-bit code no wrap-around
      happens, and the result is the product divided by 4096, rounded down. */
  function Scale(raw: u32): (v: u32)
    ensures v < 0x10_0000
    ensures raw < 4096 ==> v * 4096 <= 485 * raw < v * 4096 + 4096
  {
    (485 * raw) % Modulus / 4096
  }

  /** `'0' + (char)n` stored into a `char`: eight bits are kept. A value
      below ten gives the decimal digit for it. */
  function DigitChar(n: nat): (c: char)
    ensures c as int < 256
    ensures n < 10 ==> '0' <= c <= '9' && c as int - '0' as int == n
  {
    (('0' as int + n % 256) % 256) as char
  }

  /** The buffer after a conversion that read `raw`: the hundreds digit of the
      scaled value, '.', its tens digit, 'V' and the NUL of the literal. */
  function VoltageText(raw: u32): seq<char> {
    var v := Scale(raw);
    [DigitChar(v / 100), '.', DigitChar(v / 10 % 10), 'V', '\0']
  }

  /** Reads a "D.DV" readout back as a number of tenths of a volt. */
  function ParseReading(s: seq<char>): (r: Option<nat>)
    ensures r.Some? ==> |s| == 5 && s[1] == '.' && s[3] == 'V' && s[4] == '\0' && r.value < 100
  {
    if |s| == 5 && '0' <= s[0] <= '9' && s[1] == '.' && '0' <= s[2] <= '9' && s[3] == 'V' && s[4] == '\0' then
      Some((s[0] as int - '0' as int) * 10 + (s[2] as int - '0' as int))
    else
      None
  }

  /** For a 12-bit ADC code the readout is well formed: its first digit is
      0..4, its second a decimal digit, and it reads back as the scaled value
      truncated (not rounded) to tenths of a volt. */
  lemma TwelveBitReading(raw: u32)
    requires raw < 4096
    ensures '0' <= VoltageText(raw)[0] <= '4' && '0' <= VoltageText(raw)[2] <= '9'
    ensures ParseReading(VoltageText(raw)) == Some(Scale(raw) / 10)
    ensures ParseReading(VoltageText(raw)).value * 10 <= Scale(raw) < ParseReading(VoltageText(raw)).value * 10 + 10
  {
  }

  /** A conversion that reads 0 leaves the literal's own text, "0.0V". */
  lemma ZeroReading()
    ensures VoltageText(0) == ['0', '.', '0', 'V', '\0']
  {
  }
}
