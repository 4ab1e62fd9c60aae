/** The board's serial number: the four words of the chip's unique ID are
    summed with 32-bit wrap-around, and the sum is written as eight upper-case
    hexadecimal digits, most significant nibble first, followed by a NUL. */
module SerialNumber {
  import opened Word32
  import opened Wrappers

  /** The four unique-ID words are read from the fixed addresses 0x0080A00C,
      0x0080A040, 0x0080A044 and 0x0080A048, in that order. */
  function UniqueId(w0: u32, w1: u32, w2: u32, w3: u32): (r: u32)
    ensures r == (w0 + w1 + w2 + w3) % Modulus
  {
    var s := Add(Add(Add(w0, w1), w2), w3);
    ghost var k := (w0 + w1 + w2 + w3 - s) / Modulus;
    assert w0 + w1 + w2 + w3 == k * Modulus + s;
    ModUnique(w0 + w1 + w2 + w3, k, s);
    s
  }

  function Pow16(i: nat): (p: nat)
    ensures p > 0
  {
    if i == 0 then 1 else 16 * Pow16(i - 1)
  }

  /** Nibble `i` of `x`: `(x >> (4*i)) & 0xF`. */
  function Nibble(x: u32, i: nat): (n: nat)
    ensures n < 16
  {
    x / Pow16(i) % 16
  }

  predicate IsHexDigit(c: char) {
    '0' <= c <= '9' || 'A' <= c <= 'F'
  }

  /** The value of one upper-case hexadecimal digit. */
  function HexValue(c: char): (n: nat)
    requires IsHexDigit(c)
    ensures n < 16
  {
    if c <= '9' then c as int - '0' as int else c as int - 'A' as int + 10
  }

  /** The character the first loop stores for a nibble: the nibble added to '0'. */
  function Raw(n: nat): char
    requires n < 16
  {
    ('0' as int + n) as char
  }

  /** The second loop's correction: characters beyond '9' move up by
      'A' - '9' - 1, so that they land on 'A'..'F'. */
  function Adjust(c: char): char
    requires c as int < 0xD000
  {
    if c > '9' then (c as int + ('A' as int - '9' as int - 1)) as char else c
  }

  /** One nibble as the two loops of the encoder leave it. */
  function HexDigit(n: nat): (c: char)
    requires n < 16
    ensures IsHexDigit(c) && HexValue(c) == n
    ensures n < 10 ==> c as int == '0' as int + n
    ensures n >= 10 ==> c as int == 'A' as int + (n - 10)
  {
    Adjust(Raw(n))
  }

  lemma HexDigitOfValue(c: char)
    requires IsHexDigit(c)
    ensures HexDigit(HexValue(c)) == c
  {
  }

  /** The low `k` nibbles of `x` as hexadecimal digits, most significant first. */
  function Digits(x: nat, k: nat): (s: seq<char>)
    ensures |s| == k
    ensures forall i :: 0 <= i < k ==> IsHexDigit(s[i])
  {
    if k == 0 then [] else Digits(x / 16, k - 1) + [HexDigit(x % 16)]
  }

  /** The eight serial digits and the terminating NUL that `serialno_read` writes. */
  function SerialText(x: u32): seq<char> {
    Digits(x, 8) + ['\0']
  }

  /** Reads a string of hexadecimal digits, most significant first. */
  function ParseHex(s: seq<char>): (n: nat)
    requires forall i :: 0 <= i < |s| ==> IsHexDigit(s[i])
    ensures n < Pow16(|s|)
  {
    if s == [] then 0 else ParseHex(s[..|s| - 1]) * 16 + HexValue(s[|s| - 1])
  }

  /** Decodes a serial-number string: exactly eight upper-case hexadecimal
      digits and a NUL; anything else is rejected. */
  function ParseSerial(s: seq<char>): (r: Option<u32>)
    ensures r.Some? ==> |s| == 9 && s[8] == '\0'
  {
    if |s| == 9 && s[8] == '\0' && forall i :: 0 <= i < 8 ==> IsHexDigit(s[i]) then
      Pow16Eight();
      Some(ParseHex(s[..8]))
    else
      None
  }

  lemma Pow16Eight()
    ensures Pow16(8) == Modulus
  {
  }

  // ---- arithmetic on nibbles

  /** Dividing by 16 and then by 16^i is dividing by 16^(i+1). */
  lemma {:induction false} DivSixteenThenPow(x: nat, i: nat)
    ensures x / 16 / Pow16(i) == x / Pow16(i + 1)
  {
    var p := Pow16(i);
    var q, r := x / 16, x % 16;
    var q2, r2 := q / p, q % p;
    assert x == 16 * q + r;
    assert q == p * q2 + r2;
    assert x == (16 * p) * q2 + (16 * r2 + r);
    assert 0 <= 16 * r2 + r < 16 * p;
    DivUnique(x, 16 * p, q2, 16 * r2 + r);
  }

  /** Keeping the low i+1 nibbles is keeping the low i nibbles of x / 16,
      shifted up one nibble, plus the lowest nibble. */
  lemma {:induction false} ModSixteenPow(x: nat, i: nat)
    ensures x / 16 % Pow16(i) * 16 + x % 16 == x % Pow16(i + 1)
  {
    var p := Pow16(i);
    var q, r := x / 16, x % 16;
    var q2, r2 := q / p, q % p;
    assert x == (16 * p) * q2 + (16 * r2 + r);
    assert 0 <= 16 * r2 + r < 16 * p;
    DivUnique(x, 16 * p, q2, 16 * r2 + r);
  }

  lemma DivUnique(x: int, d: int, q: int, r: int)
    requires d > 0 && 0 <= r < d
    requires x == d * q + r
    ensures x / d == q && x % d == r
  {
    var q', r' := x / d, x % d;
    var k := q - q';
    assert d * k == r' - r by {
      assert d * q + r == d * q' + r';
    }
    if k > 0 {
      MulAtLeast(d, k);
    } else if k < 0 {
      MulAtLeast(d, -k);
    }
  }

  lemma MulAtLeast(d: int, k: int)
    requires d > 0 && k >= 1
    ensures d * k >= d && d * -k <= -d
  {
  }

  // ---- properties of the encoding

  /** Character k-1-i of the encoding holds nibble i: the last character is the
      least significant nibble and the first character the most significant. */
  lemma {:induction false} DigitsAt(x: nat, k: nat, i: nat)
    requires i < k
    ensures Digits(x, k)[k - 1 - i] == HexDigit(x / Pow16(i) % 16)
  {
    if i > 0 {
      DigitsAt(x / 16, k - 1, i - 1);
      DivSixteenThenPow(x, i - 1);
    }
  }

  /** Reading the digits back gives the encoded nibbles of `x`. */
  lemma {:induction false} ParseDigits(x: nat, k: nat)
    ensures ParseHex(Digits(x, k)) == x % Pow16(k)
  {
    if k > 0 {
      var d := Digits(x, k);
      assert d[..k - 1] == Digits(x / 16, k - 1);
      ParseDigits(x / 16, k - 1);
      ModSixteenPow(x, k - 1);
    }
  }

  /** A string of digits is the encoding of the value it reads as. */
  lemma {:induction false} DigitsOfParse(s: seq<char>)
    requires forall i :: 0 <= i < |s| ==> IsHexDigit(s[i])
    ensures Digits(ParseHex(s), |s|) == s
  {
    if s != [] {
      var k := |s|;
      var p, v := ParseHex(s[..k - 1]), HexValue(s[k - 1]);
      DivUnique(p * 16 + v, 16, p, v);
      DigitsOfParse(s[..k - 1]);
      HexDigitOfValue(s[k - 1]);
      assert s == s[..k - 1] + [s[k - 1]];
    }
  }

  /** The serial text is eight upper-case hexadecimal digits and a NUL, and
      character 7-i is nibble i of the unique ID. */
  lemma SerialTextShape(x: u32)
    ensures |SerialText(x)| == 9 && SerialText(x)[8] == '\0'
    ensures forall i :: 0 <= i < 8 ==> IsHexDigit(SerialText(x)[i])
    ensures forall i :: 0 <= i < 8 ==> SerialText(x)[7 - i] == HexDigit(Nibble(x, i))
  {
    forall i | 0 <= i < 8
      ensures SerialText(x)[7 - i] == HexDigit(Nibble(x, i))
    {
      DigitsAt(x, 8, i);
    }
  }

  /** Decoding the serial text gives back the unique ID. */
  lemma DecodeEncode(x: u32)
    ensures ParseSerial(SerialText(x)) == Some(x)
  {
    var s := SerialText(x);
    assert s[..8] == Digits(x, 8);
    ParseDigits(x, 8);
    Pow16Eight();
  }

  /** Every string the decoder accepts is the serial text of what it decodes
      to: the encoding is canonical. */
  lemma EncodeDecode(s: seq<char>)
    requires ParseSerial(s).Some?
    ensures SerialText(ParseSerial(s).value) == s
  {
    DigitsOfParse(s[..8]);
    assert s == s[..8] + ['\0'];
  }

  /** Distinct unique IDs give distinct serial numbers. */
  lemma SerialTextInjective(x: u32, y: u32)
    requires SerialText(x) == SerialText(y)
    ensures x == y
  {
    DecodeEncode(x);
    DecodeEncode(y);
  }

  /** `serialno_read`: writes the serial number of the unique ID made of the
      four given words into s[0..8], leaves the rest of `s` alone and returns `s`. */
  method SerialnoRead(s: array<char>, w0: u32, w1: u32, w2: u32, w3: u32) returns (r: array<char>)
    requires s.Length >= 9
    modifies s
    ensures r == s
    ensures s[..9] == SerialText(UniqueId(w0, w1, w2, w3))
    ensures s[9..] == old(s[9..])
  {
    var uniqueId := UniqueId(w0, w1, w2, w3);
    for i := 0 to 8
      invariant forall j :: 0 <= j < i ==> s[7 - j] == Raw(Nibble(uniqueId, j))
      invariant forall j :: 0 <= j < 8 - i || 8 <= j < s.Length ==> s[j] == old(s[j])
    {
      s[7 - i] := Raw(Nibble(uniqueId, i));
    }
    for i := 0 to 8
      invariant forall j :: 0 <= j < i ==> s[j] == HexDigit(Nibble(uniqueId, 7 - j))
      invariant forall j :: i <= j < 8 ==> s[j] == Raw(Nibble(uniqueId, 7 - j))
      invariant forall j :: 8 <= j < s.Length ==> s[j] == old(s[j])
    {
      if s[i] > '9' {
        s[i] := (s[i] as int + ('A' as int - '9' as int - 1)) as char;
      }
    }
    s[8] := '\0';
    SerialTextShape(uniqueId);
    assert s[..9] == SerialText(uniqueId);
    r := s;
  }
}
