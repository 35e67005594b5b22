/**
 The ARI certificate identifier of section 4.1 of RFC 9773: base64url of the authority key
 identifier, a full stop, base64url of the DER serial, both unpadded (modules/core/ari.py,
 `_b64`, `_serial_octets`, `certificate_id`, `renewal_info_url`).
 */
module AriIdentifier {
  import opened Wrappers
  import opened Text

  type Byte = n: int | 0 <= n < 256

  // ----------------------------------------------------- DER serial octets

  /** `int.bit_length` */
  function BitLength(n: nat): nat {
    if n == 0 then 0 else 1 + BitLength(n / 2)
  }

  /** `int.to_bytes(length, 'big')`, for a value that fits. */
  function ToBytes(n: nat, length: nat): seq<Byte> {
    if length == 0 then [] else ToBytes(n / 256, length - 1) + [n % 256]
  }

  function Max(a: int, b: int): int { if a < b then b else a }

  function OctetCount(serial: nat): nat {
    Max(1, (BitLength(serial) + 8) / 8)
  }

  datatype IdError = NoKeyIdentifier | EmptyKeyIdentifier | NegativeSerial

  function SerialOctets(serial: int): Result<seq<Byte>, IdError> {
    if serial < 0 then Err(NegativeSerial) else Ok(ToBytes(serial, OctetCount(serial)))
  }

  function FromBytes(bytes: seq<Byte>): nat {
    if bytes == [] then 0 else FromBytes(bytes[..|bytes| - 1]) * 256 + bytes[|bytes| - 1]
  }

  /** Section 8.3 of X.690: at least one octet, the first bit is the sign, and the first nine
      bits are not all zero (nor all one, which a clear sign bit rules out). */
  predicate MinimalNonNegative(bytes: seq<Byte>) {
    && bytes != [] && bytes[0] < 128
    && (|bytes| > 1 ==> bytes[0] != 0 || bytes[1] >= 128)
  }

  lemma EightHalvings(n: nat)
    requires n >= 128
    ensures BitLength(n) == 8 + BitLength(n / 256)
  {
    var a, b, c := n / 2, n / 4, n / 8;
    var d, e, f, g := n / 16, n / 32, n / 64, n / 128;
    assert a / 2 == b && b / 2 == c && c / 2 == d && d / 2 == e && e / 2 == f && f / 2 == g && g / 2 == n / 256;
    assert BitLength(n) == 1 + BitLength(a) && BitLength(a) == 1 + BitLength(b) && BitLength(b) == 1 + BitLength(c);
    assert BitLength(c) == 1 + BitLength(d) && BitLength(d) == 1 + BitLength(e) && BitLength(e) == 1 + BitLength(f);
    assert BitLength(f) == 1 + BitLength(g) && BitLength(g) == 1 + BitLength(n / 256);
  }

  lemma SmallBitLength(n: nat)
    requires n < 128
    ensures BitLength(n) < 8
  {
    assert BitLength(n / 64) <= 1;
    assert BitLength(n / 32) <= 2 by { assert n / 32 / 2 == n / 64; }
    assert BitLength(n / 16) <= 3 by { assert n / 16 / 2 == n / 32; }
    assert BitLength(n / 8) <= 4 by { assert n / 8 / 2 == n / 16; }
    assert BitLength(n / 4) <= 5 by { assert n / 4 / 2 == n / 8; }
    assert BitLength(n / 2) <= 6 by { assert n / 2 / 2 == n / 4; }
  }

  /** A serial under 128 is its own octet; any other puts one octet behind those of the quotient. */
  lemma OctetCountStep(n: nat)
    ensures OctetCount(n) == if n < 128 then 1 else 1 + OctetCount(n / 256)
  {
    if n < 128 {
      SmallBitLength(n);
    } else {
      EightHalvings(n);
    }
  }

  lemma ToBytesStep(n: nat, length: nat)
    requires length > 0
    ensures ToBytes(n, length) == ToBytes(n / 256, length - 1) + [n % 256]
    ensures ToBytes(n, 0) == []
  {
  }

  /** So the octets of a serial can be read off one at a time. */
  lemma OctetsStep(n: nat)
    ensures SerialOctets(n) == Ok(if n < 128 then [n] else SerialOctets(n / 256).value + [n % 256])
  {
    OctetCountStep(n);
    if n < 128 {
      ToBytesStep(n, 1);
      ToBytesStep(n / 256, 1);
      assert ToBytes(n, 1) == [] + [n % 256] == [n];
    } else {
      var count := OctetCount(n / 256);
      ToBytesStep(n, 1 + count);
      assert ToBytes(n, 1 + count) == ToBytes(n / 256, count) + [n % 256];
    }
  }

  lemma FromBytesSnoc(bytes: seq<Byte>, low: Byte)
    ensures FromBytes(bytes + [low]) == FromBytes(bytes) * 256 + low
    ensures FromBytes([low]) == low
  {
    assert (bytes + [low])[..|bytes|] == bytes;
    assert [low][..0] == [];
  }

  /** The octets are the minimal DER content of the serial, and decode back to it. */
  lemma {:induction false} OctetsAreMinimal(serial: nat)
    ensures var bytes := SerialOctets(serial).value;
            MinimalNonNegative(bytes) && FromBytes(bytes) == serial
  {
    OctetsStep(serial);
    if serial < 128 {
      FromBytesSnoc([], serial);
    } else {
      OctetsAreMinimal(serial / 256);
      OctetsStep(serial / 256);
      FromBytesSnoc(SerialOctets(serial / 256).value, serial % 256);
    }
  }

  /** Without its last octet minimal content is minimal again. */
  lemma MinimalFront(bytes: seq<Byte>)
    requires MinimalNonNegative(bytes) && |bytes| > 1
    ensures MinimalNonNegative(bytes[..|bytes| - 1])
    ensures FromBytes(bytes[..|bytes| - 1]) * 256 + bytes[|bytes| - 1] >= 128
  {
    var high := bytes[..|bytes| - 1];
    assert high[0] == bytes[0] && (|high| > 1 ==> high[1] == bytes[1]);
    if |high| == 1 {
      assert high == [bytes[0]];
      FromBytesSnoc([], bytes[0]);
    } else {
      AtLeastOne(high);
    }
  }

  lemma OctetsSnoc(value: nat, high: seq<Byte>, low: Byte)
    requires value * 256 + low >= 128 && SerialOctets(value) == Ok(high)
    ensures SerialOctets(value * 256 + low) == Ok(high + [low])
  {
    OctetsStep(value * 256 + low);
    assert (value * 256 + low) / 256 == value && (value * 256 + low) % 256 == low;
  }

  lemma OneOctet(low: Byte)
    requires low < 128
    ensures SerialOctets(FromBytes([low])) == Ok([low])
  {
    FromBytesSnoc([], low);
    OctetsStep(low);
  }

  lemma OneMoreOctet(high: seq<Byte>, low: Byte)
    requires FromBytes(high) * 256 + low >= 128 && SerialOctets(FromBytes(high)) == Ok(high)
    ensures SerialOctets(FromBytes(high + [low])) == Ok(high + [low])
  {
    FromBytesSnoc(high, low);
    OctetsSnoc(FromBytes(high), high, low);
  }

  /** And the only ones: any minimal non-negative content is what is written for its value. */
  lemma {:induction false} MinimalIsUnique(bytes: seq<Byte>)
    requires MinimalNonNegative(bytes)
    ensures SerialOctets(FromBytes(bytes)) == Ok(bytes)
  {
    var high, low := bytes[..|bytes| - 1], bytes[|bytes| - 1];
    if |bytes| == 1 {
      assert bytes == [low];
      OneOctet(low);
    } else {
      MinimalFront(bytes);
      MinimalIsUnique(high);
      OneMoreOctet(high, low);
      assert bytes == high + [low];
    }
  }

  lemma {:induction false} AtLeastOne(high: seq<Byte>)
    requires high != [] && (high[0] != 0 || (|high| > 1 && high[1] >= 128))
    ensures FromBytes(high) >= 1
  {
    var n := |high| - 1;
    if n > 0 && high[..n][0] != 0 {
      AtLeastOne(high[..n]);
    } else if n > 1 {
      AtLeastOne(high[..n]);
    }
  }

  // ------------------------------------------------------------- base64url

  function Symbol(i: int): char
    requires 0 <= i < 64
  {
    if i < 26 then ('A' as int + i) as char
    else if i < 52 then ('a' as int + i - 26) as char
    else if i < 62 then ('0' as int + i - 52) as char
    else if i == 62 then '-' else '_'
  }

  function Value(c: char): Option<int> {
    if 'A' <= c <= 'Z' then Some(c as int - 'A' as int)
    else if 'a' <= c <= 'z' then Some(c as int - 'a' as int + 26)
    else if '0' <= c <= '9' then Some(c as int - '0' as int + 52)
    else if c == '-' then Some(62) else if c == '_' then Some(63) else None
  }

  lemma SymbolValue(i: int)
    requires 0 <= i < 64
    ensures Value(Symbol(i)) == Some(i) && Symbol(i) != '=' && Symbol(i) != '.'
  {
  }

  /** `base64.urlsafe_b64encode`: four symbols for three bytes, the last group padded. */
  function Padded(bytes: seq<Byte>): string {
    if bytes == [] then ""
    else if |bytes| == 1 then [Symbol(bytes[0] / 4), Symbol(bytes[0] % 4 * 16), '=', '=']
    else if |bytes| == 2 then
      [Symbol(bytes[0] / 4), Symbol(bytes[0] % 4 * 16 + bytes[1] / 16), Symbol(bytes[1] % 16 * 4), '=']
    else
      [Symbol(bytes[0] / 4), Symbol(bytes[0] % 4 * 16 + bytes[1] / 16),
       Symbol(bytes[1] % 16 * 4 + bytes[2] / 64), Symbol(bytes[2] % 64)] + Padded(bytes[3..])
  }

  function RStripEquals(s: string): string {
    if s != "" && s[|s| - 1] == '=' then RStripEquals(s[..|s| - 1]) else s
  }

  function B64(bytes: seq<Byte>): string {
    RStripEquals(Padded(bytes))
  }

  /** Decoding without padding: groups of four, and a last one of two or three symbols. */
  function Decode(s: string): Option<seq<Byte>> {
    if s == "" then Some([])
    else if |s| == 1 || Value(s[0]) == None || Value(s[1]) == None then None
    else
      var a, b := Value(s[0]).value, Value(s[1]).value;
      var first := a * 4 + b / 16;
      if |s| == 2 then Some([first])
      else if Value(s[2]) == None then None
      else
        var c := Value(s[2]).value;
        var second := b % 16 * 16 + c / 4;
        if |s| == 3 then Some([first, second])
        else if Value(s[3]) == None then None
        else
          var rest := Decode(s[4..]);
          if rest == None then None else Some([first, second, c % 4 * 64 + Value(s[3]).value] + rest.value)
  }

  predicate InAlphabet(s: string) {
    forall i | 0 <= i < |s| :: Value(s[i]).Some?
  }

  lemma {:induction false} RStripEqualsFront(front: string, rest: string)
    requires front != "" && front[|front| - 1] != '='
    ensures RStripEquals(front + rest) == front + RStripEquals(rest)
  {
    if rest == "" || rest[|rest| - 1] != '=' {
      if rest == "" { assert front + rest == front; }
    } else {
      assert (front + rest)[..|front + rest| - 1] == front + rest[..|rest| - 1];
      RStripEqualsFront(front, rest[..|rest| - 1]);
    }
  }

  lemma B64Step(bytes: seq<Byte>)
    requires |bytes| >= 3
    ensures B64(bytes) == Padded(bytes)[..4] + B64(bytes[3..])
  {
    var front := Padded(bytes)[..4];
    assert Padded(bytes) == front + Padded(bytes[3..]);
    SymbolValue(bytes[2] % 64);
    RStripEqualsFront(front, Padded(bytes[3..]));
  }

  lemma B64Short(bytes: seq<Byte>)
    requires 1 <= |bytes| <= 2
    ensures B64(bytes) == Padded(bytes)[..|bytes| + 1]
  {
    var front := Padded(bytes)[..|bytes| + 1];
    var pad := Padded(bytes)[|bytes| + 1..];
    SymbolValue(bytes[0] % 4 * 16);
    if |bytes| == 2 { SymbolValue(bytes[1] % 16 * 4); }
    assert Padded(bytes) == front + pad;
    RStripEqualsFront(front, pad);
    assert pad == "=" || pad == "==";
    assert "="[..0] == "" && "=="[..1] == "=";
  }

  /** Unpadded base64url loses nothing (section 5 of RFC 4648), and its alphabet has no full stop. */
  lemma {:induction false} DecodeB64(bytes: seq<Byte>)
    ensures Decode(B64(bytes)) == Some(bytes) && InAlphabet(B64(bytes))
  {
    if bytes == [] {
      assert B64(bytes) == "";
    } else if |bytes| <= 2 {
      B64Short(bytes);
      DecodeShort(bytes);
    } else {
      B64Step(bytes);
      DecodeB64(bytes[3..]);
      DecodeFour(bytes, B64(bytes[3..]));
    }
  }

  lemma DecodeTwo(a: int, b: int)
    requires 0 <= a < 64 && 0 <= b < 64
    ensures Decode([Symbol(a), Symbol(b)]) == Some([a * 4 + b / 16]) && InAlphabet([Symbol(a), Symbol(b)])
  {
    SymbolValue(a);
    SymbolValue(b);
  }

  lemma DecodeThree(a: int, b: int, c: int)
    requires 0 <= a < 64 && 0 <= b < 64 && 0 <= c < 64
    ensures var s := [Symbol(a), Symbol(b), Symbol(c)];
            Decode(s) == Some([a * 4 + b / 16, b % 16 * 16 + c / 4]) && InAlphabet(s)
  {
    SymbolValue(a);
    SymbolValue(b);
    SymbolValue(c);
  }

  lemma {:induction false} DecodeShort(bytes: seq<Byte>)
    requires 1 <= |bytes| <= 2
    ensures Decode(Padded(bytes)[..|bytes| + 1]) == Some(bytes) && InAlphabet(Padded(bytes)[..|bytes| + 1])
  {
    var s := Padded(bytes)[..|bytes| + 1];
    if |bytes| == 1 {
      Sextets(bytes[0], 0, 0);
      DecodeTwo(bytes[0] / 4, bytes[0] % 4 * 16);
      assert s == [Symbol(bytes[0] / 4), Symbol(bytes[0] % 4 * 16)] && bytes == [bytes[0]];
    } else {
      Sextets(bytes[0], bytes[1], 0);
      DecodeThree(bytes[0] / 4, bytes[0] % 4 * 16 + bytes[1] / 16, bytes[1] % 16 * 4);
      assert s == [Symbol(bytes[0] / 4), Symbol(bytes[0] % 4 * 16 + bytes[1] / 16), Symbol(bytes[1] % 16 * 4)];
      assert bytes == [bytes[0], bytes[1]];
    }
  }

  /** Four sextets hold three octets. */
  lemma Sextets(b0: Byte, b1: Byte, b2: Byte)
    ensures var a, b, c, d := b0 / 4, b0 % 4 * 16 + b1 / 16, b1 % 16 * 4 + b2 / 64, b2 % 64;
            && 0 <= a < 64 && 0 <= b < 64 && 0 <= c < 64 && 0 <= d < 64
            && a * 4 + b / 16 == b0 && b % 16 * 16 + c / 4 == b1 && c % 4 * 64 + d == b2
  {
  }

  lemma DecodeFour(bytes: seq<Byte>, rest: string)
    requires |bytes| >= 3 && Decode(rest) == Some(bytes[3..]) && InAlphabet(rest)
    ensures Decode(Padded(bytes)[..4] + rest) == Some(bytes) && InAlphabet(Padded(bytes)[..4] + rest)
  {
    var b0, b1, b2 := bytes[0], bytes[1], bytes[2];
    var a, b, c, d := b0 / 4, b0 % 4 * 16 + b1 / 16, b1 % 16 * 4 + b2 / 64, b2 % 64;
    Sextets(b0, b1, b2);
    SymbolValue(a);
    SymbolValue(b);
    SymbolValue(c);
    SymbolValue(d);
    assert Padded(bytes)[..4] == [Symbol(a), Symbol(b), Symbol(c), Symbol(d)];
    DecodeSymbols(a, b, c, d, rest);
    assert bytes == [b0, b1, b2] + bytes[3..];
  }

  lemma DecodeSymbols(a: int, b: int, c: int, d: int, rest: string)
    requires 0 <= a < 64 && 0 <= b < 64 && 0 <= c < 64 && 0 <= d < 64
    requires Decode(rest).Some? && InAlphabet(rest)
    ensures var s := [Symbol(a), Symbol(b), Symbol(c), Symbol(d)] + rest;
            && InAlphabet(s)
            && Decode(s) == Some([a * 4 + b / 16, b % 16 * 16 + c / 4, c % 4 * 64 + d] + Decode(rest).value)
  {
    SymbolValue(a);
    SymbolValue(b);
    SymbolValue(c);
    SymbolValue(d);
    var s := [Symbol(a), Symbol(b), Symbol(c), Symbol(d)] + rest;
    assert s[4..] == rest;
  }

  // ------------------------------------------------------------ identifier

  function CertificateId(keyIdentifier: Option<seq<Byte>>, serial: int): Result<string, IdError> {
    match keyIdentifier
    case None => Err(NoKeyIdentifier)
    case Some(key) =>
      if key == [] then Err(EmptyKeyIdentifier)
      else if SerialOctets(serial).Err? then Err(SerialOctets(serial).error)
      else Ok(B64(key) + "." + B64(SerialOctets(serial).value))
  }

  /** ARI can name the certificate. */
  predicate Nameable(keyIdentifier: Option<seq<Byte>>, serial: int) {
    keyIdentifier.Some? && keyIdentifier.value != [] && serial >= 0
  }

  /** Reading an identifier back: what stands before the full stop and what stands behind it. */
  function ReadId(id: string): Option<(seq<Byte>, nat)> {
    var n := IndexOf(id, '.');
    if n == |id| || Decode(id[..n]) == None || Decode(id[n + 1..]) == None then None
    else Some((Decode(id[..n]).value, FromBytes(Decode(id[n + 1..]).value)))
  }

  lemma NoStop(s: string)
    requires InAlphabet(s)
    ensures '.' !in s
  {
    forall i | 0 <= i < |s| ensures s[i] != '.' {
      assert Value(s[i]).Some?;
    }
  }

  /** The identifier names one key identifier and one serial: both can be read back from it. A
      certificate that has none is refused for the first thing that is missing. */
  lemma IdReadsBack(keyIdentifier: Option<seq<Byte>>, serial: int)
    ensures var id := CertificateId(keyIdentifier, serial);
            if Nameable(keyIdentifier, serial) then id.Ok? && ReadId(id.value) == Some((keyIdentifier.value, serial))
            else id == Err(if keyIdentifier == None then NoKeyIdentifier
                           else if keyIdentifier.value == [] then EmptyKeyIdentifier else NegativeSerial)
  {
    if Nameable(keyIdentifier, serial) {
      var key, octets := keyIdentifier.value, SerialOctets(serial).value;
      DecodeB64(key);
      DecodeB64(octets);
      OctetsAreMinimal(serial);
      NoStop(B64(key));
      HalvesReadBack(B64(key), B64(octets));
    }
  }

  lemma HalvesReadBack(left: string, right: string)
    requires '.' !in left && Decode(left).Some? && Decode(right).Some?
    ensures ReadId(left + "." + right) == Some((Decode(left).value, FromBytes(Decode(right).value)))
  {
    IndexOfFirst(left, '.', right);
    var id := left + "." + right;
    assert id == left + ['.'] + right;
    assert id[..|left|] == left && id[|left| + 1..] == right;
  }

  lemma IdIsInjective(k1: Option<seq<Byte>>, s1: int, k2: Option<seq<Byte>>, s2: int)
    requires Nameable(k1, s1) && Nameable(k2, s2)
    ensures CertificateId(k1, s1) == CertificateId(k2, s2) ==> k1 == k2 && s1 == s2
  {
    IdReadsBack(k1, s1);
    IdReadsBack(k2, s2);
  }

  // ------------------------------------------------------------------- URL

  /** The characters `urllib.parse.quote` never escapes. */
  predicate Unreserved(c: char) {
    'A' <= c <= 'Z' || 'a' <= c <= 'z' || '0' <= c <= '9' || c == '_' || c == '.' || c == '-' || c == '~'
  }

  function HexDigit(i: int): char
    requires 0 <= i < 16
  {
    if i < 10 then ('0' as int + i) as char else ('A' as int + i - 10) as char
  }

  /** `quote(s, safe='')` for ASCII text. */
  function Quote(s: string): string {
    if s == "" then "" else Escaped(s[0]) + Quote(s[1..])
  }

  function Percent(code: int): string
    requires 0 <= code < 256
  {
    ['%', HexDigit(code / 16), HexDigit(code % 16)]
  }

  function Escaped(c: char): string {
    if Unreserved(c) then [c] else Percent(c as int % 256)
  }

  function RStripSlash(s: string): string {
    if s != "" && s[|s| - 1] == '/' then RStripSlash(s[..|s| - 1]) else s
  }

  /** A directory that speaks ARI has a non-empty string under `renewalInfo`. */
  function RenewalInfoUrl(base: Option<string>, id: string): Option<string> {
    if base == None || base.value == "" then None else Some(RStripSlash(base.value) + "/" + Quote(id))
  }

  lemma {:induction false} QuoteKeeps(s: string)
    requires forall i | 0 <= i < |s| :: Unreserved(s[i])
    ensures Quote(s) == s
  {
    if s != "" {
      QuoteKeeps(s[1..]);
      assert s == [s[0]] + s[1..];
    }
  }

  function HexValue(c: char): (value: int)
    ensures 0 <= value < 16
  {
    if '0' <= c <= '9' then c as int - '0' as int else if 'A' <= c <= 'F' then c as int - 'A' as int + 10 else 0
  }

  /** Reading an escaped text back. */
  function Unquote(s: string): string {
    if s == "" then ""
    else if s[0] == '%' && |s| >= 3 then
      [(HexValue(s[1]) * 16 + HexValue(s[2])) as char] + Unquote(s[3..])
    else [s[0]] + Unquote(s[1..])
  }

  /** What a segment of a URL may hold: letters, digits, `-._~` and percent signs. */
  predicate InSegment(c: char) {
    'a' <= c <= 'z' || 'A' <= c <= 'Z' || '0' <= c <= '9' || c in "-._~%"
  }

  lemma HexReadsBack(code: int)
    requires 0 <= code < 256
    ensures code / 16 < 16 && HexValue(HexDigit(code / 16)) == code / 16
    ensures HexValue(HexDigit(code % 16)) == code % 16
    ensures Unreserved(HexDigit(code / 16)) && Unreserved(HexDigit(code % 16))
  {
  }

  lemma EscapedIs(c: char)
    ensures forall i | 0 <= i < |Escaped(c)| :: InSegment(Escaped(c)[i])
  {
    HexReadsBack(c as int % 256);
  }

  lemma UnquoteEscape(a: char, b: char, rest: string)
    ensures Unquote(['%', a, b] + rest) == [(HexValue(a) * 16 + HexValue(b)) as char] + Unquote(rest)
  {
    assert (['%', a, b] + rest)[3..] == rest;
  }

  lemma UnquotePercent(code: int, rest: string)
    requires 0 <= code < 256
    ensures Unquote(Percent(code) + rest) == [code as char] + Unquote(rest)
  {
    HexReadsBack(code);
    UnquoteEscape(HexDigit(code / 16), HexDigit(code % 16), rest);
  }

  lemma UnquotePlain(c: char, rest: string)
    requires c != '%'
    ensures Unquote([c] + rest) == [c] + Unquote(rest)
  {
    assert ([c] + rest)[1..] == rest;
  }

  lemma UnquoteStep(c: char, rest: string)
    requires c as int < 256
    ensures Unquote(Escaped(c) + rest) == [c] + Unquote(rest)
  {
    if Unreserved(c) {
      UnquotePlain(c, rest);
    } else {
      var code := c as int;
      assert code % 256 == code;
      UnquotePercent(code, rest);
      assert code as char == c;
    }
  }

  /** Whatever the identifier, it cannot add a segment or a query to the URL: escaped it is made of
      unreserved characters and percent signs, and nothing of it is lost. */
  lemma {:induction false} QuoteIsOneSegment(s: string)
    requires forall i | 0 <= i < |s| :: s[i] as int < 256
    ensures forall i | 0 <= i < |Quote(s)| :: InSegment(Quote(s)[i])
    ensures Unquote(Quote(s)) == s
  {
    if s != "" {
      QuoteIsOneSegment(s[1..]);
      EscapedIs(s[0]);
      UnquoteStep(s[0], Quote(s[1..]));
      assert s == [s[0]] + s[1..];
    }
  }

  /** `stem` is `base` without the slashes at its end. */
  predicate IsStem(base: string, stem: string) {
    && stem <= base && (forall i | |stem| <= i < |base| :: base[i] == '/')
    && (stem != "" ==> stem[|stem| - 1] != '/')
  }

  lemma {:induction false} RStripSlashIs(s: string)
    ensures IsStem(s, RStripSlash(s))
  {
    if s != "" && s[|s| - 1] == '/' {
      RStripSlashIs(s[..|s| - 1]);
    }
  }

  /** There is a URL exactly when the directory has a base: the base without the slashes at its end, one
      slash, and the escaped identifier. */
  lemma UrlIs(base: Option<string>, id: string)
    ensures RenewalInfoUrl(base, id) == None <==> base == None || base.value == ""
    ensures RenewalInfoUrl(base, id).Some? ==>
              exists stem :: IsStem(base.value, stem) && RenewalInfoUrl(base, id).value == stem + "/" + Quote(id)
  {
    if base.Some? {
      RStripSlashIs(base.value);
    }
  }

  /** Different certificates are asked about at different URLs of one CA, and the identifier is
      one path segment: nothing in it is escaped and nothing in it is a slash. */
  lemma UrlsAreDistinct(base: Option<string>, k1: Option<seq<Byte>>, s1: int,
                        k2: Option<seq<Byte>>, s2: int)
    requires Nameable(k1, s1) && Nameable(k2, s2) && base.Some? && base.value != ""
    ensures CertificateId(k1, s1).Ok? && CertificateId(k2, s2).Ok?
    ensures var id := CertificateId(k1, s1).value;
            RenewalInfoUrl(base, id) == Some(RStripSlash(base.value) + "/" + id) && '/' !in id
    ensures (RenewalInfoUrl(base, CertificateId(k1, s1).value) == RenewalInfoUrl(base, CertificateId(k2, s2).value)) ==>
              k1 == k2 && s1 == s2
  {
    var id1, id2 := CertificateId(k1, s1).value, CertificateId(k2, s2).value;
    IdIsUnreserved(k1, s1);
    IdIsUnreserved(k2, s2);
    QuoteKeeps(id1);
    QuoteKeeps(id2);
    var stem := RStripSlash(base.value) + "/";
    if stem + id1 == stem + id2 {
      assert (stem + id1)[|stem|..] == id1 && (stem + id2)[|stem|..] == id2;
      IdIsInjective(k1, s1, k2, s2);
    }
  }

  lemma IdIsUnreserved(key: Option<seq<Byte>>, serial: int)
    requires Nameable(key, serial)
    ensures CertificateId(key, serial).Ok?
    ensures forall i | 0 <= i < |CertificateId(key, serial).value| ::
              Unreserved(CertificateId(key, serial).value[i]) && CertificateId(key, serial).value[i] != '/'
  {
    var left, right := B64(key.value), B64(SerialOctets(serial).value);
    DecodeB64(key.value);
    DecodeB64(SerialOctets(serial).value);
    var id := left + "." + right;
    forall i | 0 <= i < |id| ensures Unreserved(id[i]) && id[i] != '/' {
      if i < |left| {
        assert Value(left[i]).Some?;
      } else if i > |left| {
        assert Value(right[i - |left| - 1]).Some?;
      }
    }
  }
}
