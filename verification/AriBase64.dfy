/**
 Unpadded base64url said bit by bit (sections 4 and 5 of RFC 4648), for `_b64` of
 modules/core/ari.py: which symbols there are, how many, and which bits each stands for.
 */
module AriBase64 {
  import opened AriIdentifier

  /** The bits of a byte, the highest first. */
  function BitOf(byte: Byte, i: int): (bit: int)
    requires 0 <= i < 8
    ensures 0 <= bit <= 1
  {
    if i == 0 then byte / 128 % 2 else if i == 1 then byte / 64 % 2 else if i == 2 then byte / 32 % 2
    else if i == 3 then byte / 16 % 2 else if i == 4 then byte / 8 % 2 else if i == 5 then byte / 4 % 2
    else if i == 6 then byte / 2 % 2 else byte % 2
  }

  /** The bits of the bytes in a row, with zeros behind them. */
  function Bit(bytes: seq<Byte>, n: nat): (bit: int)
    ensures 0 <= bit <= 1
  {
    if n / 8 < |bytes| then BitOf(bytes[n / 8], n % 8) else 0
  }

  /** The `k`-th group of six bits. */
  function Sextet(bytes: seq<Byte>, k: nat): (sextet: int)
    ensures 0 <= sextet < 64
  {
    32 * Bit(bytes, 6 * k) + 16 * Bit(bytes, 6 * k + 1) + 8 * Bit(bytes, 6 * k + 2)
    + 4 * Bit(bytes, 6 * k + 3) + 2 * Bit(bytes, 6 * k + 4) + Bit(bytes, 6 * k + 5)
  }

  lemma Halvings(b: Byte)
    ensures b / 128 < 2 && b / 64 == 2 * (b / 128) + b / 64 % 2 && b / 32 == 2 * (b / 64) + b / 32 % 2
    ensures b / 16 == 2 * (b / 32) + b / 16 % 2 && b / 8 == 2 * (b / 16) + b / 8 % 2
    ensures b / 4 == 2 * (b / 8) + b / 4 % 2 && b / 2 == 2 * (b / 4) + b / 2 % 2 && b == 2 * (b / 2) + b % 2
  {
  }

  lemma Remainders(b: Byte)
    ensures b == 4 * (b / 4) + b % 4 && b == 16 * (b / 16) + b % 16 && b == 64 * (b / 64) + b % 64
  {
  }

  /** A byte's high six bits, its low two, its high four, its low four, its high two and its low six. */
  lemma ByteBits(b: Byte)
    ensures b / 4 == 32 * BitOf(b, 0) + 16 * BitOf(b, 1) + 8 * BitOf(b, 2) + 4 * BitOf(b, 3) + 2 * BitOf(b, 4)
                     + BitOf(b, 5)
    ensures b % 4 == 2 * BitOf(b, 6) + BitOf(b, 7)
    ensures b / 16 == 8 * BitOf(b, 0) + 4 * BitOf(b, 1) + 2 * BitOf(b, 2) + BitOf(b, 3)
    ensures b % 16 == 8 * BitOf(b, 4) + 4 * BitOf(b, 5) + 2 * BitOf(b, 6) + BitOf(b, 7)
    ensures b / 64 == 2 * BitOf(b, 0) + BitOf(b, 1)
    ensures b % 64 == 32 * BitOf(b, 2) + 16 * BitOf(b, 3) + 8 * BitOf(b, 4) + 4 * BitOf(b, 5) + 2 * BitOf(b, 6)
                      + BitOf(b, 7)
  {
    Halvings(b);
    Remainders(b);
    assert b / 128 % 2 == b / 128;
  }

  lemma BitAt(bytes: seq<Byte>, i: nat, j: nat)
    requires j < 8
    ensures Bit(bytes, 8 * i + j) == if i < |bytes| then BitOf(bytes[i], j) else 0
  {
    assert (8 * i + j) / 8 == i && (8 * i + j) % 8 == j;
  }

  lemma ByteOfBits(bytes: seq<Byte>, i: nat)
    ensures forall j: nat | j < 8 :: Bit(bytes, 8 * i + j) == if i < |bytes| then BitOf(bytes[i], j) else 0
  {
    forall j: nat | j < 8 ensures Bit(bytes, 8 * i + j) == if i < |bytes| then BitOf(bytes[i], j) else 0 {
      BitAt(bytes, i, j);
    }
  }

  lemma HighSix(b: Byte)
    ensures b / 4 == 32 * BitOf(b, 0) + 16 * BitOf(b, 1) + 8 * BitOf(b, 2) + 4 * BitOf(b, 3) + 2 * BitOf(b, 4)
                     + BitOf(b, 5)
  {
    ByteBits(b);
  }

  lemma LowSix(b: Byte)
    ensures b % 64 == 32 * BitOf(b, 2) + 16 * BitOf(b, 3) + 8 * BitOf(b, 4) + 4 * BitOf(b, 5) + 2 * BitOf(b, 6)
                      + BitOf(b, 7)
  {
    ByteBits(b);
  }

  lemma LowTwoHighFour(b: Byte, c: Byte)
    ensures b % 4 == 2 * BitOf(b, 6) + BitOf(b, 7)
    ensures c / 16 == 8 * BitOf(c, 0) + 4 * BitOf(c, 1) + 2 * BitOf(c, 2) + BitOf(c, 3)
  {
    ByteBits(b);
    ByteBits(c);
  }

  lemma LowFourHighTwo(b: Byte, c: Byte)
    ensures b % 16 == 8 * BitOf(b, 4) + 4 * BitOf(b, 5) + 2 * BitOf(b, 6) + BitOf(b, 7)
    ensures c / 64 == 2 * BitOf(c, 0) + BitOf(c, 1)
  {
    ByteBits(b);
    ByteBits(c);
  }

  lemma FirstSextet(bytes: seq<Byte>)
    requires bytes != []
    ensures Sextet(bytes, 0) == bytes[0] / 4
  {
    HighSix(bytes[0]);
  }

  lemma SecondSextet(bytes: seq<Byte>)
    requires bytes != []
    ensures Sextet(bytes, 1) == bytes[0] % 4 * 16 + (if |bytes| > 1 then bytes[1] / 16 else 0)
  {
    LowTwoHighFour(bytes[0], if |bytes| > 1 then bytes[1] else 0);
    ByteOfBits(bytes, 1);
  }

  lemma ThirdSextet(bytes: seq<Byte>)
    requires |bytes| > 1
    ensures Sextet(bytes, 2) == bytes[1] % 16 * 4 + (if |bytes| > 2 then bytes[2] / 64 else 0)
  {
    LowFourHighTwo(bytes[1], if |bytes| > 2 then bytes[2] else 0);
    ByteOfBits(bytes, 1);
    ByteOfBits(bytes, 2);
  }

  lemma FourthSextet(bytes: seq<Byte>)
    requires |bytes| > 2
    ensures Sextet(bytes, 3) == bytes[2] % 64
  {
    LowSix(bytes[2]);
    ByteOfBits(bytes, 2);
  }

  /** The four groups of six bits in up to three bytes. */
  lemma FirstSextets(bytes: seq<Byte>)
    requires bytes != []
    ensures Sextet(bytes, 0) == bytes[0] / 4
    ensures Sextet(bytes, 1) == bytes[0] % 4 * 16 + (if |bytes| > 1 then bytes[1] / 16 else 0)
    ensures |bytes| > 1 ==> Sextet(bytes, 2) == bytes[1] % 16 * 4 + (if |bytes| > 2 then bytes[2] / 64 else 0)
    ensures |bytes| > 2 ==> Sextet(bytes, 3) == bytes[2] % 64
  {
    FirstSextet(bytes);
    SecondSextet(bytes);
    if |bytes| > 1 { ThirdSextet(bytes); }
    if |bytes| > 2 { FourthSextet(bytes); }
  }

  lemma SextetsShift(bytes: seq<Byte>, k: nat)
    requires |bytes| >= 3
    ensures Sextet(bytes, k + 4) == Sextet(bytes[3..], k)
  {
    forall n: nat ensures Bit(bytes, n + 24) == Bit(bytes[3..], n) {
      assert (n + 24) / 8 == n / 8 + 3 && (n + 24) % 8 == n % 8;
    }
    assert 6 * (k + 4) == 6 * k + 24;
  }

  predicate Says(symbols: string, bytes: seq<Byte>, k: nat)
    requires k < |symbols|
  {
    symbols[k] == Symbol(Sextet(bytes, k))
  }

  lemma FirstSymbols(bytes: seq<Byte>)
    requires bytes != []
    ensures |Padded(bytes)| >= 4
    ensures forall k: nat | k <= |bytes| && k < 4 :: Says(Padded(bytes), bytes, k)
  {
    FirstSextets(bytes);
    var symbols := Padded(bytes);
    assert Says(symbols, bytes, 0) && Says(symbols, bytes, 1);
  }

  /** The symbols of the bytes are those of their groups of six bits, as many as it takes to hold
      every bit, and no padding. */
  lemma {:induction false} B64Is(bytes: seq<Byte>)
    ensures |B64(bytes)| == (8 * |bytes| + 5) / 6
    ensures forall k: nat | k < |B64(bytes)| :: Says(B64(bytes), bytes, k)
  {
    if bytes == [] {
      assert B64(bytes) == "";
    } else {
      FirstSymbols(bytes);
      if |bytes| <= 2 {
        B64Short(bytes);
        forall k: nat | k < |B64(bytes)| ensures Says(B64(bytes), bytes, k) {
          assert Says(Padded(bytes), bytes, k);
        }
      } else {
        B64Step(bytes);
        B64Is(bytes[3..]);
        forall k: nat | k < |B64(bytes)| ensures Says(B64(bytes), bytes, k) {
          if k < 4 {
            assert Says(Padded(bytes), bytes, k);
          } else {
            assert Says(B64(bytes[3..]), bytes[3..], k - 4);
            SextetsShift(bytes, k - 4);
          }
        }
      }
    }
  }

  /** The alphabet: the capital letters, the small ones, the digits, and the two signs safe in a URL. */
  lemma AlphabetIs(i: int)
    requires 0 <= i < 64
    ensures i < 26 ==> Symbol(i) as int == 65 + i
    ensures 26 <= i < 52 ==> Symbol(i) as int == 97 + i - 26
    ensures 52 <= i < 62 ==> Symbol(i) as int == 48 + i - 52
    ensures Symbol(62) == '-' && Symbol(63) == '_'
  {
  }
}
