/**
 * The remaining-length field of the fixed header (section 2.2.3 of MQTT 3.1.1):
 * a base-128 integer, least significant digit first, where bit 7 of a byte says
 * that another byte follows.
 *
 * EncRL and DecRL are the value-level pair that the buffer routines
 * encodeRemainingLength and decodeRemainingLength append and read; the
 * Packets module proves the buffer routines equal to them.
 */
module RemainingLength {
  import opened Common

  /** Bit 7 (`b & 0x80 != 0`): another byte of the length follows. */
  predicate More(b: byte) { b >= 0x80 }

  /** Bits 6-0 (`b & 0x7F`): one base-128 digit. */
  function Digit(b: byte): nat { (b % 0x80) as nat }

  function Pow128(k: nat): (r: nat)
    ensures r >= 1
  {
    if k == 0 then 1 else 128 * Pow128(k - 1)
  }

  /** The number a run of length bytes denotes, least significant digit first. */
  function Value(s: seq<byte>): nat
  {
    if s == [] then 0 else Digit(s[0]) + 128 * Value(s[1..])
  }

  /** A complete length field: bit 7 is set on every byte but the last. */
  predicate Terminated(s: seq<byte>)
  {
    |s| > 0 && !More(s[|s| - 1]) && forall i :: 0 <= i < |s| - 1 ==> More(s[i])
  }

  /** The byte that carries digit `d`, with bit 7 set (`encoded |= 0x80`) when `more`. */
  function LengthByte(d: nat, more: bool): (b: byte)
    requires d < 0x80
    ensures Digit(b) == d && More(b) == more
  {
    if more then
      OrHighBit(d as byte);
      Or(d as byte, 0x80)
    else d as byte
  }

  /**
   * The bytes encodeRemainingLength appends for `n`: the base-128 digits of
   * `n`, least significant first, bit 7 set on all but the last. Zero has no
   * digits, so nothing is appended for it.
   */
  function EncRL(n: nat): (r: seq<byte>)
    ensures Value(r) == n
    ensures n == 0 <==> r == []
    ensures n > 0 ==> Terminated(r) && Pow128(|r| - 1) <= n < Pow128(|r|)
    decreases n
  {
    if n == 0 then []
    else
      var rest := EncRL(n / 128);
      EncRLStep(n % 128, n / 128, rest);
      [LengthByte(n % 128, n / 128 > 0)] + rest
  }

  /** One step of EncRL: the byte carrying digit `d` in front of the encoding of `q` encodes `d + 128 * q`. */
  lemma EncRLStep(d: nat, q: nat, rest: seq<byte>)
    requires d < 0x80 && d + 128 * q > 0 && Value(rest) == q && (q == 0 <==> rest == [])
    requires q > 0 ==> Terminated(rest) && Pow128(|rest| - 1) <= q < Pow128(|rest|)
    ensures var r := [LengthByte(d, q > 0)] + rest;
      Value(r) == d + 128 * q && Terminated(r) && Pow128(|rest|) <= d + 128 * q < Pow128(|rest| + 1)
  {
    var b := LengthByte(d, q > 0);
    var r := [b] + rest;
    assert r[0] == b && r[1..] == rest;
    if q == 0 {
      assert r == [b];
    } else {
      assert r[|r| - 1] == rest[|rest| - 1];
      forall i | 0 <= i < |r| - 1 ensures More(r[i]) {
        if i > 0 { assert r[i] == rest[i - 1]; }
      }
      assert Pow128(|rest|) == 128 * Pow128(|rest| - 1);
    }
  }

  /** What decodeRemainingLength returns, and how many bytes it read. */
  datatype Decoded = Decoded(value: nat, err: Option<Error>, consumed: nat)

  function Shift(d: Decoded, k: nat): Decoded
  {
    d.(consumed := d.consumed + k)
  }

  /**
   * The decoding loop from a state where `value` has been accumulated and the
   * multiplier is `multiplier`, reading the bytes `s`. Like the source, it
   * multiplies before it checks the bound, so the 4th byte read always fails.
   */
  function DecodeFrom(s: seq<byte>, value: nat, multiplier: nat): Decoded
    decreases |s|
  {
    if |s| == 0 then Decoded(0, Some(EOF), 0)
    else
      var value' := value + Digit(s[0]) * multiplier;
      var multiplier' := multiplier * 128;
      if multiplier' > 128 * 128 * 128 then Decoded(0, Some(MalformedRemainingLength), 1)
      else if !More(s[0]) then Decoded(value', None, 1)
      else Shift(DecodeFrom(s[1..], value', multiplier'), 1)
  }

  /** What decodeRemainingLength reports when the unread bytes of the buffer are `s`. */
  function DecRL(s: seq<byte>): Decoded
  {
    DecodeFrom(s, 0, 1)
  }

  // ---------------------------------------------------------------------------
  // The encoder

  /** Every length the standard allows (up to 268,435,455) takes at most 4 bytes; every uint32 at most 5. */
  lemma EncRLSize(n: nat)
    ensures n <= 268435455 ==> |EncRL(n)| <= 4
    ensures n < Two32 ==> |EncRL(n)| <= 5
    ensures 0 < n < 2097152 ==> |EncRL(n)| <= 3
    ensures n >= 2097152 ==> |EncRL(n)| >= 4
  {
    var r := EncRL(n);
    if n > 0 {
      assert Pow128(3) == 2097152 && Pow128(4) == 268435456 && Pow128(5) == 34359738368;
      PowOrder(3, |r| - 1);
      PowOrder(4, |r| - 1);
      PowOrder(5, |r| - 1);
      PowOrder(|r|, 3);
    }
  }

  lemma {:induction false} PowOrder(i: nat, j: nat)
    ensures i <= j <==> Pow128(i) <= Pow128(j)
    decreases i + j
  {
    if i > 0 && j > 0 { PowOrder(i - 1, j - 1); }
    else if i > 0 { assert Pow128(i) >= 128; }
    else if j > 0 { PowOrder(0, j - 1); }
  }

  // ---------------------------------------------------------------------------
  // The decoder, case by case

  /** A complete length field of at most 3 bytes (with anything after it) is accepted, and its value returned. */
  lemma {:induction false} DecodeFromAccepts(s: seq<byte>, value: nat, j: nat, k: nat)
    requires 1 <= k <= |s| && j + k <= 3 && Terminated(s[..k])
    ensures DecodeFrom(s, value, Pow128(j)) == Decoded(value + Pow128(j) * Value(s[..k]), None, k)
    decreases k
  {
    var m := Pow128(j);
    var v := value + Digit(s[0]) * m;
    PowStep(j);
    PowOrder(j + 1, 3);
    var t := s[..k];
    assert t[0] == s[0];
    if k == 1 {
      assert t[1..] == [];
      assert Value(t) == Digit(s[0]);
      assert !More(s[0]);
      assert DecodeFrom(s, value, m) == Decoded(v, None, 1);
      assert v == value + m * Value(t);
    } else {
      assert More(t[0]);
      TerminatedTail(t);
      assert s[1..][..k - 1] == t[1..];
      DecodeFromAccepts(s[1..], v, j + 1, k - 1);
      assert Value(t) == Digit(s[0]) + 128 * Value(t[1..]);
      Distribute(value, m, Digit(s[0]), Value(t[1..]));
      assert DecodeFrom(s, value, m) == Shift(DecodeFrom(s[1..], v, m * 128), 1);
    }
  }

  lemma TerminatedTail(t: seq<byte>)
    requires |t| > 1 && Terminated(t)
    ensures Terminated(t[1..])
  {
    forall i | 0 <= i < |t| - 2 ensures More(t[1..][i]) {
      assert t[1..][i] == t[i + 1];
    }
  }

  lemma Distribute(value: nat, m: nat, d: nat, w: nat)
    ensures value + d * m + (m * 128) * w == value + m * (d + 128 * w)
  {
  }

  /** Once 3 - j bytes with bit 7 set have been read, reading one more byte fails as malformed. */
  lemma {:induction false} DecodeFromRejects(s: seq<byte>, value: nat, j: nat)
    requires j <= 3 && |s| >= 4 - j
    requires forall i :: 0 <= i < 3 - j ==> More(s[i])
    ensures DecodeFrom(s, value, Pow128(j)) == Decoded(0, Some(MalformedRemainingLength), 4 - j)
    decreases 3 - j
  {
    assert Pow128(j + 1) == Pow128(j) * 128;
    if j < 3 {
      PowOrder(j + 1, 3);
      DecodeFromRejects(s[1..], value + Digit(s[0]) * Pow128(j), j + 1);
    } else {
      assert Pow128(4) == 268435456;
    }
  }

  /** A buffer that runs out while bit 7 is still set yields the read error and value 0. */
  lemma {:induction false} DecodeFromExhausts(s: seq<byte>, value: nat, j: nat)
    requires j + |s| <= 3
    requires forall i :: 0 <= i < |s| ==> More(s[i])
    ensures DecodeFrom(s, value, Pow128(j)) == Decoded(0, Some(EOF), |s|)
    decreases |s|
  {
    if |s| > 0 {
      var m := Pow128(j);
      var v := value + Digit(s[0]) * m;
      PowStep(j);
      PowOrder(j + 1, 3);
      assert More(s[0]) && m * 128 <= 2097152;
      assert DecodeFrom(s, value, m) == Shift(DecodeFrom(s[1..], v, m * 128), 1);
      AllMoreTail(s);
      DecodeFromExhausts(s[1..], v, j + 1);
    }
  }

  lemma PowStep(j: nat)
    ensures Pow128(j + 1) == Pow128(j) * 128 && Pow128(3) == 2097152
  {
  }

  lemma AllMoreTail(s: seq<byte>)
    requires |s| > 0 && forall i :: 0 <= i < |s| ==> More(s[i])
    ensures forall i :: 0 <= i < |s[1..]| ==> More(s[1..][i])
  {
    forall i | 0 <= i < |s[1..]| ensures More(s[1..][i]) {
      assert s[1..][i] == s[i + 1];
    }
  }

  /** Acceptance: a length field of 1 to 3 bytes decodes to its value, whatever follows it. */
  lemma DecRLAccepts(s: seq<byte>, k: nat)
    requires 1 <= k <= 3 && k <= |s| && Terminated(s[..k])
    ensures DecRL(s) == Decoded(Value(s[..k]), None, k)
  {
    DecodeFromAccepts(s, 0, 0, k);
  }

  /**
   * Rejection: whenever the first three bytes all have bit 7 set, the decoder
   * reads a 4th byte and reports a malformed length with value 0, whatever
   * that byte is. MQTT 3.1.1 allows 4-byte lengths, so every length from
   * 2,097,152 to 268,435,455 is rejected by this decoder.
   */
  lemma DecRLRejects(s: seq<byte>)
    requires |s| >= 4 && More(s[0]) && More(s[1]) && More(s[2])
    ensures DecRL(s) == Decoded(0, Some(MalformedRemainingLength), 4)
  {
    DecodeFromRejects(s, 0, 0);
  }

  /** Exhaustion: running out of bytes before a byte with bit 7 clear returns the read error with value 0. */
  lemma DecRLExhausts(s: seq<byte>)
    requires |s| <= 3 && forall i :: 0 <= i < |s| ==> More(s[i])
    ensures DecRL(s) == Decoded(0, Some(EOF), |s|)
  {
    DecodeFromExhausts(s, 0, 0);
  }

  /**
   * The three cases above cover every input: the decoder never reads more
   * than 4 bytes, succeeds exactly on a complete field of at most 3 bytes,
   * and otherwise returns value 0 with the read error or the malformed error.
   */
  lemma DecRLCases(s: seq<byte>)
    ensures var d := DecRL(s);
      && d.consumed <= 4 && d.consumed <= |s|
      && (d.err == None <==> 1 <= d.consumed <= 3 && Terminated(s[..d.consumed]))
      && (d.err == None ==> d.value == Value(s[..d.consumed]))
      && (d.err != None ==> d.value == 0)
      && (d.err == Some(MalformedRemainingLength) <==> |s| >= 4 && More(s[0]) && More(s[1]) && More(s[2]))
      && (d.err == Some(EOF) <==> |s| == d.consumed <= 3 && forall i :: 0 <= i < |s| ==> More(s[i]))
  {
    if |s| >= 1 && !More(s[0]) {
      DecRLAccepts(s, 1);
    } else if |s| >= 2 && !More(s[1]) {
      assert forall i :: 0 <= i < 1 ==> More(s[..2][i]);
      DecRLAccepts(s, 2);
    } else if |s| >= 3 && !More(s[2]) {
      assert forall i :: 0 <= i < 2 ==> More(s[..3][i]);
      DecRLAccepts(s, 3);
    } else if |s| >= 4 {
      DecRLRejects(s);
    } else {
      DecRLExhausts(s);
    }
  }

  /** k length bytes denote a number below 128^k. */
  lemma {:induction false} ValueBound(s: seq<byte>)
    ensures Value(s) < Pow128(|s|)
  {
    if s != [] {
      ValueBound(s[1..]);
      assert Value(s[1..]) + 1 <= Pow128(|s| - 1);
      assert 128 * (Value(s[1..]) + 1) <= 128 * Pow128(|s| - 1);
    }
  }

  /** No value the decoder accepts reaches 2,097,152 = 128^3. */
  lemma DecodedBelow(s: seq<byte>)
    ensures DecRL(s).value < 2097152
  {
    DecRLCases(s);
    var d := DecRL(s);
    if d.err == None {
      ValueBound(s[..d.consumed]);
      PowOrder(d.consumed, 3);
      PowStep(2);
    }
  }

  // ---------------------------------------------------------------------------
  // Encoder and decoder together

  /**
   * Round trip: decoding the bytes EncRL(n) appends, followed by anything,
   * gives back `n` with no error, for every n in 1..2,097,151.
   */
  lemma RoundTrip(n: nat, rest: seq<byte>)
    requires 1 <= n <= 2097151
    ensures DecRL(EncRL(n) + rest) == Decoded(n, None, |EncRL(n)|)
  {
    var e := EncRL(n);
    EncRLSize(n);
    assert (e + rest)[..|e|] == e;
    DecRLAccepts(e + rest, |e|);
  }

  /** The round trip as a reader uses it: the length, no error, 1 to 3 bytes read, and the rest left unread. */
  lemma DecodeAfterEncode(n: nat, rest: seq<byte>)
    requires 1 <= n <= 2097151
    ensures var d := DecRL(EncRL(n) + rest);
      && d.value == n && d.err == None && 1 <= d.consumed <= 3
      && d.consumed <= |EncRL(n) + rest| && (EncRL(n) + rest)[d.consumed..] == rest
  {
    RoundTrip(n, rest);
    EncRLSize(n);
  }

  /**
   * From 2,097,152 on, the encoding has at least 4 bytes, the first three with
   * bit 7 set, and the decoder rejects it.
   */
  lemma LargeLengthRejected(n: nat, rest: seq<byte>)
    requires n >= 2097152
    ensures DecRL(EncRL(n) + rest) == Decoded(0, Some(MalformedRemainingLength), 4)
  {
    var e := EncRL(n);
    EncRLSize(n);
    assert e[0] == (e + rest)[0] && e[1] == (e + rest)[1] && e[2] == (e + rest)[2];
    DecRLRejects(e + rest);
  }

  /** Zero is encoded as no bytes at all, where section 2.2.3 of MQTT 3.1.1 asks for a single 0x00. */
  lemma ZeroHasNoEncoding()
    ensures EncRL(0) == [] && DecRL(EncRL(0)) == Decoded(0, Some(EOF), 0)
  {
  }

  /** The package's test: 34 is one byte and comes back. */
  lemma TestValueOneByte()
    ensures EncRL(34) == [34]
    ensures DecRL(EncRL(34)) == Decoded(34, None, 1)
  {
    RoundTrip(34, []);
    assert EncRL(34) + [] == EncRL(34);
  }

  /** The package's test: 1,234,567 takes three bytes and comes back. */
  lemma TestValueThreeBytes()
    ensures |EncRL(1234567)| == 3
    ensures DecRL(EncRL(1234567)) == Decoded(1234567, None, 3)
  {
    var e := EncRL(1234567);
    EncRLSize(1234567);
    assert Pow128(2) == 16384;
    PowOrder(|e| - 1, 1);
    RoundTrip(1234567, []);
    assert e + [] == e;
  }

  /** The package's test: 999,999,999 does not decode; the decoder reports a malformed length. */
  lemma TestValueTooLarge()
    ensures DecRL(EncRL(999999999)) == Decoded(0, Some(MalformedRemainingLength), 4)
  {
    LargeLengthRejected(999999999, []);
    assert EncRL(999999999) + [] == EncRL(999999999);
  }
}
