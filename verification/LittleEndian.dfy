/**
 Little-endian integers, as `struct.pack("<...")` writes them and the native walk reads
 them, and byte ranges of a file.
 */
module LittleEndian {
  import opened MagicDivide
  import opened Sequences

  /** The number of values `n` bytes can hold. */
  function Span(n: nat): (s: nat)
    ensures s >= 1
  {
    if n == 0 then 1 else 256 * Span(n - 1)
  }

  function Encode(v: nat, n: nat): (bytes: seq<Byte>)
    ensures |bytes| == n
  {
    if n == 0 then [] else [v % 256] + Encode(v / 256, n - 1)
  }

  function Decode(bytes: seq<Byte>): nat {
    if bytes == [] then 0 else bytes[0] + 256 * Decode(bytes[1..])
  }

  lemma {:induction false} DecodeEncode(v: nat, n: nat)
    requires v < Span(n)
    ensures Decode(Encode(v, n)) == v
  {
    if n > 0 {
      DecodeEncode(v / 256, n - 1);
      assert Encode(v, n)[1..] == Encode(v / 256, n - 1);
    }
  }

  lemma {:induction false} EncodeDecode(bytes: seq<Byte>)
    ensures Encode(Decode(bytes), |bytes|) == bytes
  {
    if bytes != [] {
      EncodeDecode(bytes[1..]);
      LowDigit(bytes[0], Decode(bytes[1..]));
      assert bytes == [bytes[0]] + bytes[1..];
    }
  }

  lemma LowDigit(low: Byte, high: int)
    ensures (low + 256 * high) % 256 == low && (low + 256 * high) / 256 == high
  {
  }

  /** The byte order: byte `k` holds the digit of weight `256^k`. */
  lemma {:induction false} EncodeByte(v: nat, n: nat, k: nat)
    requires k < n
    ensures Encode(v, n)[k] == v / Span(k) % 256
  {
    if k > 0 {
      EncodeByte(v / 256, n - 1, k - 1);
      DivDiv(v, 256, Span(k - 1));
    }
  }

  lemma {:induction false} DecodeBound(bytes: seq<Byte>)
    ensures Decode(bytes) < Span(|bytes|)
  {
    if bytes != [] {
      DecodeBound(bytes[1..]);
    }
  }

  lemma Scaled(low: int, span: int, high: int)
    ensures 256 * (low + span * high) == 256 * low + (256 * span) * high
  {
  }

  /** The low bytes and the high bytes of a number. */
  lemma {:induction false} DecodeSplit(bytes: seq<Byte>, k: nat)
    requires k <= |bytes|
    ensures Decode(bytes) == Decode(bytes[..k]) + Span(k) * Decode(bytes[k..])
  {
    if k > 0 {
      DecodeSplit(bytes[1..], k - 1);
      assert bytes[..k][1..] == bytes[1..][..k - 1] && bytes[1..][k - 1..] == bytes[k..];
      var low, high := Decode(bytes[1..][..k - 1]), Decode(bytes[k..]);
      Scaled(low, Span(k - 1), high);
    } else {
      assert bytes[..0] == [] && bytes[0..] == bytes;
    }
  }

  /** Two's complement. */
  function EncodeSigned(v: int, n: nat): (bytes: seq<Byte>)
    requires 0 <= v + Span(n)
    ensures |bytes| == n
  {
    Encode(if v < 0 then v + Span(n) else v, n)
  }

  function DecodeSigned(bytes: seq<Byte>): int {
    var v := Decode(bytes);
    if 2 * v < Span(|bytes|) then v else v - Span(|bytes|)
  }

  predicate FitsSigned(v: int, n: nat) { 0 <= 2 * v + Span(n) < 2 * Span(n) }

  lemma DecodeEncodeSigned(v: int, n: nat)
    requires FitsSigned(v, n)
    ensures DecodeSigned(EncodeSigned(v, n)) == v
  {
    DecodeEncode(if v < 0 then v + Span(n) else v, n);
  }

  lemma {:induction false} SpanSplit(k: nat, m: nat)
    ensures Span(k + m) == Span(k) * Span(m)
  {
    if k > 0 {
      SpanSplit(k - 1, m);
      MulAssoc(256, Span(k - 1), Span(m));
    }
  }

  lemma MulAssoc(a: int, b: int, c: int)
    ensures a * (b * c) == (a * b) * c
  {
  }

  /** Whole turns of the digits from the next one on leave a digit as it is. */
  lemma WrapDigit(v: int, weight: int, rest: int, whole: int, turns: int)
    requires weight > 0 && whole == weight * rest && rest == 256 * turns
    ensures (v + whole) / weight % 256 == v / weight % 256
  {
    DivShift(v, weight, rest);
    WholeTurns(v / weight, turns);
  }

  lemma DivShift(v: int, b: int, q: int)
    requires b > 0
    ensures (v + b * q) / b == v / b + q
  {
    DivFacts(v, b);
    MulAdd(v / b, q, b);
    DivBounds(v + b * q, b, v / b + q);
  }

  lemma WholeTurns(a: int, turns: int)
    ensures (a + 256 * turns) % 256 == a % 256
  {
  }

  lemma NextSpan(n: nat)
    requires n > 0
    ensures Span(n) == 256 * Span(n - 1)
  {
  }

  /** Negative numbers wrap around: the same digits, of the number taken modulo `256^n`. */
  lemma EncodeSignedByte(v: int, n: nat, k: nat)
    requires FitsSigned(v, n) && k < n
    ensures EncodeSigned(v, n)[k] == v / Span(k) % 256
  {
    var w := if v < 0 then v + Span(n) else v;
    assert EncodeSigned(v, n) == Encode(w, n);
    hide *;
    EncodeByte(w, n, k);
    SpanSplit(k, n - k);
    NextSpan(n - k);
    WrapDigit(v, Span(k), Span(n - k), Span(n), Span(n - k - 1));
  }

  lemma EncodeDecodeSigned(bytes: seq<Byte>)
    ensures FitsSigned(DecodeSigned(bytes), |bytes|)
    ensures EncodeSigned(DecodeSigned(bytes), |bytes|) == bytes
  {
    DecodeBound(bytes);
    EncodeDecode(bytes);
  }

  /** Python's slice `data[at : at + count]`: cut off at the end of the data. */
  function Cut(data: seq<Byte>, at: nat, count: nat): seq<Byte> {
    data[Min(at, |data|)..Min(at + count, |data|)]
  }

  /** A cut within a longer cut. */
  lemma CutWithin(data: seq<Byte>, at: nat, count: nat, lo: nat, hi: nat)
    requires lo <= hi <= count && at + count <= |data|
    ensures Cut(data, at, count)[lo..hi] == Cut(data, at + lo, hi - lo)
  {
  }
}
