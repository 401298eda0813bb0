/** The padded hex strings in which field elements are stored and searched for. */
module PaddedHex {
  import opened Basics
  import opened Digits
  import opened LinkedLeaves

  const BYTES: nat := 32

  // ----- Bytes as hex

  function HexDigit(n: nat): char
    requires n < 16
  {
    if n < 10 then '0' + n as char else 'a' + (n - 10) as char
  }

  function HexByte(b: nat): string
    requires b < 256
  {
    [HexDigit(b / 16), HexDigit(b % 16)]
  }

  function HexBytes(bytes: seq<nat>): (s: string)
    requires AllBelow(256, bytes)
    ensures |s| == 2 * |bytes|
  {
    if bytes == [] then [] else HexByte(bytes[0]) + HexBytes(bytes[1..])
  }

  function Zeros(n: nat): (s: string)
    ensures |s| == n && forall i | 0 <= i < n :: s[i] == '0'
  {
    if n == 0 then "" else "0" + Zeros(n - 1)
  }

  /** Writes the bytes as two digits each and pads on the left to the full width. */
  method BytesToHexLpadded(bytes: seq<nat>, maxBytes: nat) returns (s: string)
    requires AllBelow(256, bytes) && |bytes| <= maxBytes
    ensures s == Zeros(2 * (maxBytes - |bytes|)) + HexBytes(bytes)
  {
    var hex := "";
    for i := 0 to |bytes|
      invariant hex == HexBytes(bytes[..i])
    {
      HexBytesSnoc(bytes[..i], bytes[i]);
      assert bytes[..i + 1] == bytes[..i] + [bytes[i]];
      hex := hex + HexByte(bytes[i]);
    }
    assert bytes[..|bytes|] == bytes;
    s := Zeros(2 * maxBytes - |hex|) + hex;
  }

  lemma {:induction false} HexBytesSnoc(bytes: seq<nat>, b: nat)
    requires AllBelow(256, bytes) && b < 256
    ensures HexBytes(bytes + [b]) == HexBytes(bytes) + HexByte(b)
    decreases |bytes|
  {
    if bytes == [] {
      assert bytes + [b] == [b] && [b][1..] == [];
    } else {
      assert (bytes + [b])[1..] == bytes[1..] + [b];
      HexBytesSnoc(bytes[1..], b);
    }
  }

  // ----- Field elements as strings

  /** The stored form: little-endian bytes reversed, then hex. */
  function Encode(v: Fr): (s: string)
  {
    DigitsBelow(256, v, BYTES);
    ReverseBelow(256, ToDigits(256, v, BYTES));
    HexBytes(BigEndian(256, v, BYTES))
  }

  /** What serializing does, step by step, gives the stored form: 32 bytes never need padding. */
  method SerializeFrPadded(v: Fr) returns (s: string)
    ensures s == Encode(v) && |s| == 2 * BYTES
  {
    var bytes := ToDigits(256, v, BYTES);
    DigitsBelow(256, v, BYTES);
    ReverseBelow(256, bytes);
    s := BytesToHexLpadded(Reverse(bytes), BYTES);
    assert Zeros(0) + HexBytes(Reverse(bytes)) == HexBytes(Reverse(bytes));
  }

  function DigitValue(c: char): Option<nat> {
    if '0' <= c <= '9' then Some((c - '0') as nat)
    else if 'a' <= c <= 'f' then Some((c - 'a') as nat + 10)
    else if 'A' <= c <= 'F' then Some((c - 'A') as nat + 10)
    else None
  }

  function DecodeBytes(s: string): Option<seq<nat>> {
    if s == "" then Some([])
    else if |s| == 1 then None
    else
      match (DigitValue(s[0]), DigitValue(s[1]), DecodeBytes(s[2..]))
      case (Some(hi), Some(lo), Some(rest)) => Some([16 * hi + lo] + rest)
      case (_, _, _) => None
  }

  /** Decodes the last 32 bytes; too few bytes, or a value not below the field order, fail. */
  function DecodeFr(order: nat, s: string): Option<Fr> {
    match DecodeBytes(s)
    case None => None
    case Some(bytes) => FromBytes(order, if |bytes| > BYTES then bytes[|bytes| - BYTES..] else bytes)
  }

  function FromBytes(order: nat, bytes: seq<nat>): Option<Fr> {
    var v := FromDigits(256, Reverse(bytes));
    if |bytes| < BYTES || v >= order then None else Some(v)
  }

  lemma {:induction false} DigitRoundTrip(n: nat)
    requires n < 16
    ensures DigitValue(HexDigit(n)) == Some(n)
  {
  }

  /** The digits written, and those read: capitals are read too, and nothing else. */
  lemma {:induction false} DigitsWritten(n: nat, c: char)
    requires n < 16
    ensures HexDigit(n) == "0123456789abcdef"[n]
    ensures DigitValue(c) == Some(n) <==> c == "0123456789abcdef"[n] || c == "0123456789ABCDEF"[n]
  {
  }

  lemma {:induction false} BytesRoundTrip(bytes: seq<nat>)
    requires AllBelow(256, bytes)
    ensures DecodeBytes(HexBytes(bytes)) == Some(bytes)
    decreases |bytes|
  {
    if bytes != [] {
      var b, s := bytes[0], HexBytes(bytes);
      DigitRoundTrip(b / 16);
      DigitRoundTrip(b % 16);
      assert s[0] == HexDigit(b / 16) && s[1] == HexDigit(b % 16) && s[2..] == HexBytes(bytes[1..]);
      BytesRoundTrip(bytes[1..]);
      assert bytes == [b] + bytes[1..];
    }
  }

  /** Every canonical element survives being stored. */
  lemma {:induction false} FrRoundTrip(order: nat, v: Fr)
    requires v < order <= Pow(256, BYTES)
    ensures DecodeFr(order, Encode(v)) == Some(v)
  {
    var bytes := BigEndian(256, v, BYTES);
    DigitsBelow(256, v, BYTES);
    ReverseBelow(256, ToDigits(256, v, BYTES));
    BytesRoundTrip(bytes);
    ReverseTwice(ToDigits(256, v, BYTES));
    FromToDigits(256, v, BYTES);
  }

  /** What is not hex fails; of more than 32 bytes the last 32 count; fewer, or a value not below the
      order, fail. */
  lemma {:induction false} DecodeLengths(order: nat, s: string, tail: seq<nat>)
    requires DecodeBytes(s).Some? && |DecodeBytes(s).value| >= BYTES ==>
             tail == DecodeBytes(s).value[|DecodeBytes(s).value| - BYTES..]
    ensures DecodeFr(order, s).Some? <==>
              && DecodeBytes(s).Some? && |DecodeBytes(s).value| >= BYTES && FromDigits(256, Reverse(tail)) < order
    ensures DecodeFr(order, s).Some? ==> DecodeFr(order, s).value == FromDigits(256, Reverse(tail))
  {
    if DecodeBytes(s).Some? && |DecodeBytes(s).value| == BYTES { assert tail == DecodeBytes(s).value; }
  }

  // ----- Order

  /** String order, for strings of equal length. */
  predicate StringLess(a: string, c: string)
    requires |a| == |c|
  {
    a != [] && (a[0] < c[0] || (a[0] == c[0] && StringLess(a[1..], c[1..])))
  }

  lemma {:induction false} HexDigitOrder(m: nat, n: nat)
    requires m < 16 && n < 16
    ensures HexDigit(m) < HexDigit(n) <==> m < n
    ensures HexDigit(m) == HexDigit(n) <==> m == n
  {
  }

  lemma {:induction false} HexBytesOrder(a: seq<nat>, c: seq<nat>)
    requires |a| == |c| && AllBelow(256, a) && AllBelow(256, c)
    ensures StringLess(HexBytes(a), HexBytes(c)) <==> LexLess(a, c)
    decreases |a|
  {
    if a != [] {
      var x, y, s, t := a[0], c[0], HexBytes(a), HexBytes(c);
      HexDigitOrder(x / 16, y / 16);
      HexDigitOrder(x % 16, y % 16);
      LeadDecides(16, x % 16, y % 16, x / 16, y / 16);
      assert s[1..][1..] == HexBytes(a[1..]) && t[1..][1..] == HexBytes(c[1..]);
      assert s[0] == HexDigit(x / 16) && s[1..][0] == HexDigit(x % 16);
      assert t[0] == HexDigit(y / 16) && t[1..][0] == HexDigit(y % 16);
      HexBytesOrder(a[1..], c[1..]);
    }
  }

  lemma {:induction false} EncodeLength(v: Fr)
    ensures |Encode(v)| == 2 * BYTES
  {
    DigitsBelow(256, v, BYTES);
    ReverseBelow(256, ToDigits(256, v, BYTES));
  }

  ghost predicate EncodedBelow(v: Fr, w: Fr) {
    EncodeLength(v);
    EncodeLength(w);
    StringLess(Encode(v), Encode(w))
  }

  /** String order of the stored forms is numeric order. */
  lemma {:induction false} EncodeOrder(v: Fr, w: Fr)
    requires v < Pow(256, BYTES) && w < Pow(256, BYTES)
    ensures EncodedBelow(v, w) <==> v < w
  {
    DigitsBelow(256, v, BYTES);
    DigitsBelow(256, w, BYTES);
    ReverseBelow(256, ToDigits(256, v, BYTES));
    ReverseBelow(256, ToDigits(256, w, BYTES));
    HexBytesOrder(BigEndian(256, v, BYTES), BigEndian(256, w, BYTES));
    BigEndianOrder(256, v, w, BYTES);
  }

  /** The entry that a descending search of stored strings below `x` finds first. */
  ghost predicate StringLow(es: Entries, low: nat, x: Fr) {
    && low in es && EncodedBelow(es[low].value, x)
    && forall j | j in es && EncodedBelow(es[j].value, x) :: !EncodedBelow(es[low].value, es[j].value)
  }

  /** The string search finds the numeric predecessor. */
  lemma {:induction false} StringSearchFindsLow(es: Entries, low: nat, x: Fr)
    requires x < Pow(256, BYTES) && forall j | j in es :: es[j].value < Pow(256, BYTES)
    ensures StringLow(es, low, x) <==> IsLow(es, low, x)
  {
    forall j | j in es ensures EncodedBelow(es[j].value, x) <==> es[j].value < x { EncodeOrder(es[j].value, x); }
    if low in es {
      forall j | j in es ensures EncodedBelow(es[low].value, es[j].value) <==> es[low].value < es[j].value {
        EncodeOrder(es[low].value, es[j].value);
      }
    }
  }
}
