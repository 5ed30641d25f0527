/** Bytes, and the padded base64 of section 4 of RFC 4648. */
module Bytes {
  type Byte = x: int | 0 <= x < 256

  /** A Go byte slice: nil is told apart from empty by the JSON printer. */
  datatype Slice = Nil | Bytes(bytes: seq<Byte>) {
    /** What a caller that copies or ranges over the slice sees. */
    function Content(): seq<Byte> {
      if Nil? then [] else bytes
    }
  }

  datatype Option<+T> = None | Some(value: T)

  ghost predicate Distinct<T>(s: seq<T>) {
    forall i, j | 0 <= i < j < |s| :: s[i] != s[j]
  }

  lemma AppendDistinct<T>(s: seq<T>, x: T)
    requires Distinct(s) && x !in s
    ensures Distinct(s + [x])
  {
  }

  function Range<T(==)>(s: seq<T>): set<T> {
    set x | x in s
  }

  predicate HasPrefix<T(==)>(s: seq<T>, prefix: seq<T>) {
    |prefix| <= |s| && s[..|prefix|] == prefix
  }

  predicate HasSuffix<T(==)>(s: seq<T>, suffix: seq<T>) {
    |suffix| <= |s| && s[|s| - |suffix|..] == suffix
  }
}

module Base64 {
  import opened Bytes

  const PAD: Byte := 61

  /** The character for a six-bit value. */
  function Digit(v: int): Byte
    requires 0 <= v < 64
  {
    if v < 26 then 65 + v
    else if v < 52 then 71 + v
    else if v < 62 then v - 4
    else if v == 62 then 43
    else 47
  }

  /** The six-bit value of a character, if it has one. */
  function Value(c: Byte): (v: Option<int>)
    ensures v.Some? ==> 0 <= v.value < 64 && Digit(v.value) == c
    ensures v.None? ==> forall n | 0 <= n < 64 :: Digit(n) != c
  {
    if 65 <= c <= 90 then Some(c - 65)
    else if 97 <= c <= 122 then Some(c - 71)
    else if 48 <= c <= 57 then Some(c + 4)
    else if c == 43 then Some(62)
    else if c == 47 then Some(63)
    else None
  }

  /** Three bytes as four characters. */
  function Group(x: Byte, y: Byte, z: Byte): (g: seq<Byte>)
    ensures |g| == 4
  {
    [Digit(x / 4), Digit(x % 4 * 16 + y / 16), Digit(y % 16 * 4 + z / 64), Digit(z % 64)]
  }

  function Encode(b: seq<Byte>): (t: seq<Byte>)
    ensures |t| == (|b| + 2) / 3 * 4
  {
    if |b| == 0 then []
    else if |b| == 1 then
      [Digit(b[0] / 4), Digit(b[0] % 4 * 16), PAD, PAD]
    else if |b| == 2 then
      [Digit(b[0] / 4), Digit(b[0] % 4 * 16 + b[1] / 16), Digit(b[1] % 16 * 4), PAD]
    else
      Group(b[0], b[1], b[2]) + Encode(b[3..])
  }

  /** The bytes of the last group, which may be padded. */
  function DecodeLast(v0: int, v1: int, c2: Byte, c3: Byte): (b: Option<seq<Byte>>)
    requires 0 <= v0 < 64 && 0 <= v1 < 64
    ensures b.Some? ==> |b.value| <= 3
  {
    var b0 := v0 * 4 + v1 / 16;
    if c2 == PAD then if c3 == PAD then Some([b0]) else None
    else match Value(c2) {
      case None => None
      case Some(v2) =>
        var b1 := v1 % 16 * 16 + v2 / 4;
        if c3 == PAD then Some([b0, b1])
        else match Value(c3) {
          case None => None
          case Some(v3) => Some([b0, b1, v2 % 4 * 64 + v3])
        }
    }
  }

  /** Groups of four; only the last may be padded. Bits dropped by padding are not checked. */
  function Decode(t: seq<Byte>): (b: Option<seq<Byte>>)
    ensures b.Some? ==> |b.value| <= |t|
  {
    if |t| == 0 then Some([])
    else if |t| < 4 || Value(t[0]).None? || Value(t[1]).None? then None
    else
      var last := DecodeLast(Value(t[0]).value, Value(t[1]).value, t[2], t[3]);
      if last.None? || |t| == 4 then last
      else if t[3] == PAD then None
      else match Decode(t[4..]) {
        case None => None
        case Some(rest) => Some(last.value + rest)
      }
  }

  lemma DigitValue(v: int)
    requires 0 <= v < 64
    ensures Value(Digit(v)) == Some(v) && Digit(v) != PAD
  {
  }

  /** The alphabet: capital letters, small letters, digits, each in order, then plus and slash. */
  lemma Alphabet()
    ensures Digit(0) as char == 'A' && Digit(25) as char == 'Z' && Digit(26) as char == 'a' && Digit(51) as char == 'z'
    ensures Digit(52) as char == '0' && Digit(61) as char == '9' && Digit(62) as char == '+' && Digit(63) as char == '/'
    ensures forall v | 0 <= v < 61 && v != 25 && v != 51 :: Digit(v + 1) == Digit(v) + 1
  {
  }

  /** A group is one number, in base 256 and in base 64. */
  lemma GroupIsNumber(x: Byte, y: Byte, z: Byte)
    ensures var g := Group(x, y, z);
      && (forall i | 0 <= i < 4 :: Value(g[i]).Some?)
      && ((Value(g[0]).value * 64 + Value(g[1]).value) * 64 + Value(g[2]).value) * 64 + Value(g[3]).value
         == (x * 256 + y) * 256 + z
  {
    DigitValue(x / 4);
    DigitValue(x % 4 * 16 + y / 16);
    DigitValue(y % 16 * 4 + z / 64);
    DigitValue(z % 64);
  }

  /** Groups stand one after the other. */
  lemma {:induction false} Grouping(b: seq<Byte>)
    requires |b| >= 3
    ensures Encode(b) == Group(b[0], b[1], b[2]) + Encode(b[3..])
  {
  }

  /** A short last group is filled up with zeros and marked by the padding. */
  lemma {:induction false} LastGroup(b: seq<Byte>)
    requires 1 <= |b| <= 2
    ensures Encode(b) == if |b| == 1 then Group(b[0], 0, 0)[..2] + [PAD, PAD] else Group(b[0], b[1], 0)[..3] + [PAD]
  {
  }

  /** Splitting three bytes into four six-bit values and joining them again. */
  lemma SplitJoin(x: Byte, y: Byte, z: Byte)
    ensures x / 4 * 4 + (x % 4 * 16 + y / 16) / 16 == x
    ensures (x % 4 * 16 + y / 16) % 16 * 16 + (y % 16 * 4 + z / 64) / 4 == y
    ensures (y % 16 * 4 + z / 64) % 4 * 64 + z % 64 == z
  {
    assert (x % 4 * 16 + y / 16) / 16 == x % 4;
    assert (y % 16 * 4 + z / 64) / 4 == y % 16;
  }

  lemma ThreeBytes(x: Byte, y: Byte, z: Byte)
    ensures DecodeLast(x / 4, x % 4 * 16 + y / 16, Digit(y % 16 * 4 + z / 64), Digit(z % 64)) == Some([x, y, z])
  {
    SplitJoin(x, y, z);
    DigitValue(y % 16 * 4 + z / 64);
    DigitValue(z % 64);
  }

  lemma TwoBytes(x: Byte, y: Byte)
    ensures DecodeLast(x / 4, x % 4 * 16 + y / 16, Digit(y % 16 * 4), PAD) == Some([x, y])
  {
    SplitJoin(x, y, 0);
    DigitValue(y % 16 * 4);
  }

  lemma OneByte(x: Byte)
    ensures DecodeLast(x / 4, x % 4 * 16, PAD, PAD) == Some([x])
  {
    SplitJoin(x, 0, 0);
  }

  /** Every byte string survives printing and parsing. */
  lemma {:induction false} RoundTrip(b: seq<Byte>)
    ensures Decode(Encode(b)) == Some(b)
  {
    if |b| == 1 {
      OneByteRoundTrip(b[0]);
      assert b == [b[0]];
    } else if |b| == 2 {
      TwoByteRoundTrip(b[0], b[1]);
      assert b == [b[0], b[1]];
    } else if |b| >= 3 {
      RoundTrip(b[3..]);
      GroupDecodes(b[0], b[1], b[2], Encode(b[3..]));
      assert b == [b[0], b[1], b[2]] + b[3..];
    }
  }

  lemma OneByteRoundTrip(x: Byte)
    ensures Decode(Encode([x])) == Some([x])
  {
    DigitValue(x / 4);
    DigitValue(x % 4 * 16);
    OneByte(x);
    DecodeFour(Encode([x]), x / 4, x % 4 * 16);
  }

  lemma TwoByteRoundTrip(x: Byte, y: Byte)
    ensures Decode(Encode([x, y])) == Some([x, y])
  {
    DigitValue(x / 4);
    DigitValue(x % 4 * 16 + y / 16);
    TwoBytes(x, y);
    DecodeFour(Encode([x, y]), x / 4, x % 4 * 16 + y / 16);
  }

  lemma DecodeFour(t: seq<Byte>, v0: int, v1: int)
    requires |t| == 4 && Value(t[0]) == Some(v0) && Value(t[1]) == Some(v1)
    ensures Decode(t) == DecodeLast(v0, v1, t[2], t[3])
  {
  }

  lemma GroupDecodes(x: Byte, y: Byte, z: Byte, rest: seq<Byte>)
    requires Decode(rest).Some?
    ensures Decode(Group(x, y, z) + rest) == Some([x, y, z] + Decode(rest).value)
  {
    var t := Group(x, y, z) + rest;
    DigitValue(x / 4);
    DigitValue(x % 4 * 16 + y / 16);
    DigitValue(z % 64);
    ThreeBytes(x, y, z);
    assert t[4..] == rest;
    DecodeStep(t, x / 4, x % 4 * 16 + y / 16);
  }

  lemma DecodeStep(t: seq<Byte>, v0: int, v1: int)
    requires |t| >= 4 && Value(t[0]) == Some(v0) && Value(t[1]) == Some(v1) && t[3] != PAD
    requires DecodeLast(v0, v1, t[2], t[3]).Some? && Decode(t[4..]).Some?
    ensures Decode(t) == Some(DecodeLast(v0, v1, t[2], t[3]).value + Decode(t[4..]).value)
  {
    if |t| == 4 {
      var last := DecodeLast(v0, v1, t[2], t[3]);
      assert t[4..] == [] && last.value + [] == last.value;
    }
  }

  /** A character that needs no escape inside a JSON string. */
  predicate Plain(c: Byte) {
    c >= 32 && c != 34 && c != 92
  }

  lemma {:induction false} EncodePlain(b: seq<Byte>)
    ensures forall i | 0 <= i < |Encode(b)| :: Plain(Encode(b)[i])
  {
    if |b| >= 3 {
      EncodePlain(b[3..]);
    }
  }
}
