/** The NVTTL1 value wrapper: a magic prefix, then a JSON object with a base64 field and an expiry. */
module Envelope {
  import opened Bytes
  import Base64
  import Decimal

  const SECOND: int := 1_000_000_000
  const QUOTE: Byte := 34
  const COMMA: Byte := 44
  const COLON: Byte := 58
  const OPEN: Byte := 123
  const CLOSE: Byte := 125
  const MAGIC: seq<Byte> := [78, 86, 84, 84, 76, 49, 58] // NVTTL1:
  const NULL: seq<Byte> := [110, 117, 108, 108]
  const KEY_V: seq<Byte> := [118]
  const KEY_E: seq<Byte> := [101]

  /** Whole seconds since the Unix epoch, of an instant in nanoseconds; floors before the epoch too. */
  function Unix(instant: int): int {
    instant / SECOND
  }

  // ---- the wrapped record, printed ----

  datatype TtlValue = TtlValue(v: Slice, e: int)

  function MarshalSlice(v: Slice): seq<Byte> {
    match v
    case Nil => NULL
    case Bytes(b) => [QUOTE] + Base64.Encode(b) + [QUOTE]
  }

  /** The expiry field is left out when it is zero. */
  function MarshalExpiry(e: int): seq<Byte> {
    if e == 0 then [] else [COMMA, QUOTE] + KEY_E + [QUOTE, COLON] + Decimal.Print(e)
  }

  function Marshal(tv: TtlValue): seq<Byte> {
    [OPEN, QUOTE] + KEY_V + [QUOTE, COLON] + MarshalSlice(tv.v) + MarshalExpiry(tv.e) + [CLOSE]
  }

  // ---- the wrapped record, parsed ----

  datatype Parsed<+T> = Fail | Ok(value: T, rest: seq<Byte>)

  datatype Scalar = JNull | JString(text: seq<Byte>) | JInt(n: int)

  predicate Starts(s: seq<Byte>, c: Byte) {
    |s| > 0 && s[0] == c
  }

  function SkipSpace(s: seq<Byte>): (r: seq<Byte>)
    ensures |r| <= |s|
  {
    if |s| > 0 && s[0] in {32, 9, 10, 13} then SkipSpace(s[1..]) else s
  }

  /** The rest of a string whose opening quote is gone. */
  function StringBody(s: seq<Byte>): (p: Parsed<seq<Byte>>)
    ensures p.Ok? ==> |p.value| + |p.rest| < |s|
  {
    if |s| == 0 then Fail
    else if s[0] == QUOTE then Ok([], s[1..])
    else if !Base64.Plain(s[0]) then Fail
    else match StringBody(s[1..]) {
      case Fail => Fail
      case Ok(t, rest) => Ok([s[0]] + t, rest)
    }
  }

  /** An unsigned integer without leading zeros. */
  function NatBody(s: seq<Byte>): (p: Parsed<int>)
    ensures p.Ok? ==> |p.rest| < |s|
  {
    var n := if Starts(s, 48) then 1 else Decimal.Span(s);
    if n == 0 then Fail
    else
      assert n == 1 ==> s[..n] == [s[0]];
      Ok(Decimal.NatValue(s[..n]), s[n..])
  }

  function ScalarBody(s: seq<Byte>): (p: Parsed<Scalar>)
    ensures p.Ok? ==> |p.rest| < |s|
    ensures p.Ok? && p.value.JString? ==> |p.value.text| < |s|
  {
    if |s| >= 4 && s[0] == 110 && s[1] == 117 && s[2] == 108 && s[3] == 108 then Ok(JNull, s[4..])
    else if |s| == 0 then Fail
    else if s[0] == QUOTE then
      match StringBody(s[1..]) {
        case Fail => Fail
        case Ok(t, rest) => Ok(JString(t), rest)
      }
    else if s[0] == 45 then
      match NatBody(s[1..]) {
        case Fail => Fail
        case Ok(n, rest) => Ok(JInt(-n), rest)
      }
    else
      match NatBody(s) {
        case Fail => Fail
        case Ok(n, rest) => Ok(JInt(n), rest)
      }
  }

  /** Stores one member; field names match in either case, unknown ones are ignored. */
  function Assign(key: seq<Byte>, value: Scalar, acc: TtlValue): (r: Option<TtlValue>)
    ensures r.Some? && !value.JString? ==> |r.value.v.Content()| <= |acc.v.Content()|
    ensures r.Some? && value.JString? && |value.text| < |r.value.v.Content()| ==> r.value.v == acc.v
  {
    if key in {KEY_V, [86]} then
      match value {
        case JNull => Some(acc.(v := Nil))
        case JString(t) =>
          (match Base64.Decode(t)
           case None => None
           case Some(b) => Some(acc.(v := Bytes(b))))
        case JInt(_) => None
      }
    else if key in {KEY_E, [69]} then
      match value {
        case JNull => Some(acc)
        case JString(_) => None
        case JInt(n) => Some(acc.(e := n))
      }
    else Some(acc)
  }

  /** The name of a member and the colon after it. */
  function NameBody(s: seq<Byte>): (p: Parsed<seq<Byte>>)
    ensures p.Ok? ==> |p.rest| < |s|
  {
    var s1 := SkipSpace(s);
    if !Starts(s1, QUOTE) then Fail
    else match StringBody(s1[1..]) {
      case Fail => Fail
      case Ok(name, r) =>
        var s2 := SkipSpace(r);
        if Starts(s2, COLON) then Ok(name, SkipSpace(s2[1..])) else Fail
    }
  }

  /** The scalar of a member, stored under its name. */
  function ValueBody(s: seq<Byte>, name: seq<Byte>, acc: TtlValue): (p: Parsed<TtlValue>)
    ensures p.Ok? ==> |p.rest| < |s|
    ensures p.Ok? ==> |p.value.v.Content()| <= |acc.v.Content()| || |p.value.v.Content()| < |s|
  {
    match ScalarBody(s)
    case Fail => Fail
    case Ok(value, rest) =>
      match Assign(name, value, acc)
      case None => Fail
      case Some(acc') => Ok(acc', SkipSpace(rest))
  }

  /** One member: name, colon, scalar. */
  function MemberBody(s: seq<Byte>, acc: TtlValue): (p: Parsed<TtlValue>)
    ensures p.Ok? ==> |p.rest| < |s|
    ensures p.Ok? ==> |p.value.v.Content()| <= |acc.v.Content()| || |p.value.v.Content()| < |s|
  {
    match NameBody(s)
    case Fail => Fail
    case Ok(name, rest) => ValueBody(rest, name, acc)
  }

  /** Members up to and including the closing brace. */
  function Members(s: seq<Byte>, acc: TtlValue): (p: Parsed<TtlValue>)
    ensures p.Ok? ==> |p.value.v.Content()| <= |acc.v.Content()| || |p.value.v.Content()| < |s|
    decreases |s|
  {
    match MemberBody(s, acc)
    case Fail => Fail
    case Ok(acc', rest) =>
      if Starts(rest, COMMA) then Members(rest[1..], acc')
      else if Starts(rest, CLOSE) then Ok(acc', rest[1..])
      else Fail
  }

  function Unmarshal(s: seq<Byte>): (r: Option<TtlValue>)
    ensures r.Some? ==> |r.value.v.Content()| <= |s|
  {
    var s1 := SkipSpace(s);
    var empty := TtlValue(Nil, 0);
    if !Starts(s1, OPEN) then None
    else
      var s2 := SkipSpace(s1[1..]);
      var p := if Starts(s2, CLOSE) then Ok(empty, s2[1..]) else Members(s2, empty);
      if p.Ok? && SkipSpace(p.rest) == [] then Some(p.value) else None
  }

  // ---- printing then parsing ----

  lemma {:induction false} StringBodyOf(t: seq<Byte>, rest: seq<Byte>)
    requires forall i | 0 <= i < |t| :: Base64.Plain(t[i])
    ensures StringBody(t + [QUOTE] + rest) == Ok(t, rest)
  {
    var s := t + [QUOTE] + rest;
    if |t| == 0 {
      assert s[1..] == rest;
    } else {
      StringBodyOf(t[1..], rest);
      assert s[1..] == t[1..] + [QUOTE] + rest;
      assert t == [t[0]] + t[1..];
    }
  }

  lemma NatBodyOf(n: nat, rest: seq<Byte>)
    requires |rest| > 0 && !Decimal.IsDigit(rest[0])
    ensures NatBody(Decimal.PrintNat(n) + rest) == Ok(n, rest)
  {
    var digits := Decimal.PrintNat(n);
    var s := digits + rest;
    assert s[..|digits|] == digits && s[|digits|..] == rest;
    Decimal.SpanOf(digits, rest);
    Decimal.PrintNatValue(n);
    assert Starts(s, 48) <==> digits[0] == 48;
  }

  lemma ScalarBodyOfExpiry(e: int, rest: seq<Byte>)
    requires |rest| > 0 && !Decimal.IsDigit(rest[0])
    ensures ScalarBody(Decimal.Print(e) + rest) == Ok(JInt(e), rest)
  {
    if e < 0 {
      NatBodyOf(-e, rest);
      SignedNat(Decimal.PrintNat(-e), rest);
    } else {
      NatBodyOf(e, rest);
      UnsignedNat(Decimal.PrintNat(e), rest);
    }
  }

  lemma SignedNat(digits: seq<Byte>, rest: seq<Byte>)
    requires NatBody(digits + rest).Ok?
    ensures ScalarBody([45] + digits + rest) == Ok(JInt(-NatBody(digits + rest).value), NatBody(digits + rest).rest)
  {
    assert ([45] + digits + rest)[1..] == digits + rest;
  }

  lemma UnsignedNat(digits: seq<Byte>, rest: seq<Byte>)
    requires NatBody(digits + rest).Ok? && |digits| > 0 && Decimal.IsDigit(digits[0])
    ensures ScalarBody(digits + rest) == Ok(JInt(NatBody(digits + rest).value), NatBody(digits + rest).rest)
  {
    assert (digits + rest)[0] == digits[0];
  }

  lemma ScalarBodyOfNull(rest: seq<Byte>)
    ensures ScalarBody(NULL + rest) == Ok(JNull, rest)
  {
    assert (NULL + rest)[4..] == rest;
  }

  lemma ScalarBodyOfText(body: seq<Byte>, t: seq<Byte>, rest: seq<Byte>)
    requires StringBody(body) == Ok(t, rest)
    ensures ScalarBody([QUOTE] + body) == Ok(JString(t), rest)
  {
    assert ([QUOTE] + body)[1..] == body;
  }

  /** How a slice reads back as a JSON scalar. */
  function SliceScalar(v: Slice): Scalar {
    if v.Nil? then JNull else JString(Base64.Encode(v.bytes))
  }

  lemma ScalarBodyOfSlice(v: Slice, rest: seq<Byte>)
    ensures ScalarBody(MarshalSlice(v) + rest) == Ok(SliceScalar(v), rest)
  {
    match v {
      case Nil =>
        ScalarBodyOfNull(rest);
      case Bytes(b) =>
        Base64.EncodePlain(b);
        StringBodyOf(Base64.Encode(b), rest);
        var body := Base64.Encode(b) + [QUOTE] + rest;
        ScalarBodyOfText(body, Base64.Encode(b), rest);
        assert MarshalSlice(v) + rest == [QUOTE] + body;
    }
  }

  lemma NameBodyOf(name: Byte, tail: seq<Byte>)
    requires Base64.Plain(name)
    requires |tail| > 0 && tail[0] !in {32, 9, 10, 13}
    ensures NameBody([QUOTE, name, QUOTE, COLON] + tail) == Ok([name], tail)
  {
    var s := [QUOTE, name, QUOTE, COLON] + tail;
    var colon := [COLON] + tail;
    assert s[1..] == [name] + [QUOTE] + colon;
    StringBodyOf([name], colon);
    NoSpace(s);
    NoSpace(colon);
    assert colon[1..] == tail;
    NoSpace(tail);
  }

  /** A printed member: quoted one-letter name, colon, scalar. */
  lemma MemberBodyOf(name: Byte, text: seq<Byte>, value: Scalar, rest: seq<Byte>, acc: TtlValue)
    requires Base64.Plain(name)
    requires |rest| > 0 && rest[0] in {COMMA, CLOSE}
    requires |text| > 0 && text[0] !in {32, 9, 10, 13}
    requires ScalarBody(text + rest) == Ok(value, rest)
    requires Assign([name], value, acc).Some?
    ensures MemberBody([QUOTE, name, QUOTE, COLON] + text + rest, acc) == Ok(Assign([name], value, acc).value, rest)
  {
    NameBodyOf(name, text + rest);
    assert [QUOTE, name, QUOTE, COLON] + text + rest == [QUOTE, name, QUOTE, COLON] + (text + rest);
    NoSpace(rest);
  }

  lemma NoSpace(s: seq<Byte>)
    requires |s| > 0 && s[0] !in {32, 9, 10, 13}
    ensures SkipSpace(s) == s
  {
  }

  lemma MarshalStart(v: Slice)
    ensures |MarshalSlice(v)| > 0 && MarshalSlice(v)[0] !in {32, 9, 10, 13}
  {
  }

  /** Reading the first printed member. */
  lemma FirstMember(v: Slice, rest: seq<Byte>)
    requires |rest| > 0 && rest[0] in {COMMA, CLOSE}
    ensures MemberBody([QUOTE, 118, QUOTE, COLON] + MarshalSlice(v) + rest, TtlValue(Nil, 0))
         == Ok(TtlValue(v, 0), rest)
  {
    ScalarBodyOfSlice(v, rest);
    MarshalStart(v);
    if v.Bytes? {
      Base64.RoundTrip(v.bytes);
    }
    MemberBodyOf(118, MarshalSlice(v), SliceScalar(v), rest, TtlValue(Nil, 0));
  }

  lemma SecondMember(v: Slice, e: int)
    ensures Members([QUOTE, 101, QUOTE, COLON] + Decimal.Print(e) + [CLOSE], TtlValue(v, 0)) == Ok(TtlValue(v, e), [])
  {
    var text := Decimal.Print(e);
    ScalarBodyOfExpiry(e, [CLOSE]);
    MemberBodyOf(101, text, JInt(e), [CLOSE], TtlValue(v, 0));
    assert [CLOSE][1..] == [];
  }

  /** Both printed members, read in order. */
  lemma BothMembers(tv: TtlValue, body: seq<Byte>)
    requires body == [QUOTE, 118, QUOTE, COLON] + MarshalSlice(tv.v) + (MarshalExpiry(tv.e) + [CLOSE])
    ensures Members(body, TtlValue(Nil, 0)) == Ok(tv, [])
  {
    var rest := MarshalExpiry(tv.e) + [CLOSE];
    FirstMember(tv.v, rest);
    if tv.e == 0 {
      assert rest == [CLOSE] && rest[1..] == [];
    } else {
      assert rest[1..] == [QUOTE, 101, QUOTE, COLON] + Decimal.Print(tv.e) + [CLOSE];
      SecondMember(tv.v, tv.e);
    }
  }

  lemma Regroup(value: seq<Byte>, expiry: seq<Byte>)
    ensures [OPEN, QUOTE] + KEY_V + [QUOTE, COLON] + value + expiry + [CLOSE]
         == [OPEN] + ([QUOTE, 118, QUOTE, COLON] + value + (expiry + [CLOSE]))
  {
  }

  /** Parsing what was printed gives the record back, whatever its bytes and expiry. */
  lemma MarshalRoundTrip(tv: TtlValue)
    ensures Unmarshal(Marshal(tv)) == Some(tv)
  {
    var body := [QUOTE, 118, QUOTE, COLON] + MarshalSlice(tv.v) + (MarshalExpiry(tv.e) + [CLOSE]);
    Regroup(MarshalSlice(tv.v), MarshalExpiry(tv.e));
    BothMembers(tv, body);
    UnmarshalOf(body, tv);
  }

  predicate Reads(b: seq<Byte>, s: string) {
    |b| == |s| && forall i | 0 <= i < |b| :: b[i] == s[i] as int
  }

  /** The text of a small envelope with an expiry, and of one around nil without. */
  lemma MarshalSamples()
    ensures Reads(MAGIC, "NVTTL1:")
    ensures Reads(Marshal(TtlValue(Bytes([102, 111]), 25)), "{\"v\":\"Zm8=\",\"e\":25}")
    ensures Reads(Marshal(TtlValue(Nil, 0)), "{\"v\":null}")
  {
    assert Decimal.PrintNat(25) == [50, 53];
    assert Base64.Encode([102, 111]) == [90, 109, 56, 61];
  }

  lemma UnmarshalOf(body: seq<Byte>, tv: TtlValue)
    requires |body| > 0 && body[0] == QUOTE && Members(body, TtlValue(Nil, 0)) == Ok(tv, [])
    ensures Unmarshal([OPEN] + body) == Some(tv)
  {
    var s := [OPEN] + body;
    NoSpace(s);
    NoSpace(body);
    assert s[1..] == body;
  }

  // ---- the two entry points ----

  /** The expiry second of a value written at `written` for `ttl` nanoseconds. */
  function ExpirySecond(ttl: int, written: int): int {
    Unix(written + ttl)
  }

  function EncodeWithTtl(value: Slice, ttl: int, written: int): Slice {
    if ttl <= 0 then value
    else Bytes(MAGIC + Marshal(TtlValue(value, ExpirySecond(ttl, written))))
  }

  /** The four ways decoding ends: not wrapped, wrapped and live, wrapped and past its second, not an envelope. */
  datatype Decoded = Raw(value: Slice) | Wrapped(value: Slice) | Expired | Malformed

  function DecodeWithTtl(b: Slice, now: int): Decoded {
    if !HasPrefix(b.Content(), MAGIC) then Raw(b)
    else match Unmarshal(b.Content()[|MAGIC|..]) {
      case None => Malformed
      case Some(tv) => if tv.e > 0 && Unix(now) >= tv.e then Expired else Wrapped(tv.v)
    }
  }

  /** When a positive lifetime has run out, in the whole seconds the envelope keeps. */
  predicate Dead(ttl: int, written: int, now: int) {
    ExpirySecond(ttl, written) > 0 && Unix(now) >= ExpirySecond(ttl, written)
  }

  /** Whether a write still answers: for ever without a positive lifetime. */
  predicate Alive(ttl: int, written: int, now: int) {
    ttl <= 0 || !Dead(ttl, written, now)
  }

  /** A value written with a positive lifetime is read back, byte for byte, exactly until its expiry second. */
  lemma WrappedRoundTrip(value: Slice, ttl: int, written: int, now: int)
    requires ttl > 0
    ensures DecodeWithTtl(EncodeWithTtl(value, ttl, written), now)
         == if Dead(ttl, written, now) then Expired else Wrapped(value)
  {
    var tv := TtlValue(value, ExpirySecond(ttl, written));
    MarshalRoundTrip(tv);
    var b := MAGIC + Marshal(tv);
    assert b[..|MAGIC|] == MAGIC && b[|MAGIC|..] == Marshal(tv);
  }

  /** The content a decoded value shows its reader, if any. */
  function Shown(d: Decoded): Option<seq<Byte>> {
    match d
    case Raw(v) => Some(v.Content())
    case Wrapped(v) => Some(v.Content())
    case _ => None
  }

  /** Without a lifetime the value comes back exactly when it does not itself start with the magic prefix:
      what an envelope carries is shorter than the envelope. */
  lemma RawRoundTrip(value: Slice, ttl: int, written: int, now: int)
    requires ttl <= 0
    ensures Shown(DecodeWithTtl(EncodeWithTtl(value, ttl, written), now)) == Some(value.Content())
            <==> !HasPrefix(value.Content(), MAGIC)
  {
    var d := DecodeWithTtl(EncodeWithTtl(value, ttl, written), now);
    if HasPrefix(value.Content(), MAGIC) && d.Wrapped? {
      assert |d.value.Content()| < |value.Content()|;
    }
  }

  /** The prefix does fool the reader: a raw value that is an envelope is unwrapped or refused. */
  lemma PrefixFoolsReader(now: int)
    ensures DecodeWithTtl(EncodeWithTtl(Bytes(MAGIC), 0, now), now) == Malformed
    ensures DecodeWithTtl(EncodeWithTtl(Bytes(MAGIC + Marshal(TtlValue(Nil, 0))), 0, now), now) == Wrapped(Nil)
  {
    assert MAGIC[|MAGIC|..] == [];
    var b := MAGIC + Marshal(TtlValue(Nil, 0));
    assert b[..|MAGIC|] == MAGIC && b[|MAGIC|..] == Marshal(TtlValue(Nil, 0));
    MarshalRoundTrip(TtlValue(Nil, 0));
  }

  /** Rounding: for a deadline at least a second past the epoch, the value is dead from the deadline on and
      live up to one second before it; for an earlier deadline it never dies. */
  lemma ExpiryWindow(ttl: int, written: int, now: int)
    ensures written + ttl >= SECOND && now >= written + ttl ==> Dead(ttl, written, now)
    ensures now <= written + ttl - SECOND ==> !Dead(ttl, written, now)
    ensures written + ttl < SECOND ==> !Dead(ttl, written, now)
  {
  }

  /** Once dead, dead. */
  lemma DeathIsFinal(b: Slice, now: int, later: int)
    requires now <= later && DecodeWithTtl(b, now) == Expired
    ensures DecodeWithTtl(b, later) == Expired
  {
  }
}
