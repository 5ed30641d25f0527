/** Object keys by upload month, and listing one month. */
module Months {
  import opened Bytes
  import opened Paths
  import opened ObjectStore
  import Decimal

  function Text(b: seq<Byte>): (s: string)
    ensures |s| == |b| && forall i | 0 <= i < |b| :: s[i] as int == b[i]
  {
    seq(|b|, i requires 0 <= i < |b| => b[i] as char)
  }

  function Zeros(n: int): (z: seq<Byte>)
    ensures Decimal.AllDigits(z) && |z| == if n <= 0 then 0 else n
  {
    if n <= 0 then [] else [48] + Zeros(n - 1)
  }

  function PadNat(width: int, n: nat): (b: seq<Byte>)
    ensures Decimal.AllDigits(b) && |b| > 0
  {
    var digits := Decimal.PrintNat(n);
    Zeros(width - |digits|) + digits
  }

  /** An integer with leading zeros up to a width that counts the sign. */
  function Pad(width: int, n: int): string {
    if n < 0 then "-" + Text(PadNat(width - 1, -n)) else Text(PadNat(width, n))
  }

  /** A year as a date layout prints it: four digits at least, and the sign apart. */
  function Stamp(year: int): string {
    if year < 0 then "-" + Text(PadNat(4, -year)) else Text(PadNat(4, year))
  }

  function DatePrefix(user: string, year: string, month: string): string {
    user + "/" + year + "/" + month + "/"
  }

  function BuildObjectKey(user: string, year: int, month: int, fileName: string): string {
    DatePrefix(user, Stamp(year), Pad(2, month)) + fileName
  }

  function MonthPrefix(user: string, year: int, month: int): string {
    DatePrefix(user, Pad(4, year), Pad(2, month))
  }

  /** An upload of an ordinary year: user, four digits of the year, two of the month, and the file's own name. */
  lemma OrdinaryKey(user: string, year: int, month: int, fileName: string)
    requires 0 <= year <= 9999 && 1 <= month <= 12
    ensures var y, m := Text([48 + year / 1000, 48 + year / 100 % 10, 48 + year / 10 % 10, 48 + year % 10]),
                        Text([48 + month / 10, 48 + month % 10]);
      && BuildObjectKey(user, year, month, fileName) == user + "/" + y + "/" + m + "/" + fileName
      && MonthPrefix(user, year, month) == user + "/" + y + "/" + m + "/"
  {
    PaddedToFour(year);
    PaddedToTwo(month);
  }

  lemma PaddedToFour(n: nat)
    requires n <= 9999
    ensures PadNat(4, n) == [48 + n / 1000, 48 + n / 100 % 10, 48 + n / 10 % 10, 48 + n % 10]
  {
    if n < 10 {
      assert Zeros(3) == [48] + Zeros(2) && Zeros(2) == [48] + Zeros(1) && Zeros(1) == [48] + Zeros(0);
    } else {
      ThreeDigits(n / 10);
    }
  }

  lemma ThreeDigits(n: nat)
    requires n <= 999
    ensures Zeros(3 - |Decimal.PrintNat(n)|) + Decimal.PrintNat(n) == [48 + n / 100, 48 + n / 10 % 10, 48 + n % 10]
  {
    assert Zeros(2) == [48, 48] && Zeros(1) == [48] && Zeros(0) == [];
    if n >= 100 {
      assert Decimal.PrintNat(n / 10) == [48 + n / 100, 48 + n / 10 % 10];
    }
  }

  lemma PaddedToTwo(n: nat)
    requires n <= 99
    ensures PadNat(2, n) == [48 + n / 10, 48 + n % 10]
  {
    assert Zeros(1) == [48] && Zeros(0) == [];
    assert n >= 10 ==> Decimal.PrintNat(n / 10) == [48 + n / 10];
  }

  // ---- printing with zeros is injective and free of slashes ----

  lemma {:induction false} ZerosAddNothing(n: int, digits: seq<Byte>)
    requires Decimal.AllDigits(digits)
    ensures Decimal.NatValue(Zeros(n) + digits) == Decimal.NatValue(digits)
    decreases |digits|, n
  {
    var s := Zeros(n) + digits;
    if |digits| > 0 {
      var front := digits[..|digits| - 1];
      assert s[..|s| - 1] == Zeros(n) + front;
      ZerosAddNothing(n, front);
    } else if n > 0 {
      AllZeros(n);
      assert s == Zeros(n);
    } else {
      assert s == [];
    }
  }

  lemma {:induction false} AllZeros(n: int)
    ensures Decimal.NatValue(Zeros(n)) == 0
  {
    if n > 0 {
      AllZeros(n - 1);
      PrependZero(Zeros(n - 1));
    }
  }

  lemma {:induction false} PrependZero(s: seq<Byte>)
    requires Decimal.AllDigits(s)
    ensures Decimal.NatValue([48] + s) == Decimal.NatValue(s)
  {
    var t := [48] + s;
    if |s| > 0 {
      PrependZero(s[..|s| - 1]);
      assert t[..|t| - 1] == [48] + s[..|s| - 1];
    } else {
      assert t[..0] == [];
    }
  }

  lemma PadNatInjective(width: int, m: nat, n: nat)
    requires PadNat(width, m) == PadNat(width, n)
    ensures m == n
  {
    ZerosAddNothing(width - |Decimal.PrintNat(m)|, Decimal.PrintNat(m));
    ZerosAddNothing(width - |Decimal.PrintNat(n)|, Decimal.PrintNat(n));
    Decimal.PrintNatValue(m);
    Decimal.PrintNatValue(n);
  }

  lemma TextInjective(a: seq<Byte>, b: seq<Byte>)
    requires Text(a) == Text(b)
    ensures a == b
  {
    assert forall i | 0 <= i < |a| :: a[i] == Text(a)[i] as int == Text(b)[i] as int == b[i];
  }

  lemma PadInjective(width: int, m: int, n: int)
    requires Pad(width, m) == Pad(width, n)
    ensures m == n
  {
    assert m >= 0 ==> Pad(width, m)[0] as int == PadNat(width, m)[0];
    assert n >= 0 ==> Pad(width, n)[0] as int == PadNat(width, n)[0];
    if m < 0 && n < 0 {
      assert Pad(width, m)[1..] == Text(PadNat(width - 1, -m)) && Pad(width, n)[1..] == Text(PadNat(width - 1, -n));
      TextInjective(PadNat(width - 1, -m), PadNat(width - 1, -n));
      PadNatInjective(width - 1, -m, -n);
    } else if m >= 0 && n >= 0 {
      TextInjective(PadNat(width, m), PadNat(width, n));
      PadNatInjective(width, m, n);
    }
  }

  predicate NoSlash(s: string) {
    forall i | 0 <= i < |s| :: s[i] != '/'
  }

  lemma PadHasNoSlash(width: int, n: int)
    ensures NoSlash(Pad(width, n))
  {
  }

  /** Two keys that agree up to a slash agree on the parts before it. */
  lemma FirstPartEqual(a: string, x: string, b: string, z: string)
    requires NoSlash(a) && NoSlash(b) && (HasPrefix(b + "/" + z, a + "/" + x) || a + "/" + x == b + "/" + z)
    ensures a == b && (HasPrefix(b + "/" + z, a + "/" + x) ==> HasPrefix(z, x))
  {
    var s, t := b + "/" + z, a + "/" + x;
    assert s[..|t|] == t;
    assert t[|a|] == '/' && s[|b|] == '/';
    assert forall i | 0 <= i < |t| :: s[i] == t[i];
    assert forall i | 0 <= i < |b| :: s[i] == b[i];
    assert forall i | 0 <= i < |a| :: t[i] == a[i];
    assert |a| == |b|;
    assert a == t[..|a|] && b == s[..|b|];
    assert z == s[|b| + 1..] && x == t[|a| + 1..];
    assert z[..|x|] == s[..|t|][|b| + 1..];
  }

  lemma TwoPartsEqual(a1: string, b1: string, rest1: string, a2: string, b2: string, rest2: string)
    requires NoSlash(a1) && NoSlash(b1) && NoSlash(a2) && NoSlash(b2)
    requires a1 + "/" + (b1 + "/" + rest1) == a2 + "/" + (b2 + "/" + rest2)
    ensures a1 == a2 && b1 == b2
  {
    FirstPartEqual(a1, b1 + "/" + rest1, a2, b2 + "/" + rest2);
    var s := a1 + "/" + (b1 + "/" + rest1);
    assert s[|a1| + 1..] == b1 + "/" + rest1 && s[|a1| + 1..] == b2 + "/" + rest2;
    FirstPartEqual(b1, rest1, b2, rest2);
  }

  lemma UnderDate(user: string, year: string, month: string, key: string)
    requires HasPrefix(key, DatePrefix(user, year, month))
    ensures |user| < |key|
    ensures key[|user| + 1..] == year + "/" + (month + "/" + key[|DatePrefix(user, year, month)|..])
  {
    var p := DatePrefix(user, year, month);
    PrefixSplit(key, p);
    DropUser(user, year, month, key[|p|..]);
  }

  lemma DropUser(user: string, y: string, m: string, rest: string)
    ensures (user + "/" + y + "/" + m + "/" + rest)[|user| + 1..] == y + "/" + (m + "/" + rest)
  {
  }

  /** A key under two dates without slashes is under one date. */
  lemma DatesEqual(user: string, y1: string, m1: string, y2: string, m2: string, key: string)
    requires NoSlash(y1) && NoSlash(m1) && NoSlash(y2) && NoSlash(m2)
    requires HasPrefix(key, DatePrefix(user, y1, m1)) && HasPrefix(key, DatePrefix(user, y2, m2))
    ensures y1 == y2 && m1 == m2
  {
    UnderDate(user, y1, m1, key);
    UnderDate(user, y2, m2, key);
    TwoPartsEqual(y1, m1, key[|DatePrefix(user, y1, m1)|..], y2, m2, key[|DatePrefix(user, y2, m2)|..]);
  }

  /** One key lies under at most one year-month, whatever the integers asked for. */
  lemma MonthsDisjoint(user: string, year1: int, month1: int, year2: int, month2: int, key: string)
    requires HasPrefix(key, MonthPrefix(user, year1, month1)) && HasPrefix(key, MonthPrefix(user, year2, month2))
    ensures year1 == year2 && month1 == month2
  {
    PadHasNoSlash(4, year1);
    PadHasNoSlash(4, year2);
    PadHasNoSlash(2, month1);
    PadHasNoSlash(2, month2);
    DatesEqual(user, Pad(4, year1), Pad(2, month1), Pad(4, year2), Pad(2, month2), key);
    PadInjective(4, year1, year2);
    PadInjective(2, month1, month2);
  }

  // ---- the two ways to print a year ----

  lemma FourDigits(n: nat)
    ensures |Decimal.PrintNat(n)| >= 4 <==> n >= 1000
  {
    var a, b := n / 10, n / 100;
    assert n >= 10 ==> |Decimal.PrintNat(n)| == |Decimal.PrintNat(a)| + 1;
    assert a >= 10 ==> |Decimal.PrintNat(a)| == |Decimal.PrintNat(a / 10)| + 1;
    assert a / 10 >= 10 ==> |Decimal.PrintNat(a / 10)| == |Decimal.PrintNat(a / 10 / 10)| + 1;
  }

  lemma WidthsAgreeIff(m: nat, n: nat)
    ensures PadNat(4, m) == PadNat(3, n) <==> m == n && n >= 1000
  {
    FourDigits(m);
    FourDigits(n);
    if PadNat(4, m) == PadNat(3, n) {
      ZerosAddNothing(4 - |Decimal.PrintNat(m)|, Decimal.PrintNat(m));
      ZerosAddNothing(3 - |Decimal.PrintNat(n)|, Decimal.PrintNat(n));
      Decimal.PrintNatValue(m);
      Decimal.PrintNatValue(n);
    }
  }

  /** A stamped year reads like a padded one exactly when it is the same year and not one of the 999 before year 0. */
  lemma StampIsPadIff(year: int, y: int)
    ensures Stamp(year) == Pad(4, y) <==> y == year && (year >= 0 || year <= -1000)
  {
    assert year >= 0 ==> Stamp(year)[0] as int == PadNat(4, year)[0];
    assert y >= 0 ==> Pad(4, y)[0] as int == PadNat(4, y)[0];
    if year >= 0 {
      if Stamp(year) == Pad(4, y) {
        PadInjective(4, year, y);
      }
    } else if y < 0 {
      WidthsAgreeIff(-year, -y);
      assert Stamp(year)[1..] == Text(PadNat(4, -year)) && Pad(4, y)[1..] == Text(PadNat(3, -y));
      if Stamp(year) == Pad(4, y) {
        TextInjective(PadNat(4, -year), PadNat(3, -y));
      }
    }
  }

  // ---- listing ----

  predicate IsFile(key: string) {
    !HasSuffix(key, "/")
  }

  method OnlyFiles(keys: seq<string>) returns (files: seq<string>)
    requires Distinct(keys)
    ensures forall k :: k in files <==> k in keys && IsFile(k)
    ensures Distinct(files)
  {
    files := [];
    for i := 0 to |keys|
      invariant forall j | 0 <= j < i && IsFile(keys[j]) :: keys[j] in files
      invariant forall k | k in files :: IsFile(k) && exists j :: 0 <= j < i && keys[j] == k
      invariant Distinct(files)
    {
      if !HasSuffix(keys[i], "/") {
        files := files + [keys[i]];
      }
    }
  }

  method ListFilesByMonth<V>(store: Store<V>, user: string, year: int, month: int)
    returns (files: seq<string>, ok: bool)
    modifies store`failures
    ensures ok <==> user != "" && store.failures == old(store.failures)
    ensures ok ==> forall k ::
      k in files <==> k in store.objects && HasPrefix(k, MonthPrefix(user, year, month)) && IsFile(k)
    ensures ok ==> Distinct(files)
  {
    if user == "" {
      return [], false;
    }
    var keys;
    keys, ok := store.ListObjects(MonthPrefix(user, year, month));
    if !ok {
      return [], false;
    }
    files := OnlyFiles(keys);
  }

  /** A stored upload is listed for exactly one year and month, those of its build time, unless its name is empty or
      ends in a slash; then it is listed for none. Neither are uploads of the years -999 to -1, whose two printed forms
      differ. */
  lemma ListedInItsMonthOnly(user: string, year: int, month: int, fileName: string, y: int, m: int)
    ensures var key := BuildObjectKey(user, year, month, fileName);
      HasPrefix(key, MonthPrefix(user, y, m)) && IsFile(key)
      <==> y == year && m == month && (year >= 0 || year <= -1000) && fileName != "" && !HasSuffix(fileName, "/")
  {
    var key := BuildObjectKey(user, year, month, fileName);
    var prefix := DatePrefix(user, Stamp(year), Pad(2, month));
    PrefixOfConcat(prefix, fileName);
    StampIsPadIff(year, y);
    if HasPrefix(key, MonthPrefix(user, y, m)) {
      PadHasNoSlash(4, y);
      PadHasNoSlash(2, m);
      PadHasNoSlash(2, month);
      StampHasNoSlash(year);
      DatesEqual(user, Stamp(year), Pad(2, month), Pad(4, y), Pad(2, m), key);
      PadInjective(2, month, m);
    }
    if fileName == "" {
      assert key[|key| - 1..] == "/";
    } else {
      assert key[|key| - 1..] == fileName[|fileName| - 1..];
    }
  }

  lemma StampHasNoSlash(year: int)
    ensures NoSlash(Stamp(year))
  {
  }
}
