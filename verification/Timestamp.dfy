// The ISO 8601 timestamps of datetime.c: datetime_from_iso8601 and datetime_format.
module Timestamp {
  import opened DateTime
  import opened Wrappers

  function U64(x: int): nat { x % 0x1_0000_0000_0000_0000 }

  predicate IsDigit(c: char) { '0' <= c <= '9' }

  function Val(c: char): (v: nat)
    requires IsDigit(c)
    ensures v < 10
  {
    c as int - '0' as int
  }

  // '0' + n
  function Digit(n: nat): (c: char)
    requires n < 10
    ensures IsDigit(c) && Val(c) == n
  {
    (n + 48) as char
  }

  function Pow10(k: nat): (p: nat)
    ensures p > 0
  {
    if k == 0 then 1 else 10 * Pow10(k - 1)
  }

  // ----- decimal numbers of a fixed width -----

  // The last k decimal digits of n.
  function Dec(n: nat, k: nat): (s: string)
    ensures |s| == k
  {
    if k == 0 then "" else Dec(n / 10, k - 1) + [Digit(n % 10)]
  }

  ghost predicate Digits(s: string, i: nat, k: nat)
    requires i + k <= |s|
  {
    forall j :: i <= j < i + k ==> IsDigit(s[j])
  }

  // The number that k digits from i on stand for.
  ghost function Num(s: string, i: nat, k: nat): nat
    requires i + k <= |s| && Digits(s, i, k)
  {
    if k == 0 then 0 else 10 * Num(s, i, k - 1) + Val(s[i + k - 1])
  }

  lemma {:induction false} NumBound(s: string, i: nat, k: nat)
    requires i + k <= |s| && Digits(s, i, k)
    ensures Num(s, i, k) < Pow10(k)
  {
    if k > 0 { NumBound(s, i, k - 1); }
  }

  // Reading back what has been written.
  lemma {:induction false} NumOfDec(s: string, i: nat, n: nat, k: nat)
    requires i + k <= |s| && s[i..i + k] == Dec(n, k) && n < Pow10(k)
    ensures Digits(s, i, k) && Num(s, i, k) == n
  {
    if k > 0 {
      var t := s[i..i + k];
      assert t[k - 1] == Digit(n % 10) && t[..k - 1] == Dec(n / 10, k - 1);
      assert s[i..i + (k - 1)] == t[..k - 1];
      NumOfDec(s, i, n / 10, k - 1);
    }
  }

  // Writing again what has been read.
  lemma {:induction false} DecOfNum(s: string, i: nat, k: nat)
    requires i + k <= |s| && Digits(s, i, k)
    ensures Dec(Num(s, i, k), k) == s[i..i + k]
  {
    if k > 0 {
      DecOfNum(s, i, k - 1);
      var n := Num(s, i, k - 1);
      assert (10 * n + Val(s[i + k - 1])) / 10 == n && (10 * n + Val(s[i + k - 1])) % 10 == Val(s[i + k - 1]);
      assert s[i..i + k] == s[i..i + (k - 1)] + [s[i + k - 1]];
    }
  }

  // ----- the grammar -----

  ghost predicate Shape(s: string) {
    && |s| >= 20 && s[4] == '-' && s[7] == '-' && s[13] == ':' && s[16] == ':' && s[10] in {'T', ' ', 't'}
    && Digits(s, 0, 4) && Digits(s, 5, 2) && Digits(s, 8, 2) && Digits(s, 11, 2) && Digits(s, 14, 2) && Digits(s, 17, 2)
  }

  // The civil time that the first 19 characters give.
  ghost function Stamp(s: string): Civil
    requires Shape(s)
  {
    Civil(Num(s, 0, 4), Num(s, 5, 2), Num(s, 8, 2), Num(s, 11, 2), Num(s, 14, 2), Num(s, 17, 2), 0)
  }

  // The length of the run of digits from i on.
  ghost function Run(s: string, i: nat): (n: nat)
    requires i <= |s|
    ensures i + n <= |s| && Digits(s, i, n) && (i + n < |s| ==> !IsDigit(s[i + n]))
    decreases |s| - i
  {
    if i < |s| && IsDigit(s[i]) then 1 + Run(s, i + 1) else 0
  }

  // What the text from z on says about the offset from UTC, in ticks.
  ghost function Zone(s: string, z: nat): Option<int>
    requires z < |s|
  {
    if s[z] in {'Z', 'z'} then (if z + 1 == |s| then Some(0) else None)
    else if s[z] in {'+', '-'} && z + 6 == |s| && s[z + 3] == ':' && Digits(s, z + 1, 2) && Digits(s, z + 4, 2)
         && Num(s, z + 1, 2) <= 23 && Num(s, z + 4, 2) <= 59 then
      var offset := (Num(s, z + 1, 2) * 60 + Num(s, z + 4, 2)) * 60 * TICKS_PER_SECOND;
      Some(if s[z] == '-' then -offset else offset)
    else None
  }

  // The fraction, if there is one: where the text goes on after it, and the microseconds.
  ghost function Fraction(s: string): (r: Option<(nat, nat)>)
    requires |s| >= 20
    ensures r != None ==> r.value.0 < |s|
  {
    if s[19] != '.' then Some((19, 0))
    else
      var n := Run(s, 20);
      if n < 1 || n > 9 || 20 + n == |s| then None
      else Some((20 + n, Micros(Num(s, 20, n), n)))
  }

  // The whole microseconds in a fraction of n digits.
  function Micros(v: nat, n: nat): nat
    requires n <= 9
  {
    v * Pow10(9 - n) / 1000
  }

  // What datetime_from_iso8601 accepts, and the time it stores.
  ghost function Iso(s: string): Option<nat> {
    if !Shape(s) || !ValidCivil(Stamp(s)) then None
    else match Fraction(s)
      case None => None
      case Some(f) =>
        match Zone(s, f.0)
        case None => None
        case Some(offset) => Some(U64(Encode(Stamp(s)) + f.1 - offset))
  }

  // ----- the parser -----

  // The second character is only read if the first one is a digit; reach is the end of what is read.
  method Parse2d(p: string, i: nat) returns (bad: bool, v: nat, ghost reach: nat)
    requires i < |p| && (IsDigit(p[i]) ==> i + 1 < |p|)
    ensures reach == if IsDigit(p[i]) then i + 2 else i + 1
    ensures bad <==> !(i + 2 <= |p| && Digits(p, i, 2))
    ensures !bad ==> v == Num(p, i, 2) && v < 100
  {
    bad, v, reach := true, 0, i + 1;
    if !IsDigit(p[i]) { return; }
    reach := i + 2;
    if !IsDigit(p[i + 1]) { return; }
    v := Val(p[i]) * 10 + Val(p[i + 1]);
    bad := false;
    assert Num(p, i, 1) == Val(p[i]);
  }

  method Parse4d(p: string, i: nat) returns (bad: bool, v: nat)
    requires i + 4 <= |p|
    ensures bad <==> !Digits(p, i, 4)
    ensures !bad ==> v == Num(p, i, 4) && v < 10000
  {
    if !IsDigit(p[i]) || !IsDigit(p[i + 1]) || !IsDigit(p[i + 2]) || !IsDigit(p[i + 3]) { return true, 0; }
    v := Val(p[i]) * 1000 + Val(p[i + 1]) * 100 + Val(p[i + 2]) * 10 + Val(p[i + 3]);
    bad := false;
    assert Num(p, i, 1) == Val(p[i]);
    assert Num(p, i, 2) == 10 * Val(p[i]) + Val(p[i + 1]);
    assert Num(p, i, 3) == 100 * Val(p[i]) + 10 * Val(p[i + 1]) + Val(p[i + 2]);
  }

  // The first 19 characters (datetime.c:169-180).
  method ParseStamp(str: string) returns (bad: bool, c: Civil)
    requires |str| >= 20
    ensures bad <==> !Shape(str) || !ValidCivil(Stamp(str))
    ensures !bad ==> c == Stamp(str)
  {
    bad, c := true, Civil(0, 0, 0, 0, 0, 0, 0);
    if str[4] != '-' || str[7] != '-' || str[13] != ':' || str[16] != ':' { return; }
    var ch := str[10];
    if !(ch == 'T' || ch == ' ' || ch == 't') { return; }
    var wrong, year, month, day, hour, min, sec; ghost var reach;
    wrong, year := Parse4d(str, 0);
    if wrong || year < 1 { return; }
    wrong, month, reach := Parse2d(str, 5);
    if wrong || month < 1 || month > 12 { return; }
    wrong, day, reach := Parse2d(str, 8);
    if wrong || day < 1 || day > 31 { return; }
    wrong, hour, reach := Parse2d(str, 11);
    if wrong || hour > 23 { return; }
    wrong, min, reach := Parse2d(str, 14);
    if wrong || min > 59 { return; }
    wrong, sec, reach := Parse2d(str, 17);
    if wrong || sec > 59 { return; }
    if day > 28 && day > MonthDays(year, month) { return; }
    return false, Civil(year, month, day, hour, min, sec, 0);
  }

  // The digits of a fraction, from cur on; nsec is an unsigned 32-bit number (datetime.c:191-197).
  method ParseFraction(str: string, start: nat) returns (cur: nat, nsec: nat)
    requires start <= |str|
    ensures cur == start + Run(str, start)
    ensures Run(str, start) <= 9 ==> nsec == Num(str, start, Run(str, start))
  {
    cur, nsec := start, 0;
    while cur < |str|
      invariant start <= cur <= |str| && Digits(str, start, cur - start)
      invariant cur - start + Run(str, cur) == Run(str, start)
      invariant cur - start <= 9 ==> nsec == Num(str, start, cur - start)
    {
      if !IsDigit(str[cur]) { break; }
      nsec := U32(nsec * 10 + Val(str[cur]));
      cur := cur + 1;
      if cur - start <= 9 { FitsNine(str, start, cur - start); }
    }
  }

  // The optional fraction (datetime.c:186-209).
  method ParseOptionalFraction(str: string) returns (bad: bool, cur: nat, nsec: nat)
    requires |str| >= 20
    ensures match Fraction(str) case None => bad case Some(f) => !bad && cur == f.0 && nsec / 1000 == f.1
  {
    bad, cur, nsec := true, 19, 0;
    if str[cur] == '.' {
      cur, nsec := ParseFraction(str, 20);
      var ndigits := cur - 20;
      if ndigits < 1 || ndigits > 9 { return; }
      nsec := nsec * Pow10(9 - ndigits);
      if cur == |str| { return; }
    }
    bad := false;
  }

  lemma FitsNine(s: string, i: nat, k: nat)
    requires i + k <= |s| && Digits(s, i, k) && k <= 9
    ensures Num(s, i, k) < 1000000000
  {
    NumBound(s, i, k);
    assert Pow10(9) == 1000000000;
    PowMonotone(k, 9);
  }

  lemma {:induction false} PowMonotone(j: nat, k: nat)
    requires j <= k
    ensures Pow10(j) <= Pow10(k)
    decreases k
  {
    if j < k { PowMonotone(j, k - 1); }
  }

  // Whether an offset that is too short for its five characters makes the parser read on behind the
  // text: the colon is read first, then the two digits of the hour and those of the minute.
  ghost predicate ZonePast(s: string, z: nat)
    requires z < |s|
  {
    && s[z] in {'+', '-'} && |s| < z + 6
    && (|s| > z + 3 ==> && s[z + 3] == ':' && Digits(s, z + 1, 2) && Num(s, z + 1, 2) <= 23
                        && (|s| > z + 4 ==> IsDigit(s[z + 4])))
  }

  // Whether datetime_from_iso8601 reads behind the text.
  ghost predicate ReadsPast(s: string) {
    Shape(s) && ValidCivil(Stamp(s)) && match Fraction(s) case None => false case Some(f) => ZonePast(s, f.0)
  }

  lemma NumPrefix(mem: string, len: nat, i: nat)
    requires i + 2 <= len <= |mem|
    ensures Digits(mem[..len], i, 2) <==> Digits(mem, i, 2)
    ensures Digits(mem, i, 2) ==> Num(mem[..len], i, 2) == Num(mem, i, 2)
  {
    if Digits(mem, i, 2) { assert Num(mem[..len], i, 1) == Num(mem, i, 1); }
  }

  // The zone, which begins at z and ends the text (datetime.c:211-230); mem is the memory that the text
  // of length len stands in, and reach the end of what is read of it.
  method ParseZone(mem: string, len: nat, z: nat) returns (bad: bool, offset: int, ghost reach: nat)
    requires z < len <= |mem| && (ZonePast(mem[..len], z) ==> len + 5 <= |mem|)
    ensures match Zone(mem[..len], z) case None => bad case Some(o) => !bad && offset == o
    ensures reach > len <==> ZonePast(mem[..len], z)
  {
    bad, offset, reach := true, 0, z + 1;
    var ch, cur := mem[z], z + 1;
    if !(ch == 'Z' || ch == 'z') {
      if cur + 5 < len || !(ch == '+' || ch == '-') { return; }
      reach := cur + 3;
      if mem[cur + 2] != ':' { return; }
      var wrong, zone_hour, zone_min; ghost var at;
      if cur + 2 < len { NumPrefix(mem, len, cur); }
      // These two characters come before the colon, which has been read.
      wrong, zone_hour, at := Parse2d(mem, cur);
      if wrong || zone_hour > 23 { return; }
      if cur + 5 <= len { NumPrefix(mem, len, cur + 3); }
      wrong, zone_min, reach := Parse2d(mem, cur + 3);
      if wrong || zone_min > 59 { return; }
      offset := (zone_hour * 60 + zone_min) * 60 * TICKS_PER_SECOND;
      if ch == '-' { offset := -offset; }
      cur := cur + 5;
    }
    if cur != len { return; }
    bad := false;
  }

  lemma PastInZone(s: string, z: nat)
    requires Shape(s) && ValidCivil(Stamp(s)) && Fraction(s) != None && z == Fraction(s).value.0
    ensures ReadsPast(s) <==> ZonePast(s, z)
  {
  }

  lemma NotPast(s: string)
    requires !Shape(s) || !ValidCivil(Stamp(s)) || Fraction(s) == None
    ensures !ReadsPast(s)
  {
  }

  lemma PastRejected(s: string)
    requires ReadsPast(s)
    ensures Iso(s) == None
  {
  }

  lemma TooShort(s: string)
    requires |s| < 20
    ensures !Shape(s)
  {
  }

  lemma IsoNone(s: string)
    requires !Shape(s) || !ValidCivil(Stamp(s)) || Fraction(s) == None || Zone(s, Fraction(s).value.0) == None
    ensures Iso(s) == None
  {
  }

  lemma IsoSome(s: string, z: nat, us: nat, offset: int)
    requires Shape(s) && ValidCivil(Stamp(s)) && Fraction(s) == Some((z, us)) && Zone(s, z) == Some(offset)
    ensures var c := Stamp(s); Iso(s) == Some(U64(FromYmd(c.y, c.m, c.d) + FromHmsu(c.h, c.mi, c.s, us) - offset))
  {
    hide FromYmd, U64, Shape, ValidCivil, Fraction, Zone;
  }

  // datetime_from_iso8601, of the first len characters of mem: what follows them in memory is read only
  // for a text that is then rejected, and does not matter.  What comes before the zone is read inside
  // the text, so that reach, the end of what is read, is len if the zone is not reached.
  method FromIso8601(mem: string, len: nat) returns (ret: int, dt: nat, ghost reach: nat)
    requires len <= |mem| && (ReadsPast(mem[..len]) ==> len + 5 <= |mem|)
    ensures match Iso(mem[..len]) case None => ret == 1 case Some(v) => ret == 0 && dt == v
    ensures reach > len <==> ReadsPast(mem[..len])
    ensures ReadsPast(mem[..len]) ==> ret == 1
  {
    hide *;
    ret, dt, reach := 1, 0, len;
    var str := mem[..len];
    if ReadsPast(str) { PastRejected(str); }
    if |str| < 20 {
      TooShort(str);
      IsoNone(str);
      NotPast(str);
      return;
    }
    var bad, c := ParseStamp(str);
    if bad {
      IsoNone(str);
      NotPast(str);
      return;
    }
    var cur, nsec, offset;
    bad, cur, nsec := ParseOptionalFraction(str);
    if bad {
      IsoNone(str);
      NotPast(str);
      return;
    }
    PastInZone(str, cur);
    bad, offset, reach := ParseZone(mem, len, cur);
    if bad {
      IsoNone(str);
      return;
    }
    IsoSome(str, cur, nsec / 1000, offset);
    dt := FromYmd(c.y, c.m, c.d);
    dt := dt + FromHmsu(c.h, c.mi, c.s, nsec / 1000);
    dt := U64(dt - offset);
    ret := 0;
  }

  // ----- the printer -----

  // The parts of the text that datetime_format writes.
  function DateText(y: nat, m: nat, d: nat): (s: string)
    ensures |s| == 11
  {
    Dec(y, 4) + "-" + Dec(m, 2) + "-" + Dec(d, 2) + "T"
  }

  function ClockText(h: nat, mi: nat, s: nat): (t: string)
    ensures |t| == 8
  {
    Dec(h, 2) + ":" + Dec(mi, 2) + ":" + Dec(s, 2)
  }

  function StampText(c: Civil): (s: string)
    ensures |s| == 19
  {
    DateText(c.y, c.m, c.d) + ClockText(c.h, c.mi, c.s)
  }

  function Precision(f: nat): nat {
    if f == 0 then 0 else if f % 1000000 == 0 then 3 else if f % 1000 == 0 then 6 else 9
  }

  // The number of digits is the least of 0, 3, 6 and 9 that writes f, taken for nanoseconds, in full.
  lemma PrecisionLeast(f: nat, p: nat)
    requires f < 1000000000 && p in {0, 3, 6, 9}
    ensures Precision(f) in {0, 3, 6, 9} && f % Pow10(9 - Precision(f)) == 0
    ensures f % Pow10(9 - p) == 0 ==> Precision(f) <= p
  {
    Pow10Values();
    hide Pow10;
  }

  // A fraction in microseconds is written as if it were one in nanoseconds.
  function FractionText(f: nat): (s: string)
    ensures |s| == if Precision(f) == 0 then 0 else 1 + Precision(f)
  {
    var p := Precision(f);
    if p == 0 then "" else "." + Dec(if p == 9 then f else if p == 6 then f / 1000 else f / 1000000, p)
  }

  function ZoneText(offset: int): (s: string)
    ensures |s| == if offset == 0 then 1 else 6
  {
    var v := if offset < 0 then -offset else offset;
    if offset == 0 then "Z" else [if offset < 0 then '-' else '+'] + Dec(v / 60, 2) + ":" + Dec(v % 60, 2)
  }

  function CivilText(c: Civil, offset: int): string {
    StampText(c) + FractionText(c.us) + ZoneText(offset)
  }

  function Text(dt: nat, offset: int): string
    requires dt / TICKS_PER_DAY <= MAX_RDN
  {
    CivilText(Decode(dt), offset)
  }

  lemma DecTwo(n: nat)
    ensures Dec(n, 2) == [Digit(n / 10 % 10), Digit(n % 10)]
  {
    assert Dec(n / 10, 1) == Dec(n / 10 / 10, 0) + [Digit(n / 10 % 10)];
  }

  lemma DecFour(n: nat)
    ensures Dec(n, 4) == [Digit(n / 10 / 10 / 10 % 10), Digit(n / 10 / 10 % 10), Digit(n / 10 % 10), Digit(n % 10)]
  {
    DecTwo(n / 10 / 10);
    assert Dec(n / 10, 3) == Dec(n / 10 / 10, 2) + [Digit(n / 10 % 10)];
  }

  // The digits of a number of seconds or minutes below 60, taken from the whole number.
  lemma Sixty(t: nat)
    ensures Dec(t % 60, 2) == [Digit(t / 10 % 6), Digit(t % 10)] && t / 10 / 6 == t / 60
  {
    hide Dec, Digit;
    DecTwo(t % 60);
    SixtyParts(t / 60, t % 60 / 10, t % 60 % 10);
  }

  lemma SixtyParts(q: nat, u: nat, w: nat)
    requires u < 6 && w < 10
    ensures var t := 60 * q + 10 * u + w;
      t % 60 == 10 * u + w && t / 60 == q && t % 10 == w && t / 10 == 6 * q + u && t / 10 % 6 == u && t / 10 / 6 == q
  {
  }

  lemma ClockDigits(sec: nat)
    requires sec < 86400
    ensures Dec(sec % 60, 2) == [Digit(sec / 10 % 6), Digit(sec % 10)]
    ensures Dec(sec / 60 % 60, 2) == [Digit(sec / 10 / 6 / 10 % 6), Digit(sec / 10 / 6 % 10)]
    ensures Dec(sec / 60 / 60, 2) == [Digit(sec / 10 / 6 / 10 / 6 / 10 % 10), Digit(sec / 10 / 6 / 10 / 6 % 10)]
  {
    hide Dec, Digit;
    Sixty(sec);
    Sixty(sec / 60);
    DecTwo(sec / 60 / 60);
  }

  // The first 11 characters (datetime.c:309-324) ...
  method WriteDate(p: array<char>, y0: nat, m0: nat, d0: nat)
    requires p.Length >= 11
    modifies p
    ensures p[..11] == DateText(y0, m0, d0) && p[11..] == old(p[11..])
  {
    hide Dec, Digit;
    DecFour(y0);
    DecTwo(m0);
    DecTwo(d0);
    var y, m, d := y0, m0, d0;
    p[10] := 'T';
    p[9] := Digit(d % 10);
    d := d / 10;
    p[8] := Digit(d % 10);
    p[7] := '-';
    p[6] := Digit(m % 10);
    m := m / 10;
    p[5] := Digit(m % 10);
    p[4] := '-';
    p[3] := Digit(y % 10);
    y := y / 10;
    p[2] := Digit(y % 10);
    y := y / 10;
    p[1] := Digit(y % 10);
    y := y / 10;
    p[0] := Digit(y % 10);
  }

  // ... and the eight after them (datetime.c:295-308), from the second of the day.
  method WriteClock(p: array<char>, sec: nat)
    requires p.Length >= 19 && sec < 86400
    modifies p
    ensures p[..19] == old(p[..11]) + ClockText(sec / 60 / 60, sec / 60 % 60, sec % 60) && p[19..] == old(p[19..])
  {
    hide Dec, Digit;
    ClockDigits(sec);
    var v := sec;
    p[18] := Digit(v % 10);
    v := v / 10;
    p[17] := Digit(v % 6);
    v := v / 6;
    p[16] := ':';
    p[15] := Digit(v % 10);
    v := v / 10;
    p[14] := Digit(v % 6);
    v := v / 6;
    p[13] := ':';
    p[12] := Digit(v % 10);
    v := v / 10;
    p[11] := Digit(v % 10);
  }

  // The point and the digits from i on; the cases of the switch fall through (datetime.c:327-359).
  method WriteFraction(p: array<char>, i: nat, precision: nat, v0: nat)
    requires i + 1 + precision <= p.Length
    modifies p
    ensures p[..i + 1 + precision] == old(p[..i]) + ("." + Dec(v0, precision)) &&
      p[i + 1 + precision..] == old(p[i + 1 + precision..])
  {
    hide Dec;
    var v: nat, k: nat := v0, precision;
    ghost var before, digits := p[..], "";
    assert Dec(v0, precision) + digits == Dec(v0, precision);
    while k > 0
      invariant k <= precision && |digits| == precision - k
      invariant p[..] == before[..i + 1 + k] + digits + before[i + 1 + precision..]
      invariant Dec(v, k) + digits == Dec(v0, precision)
    {
      DecStep(v, k, digits);
      p[i + k] := Digit(v % 10);
      digits := [Digit(v % 10)] + digits;
      v := v / 10;
      k := k - 1;
    }
    DecNone(v, digits);
    p[i] := '.';
  }

  lemma DecStep(v: nat, k: nat, digits: string)
    requires k > 0
    ensures Dec(v, k) + digits == Dec(v / 10, k - 1) + ([Digit(v % 10)] + digits)
  {
  }

  lemma DecNone(v: nat, digits: string)
    ensures Dec(v, 0) + digits == digits
  {
  }

  lemma ZoneDigits(v: nat)
    requires v < 1440
    ensures Dec(v % 60, 2) == [Digit(v / 10 % 6), Digit(v % 10)]
    ensures Dec(v / 60, 2) == [Digit(v / 10 / 6 / 10 % 10), Digit(v / 10 / 6 % 10)]
  {
    hide Dec, Digit;
    Sixty(v);
    DecTwo(v / 60);
  }

  // The zone and the end of the string (datetime.c:361-379).
  method WriteZone(p: array<char>, i: nat, zone_offset: int)
    requires -1440 < zone_offset < 1440 && i + (if zone_offset == 0 then 1 else 6) < p.Length
    modifies p
    ensures p[..i + |ZoneText(zone_offset)| + 1] == old(p[..i]) + (ZoneText(zone_offset) + ['\0'])
    ensures p[i + |ZoneText(zone_offset)| + 1..] == old(p[i + |ZoneText(zone_offset)| + 1..])
  {
    hide Dec, Digit;
    var j := i;
    if zone_offset == 0 {
      p[j] := 'Z';
      j := j + 1;
    } else {
      var v;
      if zone_offset < 0 {
        p[j] := '-';
        v := -zone_offset;
      } else {
        p[j] := '+';
        v := zone_offset;
      }
      ZoneDigits(v);
      p[j + 5] := Digit(v % 10);
      v := v / 10;
      p[j + 4] := Digit(v % 6);
      v := v / 6;
      p[j + 3] := ':';
      p[j + 2] := Digit(v % 10);
      v := v / 10;
      p[j + 1] := Digit(v % 10);
      j := j + 6;
    }
    p[j] := '\0';
  }

  // The length that datetime_format asks for and returns; it allows one character for the zone.
  function FormatLength(f: nat): nat {
    20 + if Precision(f) == 0 then 0 else 1 + Precision(f)
  }

  // datetime_format; dst is the memory from dst on, of which the caller has offered len characters
  method Format(dst: array<char>, len: nat, dt: nat, offset: int) returns (r: nat)
    requires dt / TICKS_PER_DAY <= MAX_RDN && -1440 < offset < 1440
    requires len <= dst.Length
    requires FormatLength(dt % TICKS_PER_DAY % TICKS_PER_SECOND) < len ==> |Text(dt, offset)| < dst.Length
    modifies dst
    ensures var n, t := FormatLength(dt % TICKS_PER_DAY % TICKS_PER_SECOND), Text(dt, offset);
      if n >= len then r == 0 && dst[..] == old(dst[..])
      else r == n && dst[..|t| + 1] == t + ['\0'] && dst[|t| + 1..] == old(dst[|t| + 1..])
  {
    var f := dt % TICKS_PER_DAY % TICKS_PER_SECOND;
    var precision := if f == 0 then 0 else if f % 1000000 == 0 then 3 else if f % 1000 == 0 then 6 else 9;
    var dlen := 20;
    if precision != 0 { dlen := dlen + 1 + precision; }
    if dlen >= len { return 0; }
    var sec, rdn := dt % TICKS_PER_DAY / TICKS_PER_SECOND, dt / TICKS_PER_DAY;
    var ymd := RdnToYmd(rdn);
    hide RdnToYmd, DateText, ClockText, ZoneText, Dec, Scaled;
    ghost var s0, k := dst[..], |Text(dt, offset)| + 1;
    WriteDate(dst, ymd.y, ymd.m, ymd.d);
    TailKept(dst[..], s0, 11, k);
    ghost var s1 := dst[..];
    WriteClock(dst, sec);
    TailKept(dst[..], s1, 19, k);
    var p := 19;
    if precision != 0 {
      var v := Scaled(f, precision);
      ghost var s2 := dst[..];
      WriteFraction(dst, p, precision, v);
      p := p + 1 + precision;
      TailKept(dst[..], s2, p, k);
    }
    assert dst[..p] == StampText(Decode(dt)) + FractionText(f);
    WriteZone(dst, p, offset);
    Regroup(StampText(Decode(dt)) + FractionText(f), ZoneText(offset), ['\0']);
    r := dlen;
  }

  // When the length test lets a time through, the text and its end fit into len characters, and the
  // length returned is that of the text, exactly under these conditions.
  lemma FormatFits(dt: nat, offset: int, len: nat)
    requires dt / TICKS_PER_DAY <= MAX_RDN
    requires FormatLength(dt % TICKS_PER_DAY % TICKS_PER_SECOND) < len
    ensures |Text(dt, offset)| + 1 <= len <==>
      offset == 0 || FormatLength(dt % TICKS_PER_DAY % TICKS_PER_SECOND) + 5 < len
    ensures |Text(dt, offset)| == FormatLength(dt % TICKS_PER_DAY % TICKS_PER_SECOND) <==> offset == 0
  {
    hide StampText, FractionText, ZoneText;
  }

  // The 1 January 2014, one hour east of UTC, with room for 21 characters: 20 is returned, and the text
  // of 25 characters and its end go five places beyond the 21.
  lemma FormatOverrun(dt: nat)
    requires dt == 735233 * TICKS_PER_DAY
    ensures dt / TICKS_PER_DAY <= MAX_RDN && FormatLength(dt % TICKS_PER_DAY % TICKS_PER_SECOND) == 20 < 21
    ensures |Text(dt, 60)| + 1 == 26
  {
    hide StampText, ZoneText;
  }

  lemma TailKept(s: string, t: string, i: nat, k: nat)
    requires i <= |s| == |t| && s[i..] == t[i..] && i <= k <= |s|
    ensures s[k..] == t[k..]
  {
    assert s[k..] == s[i..][k - i..] && t[k..] == t[i..][k - i..];
  }

  // nsec / Pow10[9 - precision]
  function Scaled(f: nat, precision: nat): (v: nat)
    requires precision <= 9
    ensures precision == 9 ==> v == f
    ensures precision == 6 ==> v == f / 1000
    ensures precision == 3 ==> v == f / 1000000
  {
    assert Pow10(0) == 1 && Pow10(3) == 1000 && Pow10(6) == 1000000;
    Quotient(f, Pow10(9 - precision))
  }

  function Quotient(f: nat, d: nat): nat
    requires d > 0
  {
    f / d
  }

  // ----- round trips -----

  lemma DateParts(y: nat, m: nat, d: nat)
    ensures var t := DateText(y, m, d);
      t[..4] == Dec(y, 4) && t[4] == '-' && t[5..7] == Dec(m, 2) && t[7] == '-' && t[8..10] == Dec(d, 2) && t[10] == 'T'
  {
    hide Dec;
  }

  lemma ClockParts(h: nat, mi: nat, s: nat)
    ensures var t := ClockText(h, mi, s);
      t[..2] == Dec(h, 2) && t[2] == ':' && t[3..5] == Dec(mi, 2) && t[5] == ':' && t[6..8] == Dec(s, 2)
  {
    hide Dec;
  }

  lemma StampParsed(s: string, c: Civil)
    requires |s| >= 20 && s[..19] == StampText(c) && ValidCivil(c) && c.y < 10000
    ensures Shape(s) && Stamp(s) == c.(us := 0) && ValidCivil(Stamp(s))
  {
    hide Dec, DateText, ClockText;
    var d, t := DateText(c.y, c.m, c.d), ClockText(c.h, c.mi, c.s);
    DateParts(c.y, c.m, c.d);
    ClockParts(c.h, c.mi, c.s);
    assert s[..11] == d && s[11..19] == t by { assert s[..19][..11] == d && s[..19][11..] == t; }
    assert Pow10(2) == 100 && Pow10(4) == 10000;
    assert s[0..4] == s[..11][..4] && s[5..7] == s[..11][5..7] && s[8..10] == s[..11][8..10];
    assert s[11..13] == s[11..19][..2] && s[14..16] == s[11..19][3..5] && s[17..19] == s[11..19][6..8];
    assert s[4] == d[4] && s[7] == d[7] && s[10] == d[10] && s[13] == t[2] && s[16] == t[5];
    NumOfDec(s, 0, c.y, 4);
    NumOfDec(s, 5, c.m, 2);
    NumOfDec(s, 8, c.d, 2);
    NumOfDec(s, 11, c.h, 2);
    NumOfDec(s, 14, c.mi, 2);
    NumOfDec(s, 17, c.s, 2);
  }

  lemma {:induction false} RunIs(s: string, i: nat, n: nat)
    requires i + n < |s| && Digits(s, i, n) && !IsDigit(s[i + n])
    ensures Run(s, i) == n
    decreases n
  {
    if n > 0 { RunIs(s, i + 1, n - 1); }
  }

  // A sign with nothing after it is read past, whatever the time before it.
  lemma SignPast(c: Civil)
    requires ValidCivil(c) && c.y < 10000
    ensures ReadsPast(StampText(c) + "+")
  {
    hide StampText, Shape, Stamp, ValidCivil;
    var s := StampText(c) + "+";
    assert s[..19] == StampText(c);
    StampParsed(s, c);
  }

  lemma SignText()
    ensures StampText(Civil(2013, 12, 31, 23, 59, 59, 0)) == "2013-12-31T23:59:59"
  {
    SignDate();
    SignClock();
    hide *;
    StampParts(Civil(2013, 12, 31, 23, 59, 59, 0));
    assert "2013-12-31T" + "23:59:59" == "2013-12-31T23:59:59";
  }

  lemma StampParts(c: Civil)
    ensures StampText(c) == DateText(c.y, c.m, c.d) + ClockText(c.h, c.mi, c.s)
  {
  }

  lemma SignDate()
    ensures DateText(2013, 12, 31) == "2013-12-31T"
  {
    hide Digit, Dec;
    DecFour(2013);
    DecTwo(12);
    DecTwo(31);
    Digits10();
  }

  lemma SignClock()
    ensures ClockText(23, 59, 59) == "23:59:59"
  {
    hide Digit, Dec;
    DecTwo(23);
    DecTwo(59);
    Digits10();
  }

  lemma Digits10()
    ensures Digit(0) == '0' && Digit(1) == '1' && Digit(2) == '2' && Digit(3) == '3'
    ensures Digit(5) == '5' && Digit(9) == '9'
  {
  }

  lemma ReadsPastSign()
    ensures ReadsPast("2013-12-31T23:59:59+")
  {
    SignText();
    hide *;
    TimeOfSign();
    SignPast(Civil(2013, 12, 31, 23, 59, 59, 0));
    assert "2013-12-31T23:59:59" + "+" == "2013-12-31T23:59:59+";
  }

  lemma TimeOfSign()
    ensures ValidCivil(Civil(2013, 12, 31, 23, 59, 59, 0))
  {
  }

  lemma FractionParsed(s: string, f: nat)
    requires f < TICKS_PER_SECOND && 19 + |FractionText(f)| < |s| && |s| >= 20
    requires s[19..19 + |FractionText(f)|] == FractionText(f) && s[19 + |FractionText(f)|] in {'Z', '+', '-'}
    ensures Fraction(s) == Some((19 + |FractionText(f)|, f / 1000))
  {
    if f == 0 {
    } else {
      var p := Precision(f);
      var v := if p == 9 then f else f / 1000;
      var t := s[19..20 + p];
      assert t == "." + Dec(v, p);
      assert s[19] == t[0] && s[20..20 + p] == t[1..];
      assert Pow10(3) == 1000 && Pow10(6) == 1000000 && Pow10(9) == 1000000000 && Pow10(0) == 1;
      NumOfDec(s, 20, v, p);
      RunIs(s, 20, p);
      assert Micros(v, p) == f / 1000;
    }
  }

  lemma ZoneParsed(s: string, z: nat, offset: int)
    requires z < |s| && s[z..] == ZoneText(offset) && -1440 < offset < 1440
    ensures Zone(s, z) == Some(offset * 60 * TICKS_PER_SECOND)
  {
    var t := s[z..];
    assert s[z] == t[0];
    if offset != 0 {
      var v := if offset < 0 then -offset else offset;
      assert Pow10(2) == 100;
      hide Dec;
      assert s[z + 1..z + 3] == t[1..3] == Dec(v / 60, 2) && s[z + 4..z + 6] == t[4..6] == Dec(v % 60, 2) &&
        s[z + 3] == t[3];
      NumOfDec(s, z + 1, v / 60, 2);
      NumOfDec(s, z + 4, v % 60, 2);
    }
  }

  // ----- the meaning of a text -----

  lemma Pow10Values()
    ensures Pow10(0) == 1 && Pow10(1) == 10 && Pow10(2) == 100 && Pow10(3) == 1000 && Pow10(4) == 10000
    ensures Pow10(5) == 100000 && Pow10(6) == 1000000 && Pow10(7) == 10000000 && Pow10(8) == 100000000
    ensures Pow10(9) == 1000000000
  {
    assert Pow10(3) == 1000;
    assert Pow10(6) == 1000000;
  }

  // There are us whole microseconds in v / 10^n seconds.
  predicate WholeMicros(v: nat, n: nat, us: nat) {
    us * Pow10(n) <= v * 1000000 < (us + 1) * Pow10(n)
  }

  lemma MicrosLong(v: nat, n: nat, us: nat)
    requires 6 <= n <= 9 && WholeMicros(v, n, us)
    ensures Micros(v, n) == us
  {
    Pow10Values();
    hide Pow10;
    if n == 6 {} else if n == 7 {} else if n == 8 {} else {}
  }

  lemma MicrosShort(v: nat, n: nat, us: nat)
    requires 1 <= n < 6 && WholeMicros(v, n, us)
    ensures Micros(v, n) == us
  {
    Pow10Values();
    hide Pow10;
    if n == 1 {} else if n == 2 {} else if n == 3 {} else if n == 4 {} else {}
  }

  lemma FractionRead(s: string, n: nat, v: nat)
    requires 1 <= n <= 9 && v < Pow10(n) && 20 + n < |s| && !IsDigit(s[20 + n])
    requires s[19] == '.' && s[20..20 + n] == Dec(v, n)
    ensures Fraction(s) == Some((20 + n, Micros(v, n)))
  {
    hide Dec, Micros;
    NumOfDec(s, 20, v, n);
    RunIs(s, 20, n);
  }

  lemma ZoneRead(s: string, z: nat, sign: char, h: nat, m: nat)
    requires z < |s| && s[z..] == [sign] + Dec(h, 2) + ":" + Dec(m, 2)
    requires sign in {'+', '-'} && h <= 23 && m <= 59
    ensures Zone(s, z) == Some((if sign == '+' then h * 60 + m else -(h * 60 + m)) * 60 * TICKS_PER_SECOND)
  {
    hide Dec;
    var t := s[z..];
    assert Pow10(2) == 100;
    assert s[z] == t[0] && s[z + 3] == t[3];
    assert s[z + 1..z + 3] == t[1..3] == Dec(h, 2) && s[z + 4..z + 6] == t[4..6] == Dec(m, 2);
    NumOfDec(s, z + 1, h, 2);
    NumOfDec(s, z + 4, m, 2);
  }

  function Ticks(minutes: int): int { minutes * 60 * TICKS_PER_SECOND }

  // The zones that a text may end with, and the minutes they are ahead of UTC.
  predicate IsZone(zone: string, minutes: int) {
    || (zone in {"Z", "z"} && minutes == 0)
    || exists h, m | 0 <= h <= 23 && 0 <= m <= 59 ::
         || (zone == "+" + Dec(h, 2) + ":" + Dec(m, 2) && minutes == h * 60 + m)
         || (zone == "-" + Dec(h, 2) + ":" + Dec(m, 2) && minutes == -(h * 60 + m))
  }

  lemma ZoneMeaning(s: string, z: nat, minutes: int)
    requires z < |s| && IsZone(s[z..], minutes)
    ensures Zone(s, z) == Some(Ticks(minutes)) && s[z] in {'Z', 'z', '+', '-'}
  {
    hide Dec;
    var zone := s[z..];
    assert s[z] == zone[0];
    if zone !in {"Z", "z"} {
      var h, m :| 0 <= h <= 23 && 0 <= m <= 59 &&
        ((zone == "+" + Dec(h, 2) + ":" + Dec(m, 2) && minutes == h * 60 + m) ||
         (zone == "-" + Dec(h, 2) + ":" + Dec(m, 2) && minutes == -(h * 60 + m)));
      ZoneRead(s, z, zone[0], h, m);
    }
  }

  // A time with the fraction v / 10^n of a second.
  function FullText(c: Civil, n: nat, v: nat, zone: string): string {
    StampText(c) + "." + Dec(v, n) + zone
  }

  // Main theorem: the time that a text with a fraction of n digits stands for is the civil time plus the
  // whole microseconds us in v / 10^n seconds, minus what the zone is ahead of UTC.
  lemma FractionMeaning(c: Civil, n: nat, v: nat, us: nat, zone: string, minutes: int)
    requires ValidCivil(c) && c.us == 0 && c.y < 10000 && 1 <= n <= 9 && v < Pow10(n) && IsZone(zone, minutes)
    requires WholeMicros(v, n, us)
    ensures Iso(FullText(c, n, v, zone)) == Some(U64(Encode(c) + us - Ticks(minutes)))
  {
    var s, ticks := FullText(c, n, v, zone), Ticks(minutes);
    hide *;
    FullTextIs(c, n, v, zone);
    if n < 6 { MicrosShort(v, n, us); } else { MicrosLong(v, n, us); }
    ZoneFilled(zone, minutes);
    TextParts(StampText(c), Dec(v, n), zone);
    StampParsed(s, c);
    ZoneMeaning(s, 20 + n, minutes);
    ZoneNoDigit(s[20 + n]);
    FractionRead(s, n, v);
    WholeSecond(c);
    IsoIs(s, 20 + n, us, ticks);
  }

  lemma IsoIs(s: string, z: nat, us: nat, ticks: int)
    requires Shape(s) && ValidCivil(Stamp(s)) && Fraction(s) == Some((z, us)) && Zone(s, z) == Some(ticks)
    ensures Iso(s) == Some(U64(Encode(Stamp(s)) + us - ticks))
  {
    hide Shape, ValidCivil, Stamp, Fraction, Zone, Encode, U64;
  }

  lemma WholeSecond(c: Civil)
    requires c.us == 0
    ensures c.(us := 0) == c
  {
  }

  lemma NoFraction(s: string)
    requires |s| >= 20 && s[19] in {'Z', 'z', '+', '-'}
    ensures Fraction(s) == Some((19, 0))
  {
  }

  lemma ZoneNoDigit(ch: char)
    requires ch in {'Z', 'z', '+', '-'}
    ensures !IsDigit(ch)
  {
  }

  lemma TextParts(a: string, b: string, z: string)
    requires |a| == 19
    ensures var s := a + "." + b + z; s[..19] == a && s[19] == '.' && s[20..20 + |b|] == b && s[20 + |b|..] == z
  {
  }

  lemma FullTextIs(c: Civil, n: nat, v: nat, zone: string)
    ensures FullText(c, n, v, zone) == StampText(c) + "." + Dec(v, n) + zone
    ensures |StampText(c)| == 19 && |Dec(v, n)| == n
  {
  }

  lemma ZoneFilled(zone: string, minutes: int)
    requires IsZone(zone, minutes)
    ensures zone != ""
  {
  }

  lemma NoFractionMeaning(c: Civil, zone: string, minutes: int)
    requires ValidCivil(c) && c.us == 0 && c.y < 10000 && IsZone(zone, minutes)
    ensures Iso(StampText(c) + zone) == Some(U64(Encode(c) - Ticks(minutes)))
  {
    var s, ticks := StampText(c) + zone, Ticks(minutes);
    hide *;
    ZoneFilled(zone, minutes);
    assert s[..19] == StampText(c) && s[19..] == zone;
    StampParsed(s, c);
    ZoneMeaning(s, 19, minutes);
    NoFraction(s);
    WholeSecond(c);
    IsoIs(s, 19, 0, ticks);
  }

  // In UTC nothing wraps around.
  lemma UtcMeaning(c: Civil, n: nat, v: nat, us: nat)
    requires ValidCivil(c) && c.us == 0 && c.y < 10000 && 1 <= n <= 9 && v < Pow10(n)
    requires WholeMicros(v, n, us)
    ensures Iso(FullText(c, n, v, "Z")) == Some(Encode(c) + us)
  {
    hide *;
    UsBelow(n, v, us);
    ZIsZone();
    UtcShift(c, us);
    FractionMeaning(c, n, v, us, "Z", 0);
  }

  lemma ZIsZone()
    ensures IsZone("Z", 0)
  {
  }

  lemma UtcShift(c: Civil, us: nat)
    requires ValidCivil(c) && c.us == 0 && us < TICKS_PER_SECOND
    ensures U64(Encode(c) + us - Ticks(0)) == Encode(c) + us
  {
    UtcWhole(c, us);
  }

  lemma UtcWhole(c: Civil, us: nat)
    requires ValidCivil(c) && c.us == 0 && us < TICKS_PER_SECOND
    ensures U64(Encode(c) + us) == Encode(c) + us
  {
    var d := c.(us := us);
    UtcValid(c, us);
    EncodeFits(d);
    hide *;
    EncodeMicros(d);
    WholeSecond(c);
    assert d.(us := 0) == c;
  }

  lemma EncodeFits(c: Civil)
    requires ValidCivil(c)
    ensures U64(Encode(c)) == Encode(c)
  {
    DecodeRoundTrip(c);
    hide Encode, Decode, ValidCivil, U64;
    Unwrapped64(Encode(c));
  }

  lemma UtcValid(c: Civil, us: nat)
    requires ValidCivil(c) && us < TICKS_PER_SECOND
    ensures ValidCivil(c.(us := us))
  {
  }

  lemma UsBelow(n: nat, v: nat, us: nat)
    requires v < Pow10(n) && WholeMicros(v, n, us)
    ensures us < TICKS_PER_SECOND
  {
    if us >= TICKS_PER_SECOND {
      Grows(TICKS_PER_SECOND, us, Pow10(n));
      assert false;
    }
  }

  lemma Grows(a: nat, b: nat, p: nat)
    requires a <= b
    ensures a * p <= b * p
  {
    assert b * p - a * p == (b - a) * p;
  }

  // What the parser makes of a printed text: the whole second, a thousandth of the microseconds, and
  // the offset subtracted.
  lemma Reread(c: Civil, offset: int)
    requires ValidCivil(c) && c.y < 10000 && -1440 < offset < 1440
    ensures Iso(CivilText(c, offset)) == Some(U64(Encode(c) - c.us + c.us / 1000 - offset * 60 * TICKS_PER_SECOND))
  {
    hide StampText, FractionText, ZoneText, Shape, Stamp, ValidCivil, Fraction, Zone, Encode, U64;
    var s := CivilText(c, offset);
    var a, b, z := StampText(c), FractionText(c.us), ZoneText(offset);
    assert s == a + b + z;
    assert s[..19] == a && s[19..19 + |b|] == b && s[19 + |b|..] == z;
    assert s[19 + |b|] == z[0];
    ZoneStart(offset);
    UsBound(c);
    StampParsed(s, c);
    FractionParsed(s, c.us);
    ZoneParsed(s, 19 + |b|, offset);
    EncodeMicros(c);
  }

  lemma ZoneStart(offset: int)
    ensures ZoneText(offset)[0] in {'Z', '+', '-'}
  {
  }

  lemma UsBound(c: Civil)
    requires ValidCivil(c)
    ensures c.us < TICKS_PER_SECOND
  {
  }

  lemma EncodeMicros(c: Civil)
    ensures Encode(c) == Encode(c.(us := 0)) + c.us
  {
    hide FromYmd;
  }

  const MAX_DATE_TIME := 315537897599999999

  // The last year with four digits.
  lemma FourDigits(dt: nat)
    requires dt <= MAX_DATE_TIME
    ensures dt / TICKS_PER_DAY <= MAX_RDN && ValidCivil(Decode(dt)) && Decode(dt).y < 10000
    ensures Encode(Decode(dt)) == dt && Decode(dt).us == dt % TICKS_PER_SECOND
  {
    LastDayNumber(dt);
    hide *;
    EncodeRoundTrip(dt);
    DecodeFields(dt);
    YearBound(dt / TICKS_PER_DAY);
  }

  lemma LastDayNumber(dt: nat)
    requires dt <= MAX_DATE_TIME
    ensures dt / TICKS_PER_DAY <= 3652058 <= MAX_RDN && dt % TICKS_PER_DAY % TICKS_PER_SECOND == dt % TICKS_PER_SECOND
  {
  }

  lemma DecodeFields(dt: nat)
    requires dt / TICKS_PER_DAY <= MAX_RDN
    ensures Decode(dt).y == RdnToYmd(dt / TICKS_PER_DAY).y && Decode(dt).us == dt % TICKS_PER_DAY % TICKS_PER_SECOND
  {
    hide RdnToYmd;
  }

  lemma YearBound(rdn: nat)
    requires rdn <= 3652058 <= MAX_RDN
    ensures RdnToYmd(rdn).y < 10000
  {
    hide RdnToYmd, YmdToRdn, ValidDate;
    RdnRoundTrip(rdn);
    RdnAt10000();
    var r := RdnToYmd(rdn);
    RdnMonotone(r.y, r.m, r.d, 10000, 1, 1);
    DateRoundTrip(10000, 1, 1);
  }

  lemma RdnAt10000()
    ensures YmdToRdn(10000, 1, 1) == 3652059 && ValidDate(10000, 1, 1)
  {
  }

  // Main theorem: reading back a printed time gives it back if and only if it is a whole second and the
  // offset is zero; in general the microseconds shrink to a thousandth, and the offset, which the
  // printer does not add, is subtracted.
  lemma PrintParse(dt: nat, offset: int)
    requires dt <= MAX_DATE_TIME && -1440 < offset < 1440
    ensures dt / TICKS_PER_DAY <= MAX_RDN
    ensures var f := dt % TICKS_PER_SECOND;
      Iso(Text(dt, offset)) == Some(U64(dt - f + f / 1000 - offset * 60 * TICKS_PER_SECOND))
    ensures Iso(Text(dt, offset)) == Some(dt) <==> dt % TICKS_PER_SECOND == 0 && offset == 0
  {
    var f := dt % TICKS_PER_SECOND;
    hide *;
    ReadBack(dt, f, offset);
    Shifted(dt, f, offset);
  }

  lemma ReadBack(dt: nat, f: nat, offset: int)
    requires dt <= MAX_DATE_TIME && f == dt % TICKS_PER_SECOND && -1440 < offset < 1440
    ensures dt / TICKS_PER_DAY <= MAX_RDN
    ensures Iso(Text(dt, offset)) == Some(U64(dt - f + f / 1000 - offset * 60 * TICKS_PER_SECOND))
  {
    hide *;
    FourDigits(dt);
    Reread(Decode(dt), offset);
    TextOfCivil(dt, offset);
  }

  lemma TextOfCivil(dt: nat, offset: int)
    requires dt / TICKS_PER_DAY <= MAX_RDN
    ensures Text(dt, offset) == CivilText(Decode(dt), offset)
  {
  }

  lemma Shifted(dt: nat, f: nat, offset: int)
    requires dt <= MAX_DATE_TIME && f == dt % TICKS_PER_SECOND && -1440 < offset < 1440
    ensures U64(dt - f + f / 1000 - offset * 60 * TICKS_PER_SECOND) == dt <==> f == 0 && offset == 0
  {
    var x := f - f / 1000 + offset * 60 * TICKS_PER_SECOND;
    assert x == 0 <==> f == 0 && offset == 0;
    assert dt - f + f / 1000 - offset * 60 * TICKS_PER_SECOND == dt - x;
    if dt - x >= 0 { SmallU64(dt - x); } else { assert U64(dt - x) == dt - x + 0x1_0000_0000_0000_0000; }
  }

  lemma SmallU64(x: nat)
    requires x < 0x1_0000_0000_0000_0000
    ensures U64(x) == x
  {
  }

  // Conversely, printing what has been read from a text of 20 characters with T and Z (the UTC form of
  // section 5.6 of RFC 3339) gives the text again.
  lemma ParsePrint(s: string)
    requires |s| == 20 && s[10] == 'T' && s[19] == 'Z' && Iso(s) != None
    ensures Iso(s).value / TICKS_PER_DAY <= MAX_RDN && Text(Iso(s).value, 0) == s
  {
    IsoOfStamp(s);
    hide Iso, Encode, ValidCivil, Shape, Stamp, Decode, StampText;
    DecodeRoundTrip(Stamp(s));
    Unwrapped64(Encode(Stamp(s)));
    StampRewritten(s);
    assert s == s[..19] + "" + "Z";
  }

  lemma IsoOfStamp(s: string)
    requires |s| == 20 && s[19] == 'Z' && Iso(s) != None
    ensures Shape(s) && ValidCivil(Stamp(s)) && Stamp(s).us == 0 && Iso(s) == Some(U64(Encode(Stamp(s))))
  {
    hide Encode, U64;
  }

  lemma Unwrapped64(x: nat)
    requires x / TICKS_PER_DAY <= MAX_RDN
    ensures U64(x) == x
  {
    assert x < 0x1_0000_0000_0000_0000;
    SmallU64(x);
  }

  // Only such texts are accepted, but for the character between date and time, which may be a space or
  // small as well.
  lemma AcceptedForm(s: string) returns (c: Civil, n: nat, v: nat, zone: string, minutes: int)
    requires Iso(s) != None
    ensures ValidCivil(c) && c.us == 0 && c.y < 10000 && n <= 9 && v < Pow10(n) && IsZone(zone, minutes)
    ensures |s| > 10 && s[10] in {'T', ' ', 't'}
    ensures s[10 := 'T'] == StampText(c) + (if n == 0 then "" else "." + Dec(v, n)) + zone
    ensures Iso(s[10 := 'T']) == Iso(s)
  {
    IsoParts(s);
    c := Stamp(s);
    YearDigits(s);
    var z := Fraction(s).value.0;
    minutes := ZoneForm(s, z);
    zone := s[z..];
    n, v := FractionForm(s);
    SameSeparator(s, 'T');
    var t := s[10 := 'T'];
    StampRewritten(t);
    hide *;
    PartsJoined(s, n, z);
  }

  lemma IsoParts(s: string)
    requires Iso(s) != None
    ensures Shape(s) && ValidCivil(Stamp(s)) && Fraction(s) != None && Zone(s, Fraction(s).value.0) != None
  {
    hide Shape, ValidCivil, Stamp, Zone;
  }

  lemma YearDigits(s: string)
    requires Shape(s)
    ensures Stamp(s).y < 10000 && Stamp(s).us == 0
  {
    NumBound(s, 0, 4);
    assert Pow10(4) == 10000;
  }

  lemma ZoneForm(s: string, z: nat) returns (minutes: int)
    requires z < |s| && Zone(s, z) != None
    ensures IsZone(s[z..], minutes)
  {
    if s[z] in {'Z', 'z'} {
      minutes := 0;
      assert s[z..] == [s[z]];
    } else {
      var h: int, m: int := Num(s, z + 1, 2), Num(s, z + 4, 2);
      minutes := if s[z] == '-' then -(h * 60 + m) else h * 60 + m;
      DecOfNum(s, z + 1, 2);
      DecOfNum(s, z + 4, 2);
      ZoneJoined(s, z, h, m);
    }
  }

  lemma ZoneJoined(s: string, z: nat, h: nat, m: nat)
    requires z + 6 == |s| && s[z + 1..z + 3] == Dec(h, 2) && s[z + 3] == ':' && s[z + 4..z + 6] == Dec(m, 2)
    ensures s[z..] == [s[z]] + Dec(h, 2) + ":" + Dec(m, 2)
  {
  }

  lemma FractionForm(s: string) returns (n: nat, v: nat)
    requires |s| >= 20 && Fraction(s) != None
    ensures n <= 9 && v < Pow10(n)
    ensures if n == 0 then Fraction(s).value.0 == 19
            else Fraction(s).value.0 == 20 + n <= |s| && s[19] == '.' && s[20..20 + n] == Dec(v, n)
  {
    if s[19] != '.' {
      n, v := 0, 0;
    } else {
      n := Run(s, 20);
      v := Num(s, 20, n);
      NumBound(s, 20, n);
      DecOfNum(s, 20, n);
    }
  }

  lemma PartsJoined(s: string, n: nat, z: nat)
    requires 20 <= |s| && z <= |s| && z == (if n == 0 then 19 else 20 + n) && (n > 0 ==> s[19] == '.')
    ensures s[10 := 'T'] == s[10 := 'T'][..19] + (if n == 0 then "" else "." + s[20..20 + n]) + s[z..]
  {
  }

  // Of the three characters between date and time each will do.
  lemma SameSeparator(s: string, ch: char)
    requires Shape(s) && ch in {'T', ' ', 't'}
    ensures Shape(s[10 := ch]) && Stamp(s[10 := ch]) == Stamp(s) && Iso(s[10 := ch]) == Iso(s)
  {
    var t := s[10 := ch];
    assert Digits(t, 0, 4) && Digits(t, 5, 2) && Digits(t, 8, 2);
    assert Digits(t, 11, 2) && Digits(t, 14, 2) && Digits(t, 17, 2);
    SameNum(s, t, 0, 4);
    SameNum(s, t, 5, 2);
    SameNum(s, t, 8, 2);
    SameNum(s, t, 11, 2);
    SameNum(s, t, 14, 2);
    SameNum(s, t, 17, 2);
    SameFraction(s, t);
    if Fraction(s) != None { SameZone(s, t, Fraction(s).value.0); }
    hide Shape, Stamp, Fraction, Zone, ValidCivil;
  }

  lemma {:induction false} SameNum(s: string, t: string, i: nat, k: nat)
    requires i + k <= |s| == |t| && Digits(s, i, k) && Digits(t, i, k) && s[i..i + k] == t[i..i + k]
    ensures Num(s, i, k) == Num(t, i, k)
  {
    if k > 0 {
      assert s[i..i + k][k - 1] == t[i..i + k][k - 1];
      assert s[i..i + (k - 1)] == s[i..i + k][..k - 1] && t[i..i + (k - 1)] == t[i..i + k][..k - 1];
      SameNum(s, t, i, k - 1);
    }
  }

  lemma {:induction false} SameRun(s: string, t: string, i: nat)
    requires 19 <= i <= |s| == |t| && s[19..] == t[19..]
    ensures Run(s, i) == Run(t, i)
    decreases |s| - i
  {
    if i < |s| {
      assert s[19..][i - 19] == t[19..][i - 19];
      SameRun(s, t, i + 1);
    }
  }

  lemma SamePart(s: string, t: string, i: nat, k: nat)
    requires 19 <= i && i + k <= |s| == |t| && s[19..] == t[19..]
    ensures s[i..i + k] == t[i..i + k]
  {
    var j: nat := i - 19;
    assert s[i..i + k] == s[19..][j..j + k];
    assert t[i..i + k] == t[19..][j..j + k];
  }

  lemma SameFraction(s: string, t: string)
    requires 20 <= |s| == |t| && s[19..] == t[19..]
    ensures Fraction(s) == Fraction(t)
  {
    assert s[19] == s[19..][0] && t[19] == t[19..][0];
    SameRun(s, t, 20);
    var n := Run(s, 20);
    SamePart(s, t, 20, n);
    SameNum(s, t, 20, n);
  }

  lemma SameZone(s: string, t: string, z: nat)
    requires 19 <= z < |s| == |t| && s[19..] == t[19..]
    ensures Zone(s, z) == Zone(t, z)
  {
    assert forall i :: z <= i < |s| ==> s[i] == s[19..][i - 19] && t[i] == t[19..][i - 19];
    if z + 6 == |s| && Digits(s, z + 1, 2) && Digits(s, z + 4, 2) {
      SamePart(s, t, z + 1, 2);
      SamePart(s, t, z + 4, 2);
      SameNum(s, t, z + 1, 2);
      SameNum(s, t, z + 4, 2);
    }
  }

  lemma StampRewritten(s: string)
    requires Shape(s) && s[10] == 'T'
    ensures StampText(Stamp(s)) == s[..19]
  {
    hide Dec;
    DecOfNum(s, 0, 4);
    DecOfNum(s, 5, 2);
    DecOfNum(s, 8, 2);
    DecOfNum(s, 11, 2);
    DecOfNum(s, 14, 2);
    DecOfNum(s, 17, 2);
  }
}
