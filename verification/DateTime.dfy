// The calendar arithmetic of datetime.c: days since 0001-01-01 in the proleptic Gregorian calendar
// (Rata Die, Peter Baum's algorithm) and microseconds since then.  Unsigned 16- and 32-bit results are
// reduced explicitly.
module DateTime {
  const TICKS_PER_SECOND := 1000000
  const TICKS_PER_DAY := 86400000000

  // The last day of the last year that an unsigned 16-bit year can hold.
  const MAX_RDN := 23936165

  function U16(x: int): nat { x % 0x1_0000 }

  function U32(x: int): nat { x % 0x1_0000_0000 }

  function LeapYear(y: nat): bool {
    y % 4 == 0 && (y % 100 != 0 || y % 400 == 0)
  }

  function MonthDays(y: nat, m: nat): nat
    requires 1 <= m <= 12
  {
    if m == 2 then (if LeapYear(y) then 29 else 28)
    else if m in {4, 6, 9, 11} then 30 else 31
  }

  // days_preceding_month
  function DaysPreceding(leap: bool, m: nat): nat
    requires 1 <= m <= 12
  {
    var k := if leap then 1 else 0;
    match m
    case 1 => 0
    case 2 => 31
    case 3 => 59 + k
    case 4 => 90 + k
    case 5 => 120 + k
    case 6 => 151 + k
    case 7 => 181 + k
    case 8 => 212 + k
    case 9 => 243 + k
    case 10 => 273 + k
    case 11 => 304 + k
    case _ => 334 + k
  }

  // DayOffset: the days from the first of March to the first of the month
  function DayOffset(m: nat): nat
    requires 1 <= m <= 12
  {
    match m
    case 1 => 306
    case 2 => 337
    case 3 => 0
    case 4 => 31
    case 5 => 61
    case 6 => 92
    case 7 => 122
    case 8 => 153
    case 9 => 184
    case 10 => 214
    case 11 => 245
    case _ => 275
  }

  function YdToRdn(y0: nat, d: nat): nat {
    var y := U16(y0 - 1);
    U32(365 * y + y / 4 - y / 100 + y / 400 + d)
  }

  // Months out of range move the year.
  function CarryYear(y: nat, m: nat): nat {
    if 1 <= m <= 12 then y
    else if m % 12 < 1 then U16(U16(y + m / 12) - 1) else U16(y + m / 12)
  }

  function CarryMonth(m: nat): (r: nat)
    ensures 1 <= r <= 12
  {
    if 1 <= m <= 12 then m
    else if m % 12 < 1 then m % 12 + 12 else m % 12
  }

  function YmdToRdn(y: nat, m: nat, d: nat): nat {
    YdToRdn(CarryYear(y, m), U16(DaysPreceding(LeapYear(CarryYear(y, m)), CarryMonth(m)) + d - 1))
  }

  // What rdn_to_ymd stores; yday counts from 1.
  datatype Ymd = Ymd(y: nat, m: nat, d: nat, yday: nat)

  // The steps of rdn_to_ymd, from the day number z that counts from 0000-03-01: the century, the year
  // that begins in March, the day in it and its month.
  function Century(z: nat): nat { U32(100 * z - 25) / 3652425 }

  function YearOf(z: nat): nat {
    var b := U32(Century(z) - Century(z) / 4);
    U16(U32(100 * b + U32(100 * z - 25)) / 36525)
  }

  function DayOf(z: nat): nat {
    var b := U32(Century(z) - Century(z) / 4);
    U16(b + z - 1461 * YearOf(z) / 4)
  }

  function MonthOf(d: nat): nat { U16((535 * d + 48950) / 16384) }

  function RdnToYmd(rdn: nat): Ymd
    requires rdn <= MAX_RDN
  {
    var z := U32(U32(rdn + 1) + 306);
    Found(rdn);
    FromMarch(YearOf(z), DayOf(z))
  }

  function FromMarch(y: nat, d: nat): Ymd
    requires 3 <= MonthOf(d) <= 14
  {
    var m := MonthOf(d);
    if m > 12 then Ymd(U16(y + 1), m - 12, U16(d - DayOffset(m - 12)), U16(d - 306))
    else Ymd(y, m, U16(d - DayOffset(m)), U16(d + 59 + if LeapYear(y) then 1 else 0))
  }

  // ----- the years from March to February -----

  // The days before the first of March of year y, counted from the first of March of year 0.
  function MarchDays(y: nat): nat { 365 * y + y / 4 - y / 100 + y / 400 }

  // The number of days from the first of March of year y on.
  function MarchYear(y: nat): nat { if LeapYear(y + 1) then 366 else 365 }

  lemma Centuries(c: nat, r: nat)
    requires r < 100
    ensures (100 * c + r) / 100 == c && (100 * c + r) / 4 == 25 * c + r / 4 && (100 * c + r) / 400 == c / 4
    ensures LeapYear(100 * c + r + 1) <==> if r == 99 then c % 4 == 3 else r % 4 == 3
  {
  }

  // The two divisions of the algorithm find the century and the year in it.
  lemma CenturyFound(c: nat, r: nat, d: nat)
    requires r < 100 && 1 <= d <= MarchYear(100 * c + r)
    ensures (100 * (MarchDays(100 * c + r) + d) - 25) / 3652425 == c
  {
    Centuries(c, r);
  }

  lemma YearFound(c: nat, r: nat, d: nat)
    requires r < 100 && 1 <= d <= MarchYear(100 * c + r)
    ensures (100 * (c - c / 4) + 100 * (MarchDays(100 * c + r) + d) - 25) / 36525 == 100 * c + r
  {
    Centuries(c, r);
  }

  lemma Small(x: nat)
    requires x < 0x1_0000_0000
    ensures U32(x) == x
  {
  }

  lemma MarchBound(y: nat)
    requires y <= 65535
    ensures MarchDays(y) <= 23936166
  {
  }

  // The algorithm finds the year and the day in it.
  lemma MarchFound(y: nat, d: nat)
    requires y <= 65535 && 1 <= d <= MarchYear(y)
    ensures YearOf(MarchDays(y) + d) == y && DayOf(MarchDays(y) + d) == d
  {
    assert d <= 366 && y == 100 * (y / 100) + y % 100;
    hide *;
    MarchFoundAt(y / 100, y % 100, d);
  }

  lemma MarchFoundAt(c: nat, r: nat, d: nat)
    requires r < 100 && 100 * c + r <= 65535 && 1 <= d <= MarchYear(100 * c + r)
    ensures var z := MarchDays(100 * c + r) + d; Century(z) == c && YearOf(z) == 100 * c + r && DayOf(z) == d
  {
    assert d <= 366;
    hide *;
    MarchBound(100 * c + r);
    CenturyFound(c, r, d);
    YearFound(c, r, d);
    Unwrapped(MarchDays(100 * c + r) + d, c, 100 * c + r, d);
    DayFound(c, r, d);
  }

  lemma Unwrapped(z: nat, c: nat, y: nat, d: nat)
    requires 1 <= z <= 23936532 && c <= 655 && y <= 65535
    requires (100 * z - 25) / 3652425 == c && (100 * (c - c / 4) + 100 * z - 25) / 36525 == y
    ensures Century(z) == c && YearOf(z) == y && DayOf(z) == U16(c - c / 4 + z - 1461 * y / 4)
  {
    Small(100 * z - 25);
    assert Century(z) == c;
    Small(c - c / 4);
    Small(100 * (c - c / 4) + 100 * z - 25);
  }

  lemma DayFound(c: nat, r: nat, d: nat)
    requires r < 100 && d <= 366
    ensures U16(c - c / 4 + (MarchDays(100 * c + r) + d) - 1461 * (100 * c + r) / 4) == d
  {
    Centuries(c, r);
  }

  // Every day is in some year.
  lemma {:induction false} SomeYear(z: nat) returns (y: nat, d: nat)
    requires 1 <= z
    ensures 1 <= d <= MarchYear(y) && MarchDays(y) + d == z
  {
    if z == 1 {
      y, d := 0, 1;
    } else {
      y, d := SomeYear(z - 1);
      y, d := NextDay(y, d);
    }
  }

  lemma NextDay(y: nat, d: nat) returns (y': nat, d': nat)
    requires 1 <= d <= MarchYear(y)
    ensures 1 <= d' <= MarchYear(y') && MarchDays(y') + d' == MarchDays(y) + d + 1
  {
    if d < MarchYear(y) {
      y', d' := y, d + 1;
    } else {
      NextYear(y);
      y', d' := y + 1, 1;
    }
  }

  lemma NextYear(y: nat)
    ensures MarchDays(y + 1) == MarchDays(y) + MarchYear(y)
  {
    Centuries(y / 100, y % 100);
    if y % 100 < 99 { Centuries(y / 100, y % 100 + 1); } else { Centuries(y / 100 + 1, 0); }
  }

  lemma Found(rdn: nat)
    requires rdn <= MAX_RDN
    ensures var z := U32(U32(rdn + 1) + 306);
      z == rdn + 307 && 1 <= DayOf(z) <= 366 && 3 <= MonthOf(DayOf(z)) <= 14
  {
    Small(rdn + 1);
    Small(rdn + 307);
    var y, d := SomeYear(rdn + 307);
    assert MarchDays(65536) > MAX_RDN + 307;
    if y > 65535 { MarchLater(65536, y); }
    MarchFound(y, d);
    MonthRange(d);
  }

  lemma MonthRange(d: nat)
    requires 1 <= d <= 366
    ensures 3 <= MonthOf(d) <= 14
  {
  }

  lemma {:induction false} MarchLater(x: nat, y: nat)
    requires x <= y
    ensures MarchDays(x) <= MarchDays(y)
    decreases y
  {
    if x < y {
      NextYear(y - 1);
      MarchLater(x, y - 1);
    }
  }

  // ----- the calendar -----

  predicate ValidDate(y: nat, m: nat, d: nat) {
    1 <= y <= 0xFFFF && 1 <= m <= 12 && 1 <= d <= MonthDays(y, m)
  }

  lemma YdOfDate(y: nat, n: nat)
    requires 1 <= y <= 0xFFFF && n <= 365
    ensures YdToRdn(y, n) == MarchDays(y - 1) + n
  {
    assert U16(y - 1) == y - 1;
    MarchBound(y - 1);
    Small(MarchDays(y - 1) + n);
  }

  lemma DayOfYear(y: nat, m: nat, d: nat)
    requires ValidDate(y, m, d)
    ensures 1 <= DaysPreceding(LeapYear(y), m) + d <= (if LeapYear(y) then 366 else 365)
    ensures m >= 3 ==> DaysPreceding(LeapYear(y), m) + 306 == DayOffset(m) + (if LeapYear(y) then 366 else 365)
    ensures m < 3 ==> DaysPreceding(LeapYear(y), m) + 306 == DayOffset(m)
    ensures 1 <= DayOffset(m) + d <= if m != 2 then 365 else if LeapYear(y) then 366 else 365
  {
  }

  lemma FirstDays(y: nat, m: nat, d: nat)
    requires ValidDate(y, m, d)
    ensures YmdToRdn(y, m, d) == MarchDays(y - 1) + DaysPreceding(LeapYear(y), m) + d - 1
  {
    hide LeapYear, DaysPreceding, MonthDays, MarchDays, YdToRdn;
    DayOfYear(y, m, d);
    YdOfDate(y, DaysPreceding(LeapYear(y), m) + d - 1);
  }

  // A date as a day of a year that begins in March.
  lemma RdnOfDate(y: nat, m: nat, d: nat)
    requires ValidDate(y, m, d)
    ensures var my, md := y - (if m < 3 then 1 else 0), DayOffset(m) + d;
      1 <= md <= MarchYear(my) && YmdToRdn(y, m, d) == MarchDays(my) + md - 307
    ensures YmdToRdn(y, m, d) == MarchDays(y - 1) + DaysPreceding(LeapYear(y), m) + d - 1 <= MAX_RDN
  {
    FirstDays(y, m, d);
    DayOfYear(y, m, d);
    NextYear(y - 1);
    RdnBound(y);
  }

  lemma RdnBound(y: nat)
    requires 1 <= y <= 0xFFFF
    ensures MarchDays(y - 1) + (if LeapYear(y) then 366 else 365) - 1 <= MAX_RDN
  {
    MarchLater(y - 1, 0xFFFE);
    if y == 0xFFFF { assert !LeapYear(y); } else { MarchLater(y - 1, 0xFFFD); }
  }

  lemma MonthOfDate(y: nat, m: nat, d: nat)
    requires ValidDate(y, m, d)
    ensures MonthOf(DayOffset(m) + d) == if m < 3 then m + 12 else m
  {
  }

  // For day numbers in range no unsigned step of rdn_to_ymd wraps around.
  lemma NoOverflow(rdn: nat)
    requires rdn <= MAX_RDN
    ensures var z := rdn + 307; var h := 100 * z - 25; var a := h / 3652425; var b := a - a / 4;
      z < 0x1_0000_0000 && 0 <= h < 0x1_0000_0000 && 0 <= b && 100 * b + h < 0x1_0000_0000
      && (100 * b + h) / 36525 == YearOf(z) <= 0xFFFF
      && b + z - 1461 * YearOf(z) / 4 == DayOf(z)
  {
    var y, d := SomeYear(rdn + 307);
    assert MarchDays(65536) > MAX_RDN + 307;
    if y > 65535 { MarchLater(65536, y); }
    var c, r := y / 100, y % 100;
    assert d <= 366 && y == 100 * c + r;
    MarchFound(y, d);
    CenturyFound(c, r, d);
    YearFound(c, r, d);
    DayFound(c, r, d);
    DayExact(c, r, d);
  }

  lemma DayExact(c: nat, r: nat, d: nat)
    requires r < 100
    ensures c - c / 4 + (MarchDays(100 * c + r) + d) - 1461 * (100 * c + r) / 4 == d
  {
    Centuries(c, r);
  }

  // rdn_to_ymd undoes ymd_to_rdn, and the day of the year is right.
  lemma DateRoundTrip(y: nat, m: nat, d: nat)
    requires ValidDate(y, m, d)
    ensures YmdToRdn(y, m, d) <= MAX_RDN
    ensures RdnToYmd(YmdToRdn(y, m, d)) == Ymd(y, m, d, DaysPreceding(LeapYear(y), m) + d)
  {
    var my, md := y - (if m < 3 then 1 else 0), DayOffset(m) + d;
    hide *;
    RdnOfDate(y, m, d);
    MarchFound(my, md);
    FromMarchOfDate(y, m, d);
    FoundAt(YmdToRdn(y, m, d), my, md);
  }

  lemma FoundAt(rdn: nat, y: nat, d: nat)
    requires rdn <= MAX_RDN && YearOf(rdn + 307) == y && DayOf(rdn + 307) == d && 3 <= MonthOf(d) <= 14
    ensures RdnToYmd(rdn) == FromMarch(y, d)
  {
    Found(rdn);
  }

  lemma FromMarchOfDate(y: nat, m: nat, d: nat)
    requires ValidDate(y, m, d)
    ensures var my, md := y - (if m < 3 then 1 else 0), DayOffset(m) + d;
      3 <= MonthOf(md) <= 14 && FromMarch(my, md) == Ymd(y, m, d, DaysPreceding(LeapYear(y), m) + d)
  {
    MonthOfDate(y, m, d);
    DayOfYear(y, m, d);
  }

  // Every day number in range is that of a valid date ...
  lemma {:induction false} SomeDate(rdn: nat) returns (y: nat, m: nat, d: nat)
    requires rdn <= MAX_RDN
    ensures ValidDate(y, m, d) && YmdToRdn(y, m, d) == rdn
  {
    if rdn == 0 {
      y, m, d := 1, 1, 1;
      FirstDays(1, 1, 1);
    } else {
      y, m, d := SomeDate(rdn - 1);
      y, m, d := NextDate(y, m, d);
    }
  }

  lemma NextDate(y: nat, m: nat, d: nat) returns (y': nat, m': nat, d': nat)
    requires ValidDate(y, m, d) && YmdToRdn(y, m, d) < MAX_RDN
    ensures ValidDate(y', m', d') && YmdToRdn(y', m', d') == YmdToRdn(y, m, d) + 1
  {
    hide YmdToRdn, MarchDays, LeapYear;
    RdnOfDate(y, m, d);
    if d < MonthDays(y, m) {
      y', m', d' := y, m, d + 1;
    } else if m < 12 {
      y', m', d' := y, m + 1, 1;
      MonthEnd(y, m);
    } else {
      LastDay(y);
      y', m', d' := y + 1, 1, 1;
    }
    RdnOfDate(y', m', d');
  }

  lemma MonthEnd(y: nat, m: nat)
    requires 1 <= m < 12
    ensures DaysPreceding(LeapYear(y), m + 1) == DaysPreceding(LeapYear(y), m) + MonthDays(y, m)
  {
  }

  lemma LastDay(y: nat)
    requires 1 <= y
    ensures MarchDays(y) == MarchDays(y - 1) + DaysPreceding(LeapYear(y), 12) + 31
    ensures y == 0xFFFF ==> MarchDays(y) == MAX_RDN + 1
  {
    NextYear(y - 1);
  }

  // ... namely the one that rdn_to_ymd finds.
  lemma RdnRoundTrip(rdn: nat)
    requires rdn <= MAX_RDN
    ensures var r := RdnToYmd(rdn); ValidDate(r.y, r.m, r.d) && YmdToRdn(r.y, r.m, r.d) == rdn
  {
    var y, m, d := SomeDate(rdn);
    DateRoundTrip(y, m, d);
  }

  // The day number grows with the date.
  lemma RdnMonotone(y: nat, m: nat, d: nat, y': nat, m': nat, d': nat)
    requires ValidDate(y, m, d) && ValidDate(y', m', d')
    ensures YmdToRdn(y, m, d) < YmdToRdn(y', m', d') <==> y < y' || (y == y' && (m < m' || (m == m' && d < d')))
  {
    if y < y' || (y == y' && (m < m' || (m == m' && d < d'))) {
      Earlier(y, m, d, y', m', d');
    } else if (y, m, d) != (y', m', d') {
      Earlier(y', m', d', y, m, d);
    }
  }

  lemma Earlier(y: nat, m: nat, d: nat, y': nat, m': nat, d': nat)
    requires ValidDate(y, m, d) && ValidDate(y', m', d')
    requires y < y' || (y == y' && (m < m' || (m == m' && d < d')))
    ensures YmdToRdn(y, m, d) < YmdToRdn(y', m', d')
  {
    hide YmdToRdn, MarchDays, MarchYear, DayOffset;
    RdnOfDate(y, m, d);
    RdnOfDate(y', m', d');
    DaysApart(y, m, d);
    if y < y' {
      LastDay(y);
      MarchLater(y, y' - 1);
      DayOfYear(y', m', d');
    } else if m < m' {
      MonthsApart(y, m, m');
    }
  }

  lemma DaysApart(y: nat, m: nat, d: nat)
    requires ValidDate(y, m, d)
    ensures DaysPreceding(LeapYear(y), m) + d <= DaysPreceding(LeapYear(y), 12) + 31
  {
  }

  lemma {:induction false} MonthsApart(y: nat, m: nat, m': nat)
    requires 1 <= m < m' <= 12
    ensures DaysPreceding(LeapYear(y), m) + MonthDays(y, m) <= DaysPreceding(LeapYear(y), m')
    decreases m'
  {
    MonthEnd(y, m' - 1);
    if m < m' - 1 { MonthsApart(y, m, m' - 1); }
  }

  // Months below 1 and above 12 count on from the years before and after.
  lemma MonthCarry(y: nat, k: nat, m: nat, d: nat)
    requires 1 <= y && y + k <= 0xFFFF && 1 <= m <= 12
    ensures YmdToRdn(y, 12 * k + m, d) == YmdToRdn(y + k, m, d)
    ensures y >= 2 ==> YmdToRdn(y, 0, d) == YmdToRdn(y - 1, 12, d)
  {
    hide YdToRdn, DaysPreceding, LeapYear;
    if k > 0 {
      if m < 12 {
        assert (12 * k + m) / 12 == k && (12 * k + m) % 12 == m;
      } else {
        assert (12 * k + m) / 12 == k + 1 && (12 * k + m) % 12 == 0;
      }
      Carried(y, 12 * k + m, d);
    }
    Carried(y, 0, d);
  }

  lemma Carried(y: nat, n: nat, d: nat)
    requires n < 1 || n > 12
    ensures n % 12 > 0 && y + n / 12 <= 0xFFFF ==> CarryYear(y, n) == y + n / 12 && CarryMonth(n) == n % 12
    ensures n % 12 == 0 && 1 <= y + n / 12 <= 0x1_0000 ==> CarryYear(y, n) == y + n / 12 - 1 && CarryMonth(n) == 12
  {
  }

  // ----- days and microseconds -----

  function FromYmd(y: nat, m: nat, d: nat): nat { DaysTicks(YmdToRdn(y, m, d)) }

  function FromHmsu(h: nat, mi: nat, s: nat, us: nat): nat { (h * 3600 + mi * 60 + s) * TICKS_PER_SECOND + us }

  datatype Civil = Civil(y: nat, m: nat, d: nat, h: nat, mi: nat, s: nat, us: nat)

  predicate ValidCivil(c: Civil) {
    ValidDate(c.y, c.m, c.d) && c.h < 24 && c.mi < 60 && c.s < 60 && c.us < TICKS_PER_SECOND
  }

  function Encode(c: Civil): nat { Plus(FromYmd(c.y, c.m, c.d), FromHmsu(c.h, c.mi, c.s, c.us)) }

  function Plus(a: nat, b: nat): nat { a + b }

  function DaysTicks(rdn: nat): nat { rdn * TICKS_PER_DAY }

  // datetime_decode
  function Decode(dt: nat): Civil
    requires dt / TICKS_PER_DAY <= MAX_RDN
  {
    AtTime(RdnToYmd(dt / TICKS_PER_DAY), dt % TICKS_PER_DAY)
  }

  function AtTime(r: Ymd, perday: nat): Civil {
    var sod := perday / TICKS_PER_SECOND;
    Civil(r.y, r.m, r.d, sod / 60 / 60, sod / 60 % 60, sod % 60, perday % TICKS_PER_SECOND)
  }

  lemma HmsuBound(h: nat, mi: nat, s: nat, us: nat)
    requires h < 24 && mi < 60 && s < 60 && us < TICKS_PER_SECOND
    ensures FromHmsu(h, mi, s, us) < TICKS_PER_DAY
    ensures var t := FromHmsu(h, mi, s, us); var sod := t / TICKS_PER_SECOND;
      t % TICKS_PER_SECOND == us && sod % 60 == s && sod / 60 % 60 == mi && sod / 60 / 60 == h
  {
  }

  lemma SplitDay(rdn: nat, t: nat)
    requires t < TICKS_PER_DAY
    ensures (rdn * TICKS_PER_DAY + t) / TICKS_PER_DAY == rdn && (rdn * TICKS_PER_DAY + t) % TICKS_PER_DAY == t
  {
  }

  // datetime_decode undoes datetime_from_ymd plus datetime_from_hmsu ...
  lemma DecodeRoundTrip(c: Civil)
    requires ValidCivil(c)
    ensures Encode(c) / TICKS_PER_DAY <= MAX_RDN && Decode(Encode(c)) == c
  {
    DateRoundTrip(c.y, c.m, c.d);
    DecodeDate(c, YmdToRdn(c.y, c.m, c.d), FromHmsu(c.h, c.mi, c.s, c.us), RdnToYmd(YmdToRdn(c.y, c.m, c.d)));
  }

  lemma DecodeDate(c: Civil, rdn: nat, t: nat, r: Ymd)
    requires rdn <= MAX_RDN && RdnToYmd(rdn) == r && (r.y, r.m, r.d) == (c.y, c.m, c.d)
    requires c.h < 24 && c.mi < 60 && c.s < 60 && c.us < TICKS_PER_SECOND && t == FromHmsu(c.h, c.mi, c.s, c.us)
    ensures Plus(DaysTicks(rdn), t) / TICKS_PER_DAY == rdn && Decode(Plus(DaysTicks(rdn), t)) == c
  {
    hide RdnToYmd, FromMarch;
    HmsuBound(c.h, c.mi, c.s, c.us);
    SplitDay(rdn, t);
    DecodeAt(rdn * TICKS_PER_DAY + t, rdn, t, r);
  }

  lemma DecodeAt(dt: nat, rdn: nat, t: nat, r: Ymd)
    requires dt / TICKS_PER_DAY == rdn <= MAX_RDN && dt % TICKS_PER_DAY == t && RdnToYmd(rdn) == r
    ensures Decode(dt) == AtTime(r, t)
  {
  }

  // ... and is undone by them.
  lemma EncodeRoundTrip(dt: nat)
    requires dt / TICKS_PER_DAY <= MAX_RDN
    ensures ValidCivil(Decode(dt)) && Encode(Decode(dt)) == dt
  {
    RdnRoundTrip(dt / TICKS_PER_DAY);
    DayParts(dt % TICKS_PER_DAY);
  }

  lemma DayParts(t: nat)
    requires t < TICKS_PER_DAY
    ensures var sod := t / TICKS_PER_SECOND;
      sod / 60 / 60 < 24 && FromHmsu(sod / 60 / 60, sod / 60 % 60, sod % 60, t % TICKS_PER_SECOND) == t
  {
  }
}
