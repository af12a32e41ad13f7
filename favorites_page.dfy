/**
 * The favorites page's display helpers: the relative date label, the unit a
 * price is shown in, the rounded price per square metre, the address line and
 * the VIP badge value of each saved listing.
 */
module FavoritesPage {
  import opened Common

  // ----- numbers as text -----

  function DigitChar(d: nat): char
    requires d < 10
  {
    ('0' as int + d) as char
  }

  /** The decimal digits of n, as a template literal prints a non-negative integer. */
  function DecimalString(n: nat): (r: string)
    ensures r != []
    ensures forall i :: 0 <= i < |r| ==> '0' <= r[i] <= '9'
  {
    if n < 10 then [DigitChar(n)] else DecimalString(n / 10) + [DigitChar(n % 10)]
  }

  /** The value of a string of decimal digits. */
  function DigitsValue(s: string): nat
    requires forall i :: 0 <= i < |s| ==> '0' <= s[i] <= '9'
  {
    if s == [] then 0 else 10 * DigitsValue(s[..|s| - 1]) + (s[|s| - 1] as int - '0' as int)
  }

  /** Reading the printed digits back gives the number, so distinct counts print differently. */
  lemma {:induction false} DecimalRoundTrip(n: nat)
    ensures DigitsValue(DecimalString(n)) == n
  {
    if n >= 10 {
      DecimalRoundTrip(n / 10);
      var s := DecimalString(n);
      assert s[..|s| - 1] == DecimalString(n / 10);
    }
  }

  // ----- formatDate -----

  /** The relative date a listing shows, by the number of whole days since it was posted. */
  datatype DateLabel = Today | Yesterday | DaysAgo(days: nat) | WeeksAgo(weeks: nat) | MonthsAgo(months: nat)

  /**
   * The bucket formatDate picks for a day count. A count of days is shown
   * as is and only from 2 to 6; weeks run from 1 to 4; months start at 1.
   */
  function Bucket(diffDays: nat): (r: DateLabel)
    ensures r.DaysAgo? ==> r.days == diffDays && 2 <= r.days < 7
    ensures r.WeeksAgo? ==> 1 <= r.weeks <= 4
    ensures r.MonthsAgo? ==> 1 <= r.months
  {
    if diffDays == 0 then Today
    else if diffDays == 1 then Yesterday
    else if diffDays < 7 then DaysAgo(diffDays)
    else if diffDays < 30 then WeeksAgo(diffDays / 7)
    else MonthsAgo(diffDays / 30)
  }

  /** The text of a label. */
  function Render(d: DateLabel): string {
    match d
    case Today => "Hôm nay"
    case Yesterday => "Hôm qua"
    case DaysAgo(n) => DecimalString(n) + " ngày trước"
    case WeeksAgo(n) => DecimalString(n) + " tuần trước"
    case MonthsAgo(n) => DecimalString(n) + " tháng trước"
  }

  /**
   * formatDate, given the day count: today and yesterday are words, every
   * older label opens with the digits of its count.
   */
  function FormatDate(diffDays: nat): (r: string)
    ensures r != []
    ensures diffDays < 2 ==> |r| > 4 && r[..4] == "Hôm "
    ensures 2 <= diffDays ==> '0' <= r[0] <= '9'
  {
    Render(Bucket(diffDays))
  }

  /**
   * Each bucket covers exactly its range of day counts, and the count it
   * shows brackets the days: 2 to 6 days by the day, 7 to 29 as 1 to 4 whole
   * weeks, from 30 on as at least one whole month.
   */
  lemma BucketRanges(d: nat)
    ensures Bucket(d) == Today <==> d == 0
    ensures Bucket(d) == Yesterday <==> d == 1
    ensures Bucket(d).DaysAgo? <==> 2 <= d < 7
    ensures Bucket(d).WeeksAgo? <==> 7 <= d < 30
    ensures Bucket(d).MonthsAgo? <==> 30 <= d
    ensures Bucket(d).DaysAgo? ==> Bucket(d).days == d
    ensures Bucket(d).WeeksAgo? ==>
      1 <= Bucket(d).weeks <= 4 && 7 * Bucket(d).weeks <= d < 7 * Bucket(d).weeks + 7
    ensures Bucket(d).MonthsAgo? ==>
      1 <= Bucket(d).months && 30 * Bucket(d).months <= d < 30 * Bucket(d).months + 30
  {
  }

  /** A later day never shows an earlier bucket: the buckets are ordered by age. */
  lemma BucketMonotone(d: nat, e: nat)
    requires d <= e
    ensures Age(Bucket(d)) <= Age(Bucket(e))
  {
    BucketRanges(d);
    BucketRanges(e);
  }

  /** The order of the buckets: today first, months last. */
  function Age(d: DateLabel): nat {
    match d
    case Today => 0
    case Yesterday => 1
    case DaysAgo(_) => 2
    case WeeksAgo(_) => 3
    case MonthsAgo(_) => 4
  }

  // ----- formatPrice -----

  /** The unit formatPrice writes after the number. */
  datatype PriceUnit = Ty | Trieu | Dong

  function UnitName(u: PriceUnit): string {
    match u
    case Ty => "tỷ"
    case Trieu => "triệu"
    case Dong => "đ"
  }

  const OneBillion: real := 1000000000.0
  const OneMillion: real := 1000000.0

  /**
   * The unit formatPrice chooses: the quotient written before "tỷ" is at
   * least 1, and the one written before "triệu" is at least 1 and below 1000.
   */
  function UnitOf(price: real): (r: PriceUnit)
    ensures r == Ty ==> price / OneBillion >= 1.0
    ensures r == Trieu ==> 1.0 <= price / OneMillion < 1000.0
  {
    if price >= OneBillion then Ty
    else if price >= OneMillion then Trieu
    else Dong
  }

  function UnitRank(u: PriceUnit): nat {
    match u
    case Dong => 0
    case Trieu => 1
    case Ty => 2
  }

  /**
   * Billions from 1e9 up, millions from 1e6 below that, dong below 1e6; a
   * larger price never takes a smaller unit.
   */
  lemma UnitOfRanges(price: real, other: real)
    ensures UnitOf(price) == Ty <==> price >= OneBillion
    ensures UnitOf(price) == Trieu <==> OneMillion <= price < OneBillion
    ensures UnitOf(price) == Dong <==> price < OneMillion
    ensures price <= other ==> UnitRank(UnitOf(price)) <= UnitRank(UnitOf(other))
  {
  }

  // ----- the listing row -----

  /** `Math.round(x)`: the nearest integer, halves rounded up. */
  function Round(x: real): (r: int)
    ensures r as real - 0.5 <= x < r as real + 0.5
  {
    (x + 0.5).Floor
  }

  /** pricePerM2: the price per square metre, rounded, present only for a positive area. */
  function PricePerM2(price: real, area: real): (r: Option<int>)
    ensures r.Some? <==> area > 0.0
    ensures r.Some? ==> r.value as real - 0.5 <= price / area < r.value as real + 0.5
  {
    if area > 0.0 then Some(Round(price / area)) else None
  }

  /** What one part contributes to `.filter(Boolean)`: itself when it is a non-empty string, nothing for null or "". */
  function Part(o: Option<string>): seq<string> {
    if o.Some? && o.value != "" then [o.value] else []
  }

  /** `.filter(Boolean)` over nullable strings: null and "" are dropped, so no empty part is left. */
  function Present(parts: seq<Option<string>>): (r: seq<string>)
    ensures |r| <= |parts|
    ensures forall i :: 0 <= i < |r| ==> r[i] != ""
  {
    if parts == [] then [] else Part(parts[0]) + Present(parts[1..])
  }

  /** The parts that survive are exactly the non-empty ones; PresentAppend adds that they keep their order. */
  lemma {:induction false} PresentSpec(parts: seq<Option<string>>, p: string)
    ensures p in Present(parts) <==> p != "" && Some(p) in parts
  {
    if parts != [] {
      PresentSpec(parts[1..], p);
      assert parts == [parts[0]] + parts[1..];
    }
  }

  /** `.join(sep)`: the line opens with the first part. */
  function Join(parts: seq<string>, sep: string): (r: string)
    ensures parts != [] ==> parts[0] <= r
  {
    if parts == [] then ""
    else if |parts| == 1 then parts[0]
    else parts[0] + sep + Join(parts[1..], sep)
  }

  /** Joining one more part adds the separator and the part at the end. */
  lemma {:induction false} JoinAppend(parts: seq<string>, p: string, sep: string)
    requires parts != []
    ensures Join(parts + [p], sep) == Join(parts, sep) + sep + p
  {
    if |parts| > 1 {
      assert (parts + [p])[1..] == parts[1..] + [p];
      JoinAppend(parts[1..], p, sep);
    }
  }

  /**
   * The address line: of street, ward, district and city, in that order, the
   * ones that are non-empty strings, joined by ", "; a given street opens it.
   */
  function Address(street: Option<string>, ward: Option<string>, district: Option<string>, city: Option<string>): (r: string)
    ensures r == Join(Part(street) + (Part(ward) + (Part(district) + Part(city))), ", ")
    ensures street.Some? && street.value != "" ==> street.value <= r
  {
    PresentFour(street, ward, district, city);
    assert street.Some? && street.value != "" ==>
      (Part(street) + (Part(ward) + (Part(district) + Part(city))))[0] == street.value;
    Join(Present([street, ward, district, city]), ", ")
  }

  lemma PresentCons(x: Option<string>, rest: seq<Option<string>>)
    ensures Present([x] + rest) == Part(x) + Present(rest)
  {
    assert ([x] + rest)[1..] == rest;
  }

  /** The filter works part by part: filtering two lists one after the other keeps their order. */
  lemma {:induction false} PresentAppend(a: seq<Option<string>>, b: seq<Option<string>>)
    ensures Present(a + b) == Present(a) + Present(b)
  {
    if a == [] {
      assert a + b == b;
    } else {
      var c := a + b;
      assert c[0] == a[0] && c[1..] == a[1..] + b;
      PresentAppend(a[1..], b);
      calc {
        Present(c);
        Part(a[0]) + Present(a[1..] + b);
        Part(a[0]) + (Present(a[1..]) + Present(b));
        (Part(a[0]) + Present(a[1..])) + Present(b);
      }
    }
  }

  /** Filtering the four address parts keeps, in order, those that are non-empty strings. */
  lemma PresentFour(a: Option<string>, b: Option<string>, c: Option<string>, d: Option<string>)
    ensures Present([a, b, c, d]) == Part(a) + (Part(b) + (Part(c) + Part(d)))
  {
    var q3: seq<Option<string>> := [d];
    var q2 := [c] + q3;
    var q1 := [b] + q2;
    var q0 := [a] + q1;
    assert q0 == [a, b, c, d];
    PresentOne(d);
    PresentCons(c, q3);
    PresentCons(b, q2);
    PresentCons(a, q1);
    calc {
      Present(q0);
      Part(a) + Present(q1);
      Part(a) + (Part(b) + Present(q2));
      Part(a) + (Part(b) + (Part(c) + Present(q3)));
      Part(a) + (Part(b) + (Part(c) + Part(d)));
    }
  }

  /** A single part is filtered to what it contributes. */
  lemma PresentOne(x: Option<string>)
    ensures Present([x]) == Part(x)
  {
    assert [x][1..] == [];
    var p := Part(x);
    assert p + [] == p;
  }

  lemma JoinCons(x: string, rest: seq<string>, sep: string)
    requires rest != []
    ensures Join([x] + rest, sep) == x + sep + Join(rest, sep)
  {
    assert ([x] + rest)[1..] == rest;
  }

  /** With every part present the line is all four, in order, separated by ", ". */
  lemma AddressAllPresent(street: string, ward: string, district: string, city: string)
    requires street != "" && ward != "" && district != "" && city != ""
    ensures Address(Some(street), Some(ward), Some(district), Some(city))
         == street + ", " + ward + ", " + district + ", " + city
  {
    var p2 := [district] + [city];
    var p1 := [ward] + p2;
    var p0 := [street] + p1;
    assert Part(Some(street)) + (Part(Some(ward)) + (Part(Some(district)) + Part(Some(city)))) == p0;
    JoinCons(district, [city], ", ");
    JoinCons(ward, p2, ", ");
    JoinCons(street, p1, ", ");
  }

  /**
   * In every slot a null part and an empty part give the same line; with only
   * the city the line is the city, and with nothing it is empty.
   */
  lemma AddressSkipsMissing(ward: Option<string>, district: Option<string>, city: string)
    ensures Address(None, ward, district, Some(city)) == Address(Some(""), ward, district, Some(city))
    ensures Address(None, None, None, Some(city)) == city
    ensures Address(None, None, None, None) == ""
  {
    AddressNullIsEmpty(None, ward, district, Some(city));
    AddressCityOnly(city);
    AddressNothing();
  }

  /** With only the city present the address line is the city. */
  lemma AddressCityOnly(city: string)
    ensures Address(None, None, None, Some(city)) == city
  {
    var none: Option<string> := None;
    assert Part(none) == [];
    if city == "" {
      assert Part(Some(city)) == [];
    } else {
      assert Part(Some(city)) == [city];
    }
    assert Part(none) + (Part(none) + (Part(none) + Part(Some(city)))) == Part(Some(city));
  }

  /** With no part present the address line is empty. */
  lemma AddressNothing()
    ensures Address(None, None, None, None) == ""
  {
    var none: Option<string> := None;
    assert Part(none) == [];
    assert Part(none) + (Part(none) + (Part(none) + Part(none))) == [];
  }

  /** A null part and an empty part are alike in every slot of the address. */
  lemma AddressNullIsEmpty(street: Option<string>, ward: Option<string>, district: Option<string>, city: Option<string>)
    ensures Address(None, ward, district, city) == Address(Some(""), ward, district, city)
    ensures Address(street, None, district, city) == Address(street, Some(""), district, city)
    ensures Address(street, ward, None, city) == Address(street, ward, Some(""), city)
    ensures Address(street, ward, district, None) == Address(street, ward, district, Some(""))
  {
    var none: Option<string> := None;
    var empty := Some("");
    assert Part(none) == Part(empty);
    AddressByParts(none, ward, district, city, empty, ward, district, city);
    AddressByParts(street, none, district, city, street, empty, district, city);
    AddressByParts(street, ward, none, city, street, ward, empty, city);
    AddressByParts(street, ward, district, none, street, ward, district, empty);
  }

  /** The address line depends on each slot only through the part it contributes. */
  lemma AddressByParts(s1: Option<string>, w1: Option<string>, d1: Option<string>, c1: Option<string>,
                       s2: Option<string>, w2: Option<string>, d2: Option<string>, c2: Option<string>)
    requires Part(s1) == Part(s2) && Part(w1) == Part(w2) && Part(d1) == Part(d2) && Part(c1) == Part(c2)
    ensures Address(s1, w1, d1, c1) == Address(s2, w2, d2, c2)
  {
    var p1 := Part(s1) + (Part(w1) + (Part(d1) + Part(c1)));
    var p2 := Part(s2) + (Part(w2) + (Part(d2) + Part(c2)));
    assert p1 == p2;
  }

  /** The card's VIP badge value: the stored vip_type upper-cased, null kept. */
  function NormalizeVip(stored: Option<string>): (r: Option<string>)
    ensures r.None? <==> stored.None?
    ensures r.Some? ==> |r.value| == |stored.value|
  {
    match stored
    case None => None
    case Some(v) => Some(AsciiUpper(v))
  }

  /** Normalizing twice is normalizing once, and a tier stored lower-case shows as its upper-case name. */
  lemma NormalizeVipSpec(stored: Option<string>, tier: string)
    ensures NormalizeVip(NormalizeVip(stored)) == NormalizeVip(stored)
    ensures (forall i :: 0 <= i < |tier| ==> 'A' <= tier[i] <= 'Z') ==>
      NormalizeVip(Some(AsciiLower(tier))) == Some(tier)
  {
    if stored.Some? {
      UpperKeepsUpper(AsciiUpper(stored.value));
    }
    UpperOfLower(tier);
    if forall i :: 0 <= i < |tier| ==> 'A' <= tier[i] <= 'Z' {
      UpperKeepsUpper(tier);
    }
  }
}
