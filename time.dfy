/**
 * The `Time` value type of PH.Time (src/PH.Time/PH.Time/Time.cs): a time of day
 * made of hours, minutes and seconds, its validated construction, its order,
 * its millisecond scalar, its text rendering and its parser.
 *
 * `Time` is a C# struct, copied on assignment, so it is a datatype here. Its
 * three properties have public setters that check nothing, so a `Time` value
 * may hold any three int32 values (written `t.(Hours := v)`); `Valid` says
 * when they are in range, and only `Create` checks it.
 */
module PHTime {
  import opened Int32Arith
  import opened Text

  /** Which part of a `Time` an operation steps by. C# enums may hold any
      integer, so `Undefined` stands for a value outside the three names;
      `Undefined(0)`, `Undefined(1)` and `Undefined(2)` have no C# counterpart,
      and `PartOfCode` never yields them. */
  datatype TimePart = Hours | Minutes | Seconds | Undefined(code: int32)

  /** The cast `(TimePart)code`: 0, 1 and 2 are the named parts. */
  function PartOfCode(code: int32): (p: TimePart)
    ensures p == Hours <==> code == 0
    ensures p == Minutes <==> code == 1
    ensures p == Seconds <==> code == 2
    ensures p.Undefined? ==> p.code == code && !(0 <= p.code <= 2)
  {
    if code == 0 then Hours else if code == 1 then Minutes else if code == 2 then Seconds else Undefined(code)
  }

  /** The exceptions the core throws. */
  datatype Error =
    | HoursOutOfRange          // ArgumentOutOfRangeException for `hours`
    | MinutesOutOfRange        // ... for `minutes`
    | SecondsOutOfRange        // ... for `seconds`
    | UnrepresentableDateTime  // ArgumentOutOfRangeException from `new DateTime(...)`
    | StartAfterEnd            // ArgumentOutOfRangeException for `start`
    | NotImplemented           // NotImplementedException

  datatype Result<T> = Ok(value: T) | Err(error: Error)

  datatype Outcome = Pass | Fail(error: Error)

  datatype Time = Time(Hours: int32, Minutes: int32, Seconds: int32)

  predicate Valid(t: Time)
  {
    0 <= t.Hours <= 23 && 0 <= t.Minutes <= 59 && 0 <= t.Seconds <= 59
  }

  /** `new Time(hours, minutes, seconds)`; C#'s default for `seconds` is 0. */
  function Create(hours: int32, minutes: int32, seconds: int32): (r: Result<Time>)
    ensures r.Ok? <==> Valid(Time(hours, minutes, seconds))
    ensures r.Ok? ==> r.value.Hours == hours && r.value.Minutes == minutes && r.value.Seconds == seconds
    ensures r == Err(HoursOutOfRange) <==> !(0 <= hours <= 23)
    ensures r == Err(MinutesOutOfRange) <==> 0 <= hours <= 23 && !(0 <= minutes <= 59)
    ensures r == Err(SecondsOutOfRange) <==> 0 <= hours <= 23 && 0 <= minutes <= 59 && !(0 <= seconds <= 59)
  {
    if hours < 0 || hours > 23 then Err(HoursOutOfRange)
    else if minutes < 0 || minutes > 59 then Err(MinutesOutOfRange)
    else if seconds < 0 || seconds > 59 then Err(SecondsOutOfRange)
    else Ok(Time(hours, minutes, seconds))
  }

  /** 00:00:00, built in the source as `new Time(0, 0)`. */
  const MinValue: Time := Time(0, 0, 0)

  /** 23:59:59, built in the source as `new Time(23, 59, 59)`. */
  const MaxValue: Time := Time(23, 59, 59)

  // ---------------------------------------------------------------------------
  // Comparison and equality

  /** `Int32.CompareTo`: -1, 0 or 1. */
  function CompareInt(a: int, b: int): int
  {
    if a < b then -1 else if a > b then 1 else 0
  }

  /** Lexicographic on (Hours, Minutes, Seconds), whether or not the fields are in range. */
  function CompareTo(a: Time, b: Time): (r: int)
    ensures r == -1 || r == 0 || r == 1
    ensures r == 0 <==> a == b
    ensures r == -1 <==> (|| a.Hours < b.Hours
                          || (a.Hours == b.Hours && a.Minutes < b.Minutes)
                          || (a.Hours == b.Hours && a.Minutes == b.Minutes && a.Seconds < b.Seconds))
  {
    var hoursComparison := CompareInt(a.Hours, b.Hours);
    if hoursComparison != 0 then hoursComparison
    else
      var minutesComparison := CompareInt(a.Minutes, b.Minutes);
      if minutesComparison != 0 then minutesComparison
      else CompareInt(a.Seconds, b.Seconds)
  }

  /** `Equals(Time)`: field by field, which is equality of the values. */
  function Equals(a: Time, b: Time): (r: bool)
    ensures r <==> a == b
  {
    if a.Hours != b.Hours then false
    else if a.Minutes != b.Minutes then false
    else a.Seconds == b.Seconds
  }

  predicate Eq(a: Time, b: Time) { Equals(a, b) }
  predicate Neq(a: Time, b: Time) { !Equals(a, b) }
  predicate Lt(a: Time, b: Time) { CompareTo(a, b) == -1 }
  predicate Le(a: Time, b: Time) { CompareTo(a, b) < 1 }
  predicate Gt(a: Time, b: Time) { CompareTo(a, b) == 1 }
  predicate Ge(a: Time, b: Time) { CompareTo(a, b) >= 0 }

  /** `CompareTo` is antisymmetric and transitive: the order is a total order on all values. */
  lemma CompareToLaws(a: Time, b: Time, c: Time)
    ensures CompareTo(a, b) == -CompareTo(b, a)
    ensures CompareTo(a, b) == -1 && CompareTo(b, c) == -1 ==> CompareTo(a, c) == -1
    ensures CompareTo(a, b) <= 0 && CompareTo(b, c) <= 0 ==> CompareTo(a, c) <= 0
  {
  }

  /** The six operators in terms of each other. */
  lemma OperatorLaws(a: Time, b: Time)
    ensures Le(a, b) <==> Lt(a, b) || Eq(a, b)
    ensures Ge(a, b) <==> !Lt(a, b)
    ensures Gt(a, b) <==> Lt(b, a)
    ensures Ge(a, b) <==> Le(b, a)
    ensures Neq(a, b) <==> !Eq(a, b)
    ensures (Lt(a, b) && !Eq(a, b) && !Gt(a, b))
         || (!Lt(a, b) && Eq(a, b) && !Gt(a, b))
         || (!Lt(a, b) && !Eq(a, b) && Gt(a, b))
  {
  }

  lemma LtTransitive(a: Time, b: Time, c: Time)
    requires Lt(a, b) && Lt(b, c)
    ensures Lt(a, c)
  {
  }

  lemma LeAntisymmetric(a: Time, b: Time)
    requires Le(a, b) && Le(b, a)
    ensures a == b
  {
  }

  /** Every valid time lies between `MinValue` and `MaxValue`, and both are what the constructor builds. */
  lemma MinMaxBounds(x: Time)
    requires Valid(x)
    ensures Create(0, 0, 0) == Ok(MinValue) && Create(23, 59, 59) == Ok(MaxValue)
    ensures Le(MinValue, x) && Le(x, MaxValue)
  {
  }

  // ---------------------------------------------------------------------------
  // Sorting agrees with the order

  predicate SortedAscending(s: seq<Time>)
  {
    forall i, j :: 0 <= i < j < |s| ==> Le(s[i], s[j])
  }

  /** Two ascending arrangements of the same times are the same sequence:
      ordering by this comparison leaves no choice. */
  lemma {:induction false} SortedPermutationsEqual(a: seq<Time>, b: seq<Time>)
    requires SortedAscending(a) && SortedAscending(b)
    requires multiset(a) == multiset(b)
    ensures a == b
    decreases |a|
  {
    assert |b| == |multiset(b)| == |multiset(a)| == |a|;
    if a != [] {
      FirstIsLeast(a, b[0]);
      FirstIsLeast(b, a[0]);
      LeAntisymmetric(a[0], b[0]);
      TailMultiset(a);
      TailMultiset(b);
      SortedTail(a);
      SortedTail(b);
      SortedPermutationsEqual(a[1..], b[1..]);
    }
  }

  lemma TailMultiset(a: seq<Time>)
    requires a != []
    ensures multiset(a[1..]) == multiset(a) - multiset{a[0]}
  {
    assert a == [a[0]] + a[1..];
    assert multiset(a) == multiset{a[0]} + multiset(a[1..]);
  }

  lemma FirstIsLeast(a: seq<Time>, x: Time)
    requires SortedAscending(a) && x in multiset(a)
    ensures Le(a[0], x)
  {
    assert x in a;
    var i :| 0 <= i < |a| && a[i] == x;
    if i > 0 {
      assert Le(a[0], a[i]);
    }
  }

  lemma SortedTail(a: seq<Time>)
    requires SortedAscending(a) && a != []
    ensures SortedAscending(a[1..])
  {
    forall i, j | 0 <= i < j < |a| - 1
      ensures Le(a[1..][i], a[1..][j])
    {
      assert Le(a[i + 1], a[j + 1]);
    }
  }

  // ---------------------------------------------------------------------------
  // Milliseconds and hash

  /** Milliseconds from 00:00:00, computed without overflow. */
  function Millis(t: Time): int
  {
    t.Hours * 3600000 + t.Minutes * 60000 + t.Seconds * 1000
  }

  /** `GetMilliseconds`: the products and sums are C# int arithmetic, which
      wraps silently for fields far out of range. */
  method GetMilliseconds(t: Time) returns (millis: int32)
    ensures millis == Wrap32(Millis(t))
    ensures Valid(t) ==> millis == Millis(t) && 0 <= millis <= 86399000
  {
    millis := Wrap32(Wrap32(Wrap32(t.Hours * 60) * 60) * 1000);
    millis := Wrap32(millis + Wrap32(Wrap32(t.Minutes * 60) * 1000));
    millis := Wrap32(millis + Wrap32(t.Seconds * 1000));
    MillisWrapped(t.Hours, t.Minutes, t.Seconds);
    if Valid(t) {
      MillisRange(t);
    }
  }

  /** The int arithmetic of `GetMilliseconds` wraps the exact sum once. */
  lemma MillisWrapped(h: int, m: int, s: int)
    ensures Wrap32(Wrap32(Wrap32(Wrap32(Wrap32(h * 60) * 60) * 1000) + Wrap32(Wrap32(m * 60) * 1000)) + Wrap32(s * 1000))
      == Wrap32(h * 3600000 + m * 60000 + s * 1000)
  {
    WrapMul(h * 60, 60);
    WrapMul(h * 60 * 60, 1000);
    WrapMul(m * 60, 1000);
    assert Wrap32(Wrap32(Wrap32(h * 60) * 60) * 1000) == Wrap32(h * 3600000);
    assert Wrap32(Wrap32(m * 60) * 1000) == Wrap32(m * 60000);
    WrapAdd(h * 3600000, m * 60000);
    WrapAdd(h * 3600000 + m * 60000, s * 1000);
  }

  lemma MillisRange(t: Time)
    requires Valid(t)
    ensures 0 <= Millis(t) <= 86399000
  {
  }

  /** `GetHashCode` returns the milliseconds. */
  method GetHashCode(t: Time) returns (hash: int32)
    ensures hash == Wrap32(Millis(t))
    ensures Valid(t) ==> hash == Millis(t)
  {
    hash := GetMilliseconds(t);
  }

  /** For valid times the milliseconds order exactly as `CompareTo` does. */
  lemma CompareToMatchesMillis(a: Time, b: Time)
    requires Valid(a) && Valid(b)
    ensures CompareTo(a, b) == CompareInt(Millis(a), Millis(b))
  {
    if a.Hours != b.Hours {
      assert a.Minutes * 60000 + a.Seconds * 1000 < 3600000;
      assert b.Minutes * 60000 + b.Seconds * 1000 < 3600000;
    } else if a.Minutes != b.Minutes {
      assert a.Seconds * 1000 < 60000 && b.Seconds * 1000 < 60000;
    }
  }

  /** For valid times equal milliseconds means equal times, and the milliseconds lie in [0, 86399000]. */
  lemma MillisInjective(a: Time, b: Time)
    requires Valid(a) && Valid(b)
    ensures Millis(a) == Millis(b) <==> Equals(a, b)
    ensures 0 <= Millis(a) <= 86399000
  {
    CompareToMatchesMillis(a, b);
  }

  /** The requirement `Valid` is needed: out-of-range fields (set through the
      unchecked setters) can collide. */
  lemma MillisCollideOutOfRange()
    ensures Millis(Time(0, 60, 0)) == Millis(Time(1, 0, 0))
    ensures !Valid(Time(0, 60, 0))
  {
  }

  // ---------------------------------------------------------------------------
  // Rendering

  /** A field rendered as `$"{v}".PadLeft(2, '0')`. */
  function Field(v: int32): string
  {
    PadLeft(IntToString(v), 2, '0')
  }

  /** `ToString(format)`: "t" gives h:m, every other format h:m:s. */
  function ToString(t: Time, format: string): string
  {
    var h := Field(t.Hours);
    var m := Field(t.Minutes);
    var s := Field(t.Seconds);
    if format == "t" then h + ":" + m else h + ":" + m + ":" + s
  }

  /** `ToString()` is `ToString("T")`. */
  function ToStringDefault(t: Time): string
  {
    ToString(t, "T")
  }

  /** The two characters at `i` are decimal digits that read as `v`. */
  predicate ShowsField(s: string, i: int, v: int)
    requires 0 <= i && i + 2 <= |s|
  {
    IsDigit(s[i]) && IsDigit(s[i + 1]) && DigitOf(s[i]) * 10 + DigitOf(s[i + 1]) == v
  }

  function Digits2(v: int): (s: string)
    requires 0 <= v <= 99
    ensures |s| == 2 && ShowsField(s, 0, v)
  {
    [DigitChar(v / 10), DigitChar(v % 10)]
  }

  lemma FieldOfValid(t: Time)
    requires Valid(t)
    ensures Field(t.Hours) == Digits2(t.Hours)
    ensures Field(t.Minutes) == Digits2(t.Minutes)
    ensures Field(t.Seconds) == Digits2(t.Seconds)
  {
    TwoDigits(t.Hours);
    TwoDigits(t.Minutes);
    TwoDigits(t.Seconds);
  }

  /** For a valid time "t" renders "HH:MM" (five characters) and any other
      format "HH:MM:SS" (eight). */
  lemma ToStringLayout(t: Time, format: string)
    requires Valid(t)
    ensures var r := ToString(t, format);
      && |r| == (if format == "t" then 5 else 8)
      && r[2] == ':' && ShowsField(r, 0, t.Hours) && ShowsField(r, 3, t.Minutes)
      && (format != "t" ==> r[5] == ':' && ShowsField(r, 6, t.Seconds))
  {
    FieldOfValid(t);
    LayoutOf(Digits2(t.Hours), Digits2(t.Minutes), Digits2(t.Seconds), t.Hours, t.Minutes, t.Seconds);
  }

  /** The parameterless overload renders "HH:MM:SS". */
  lemma ToStringDefaultLayout(t: Time)
    requires Valid(t)
    ensures var r := ToStringDefault(t);
      |r| == 8 && r[2] == ':' && r[5] == ':'
      && ShowsField(r, 0, t.Hours) && ShowsField(r, 3, t.Minutes) && ShowsField(r, 6, t.Seconds)
  {
    assert "T"[0] != "t"[0];
    ToStringLayout(t, "T");
  }

  lemma LayoutOf(h: string, m: string, s: string, hv: int, mv: int, sv: int)
    requires |h| == 2 && |m| == 2 && |s| == 2
    requires ShowsField(h, 0, hv) && ShowsField(m, 0, mv) && ShowsField(s, 0, sv)
    ensures var r := h + ":" + m;
      |r| == 5 && r[2] == ':' && ShowsField(r, 0, hv) && ShowsField(r, 3, mv)
    ensures var r := h + ":" + m + ":" + s;
      |r| == 8 && r[2] == ':' && r[5] == ':'
      && ShowsField(r, 0, hv) && ShowsField(r, 3, mv) && ShowsField(r, 6, sv)
  {
  }

  // ---------------------------------------------------------------------------
  // Parsing

  /**
   * `TryParse(timeAsString, out time)`. The out parameter is the second
   * component; it starts as `MinValue` and every exception caught by the
   * `catch` leaves it so. With exactly three segments the source reads
   * `spl[3]`, which is out of bounds, so that case always fails.
   */
  function TryParse(timeAsString: string): (r: (bool, Time))
    ensures !r.0 ==> r.1 == MinValue
    ensures r.0 ==> Valid(r.1) && r.1.Seconds == 0
  {
    var spl := Split(timeAsString, ':');
    if |spl| == 3 then
      (false, MinValue)          // IndexOutOfRangeException on spl[3]
    else if |spl| < 2 then
      (false, MinValue)          // IndexOutOfRangeException on spl[0] or spl[1]
    else
      match (ParseInt32(spl[0]), ParseInt32(spl[1]))
      case (Some(h), Some(m)) =>
        (match Create(h, m, 0)
         case Ok(t) => (true, t)
         case Err(_) => (false, MinValue))
      case _ => (false, MinValue)    // FormatException or OverflowException
  }

  /** When `TryParse` succeeds: two segments, or four and more of which only
      the first two are read, both numbers and in range; seconds are 0. */
  lemma TryParseSucceeds(s: string)
    ensures var spl := Split(s, ':');
      TryParse(s).0 <==>
        (|spl| == 2 || |spl| >= 4)
        && ParseInt32(spl[0]).Some? && ParseInt32(spl[1]).Some?
        && 0 <= ParseInt32(spl[0]).value <= 23 && 0 <= ParseInt32(spl[1]).value <= 59
    ensures var spl := Split(s, ':');
      TryParse(s).0 ==> TryParse(s).1 == Time(ParseInt32(spl[0]).value, ParseInt32(spl[1]).value, 0)
  {
  }

  /** Fewer than two segments, or exactly three, always fail. */
  lemma TryParseRejectsSegmentCount(s: string)
    requires |Split(s, ':')| < 2 || |Split(s, ':')| == 3
    ensures TryParse(s) == (false, MinValue)
  {
  }

  /** The short rendering parses back to the same hours and minutes with seconds 0. */
  lemma TryParseShortRoundTrip(t: Time)
    requires Valid(t)
    ensures TryParse(ToString(t, "t")) == (true, Time(t.Hours, t.Minutes, 0))
  {
    ShortFormSplits(t);
    ParseTwoDigits(t.Hours);
    ParseTwoDigits(t.Minutes);
    TryParseTwoSegments(ToString(t, "t"), Field(t.Hours), Field(t.Minutes), t.Hours, t.Minutes);
  }

  /** As written, the long rendering of every valid time fails to parse. */
  lemma TryParseRejectsLongForm(t: Time)
    requires Valid(t)
    ensures TryParse(ToStringDefault(t)) == (false, MinValue)
  {
    LongFormSplits(t);
    TryParseRejectsSegmentCount(ToStringDefault(t));
  }

  lemma TryParseTwoSegments(s: string, a: string, b: string, h: int32, m: int32)
    requires Split(s, ':') == [a, b] && ParseInt32(a) == Some(h) && ParseInt32(b) == Some(m)
    requires 0 <= h <= 23 && 0 <= m <= 59
    ensures TryParse(s) == (true, Time(h, m, 0))
  {
  }

  lemma ShortFormSplits(t: Time)
    requires Valid(t)
    ensures Split(ToString(t, "t"), ':') == [Field(t.Hours), Field(t.Minutes)]
  {
    var h, m := Field(t.Hours), Field(t.Minutes);
    FieldsHaveNoColon(t);
    assert ToString(t, "t") == h + [':'] + m;
    SplitTwo(h, m, ':');
  }

  lemma LongFormSplits(t: Time)
    requires Valid(t)
    ensures Split(ToStringDefault(t), ':') == [Field(t.Hours), Field(t.Minutes), Field(t.Seconds)]
  {
    var h, m, s := Field(t.Hours), Field(t.Minutes), Field(t.Seconds);
    FieldsHaveNoColon(t);
    LongFormText(t);
    SplitThree(h, m, s, ':');
  }

  lemma LongFormText(t: Time)
    ensures ToStringDefault(t) == Field(t.Hours) + [':'] + Field(t.Minutes) + [':'] + Field(t.Seconds)
  {
    assert "T" != "t" by { assert "T"[0] != "t"[0]; }
  }

  lemma FieldsHaveNoColon(t: Time)
    requires Valid(t)
    ensures |Field(t.Hours)| == 2 && ':' !in Field(t.Hours)
    ensures |Field(t.Minutes)| == 2 && ':' !in Field(t.Minutes)
    ensures |Field(t.Seconds)| == 2 && ':' !in Field(t.Seconds)
  {
    FieldOfValid(t);
    NoColonInDigits2(t.Hours);
    NoColonInDigits2(t.Minutes);
    NoColonInDigits2(t.Seconds);
  }

  lemma NoColonInDigits2(v: int)
    requires 0 <= v <= 99
    ensures ':' !in Digits2(v)
  {
    var d := Digits2(v);
    assert d == [d[0], d[1]];
  }

  /** `TryParse` as evidently intended: the third segment (`spl[2]`) is the seconds. */
  function TryParseIntended(timeAsString: string): (r: (bool, Time))
    ensures !r.0 ==> r.1 == MinValue
    ensures r.0 ==> Valid(r.1)
  {
    var spl := Split(timeAsString, ':');
    if |spl| < 2 then (false, MinValue)
    else
      var seconds := if |spl| == 3 then ParseInt32(spl[2]) else Some(0);
      match (ParseInt32(spl[0]), ParseInt32(spl[1]), seconds)
      case (Some(h), Some(m), Some(sec)) =>
        (match Create(h, m, sec)
         case Ok(t) => (true, t)
         case Err(_) => (false, MinValue))
      case _ => (false, MinValue)
  }

  /** The intended parser inverts both renderings. */
  lemma TryParseIntendedRoundTrip(t: Time)
    requires Valid(t)
    ensures TryParseIntended(ToStringDefault(t)) == (true, t)
    ensures TryParseIntended(ToString(t, "t")) == (true, Time(t.Hours, t.Minutes, 0))
  {
    IntendedLongForm(t);
    IntendedShortForm(t);
  }

  lemma IntendedLongForm(t: Time)
    requires Valid(t)
    ensures TryParseIntended(ToStringDefault(t)) == (true, t)
  {
    LongFormSplits(t);
    ParseTwoDigits(t.Hours);
    ParseTwoDigits(t.Minutes);
    ParseTwoDigits(t.Seconds);
    IntendedOfThree(ToStringDefault(t), Field(t.Hours), Field(t.Minutes), Field(t.Seconds), t);
  }

  lemma IntendedShortForm(t: Time)
    requires Valid(t)
    ensures TryParseIntended(ToString(t, "t")) == (true, Time(t.Hours, t.Minutes, 0))
  {
    ShortFormSplits(t);
    ParseTwoDigits(t.Hours);
    ParseTwoDigits(t.Minutes);
    IntendedOfSegments(ToString(t, "t"), [Field(t.Hours), Field(t.Minutes)], Time(t.Hours, t.Minutes, 0));
  }

  lemma IntendedOfThree(s: string, a: string, b: string, c: string, t: Time)
    requires Valid(t) && Split(s, ':') == [a, b, c]
    requires ParseInt32(a) == Some(t.Hours) && ParseInt32(b) == Some(t.Minutes) && ParseInt32(c) == Some(t.Seconds)
    ensures TryParseIntended(s) == (true, t)
  {
    IntendedOfSegments(s, [a, b, c], t);
  }

  lemma IntendedOfSegments(s: string, spl: seq<string>, t: Time)
    requires Valid(t) && Split(s, ':') == spl
    requires |spl| == 2 || |spl| == 3
    requires ParseInt32(spl[0]) == Some(t.Hours) && ParseInt32(spl[1]) == Some(t.Minutes)
    requires if |spl| == 3 then ParseInt32(spl[2]) == Some(t.Seconds) else t.Seconds == 0
    ensures TryParseIntended(s) == (true, t)
  {
  }
}
