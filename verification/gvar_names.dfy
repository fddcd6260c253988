/**
  Names the GVAR plugin gives its products: the UTC file-name prefix built
  from the satellite number, the channel and the broken-down image time, and
  the NORAD catalogue number looked up for a GOES satellite number.

  A file name is `G<sat>_<channel>_<yyyy><MM><dd>T<HH><mm><ss>Z`, each
  two-digit part padded with one leading zero when it is at most 9. Reading a
  name back (`ParseFilename`) recovers the satellite number, the channel and
  the time whenever the year has four digits and the other parts at most two.
 */
module GvarNames {
  import opened Decimal
  import opened Options

  /** The fields of `std::tm` the name uses: years since 1900, months from 0. */
  datatype Tm = Tm(year: int, mon: int, mday: int, hour: int, min: int, sec: int)

  datatype FileName = FileName(satNumber: int, channel: string, time: Tm)

  /** Text of a time field: one leading zero when the value is at most 9. */
  function Pad2(v: int): string
  {
    if v > 9 then IntToString(v) else "0" + IntToString(v)
  }

  /** `yyyyMMddTHHmmssZ` of a broken-down time. */
  function Timestamp(t: Tm): string
  {
    IntToString(t.year + 1900) + Pad2(t.mon + 1) + Pad2(t.mday) + "T"
      + Pad2(t.hour) + Pad2(t.min) + Pad2(t.sec) + "Z"
  }

  /**
    `getGvarFilename`. A name built from a fixed-width time reads back to the
    satellite number, the channel (whatever characters it holds) and the time.
   */
  function GvarFilename(satNumber: int, t: Tm, channel: string): (s: string)
    ensures |s| >= 1 && s[0] == 'G'
    ensures FixedWidth(t) ==> ParseFilename(s) == Some(FileName(satNumber, channel, t))
  {
    var s := "G" + IntToString(satNumber) + "_" + channel + "_" + Timestamp(t);
    if FixedWidth(t) then
      TimestampRoundTrip(t);
      IntToStringRoundTrip(satNumber);
      SplitName(s, IntToString(satNumber), channel, Timestamp(t));
      s
    else
      s
  }

  /** The times whose text has its fixed width: a four-digit year, every other part below 100. */
  predicate FixedWidth(t: Tm)
  {
    && 1000 <= t.year + 1900 <= 9999
    && 0 <= t.mon + 1 <= 99
    && 0 <= t.mday <= 99
    && 0 <= t.hour <= 99
    && 0 <= t.min <= 99
    && 0 <= t.sec <= 99
  }

  /** Length of a fixed-width timestamp. */
  const TimestampLength: nat := 16

  /** Reads a fixed-width timestamp back into a broken-down time. */
  function ParseTimestamp(ts: string): (r: Option<Tm>)
    ensures r.Some? ==> |ts| == TimestampLength && ts[8] == 'T' && ts[15] == 'Z'
  {
    if |ts| != TimestampLength || ts[8] != 'T' || ts[15] != 'Z' then None
    else TimeOfParts(ts[..4], ts[4..6], ts[6..8], ts[9..11], ts[11..13], ts[13..15])
  }

  /** The time whose parts are written by the given strings of digits, if they are digits. */
  function TimeOfParts(y: string, mo: string, d: string, h: string, mi: string, s: string): Option<Tm>
  {
    if AllDigits(y) && AllDigits(mo) && AllDigits(d) && AllDigits(h) && AllDigits(mi) && AllDigits(s)
    then
      Some(Tm(DigitsValue(y) - 1900, DigitsValue(mo) - 1, DigitsValue(d),
              DigitsValue(h), DigitsValue(mi), DigitsValue(s)))
    else
      None
  }

  /** The index of the first `c` in `s` at or after `from`, or `|s|` when there is none. */
  function FindChar(s: string, c: char, from: nat): (k: nat)
    requires from <= |s|
    ensures from <= k <= |s|
    ensures k < |s| ==> s[k] == c
    ensures forall i :: from <= i < k ==> s[i] != c
    decreases |s| - from
  {
    if from == |s| || s[from] == c then from else FindChar(s, c, from + 1)
  }

  /**
    Splits a name at the first `_` after the leading `G` (the satellite
    number) and at the `_` that precedes the fixed-width timestamp at its end;
    whatever lies between is the channel.
   */
  function ParseFilename(name: string): (r: Option<FileName>)
    ensures r.Some? ==> |name| >= 3 + TimestampLength && name[0] == 'G'
  {
    if |name| < 1 || name[0] != 'G' then None
    else
      var k := FindChar(name, '_', 1);
      if |name| - k < 2 + TimestampLength then None
      else
        var rest := name[k + 1..];
        var ts := rest[|rest| - TimestampLength..];
        if rest[|rest| - TimestampLength - 1] != '_' then None
        else
          NameOfParts(name[1..k], rest[..|rest| - TimestampLength - 1], ts)
  }

  /** The name whose satellite number and timestamp are written by the given texts, if they read back. */
  function NameOfParts(sat: string, channel: string, ts: string): Option<FileName>
  {
    match (ParseInt(sat), ParseTimestamp(ts))
    case (Some(n), Some(t)) => Some(FileName(n, channel, t))
    case _ => None
  }

  /** A name reads back only if its satellite number is written exactly as `std::to_string` writes it. */
  lemma SatelliteTextExact(sat: string, channel: string, ts: string)
    ensures NameOfParts(sat, channel, ts).Some? ==> IntToString(NameOfParts(sat, channel, ts).value.satNumber) == sat
  {
    ParseIntCanonical(sat);
  }

  /**
    A two-digit time field: values 0 to 9 get a leading zero, values 10 to 99
    are written as they are, and in both cases the two digits denote the value.
   */
  lemma Pad2TwoDigits(v: int)
    requires 0 <= v <= 99
    ensures |Pad2(v)| == 2 && AllDigits(Pad2(v)) && DigitsValue(Pad2(v)) == v
    ensures v <= 9 <==> Pad2(v)[0] == '0'
  {
    NatToStringLength(v);
    NatToStringValue(v);
    var s := Pad2(v);
    if v <= 9 {
      assert s == ['0', DigitChar(v)];
      assert s[..1] == ['0'];
      assert s[..1][..0] == [];
    } else {
      assert s == NatToString(v);
    }
  }

  /** The four-digit year part. */
  lemma YearDigits(year: int)
    requires 1000 <= year <= 9999
    ensures |IntToString(year)| == 4 && AllDigits(IntToString(year))
    ensures DigitsValue(IntToString(year)) == year
  {
    NatToStringLength(year);
    NatToStringValue(year);
  }

  /** Where each part of a fixed-width time sits in its text. */
  lemma TimestampLayout(t: Tm)
    requires FixedWidth(t)
    ensures var ts := Timestamp(t);
      && |ts| == TimestampLength
      && ts[..4] == IntToString(t.year + 1900)
      && ts[4..6] == Pad2(t.mon + 1)
      && ts[6..8] == Pad2(t.mday)
      && ts[8] == 'T'
      && ts[9..11] == Pad2(t.hour)
      && ts[11..13] == Pad2(t.min)
      && ts[13..15] == Pad2(t.sec)
      && ts[15] == 'Z'
  {
    YearDigits(t.year + 1900);
    Pad2TwoDigits(t.mon + 1);
    Pad2TwoDigits(t.mday);
    Pad2TwoDigits(t.hour);
    Pad2TwoDigits(t.min);
    Pad2TwoDigits(t.sec);
    Layout(IntToString(t.year + 1900), Pad2(t.mon + 1), Pad2(t.mday),
           Pad2(t.hour), Pad2(t.min), Pad2(t.sec));
  }

  /** The positions of the parts in `y + mo + d + "T" + h + mi + s + "Z"`. */
  lemma Layout(y: string, mo: string, d: string, h: string, mi: string, s: string)
    requires |y| == 4 && |mo| == 2 && |d| == 2 && |h| == 2 && |mi| == 2 && |s| == 2
    ensures var ts := y + mo + d + "T" + h + mi + s + "Z";
      && |ts| == TimestampLength
      && ts[..4] == y && ts[4..6] == mo && ts[6..8] == d && ts[8] == 'T'
      && ts[9..11] == h && ts[11..13] == mi && ts[13..15] == s && ts[15] == 'Z'
  {
    var p1 := y + mo;
    var p2 := p1 + d;
    var p3 := p2 + "T";
    var p4 := p3 + h;
    var p5 := p4 + mi;
    var p6 := p5 + s;
    var ts := p6 + "Z";
    // Each prefix of the text is the corresponding prefix of the construction.
    assert ts[..15] == p6;
    TakeTake(ts, 13, 15);
    assert ts[..13] == p5;
    TakeTake(ts, 11, 13);
    assert ts[..11] == p4;
    TakeTake(ts, 9, 11);
    assert ts[..9] == p3;
    TakeTake(ts, 8, 9);
    assert ts[..8] == p2;
    TakeTake(ts, 6, 8);
    assert ts[..6] == p1;
    TakeTake(ts, 4, 6);
    assert ts[8] == ts[..9][8];
  }

  /** A fixed-width time is written in 16 characters and reads back unchanged. */
  lemma TimestampRoundTrip(t: Tm)
    requires FixedWidth(t)
    ensures |Timestamp(t)| == TimestampLength
    ensures ParseTimestamp(Timestamp(t)) == Some(t)
  {
    var y := IntToString(t.year + 1900);
    var mo, d := Pad2(t.mon + 1), Pad2(t.mday);
    var h, mi, s := Pad2(t.hour), Pad2(t.min), Pad2(t.sec);
    TimestampLayout(t);
    ReadLaidOut(Timestamp(t), y, mo, d, h, mi, s);
    YearDigits(t.year + 1900);
    Pad2TwoDigits(t.mon + 1);
    Pad2TwoDigits(t.mday);
    Pad2TwoDigits(t.hour);
    Pad2TwoDigits(t.min);
    Pad2TwoDigits(t.sec);
    PartsRoundTrip(t, y, mo, d, h, mi, s);
  }

  /** `ParseTimestamp` reads the parts found at the fixed positions. */
  lemma ReadLaidOut(ts: string, y: string, mo: string, d: string, h: string, mi: string, s: string)
    requires |ts| == TimestampLength && ts[8] == 'T' && ts[15] == 'Z'
    requires ts[..4] == y && ts[4..6] == mo && ts[6..8] == d
    requires ts[9..11] == h && ts[11..13] == mi && ts[13..15] == s
    ensures ParseTimestamp(ts) == TimeOfParts(y, mo, d, h, mi, s)
  {
  }

  /** Digit parts that denote the fields of a time read back as that time. */
  lemma PartsRoundTrip(t: Tm, y: string, mo: string, d: string, h: string, mi: string, s: string)
    requires AllDigits(y) && AllDigits(mo) && AllDigits(d) && AllDigits(h) && AllDigits(mi) && AllDigits(s)
    requires DigitsValue(y) == t.year + 1900 && DigitsValue(mo) == t.mon + 1
    requires DigitsValue(d) == t.mday && DigitsValue(h) == t.hour
    requires DigitsValue(mi) == t.min && DigitsValue(s) == t.sec
    ensures TimeOfParts(y, mo, d, h, mi, s) == Some(t)
  {
  }

  lemma TakeTake(s: string, m: nat, n: nat)
    requires m <= n <= |s|
    ensures s[..n][..m] == s[..m]
  {
  }

  /** The satellite number ends at the first `_` of a file name. */
  lemma FirstUnderscore(name: string, a: string, b: string)
    requires name == "G" + a + "_" + b
    requires forall i :: 0 <= i < |a| ==> a[i] != '_'
    ensures FindChar(name, '_', 1) == 1 + |a|
  {
    assert name[1 + |a|] == '_';
    assert forall i :: 1 <= i < 1 + |a| ==> name[i] == a[i - 1];
  }

  /** How `ParseFilename` cuts a name made of a satellite text, a channel and a timestamp. */
  lemma SplitName(name: string, sat: string, channel: string, ts: string)
    requires name == "G" + sat + "_" + channel + "_" + ts
    requires forall i :: 0 <= i < |sat| ==> sat[i] != '_'
    requires |ts| == TimestampLength
    ensures ParseFilename(name) == NameOfParts(sat, channel, ts)
  {
    var tail := channel + "_" + ts;
    assert name == "G" + sat + "_" + tail;
    FirstUnderscore(name, sat, tail);
    var k := 1 + |sat|;
    assert name[1..k] == sat;
    var rest := name[k + 1..];
    assert rest == tail;
    assert rest[|rest| - TimestampLength..] == ts;
    assert rest[|rest| - TimestampLength - 1] == '_';
    assert rest[..|rest| - TimestampLength - 1] == channel;
  }

  /** Distinct satellites, channels or times give distinct fixed-width names. */
  lemma FilenameInjective(s1: int, t1: Tm, c1: string, s2: int, t2: Tm, c2: string)
    requires FixedWidth(t1) && FixedWidth(t2)
    ensures GvarFilename(s1, t1, c1) == GvarFilename(s2, t2, c2) <==> (s1, t1, c1) == (s2, t2, c2)
  {
    var n1, n2 := GvarFilename(s1, t1, c1), GvarFilename(s2, t2, c2);
    assert ParseFilename(n1) == Some(FileName(s1, c1, t1));
    assert ParseFilename(n2) == Some(FileName(s2, c2, t2));
  }

  // ----- NORAD catalogue numbers -----

  /** `getNORADFromSatNumber`: GOES-13, -14 and -15 are known; any other number gives 0. */
  function NoradId(satNumber: int): (id: int)
    ensures id == 0 <==> satNumber !in {13, 14, 15}
    ensures id != 0 ==> SatNumberOfNorad(id) == Some(satNumber)
  {
    if satNumber == 13 then 29155
    else if satNumber == 14 then 35491
    else if satNumber == 15 then 36411
    else 0
  }

  /** The inverse lookup: which GOES satellite carries a catalogue number. */
  function SatNumberOfNorad(id: int): (r: Option<int>)
  {
    if id == 29155 then Some(13)
    else if id == 35491 then Some(14)
    else if id == 36411 then Some(15)
    else None
  }

  /** A nonzero catalogue number identifies its satellite, and every known satellite has one. */
  lemma NoradRoundTrip(satNumber: int, id: int)
    ensures NoradId(satNumber) != 0 ==> SatNumberOfNorad(NoradId(satNumber)) == Some(satNumber)
    ensures SatNumberOfNorad(id).Some? ==> NoradId(SatNumberOfNorad(id).value) == id
  {
  }
}
