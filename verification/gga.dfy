/** Decoding a GPGGA (Global Positioning System Fix Data) sentence, as done by
    `formatTime`, `formatLat`, `formatLong` and `assignGGA` in src/gps.cpp and
    by `main` there, which splits the sentence on ',' and hands the fields to
    `assignGGA`. Every call that can throw yields None, and one failing
    conversion fails the whole decode. Coordinates are exact reals. */
module Gga {
  import opened Options
  import opened StdString
  import opened NumParse
  import Split
  import Checksum

  /** The UTC time of a fix (struct UTC of libs/gpstypes.h). */
  datatype UTC = UTC(rawUTC: int, hours: int, minutes: int, seconds: int)

  /** One decoded GGA sentence (struct GPGGA of libs/gpstypes.h). Latitude
      and longitude are signed decimal degrees: south and west are negative. */
  datatype GPGGA = GPGGA(
    time: UTC,
    latitude: real,
    latDirection: char,
    longitude: real,
    longDirection: char,
    fix: int,
    satsInView: int,
    HDOP: real,
    altitude: real,
    geoid: real,
    lastDGPS: real,
    DGPSid: int,
    checksum: int)

  /** lastDGPS when the DGPS age field is empty: "not available". */
  const NoDGPS: real := -1.0

  /** The number of fields assignGGA reads: indices 0 through 14. */
  const GGAFields: nat := 15

  /** formatTime: rawUTC is stoi of the whole field, so it stops at the
      decimal point; hours, minutes and seconds are stoi of the two-character
      substrings at offsets 0, 2 and 4. */
  function FormatTime(utc: string): (r: Option<UTC>)
    ensures r.Some? ==> |utc| >= 5
  {
    var raw :- StoI(utc);
    var hours :- StoI(Head(utc, 2));
    var mm :- Substr(utc, 2, 2);
    var minutes :- StoI(mm);
    var ss :- Substr(utc, 4, 2);
    var seconds :- StoI(ss);
    Some(UTC(raw, hours, minutes, seconds))
  }

  /** The shared rule of formatLat and formatLong: stof of the first `width`
      characters is whole degrees, stof of the rest is minutes, and the result
      is degrees plus minutes / 60. */
  function FormatCoordinate(s: string, width: nat): (r: Option<real>)
    ensures r.Some? ==> |s| > width
    ensures r.Some? <==> width < |s| && StoD(Head(s, width)).Some? && StoD(s[width..]).Some?
  {
    // substr(width) throws when width is past the end
    Degrees(StoD(Head(s, width)), if width <= |s| then StoD(s[width..]) else None)
  }

  /** Whole degrees plus minutes / 60, once both conversions succeeded. */
  function Degrees(degrees: Option<real>, minutes: Option<real>): (r: Option<real>)
    ensures r.Some? <==> degrees.Some? && minutes.Some?
  {
    var deg :- degrees;
    var m :- minutes;
    Some(deg + m / 60.0)
  }

  /** formatLat: `ddmm.mmmm`, a two-character degree prefix. */
  function FormatLat(lat: string): (r: Option<real>)
    ensures r.Some? ==> |lat| > 2
    ensures r.Some? <==> |lat| > 2 && StoD(lat[..2]).Some? && StoD(lat[2..]).Some?
  {
    FormatCoordinate(lat, 2)
  }

  /** formatLong: `dddmm.mmmm`, a three-character degree prefix. */
  function FormatLong(longitude: string): (r: Option<real>)
    ensures r.Some? ==> |longitude| > 3
    ensures r.Some? <==> |longitude| > 3 && StoD(longitude[..3]).Some? && StoD(longitude[3..]).Some?
  {
    FormatCoordinate(longitude, 3)
  }

  /** The sign rule: the value is negated exactly when the hemisphere letter
      is the negative one ('S' for latitude, 'W' for longitude). */
  function Signed(value: real, direction: char, negative: char): real {
    if direction == negative then -value else value
  }

  /** assignGGA: the fix record assembled from the fields by position. Field
      3 and 5 contribute their first character (the '\0' terminator of an
      empty field), field 13 empty means no DGPS age, and field 14 holds the
      DGPS station id in its first four characters and the transmitted
      checksum in the two characters at offset 5. Fields 0, 10, 12 and any
      after 14 are not read. The caller must supply at least 15 fields: the
      source indexes them without a bounds check. */
  function AssignGGA(data: seq<string>): (r: Option<GPGGA>)
    requires |data| >= GGAFields
    ensures r.Some? ==> FormatLat(data[2]).Some? && FormatLong(data[4]).Some?
    ensures r.Some? ==>
              (r.value.latitude == if |data[3]| > 0 && data[3][0] == 'S' then -FormatLat(data[2]).value else FormatLat(data[2]).value)
    ensures r.Some? ==>
              (r.value.longitude == if |data[5]| > 0 && data[5][0] == 'W' then -FormatLong(data[4]).value else FormatLong(data[4]).value)
  {
    Assemble(FormatTime(data[1]), FormatLat(data[2]), At(data[3], 0), FormatLong(data[4]), At(data[5], 0),
             StoI(data[6]), StoI(data[7]), StoD(data[8]), StoD(data[9]), StoD(data[11]),
             if data[13] == "" then Some(NoDGPS) else StoD(data[13]),
             StoI(Head(data[14], 4)), ChecksumField(data[14]))
  }

  /** The transmitted checksum as assignGGA reads it: stoul(substr(5, 2), 16),
      assigned to an int. */
  function ChecksumField(field: string): (r: Option<int>)
    ensures r.Some? <==> |field| >= 5 && StoUL16(field[5..Min(7, |field|)]).Some?
    ensures r.Some? ==> |field| > 5 && r.value == ToInt32(StoUL16(field[5..Min(7, |field|)]).value)
  {
    var sum :- Substr(field, 5, 2);
    var checksum :- StoUL16(sum);
    Some(ToInt32(checksum))
  }

  /** The record from the converted fields, applying the hemisphere signs;
      None as soon as one conversion failed. */
  function Assemble(time: Option<UTC>, lat: Option<real>, latDirection: char, long: Option<real>, longDirection: char,
                    fix: Option<int>, sats: Option<int>, hdop: Option<real>, altitude: Option<real>, geoid: Option<real>,
                    lastDGPS: Option<real>, id: Option<int>, checksum: Option<int>): (r: Option<GPGGA>)
    ensures r.Some? <==> time.Some? && lat.Some? && long.Some? && fix.Some? && sats.Some? && hdop.Some?
                         && altitude.Some? && geoid.Some? && lastDGPS.Some? && id.Some? && checksum.Some?
    ensures r.Some? ==> r.value.latitude == Signed(lat.value, latDirection, 'S')
    ensures r.Some? ==> r.value.longitude == Signed(long.value, longDirection, 'W')
  {
    if time.None? || lat.None? || long.None? || fix.None? || sats.None? || hdop.None?
       || altitude.None? || geoid.None? || lastDGPS.None? || id.None? || checksum.None?
    then None
    else Some(GPGGA(time.value, Signed(lat.value, latDirection, 'S'), latDirection,
                    Signed(long.value, longDirection, 'W'), longDirection, fix.value, sats.value,
                    hdop.value, altitude.value, geoid.value, lastDGPS.value, id.value, checksum.value))
  }

  /** main's pipeline in src/gps.cpp: split the sentence on ',' and assign
      the fields; a sentence with fewer than 15 fields is rejected here
      instead of being indexed out of bounds. */
  function Decode(sentence: string): (r: Option<GPGGA>)
    ensures Split.Count(sentence, ',') < GGAFields - 1 ==> r.None?
  {
    var fields := Split.Split(sentence, ',');
    if |fields| < GGAFields then None else AssignGGA(fields)
  }

  // Properties

  /** A UTC field whose first six characters are digits, followed by a
      non-digit or nothing, decodes to those digits read in pairs, and rawUTC
      agrees with them: rawUTC == hours * 10000 + minutes * 100 + seconds. */
  lemma FormatTimeDigits(utc: string)
    requires |utc| >= 6 && AllDigitsIn(utc[..6], 10)
    requires |utc| == 6 || !IsDigitIn(utc[6], 10)
    ensures FormatTime(utc).Some?
    ensures var t := FormatTime(utc).value;
            && t.hours == ValueIn(utc[0..2], 10)
            && t.minutes == ValueIn(utc[2..4], 10)
            && t.seconds == ValueIn(utc[4..6], 10)
            && t.rawUTC == t.hours * 10000 + t.minutes * 100 + t.seconds
  {
    TwoDigits(utc, 0);
    TwoDigits(utc, 2);
    TwoDigits(utc, 4);
    SixDigits(utc);
    FormatTimeParts(utc);
    var t := FormatTime(utc).value;
    assert t.hours == StoI(utc[0..2]).value == ValueIn(utc[0..2], 10);
  }

  /** The two characters at offset i of the field, if digits, are read as their value. */
  lemma TwoDigits(utc: string, i: nat)
    requires i + 2 <= |utc| && IsDigitIn(utc[i], 10) && IsDigitIn(utc[i + 1], 10)
    ensures StoI(utc[i..i + 2]) == Some(ValueIn(utc[i..i + 2], 10))
  {
    assert utc[i..i + 2] + "" == utc[i..i + 2];
    StoIDigits(utc[i..i + 2], "");
  }

  /** rawUTC of six leading digits is those digits read in pairs. */
  lemma SixDigits(utc: string)
    requires |utc| >= 6 && AllDigitsIn(utc[..6], 10)
    requires |utc| == 6 || !IsDigitIn(utc[6], 10)
    ensures StoI(utc) == Some(ValueIn(utc[0..2], 10) * 10000 + ValueIn(utc[2..4], 10) * 100 + ValueIn(utc[4..6], 10))
  {
    assert utc == utc[..6] + utc[6..];
    StoIDigits(utc[..6], utc[6..]);
    Pairs(utc[..6]);
    assert utc[..6][0..2] == utc[0..2] && utc[..6][2..4] == utc[2..4] && utc[..6][4..6] == utc[4..6];
  }

  /** Six digits read as three two-digit groups. */
  lemma Pairs(ds: string)
    requires |ds| == 6 && AllDigitsIn(ds, 10)
    ensures ValueIn(ds, 10) == ValueIn(ds[0..2], 10) * 10000 + ValueIn(ds[2..4], 10) * 100 + ValueIn(ds[4..6], 10)
  {
    var h, m, s := ds[0..2], ds[2..4], ds[4..6];
    assert ds == (h + m) + s;
    Groups(h, m, s);
  }

  lemma Groups(h: string, m: string, s: string)
    requires |h| == |m| == |s| == 2 && AllDigitsIn(h, 10) && AllDigitsIn(m, 10) && AllDigitsIn(s, 10)
    ensures ValueIn((h + m) + s, 10) == ValueIn(h, 10) * 10000 + ValueIn(m, 10) * 100 + ValueIn(s, 10)
  {
    var vh, vm, vs := ValueIn(h, 10), ValueIn(m, 10), ValueIn(s, 10);
    assert Pow(10, 2) == 100;
    ValueAppend(h, m, 10);
    assert ValueIn(h + m, 10) == vh * 100 + vm;
    ValueAppend(h + m, s, 10);
  }

  /** formatTime of a field of at least six characters combines the four stoi calls. */
  lemma FormatTimeParts(utc: string)
    requires |utc| >= 6 && StoI(utc).Some?
    requires StoI(utc[0..2]).Some? && StoI(utc[2..4]).Some? && StoI(utc[4..6]).Some?
    ensures FormatTime(utc)
            == Some(UTC(StoI(utc).value, StoI(utc[0..2]).value, StoI(utc[2..4]).value, StoI(utc[4..6]).value))
  {
    assert Head(utc, 2) == utc[0..2];
    assert Substr(utc, 2, 2) == Some(utc[2..4]);
    assert Substr(utc, 4, 2) == Some(utc[4..6]);
  }

  /** Hours, minutes and seconds are stoi of at most two characters, so each
      lies in -9..99 whatever the field holds. */
  lemma FormatTimeRange(utc: string)
    requires FormatTime(utc).Some?
    ensures var t := FormatTime(utc).value;
            && -9 <= t.hours <= 99 && -9 <= t.minutes <= 99 && -9 <= t.seconds <= 99
  {
    var t := FormatTime(utc).value;
    assert t.hours == StoI(utc[0..2]).value;
    assert t.minutes == StoI(utc[2..4]).value;
    assert t.seconds == StoI(utc[4..Min(6, |utc|)]).value;
    StoIShort(utc[0..2]);
    StoIShort(utc[2..4]);
    StoIShort(utc[4..Min(6, |utc|)]);
  }

  /** An NMEA coordinate `width` degree digits, then whole minutes and a
      decimal fraction, decodes to degrees + minutes / 60; with fewer than 60
      minutes the degree digits are exactly the whole part of the result. */
  lemma FormatCoordinateNmea(deg: string, mm: string, frac: string, width: nat)
    requires |deg| == width >= 1 && AllDigitsIn(deg, 10)
    requires |mm| >= 1 && AllDigitsIn(mm, 10) && AllDigitsIn(frac, 10)
    ensures FormatCoordinate(deg + mm + "." + frac, width).Some?
    ensures FormatCoordinate(deg + mm + "." + frac, width).value
            == ValueIn(deg, 10) as real + Decimal(mm, frac) / 60.0
    ensures Decimal(mm, frac) < 60.0 ==>
              ValueIn(deg, 10) as real <= FormatCoordinate(deg + mm + "." + frac, width).value < ValueIn(deg, 10) as real + 1.0
  {
    var s := deg + mm + "." + frac;
    assert s[..width] == deg;
    assert s[width..] == mm + "." + frac + "";
    StoDWhole(deg);
    StoDDecimal(mm, frac, "");
    FormatCoordinateParts(s, width, ValueIn(deg, 10) as real, Decimal(mm, frac));
  }

  /** formatLat / formatLong when both conversions succeed. */
  lemma FormatCoordinateParts(s: string, width: nat, deg: real, minutes: real)
    requires width <= |s| && StoD(s[..width]) == Some(deg) && StoD(s[width..]) == Some(minutes)
    ensures FormatCoordinate(s, width).Some?
    ensures FormatCoordinate(s, width).value == deg + minutes / 60.0
  {
    assert Head(s, width) == s[..width];
    DegreesOf(deg, minutes);
  }

  lemma DegreesOf(deg: real, minutes: real)
    ensures Degrees(Some(deg), Some(minutes)) == Some(deg + minutes / 60.0)
  {
  }

  /** stof throws on a degree prefix or a minutes remainder that does not
      begin with a numeral, and so does formatLat / formatLong. */
  lemma FormatCoordinateNoNumeral(s: string, width: nat)
    requires NoNumeral(AfterLead(Head(s, width))) || (width <= |s| && NoNumeral(AfterLead(s[width..])))
    ensures FormatCoordinate(s, width).None?
  {
    if NoNumeral(AfterLead(Head(s, width))) {
      StoDNoNumeral(Head(s, width));
    } else {
      StoDNoNumeral(s[width..]);
    }
  }

  /** formatLat and formatLong differ only in the width of the degree prefix. */
  lemma LatLongWidths(ddmm: string, dddmm: string, frac: string)
    requires |ddmm| >= 3 && AllDigitsIn(ddmm, 10) && |dddmm| >= 4 && AllDigitsIn(dddmm, 10)
    requires AllDigitsIn(frac, 10)
    ensures FormatLat(ddmm + "." + frac).Some? && FormatLong(dddmm + "." + frac).Some?
    ensures FormatLat(ddmm + "." + frac).value == ValueIn(ddmm[..2], 10) as real + Decimal(ddmm[2..], frac) / 60.0
    ensures FormatLong(dddmm + "." + frac).value == ValueIn(dddmm[..3], 10) as real + Decimal(dddmm[3..], frac) / 60.0
  {
    assert ddmm == ddmm[..2] + ddmm[2..];
    assert dddmm == dddmm[..3] + dddmm[3..];
    FormatCoordinateNmea(ddmm[..2], ddmm[2..], frac, 2);
    FormatCoordinateNmea(dddmm[..3], dddmm[3..], frac, 3);
  }

  /** The hemisphere letters kept in the record are the first characters of
      fields 3 and 5 ('\0' when a field is empty). */
  lemma AssignGGADirections(data: seq<string>)
    requires |data| >= GGAFields && AssignGGA(data).Some?
    ensures AssignGGA(data).value.latDirection == At(data[3], 0)
    ensures AssignGGA(data).value.longDirection == At(data[5], 0)
  {
  }

  /** An empty DGPS age field gives the "not available" value -1.0; any
      other field is converted by stod. */
  lemma AssignGGADGPSAge(data: seq<string>)
    requires |data| >= GGAFields && AssignGGA(data).Some?
    ensures data[13] == "" ==> AssignGGA(data).value.lastDGPS == NoDGPS
    ensures data[13] != "" ==> StoD(data[13]) == Some(AssignGGA(data).value.lastDGPS)
  {
  }

  /** Field 14 is cut by fixed offsets: the station id is stoi of its first
      four characters and the checksum the base-16 value of the two
      characters at offset 5, so the field must be longer than five characters. */
  lemma AssignGGAStation(data: seq<string>)
    requires |data| >= GGAFields && AssignGGA(data).Some?
    ensures StoI(Head(data[14], 4)) == Some(AssignGGA(data).value.DGPSid)
    ensures |data[14]| > 5
    ensures AssignGGA(data).value.checksum == ToInt32(StoUL16(data[14][5..Min(7, |data[14]|)]).value)
  {
    assert Substr(data[14], 5, 2) == Some(data[14][5..Min(7, |data[14]|)]);
  }

  /** A checksum field whose characters at offsets 5 and 6 are hexadecimal
      digits yields exactly the value verifyChecksum reads from them. */
  lemma ChecksumFieldHex(field: string)
    requires |field| >= 7 && AllDigitsIn(field[5..7], 16)
    ensures ChecksumField(field).Some?
    ensures ChecksumField(field) == Checksum.ParseHex2(field[5..7])
  {
    assert Min(7, |field|) == 7;
    Checksum.StoUL16Hex2(field[5..7]);
  }

  /** The conversions assignGGA performs all succeed. */
  predicate Converts(data: seq<string>)
    requires |data| >= GGAFields
  {
    && FormatTime(data[1]).Some? && FormatLat(data[2]).Some? && FormatLong(data[4]).Some?
    && StoI(data[6]).Some? && StoI(data[7]).Some?
    && StoD(data[8]).Some? && StoD(data[9]).Some? && StoD(data[11]).Some?
    && (data[13] == "" || StoD(data[13]).Some?)
    && StoI(Head(data[14], 4)).Some?
    && ChecksumField(data[14]).Some?
  }

  /** One failing conversion fails the whole record, and the record exists
      when every conversion succeeds. */
  lemma AssignGGAConverts(data: seq<string>)
    requires |data| >= GGAFields
    ensures AssignGGA(data).Some? <==> Converts(data)
  {
    var age := if data[13] == "" then Some(NoDGPS) else StoD(data[13]);
    assert age.Some? <==> data[13] == "" || StoD(data[13]).Some?;
  }

  /** Where each member of the record comes from: the conversion of its
      field, with the hemisphere sign applied to the coordinates. */
  lemma AssignGGAValues(data: seq<string>)
    requires |data| >= GGAFields && AssignGGA(data).Some?
    ensures var g := AssignGGA(data).value;
            && g.time == FormatTime(data[1]).value
            && g.latitude == Signed(FormatLat(data[2]).value, At(data[3], 0), 'S')
            && g.longitude == Signed(FormatLong(data[4]).value, At(data[5], 0), 'W')
            && g.fix == StoI(data[6]).value && g.satsInView == StoI(data[7]).value
            && g.HDOP == StoD(data[8]).value && g.altitude == StoD(data[9]).value && g.geoid == StoD(data[11]).value
  {
  }

  /** Only fields 1 to 9, 11, 13 and 14 matter: changing the sentence id,
      the unit fields 10 and 12 or anything after field 14 leaves the record
      as it is. */
  lemma AssignGGAReadsOnly(data: seq<string>, other: seq<string>)
    requires |data| >= GGAFields && |other| >= GGAFields
    requires forall i :: 1 <= i <= 14 && i != 10 && i != 12 ==> data[i] == other[i]
    ensures AssignGGA(data) == AssignGGA(other)
  {
    assert data[1] == other[1] && data[2] == other[2] && data[3] == other[3];
    assert data[4] == other[4] && data[5] == other[5] && data[6] == other[6];
    assert data[7] == other[7] && data[8] == other[8] && data[9] == other[9];
    assert data[11] == other[11] && data[13] == other[13] && data[14] == other[14];
  }

  /** A sentence made of at least 15 comma-free fields, the last one
      non-empty, decodes to assignGGA of exactly those fields. */
  lemma DecodeJoin(ps: seq<string>)
    requires |ps| >= GGAFields && Split.NoDelim(ps, ',') && ps[|ps| - 1] != ""
    ensures Decode(Split.Join(ps, ',')) == AssignGGA(ps)
  {
    Split.SplitOfJoin(ps, ',');
  }

  /** A sentence with fewer than 15 fields never decodes. */
  lemma DecodeNeedsFields(sentence: string)
    requires |Split.Split(sentence, ',')| < GGAFields
    ensures Decode(sentence).None?
  {
  }
}
