/** The sentences the repository's drivers decode, worked through the model:
    the GGA sentence of the draft gps.cpp (line 90) and the RMC sentence of
    split.cpp (line 27). */
module Examples {
  import opened Options
  import opened StdString
  import opened NumParse
  import opened Split
  import opened Gga
  import opened Draft

  const GgaLine: string := "$GPGGA,210658.000,0302.78469,N,10141.82531,W,1,10,0.9,844.3,M,-20.5,M,,0000*60"

  /** The comma-free segments of GgaLine. */
  const GgaSegments: seq<string> :=
    ["$GPGGA", "210658.000", "0302.78469", "N", "10141.82531", "W", "1", "10", "0.9", "844.3", "M", "-20.5", "M", "", "0000*60"]

  const RmcLine: string := "$GPRMC, ,044954.000,A,3706.7967,N,11332.4225,W,0.00,11.76,050217,,,D*4F"

  /** The comma-free segments of RmcLine; the last one is "D*4F". */
  const RmcSegments: seq<string> :=
    ["$GPRMC", " ", "044954.000", "A", "3706.7967", "N", "11332.4225", "W", "0.00", "11.76", "050217", "", "", "D*4F"]

  /** GgaLine is its segments joined by commas; the helpers below join
      the first 4, 8 and 12 segments. */
  lemma GgaLineJoin()
    ensures Join(GgaSegments, ',') == GgaLine
  {
    GgaLineJoin12();
    assert GgaSegments[..13][..12] == GgaSegments[..12];
    assert Join(GgaSegments[..13], ',') == "$GPGGA,210658.000,0302.78469,N,10141.82531,W,1,10,0.9,844.3,M,-20.5,M";
    assert GgaSegments[..14][..13] == GgaSegments[..13];
    assert Join(GgaSegments[..14], ',') == "$GPGGA,210658.000,0302.78469,N,10141.82531,W,1,10,0.9,844.3,M,-20.5,M,";
    assert GgaSegments[..15][..14] == GgaSegments[..14];
    assert Join(GgaSegments[..15], ',') == "$GPGGA,210658.000,0302.78469,N,10141.82531,W,1,10,0.9,844.3,M,-20.5,M,,0000*60";
    assert GgaSegments[..15] == GgaSegments;
  }

  lemma GgaLineJoin12()
    ensures Join(GgaSegments[..12], ',') == "$GPGGA,210658.000,0302.78469,N,10141.82531,W,1,10,0.9,844.3,M,-20.5"
  {
    GgaLineJoin8();
    assert GgaSegments[..9][..8] == GgaSegments[..8];
    assert Join(GgaSegments[..9], ',') == "$GPGGA,210658.000,0302.78469,N,10141.82531,W,1,10,0.9";
    assert GgaSegments[..10][..9] == GgaSegments[..9];
    assert Join(GgaSegments[..10], ',') == "$GPGGA,210658.000,0302.78469,N,10141.82531,W,1,10,0.9,844.3";
    assert GgaSegments[..11][..10] == GgaSegments[..10];
    assert Join(GgaSegments[..11], ',') == "$GPGGA,210658.000,0302.78469,N,10141.82531,W,1,10,0.9,844.3,M";
    assert GgaSegments[..12][..11] == GgaSegments[..11];
    assert Join(GgaSegments[..12], ',') == "$GPGGA,210658.000,0302.78469,N,10141.82531,W,1,10,0.9,844.3,M,-20.5";
  }

  lemma GgaLineJoin8()
    ensures Join(GgaSegments[..8], ',') == "$GPGGA,210658.000,0302.78469,N,10141.82531,W,1,10"
  {
    GgaLineJoin4();
    assert GgaSegments[..5][..4] == GgaSegments[..4];
    assert Join(GgaSegments[..5], ',') == "$GPGGA,210658.000,0302.78469,N,10141.82531";
    assert GgaSegments[..6][..5] == GgaSegments[..5];
    assert Join(GgaSegments[..6], ',') == "$GPGGA,210658.000,0302.78469,N,10141.82531,W";
    assert GgaSegments[..7][..6] == GgaSegments[..6];
    assert Join(GgaSegments[..7], ',') == "$GPGGA,210658.000,0302.78469,N,10141.82531,W,1";
    assert GgaSegments[..8][..7] == GgaSegments[..7];
    assert Join(GgaSegments[..8], ',') == "$GPGGA,210658.000,0302.78469,N,10141.82531,W,1,10";
  }

  lemma GgaLineJoin4()
    ensures Join(GgaSegments[..4], ',') == "$GPGGA,210658.000,0302.78469,N"
  {
    assert Join(GgaSegments[..1], ',') == "$GPGGA";
    assert GgaSegments[..2][..1] == GgaSegments[..1];
    assert Join(GgaSegments[..2], ',') == "$GPGGA,210658.000";
    assert GgaSegments[..3][..2] == GgaSegments[..2];
    assert Join(GgaSegments[..3], ',') == "$GPGGA,210658.000,0302.78469";
    assert GgaSegments[..4][..3] == GgaSegments[..3];
    assert Join(GgaSegments[..4], ',') == "$GPGGA,210658.000,0302.78469,N";
  }

  /** RmcLine is its segments joined by commas; the helpers below join the first 4, 8 and 12 segments. */
  lemma RmcLineJoin()
    ensures Join(RmcSegments, ',') == RmcLine
  {
    RmcLineJoin12();
    assert RmcSegments[..13][..12] == RmcSegments[..12];
    assert Join(RmcSegments[..13], ',') == "$GPRMC, ,044954.000,A,3706.7967,N,11332.4225,W,0.00,11.76,050217,,";
    assert RmcSegments[..14][..13] == RmcSegments[..13];
    assert Join(RmcSegments[..14], ',') == "$GPRMC, ,044954.000,A,3706.7967,N,11332.4225,W,0.00,11.76,050217,,,D*4F";
    assert RmcSegments[..14] == RmcSegments;
  }

  lemma RmcLineJoin12()
    ensures Join(RmcSegments[..12], ',') == "$GPRMC, ,044954.000,A,3706.7967,N,11332.4225,W,0.00,11.76,050217,"
  {
    RmcLineJoin8();
    assert RmcSegments[..9][..8] == RmcSegments[..8];
    assert Join(RmcSegments[..9], ',') == "$GPRMC, ,044954.000,A,3706.7967,N,11332.4225,W,0.00";
    assert RmcSegments[..10][..9] == RmcSegments[..9];
    assert Join(RmcSegments[..10], ',') == "$GPRMC, ,044954.000,A,3706.7967,N,11332.4225,W,0.00,11.76";
    assert RmcSegments[..11][..10] == RmcSegments[..10];
    assert Join(RmcSegments[..11], ',') == "$GPRMC, ,044954.000,A,3706.7967,N,11332.4225,W,0.00,11.76,050217";
    assert RmcSegments[..12][..11] == RmcSegments[..11];
    assert Join(RmcSegments[..12], ',') == "$GPRMC, ,044954.000,A,3706.7967,N,11332.4225,W,0.00,11.76,050217,";
  }

  lemma RmcLineJoin8()
    ensures Join(RmcSegments[..8], ',') == "$GPRMC, ,044954.000,A,3706.7967,N,11332.4225,W"
  {
    RmcLineJoin4();
    assert RmcSegments[..5][..4] == RmcSegments[..4];
    assert Join(RmcSegments[..5], ',') == "$GPRMC, ,044954.000,A,3706.7967";
    assert RmcSegments[..6][..5] == RmcSegments[..5];
    assert Join(RmcSegments[..6], ',') == "$GPRMC, ,044954.000,A,3706.7967,N";
    assert RmcSegments[..7][..6] == RmcSegments[..6];
    assert Join(RmcSegments[..7], ',') == "$GPRMC, ,044954.000,A,3706.7967,N,11332.4225";
    assert RmcSegments[..8][..7] == RmcSegments[..7];
    assert Join(RmcSegments[..8], ',') == "$GPRMC, ,044954.000,A,3706.7967,N,11332.4225,W";
  }

  lemma RmcLineJoin4()
    ensures Join(RmcSegments[..4], ',') == "$GPRMC, ,044954.000,A"
  {
    assert Join(RmcSegments[..1], ',') == "$GPRMC";
    assert RmcSegments[..2][..1] == RmcSegments[..1];
    assert Join(RmcSegments[..2], ',') == "$GPRMC, ";
    assert RmcSegments[..3][..2] == RmcSegments[..2];
    assert Join(RmcSegments[..3], ',') == "$GPRMC, ,044954.000";
    assert RmcSegments[..4][..3] == RmcSegments[..3];
    assert Join(RmcSegments[..4], ',') == "$GPRMC, ,044954.000,A";
  }

  /** The GGA sentence splits into its fifteen fields; the empty DGPS age
      field 13 is kept because text follows it. */
  lemma GgaLineFields()
    ensures Split.Split(GgaLine, ',') == GgaSegments
    ensures |GgaSegments| == GGAFields && GgaSegments[13] == ""
  {
    assert NoDelim(GgaSegments, ',');
    GgaLineJoin();
    SegmentsOfJoin(GgaSegments, ',');
  }

  /** split.cpp's split keeps the blank second field " " and the two empty
      fields before the last comma, and loses the final "D*4F"; the
      src/gps.cpp split keeps it. */
  lemma RmcLineFields()
    ensures SplitDrop(RmcLine, ',') == RmcSegments[..13]
    ensures |SplitDrop(RmcLine, ',')| == 13 && SplitDrop(RmcLine, ',')[1] == " "
    ensures Split.Split(RmcLine, ',') == RmcSegments && RmcSegments[13] == "D*4F"
  {
    RmcLineSegments();
    assert SplitDrop(RmcLine, ',') == RmcSegments[..13];
  }

  lemma RmcLineSegments()
    ensures Segments(RmcLine, ',') == RmcSegments
  {
    assert NoDelim(RmcSegments, ',');
    RmcLineJoin();
    SegmentsOfJoin(RmcSegments, ',');
  }

  /** The draft's own test sentence makes its assignGGA fail: field 3 is
      the hemisphere letter "N", not a longitude, and stof("N") throws. */
  lemma DraftRejectsTestSentence()
    ensures Split.Split(GgaLine, ',') == GgaSegments
    ensures DraftAssignGGA(Split.Split(GgaLine, ',')).None?
  {
    GgaLineFields();
    DraftHemisphereThrows(GgaSegments);
  }

  /** formatTime of the test sentence's time field: 21:06:58. */
  lemma TestTime(utc: string)
    requires utc == GgaSegments[1]
    ensures FormatTime(utc).Some?
    ensures FormatTime(utc).value == UTC(210658, 21, 6, 58)
  {
    assert utc == "210658.000";
    assert |utc| >= 7 && AllDigitsIn(utc[..6], 10) && !IsDigitIn(utc[6], 10) by {
      assert utc[..6] == "210658";
    }
    assert utc[0..2] == "21" && utc[2..4] == "06" && utc[4..6] == "58";
    TimeDigits(utc);
  }

  lemma TimeDigits(utc: string)
    requires |utc| >= 7 && AllDigitsIn(utc[..6], 10) && !IsDigitIn(utc[6], 10)
    requires utc[0..2] == "21" && utc[2..4] == "06" && utc[4..6] == "58"
    ensures FormatTime(utc).Some?
    ensures FormatTime(utc).value == UTC(210658, 21, 6, 58)
  {
    FormatTimeDigits(utc);
    TestNumerals();
  }

  /** formatLat of "0302.78469": 3 degrees and 2.78469 minutes. */
  lemma TestLatitude()
    ensures FormatLat("0302.78469").Some?
    ensures FormatLat("0302.78469").value == 3.0 + 2.78469 / 60.0
  {
    assert "0302.78469" == "03" + "02" + "." + "78469";
    TestNumerals();
    TestFractions();
    FormatCoordinateNmea("03", "02", "78469", 2);
  }

  /** formatLong of "10141.82531": 101 degrees and 41.82531 minutes. */
  lemma TestLongitude()
    ensures FormatLong("10141.82531").Some?
    ensures FormatLong("10141.82531").value == 101.0 + 41.82531 / 60.0
  {
    assert "10141.82531" == "101" + "41" + "." + "82531";
    TestNumerals();
    TestFractions();
    FormatCoordinateNmea("101", "41", "82531", 3);
  }

  /** The corrected draft decodes the fields of its own test sentence (see
      GgaLineFields): 21:06:58 UTC at
      3 degrees 2.78469 minutes and 101 degrees 41.82531 minutes, unsigned. */
  lemma DraftFixedDecodesTestSentence(data: seq<string>)
    requires data == GgaSegments
    ensures DraftAssignGGAFixed(data).Some?
    ensures DraftAssignGGAFixed(data).value == DraftFix(UTC(210658, 21, 6, 58), 3.0 + 2.78469 / 60.0, 101.0 + 41.82531 / 60.0)
  {
    assert data[2] == "0302.78469" && data[4] == "10141.82531";
    TestTime(data[1]);
    TestLatitude();
    TestLongitude();
  }

  /** src/gps.cpp's pipeline on the draft's test sentence: every field
      converts, the southern/western rule makes the longitude negative, the
      empty DGPS age gives -1 and field 14 gives station 0 and checksum 0x60. */
  lemma DecodeTestSentence(sentence: string)
    requires sentence == GgaLine
    ensures Decode(sentence).Some?
    ensures Decode(sentence).value
            == GPGGA(UTC(210658, 21, 6, 58), 3.0 + 2.78469 / 60.0, 'N', -(101.0 + 41.82531 / 60.0), 'W',
                     1, 10, 0.9, 844.3, -20.5, NoDGPS, 0, 0x60)
  {
    GgaLineFields();
    var data := GgaSegments;
    assert data[2] == "0302.78469" && data[3] == "N" && data[4] == "10141.82531" && data[5] == "W";
    assert data[6] == "1" && data[7] == "10" && data[8] == "0.9" && data[9] == "844.3";
    assert data[11] == "-20.5" && data[13] == "" && data[14] == "0000*60";
    TestFields(data);
  }

  /** assignGGA on the fields of the test sentence. */
  lemma TestFields(data: seq<string>)
    requires |data| == GGAFields && data[1] == GgaSegments[1]
    requires data[2] == "0302.78469" && data[3] == "N" && data[4] == "10141.82531" && data[5] == "W"
    requires data[6] == "1" && data[7] == "10" && data[8] == "0.9" && data[9] == "844.3"
    requires data[11] == "-20.5" && data[13] == "" && data[14] == "0000*60"
    ensures AssignGGA(data).Some?
    ensures AssignGGA(data).value
            == GPGGA(UTC(210658, 21, 6, 58), 3.0 + 2.78469 / 60.0, 'N', -(101.0 + 41.82531 / 60.0), 'W',
                     1, 10, 0.9, 844.3, -20.5, NoDGPS, 0, 0x60)
  {
    TestConversions(data);
    AssignGGAConverts(data);
    AssignGGAValues(data);
    AssignGGADirections(data);
    AssignGGADGPSAge(data);
    AssignGGAStation(data);
  }

  /** Each conversion assignGGA performs on the test sentence's fields. */
  lemma TestConversions(data: seq<string>)
    requires |data| == GGAFields && data[1] == GgaSegments[1]
    requires data[2] == "0302.78469" && data[3] == "N" && data[4] == "10141.82531" && data[5] == "W"
    requires data[6] == "1" && data[7] == "10" && data[8] == "0.9" && data[9] == "844.3"
    requires data[11] == "-20.5" && data[13] == "" && data[14] == "0000*60"
    ensures Converts(data)
    ensures FormatTime(data[1]).value == UTC(210658, 21, 6, 58)
    ensures FormatLat(data[2]).value == 3.0 + 2.78469 / 60.0
    ensures FormatLong(data[4]).value == 101.0 + 41.82531 / 60.0
    ensures StoI(data[6]) == Some(1) && StoI(data[7]) == Some(10) && StoI(Head(data[14], 4)) == Some(0)
    ensures StoD(data[8]).value == 0.9 && StoD(data[9]).value == 844.3 && StoD(data[11]).value == -20.5
    ensures ChecksumField(data[14]) == Some(0x60)
  {
    assert Head(data[14], 4) == "0000" by { assert data[14][..4] == "0000"; }
    assert FormatTime(data[1]).Some? && FormatTime(data[1]).value == UTC(210658, 21, 6, 58) by { TestTime(data[1]); }
    assert FormatLat(data[2]).Some? && FormatLat(data[2]).value == 3.0 + 2.78469 / 60.0 by { TestLatitude(); }
    assert FormatLong(data[4]).Some? && FormatLong(data[4]).value == 101.0 + 41.82531 / 60.0 by { TestLongitude(); }
    assert StoI(data[6]) == Some(1) && StoI(data[7]) == Some(10) && StoI(Head(data[14], 4)) == Some(0) by {
      TestIntegers(data[6], data[7], Head(data[14], 4));
    }
    assert StoD(data[8]).Some? && StoD(data[8]).value == 0.9 by { TestHdop(data[8]); }
    assert StoD(data[9]).Some? && StoD(data[9]).value == 844.3 by { TestAltitude(data[9]); }
    assert StoD(data[11]).Some? && StoD(data[11]).value == -20.5 by { TestGeoid(data[11]); }
    assert ChecksumField(data[14]).Some? && ChecksumField(data[14]).value == 0x60 by { TestChecksum(data[14]); }
  }

  lemma TestIntegers(fix: string, sats: string, id: string)
    requires fix == "1" && sats == "10" && id == "0000"
    ensures StoI(fix) == Some(1) && StoI(sats) == Some(10) && StoI(id) == Some(0)
  {
    assert fix + "" == fix && sats + "" == sats && id + "" == id;
    StoIDigits(fix, "");
    StoIDigits(sats, "");
    StoIDigits(id, "");
    FieldNumerals();
  }

  lemma TestHdop(hdop: string)
    requires hdop == "0.9"
    ensures StoD(hdop).Some? && StoD(hdop).value == 0.9
  {
    assert hdop == "0" + "." + "9" + "";
    StoDDecimal("0", "9", "");
  }

  lemma TestAltitude(altitude: string)
    requires altitude == "844.3"
    ensures StoD(altitude).Some? && StoD(altitude).value == 844.3
  {
    assert altitude == "844" + "." + "3" + "";
    StoDDecimal("844", "3", "");
    FieldNumerals();
  }

  lemma TestGeoid(geoid: string)
    requires geoid == "-20.5"
    ensures StoD(geoid).Some? && StoD(geoid).value == -20.5
  {
    var t := geoid[1..];
    assert t == "20.5" && geoid == "-" + t;
    TestGeoidMagnitude(t);
    StoDNegative(t);
  }

  lemma TestGeoidMagnitude(t: string)
    requires t == "20.5"
    ensures StoD(t).Some? && StoD(t).value == 20.5
  {
    assert t == "20" + "." + "5" + "";
    StoDDecimal("20", "5", "");
    FieldNumerals();
  }

  lemma TestChecksum(field: string)
    requires field == "0000*60"
    ensures ChecksumField(field).Some? && ChecksumField(field).value == 0x60
  {
    assert field[5..7] == "60";
    assert ScanLead("60") == Lead(false, 0) && SkipHexPrefix("60") == "60";
    assert "60" == "60" + "";
    DigitRunOf("60", "", 16);
    FieldNumerals();
  }

  /** The numerals inside the test sentence's time and coordinate fields. */
  lemma TestNumerals()
    ensures ValueIn("21", 10) == 21 && ValueIn("06", 10) == 6 && ValueIn("58", 10) == 58
    ensures ValueIn("03", 10) == 3 && ValueIn("02", 10) == 2 && ValueIn("101", 10) == 101 && ValueIn("41", 10) == 41
  {
  }

  lemma TestFractions()
    ensures FractionValue("78469") == 0.78469 && FractionValue("82531") == 0.82531
  {
  }

  /** The numerals inside the other fields. */
  lemma FieldNumerals()
    ensures ValueIn("1", 10) == 1 && ValueIn("10", 10) == 10 && ValueIn("0000", 10) == 0
    ensures ValueIn("844", 10) == 844 && ValueIn("20", 10) == 20 && ValueIn("60", 16) == 0x60
    ensures FractionValue("3") == 0.3 && FractionValue("5") == 0.5
  {
    assert "0000"[..3] == "000" && "000"[..2] == "00" && "00"[..1] == "0";
  }
}
