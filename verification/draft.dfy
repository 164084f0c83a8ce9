/** The draft decoder of the top-level gps.cpp. Its `split`, `formatTime`,
    `formatLat` and `formatLong` are those of src/gps.cpp (modelled in
    Split and Gga); its `assignGGA` fills only the time and the two
    coordinates, without hemisphere signs, and reads the longitude from
    field 3, which holds the latitude hemisphere letter. `DraftAssignGGA`
    models it as written; `DraftAssignGGAFixed` reads field 4, the
    longitude field. */
module Draft {
  import opened Options
  import opened NumParse
  import opened Gga
  import Split
  import StdString

  /** The fields of the draft's GPGGA that its assignGGA sets; the others
      stay uninitialised and are not modelled. */
  datatype DraftFix = DraftFix(time: UTC, latitude: real, longitude: real)

  /** The draft assignGGA as written: the longitude comes from field 3. */
  function DraftAssignGGA(data: seq<string>): (r: Option<DraftFix>)
    requires |data| >= 4
    ensures r.Some? <==> FormatTime(data[1]).Some? && FormatLat(data[2]).Some? && FormatLong(data[3]).Some?
    ensures r.Some? ==> |data[3]| > 3
  {
    Fill(FormatTime(data[1]), FormatLat(data[2]), FormatLong(data[3]))
  }

  /** The draft assignGGA with the longitude taken from field 4. */
  function DraftAssignGGAFixed(data: seq<string>): (r: Option<DraftFix>)
    requires |data| >= 5
    ensures r.Some? <==> FormatTime(data[1]).Some? && FormatLat(data[2]).Some? && FormatLong(data[4]).Some?
    ensures r.Some? ==> r.value.latitude == FormatLat(data[2]).value && r.value.longitude == FormatLong(data[4]).value
  {
    Fill(FormatTime(data[1]), FormatLat(data[2]), FormatLong(data[4]))
  }

  /** The record from the three conversions, in the draft's order; an
      exception in any of them propagates. */
  function Fill(time: Option<UTC>, latitude: Option<real>, longitude: Option<real>): (r: Option<DraftFix>)
    ensures r.Some? <==> time.Some? && latitude.Some? && longitude.Some?
  {
    var t :- time;
    var lat :- latitude;
    var long :- longitude;
    Some(DraftFix(t, lat, long))
  }

  // Properties

  /** A hemisphere field of at most three characters (every well-formed
      one is a single letter or empty) makes the draft fail: formatLong
      finds nothing after the three-character degree prefix. */
  lemma DraftRejectsHemisphere(data: seq<string>)
    requires |data| >= 4 && |data[3]| <= 3
    ensures DraftAssignGGA(data).None?
  {
  }

  /** A hemisphere letter in field 3 makes the draft's formatLong throw at
      its first stof: the degree prefix substr(0, 3) is the letter itself,
      which does not begin a numeral. */
  lemma DraftHemisphereThrows(data: seq<string>)
    requires |data| >= 4 && |data[3]| == 1
    requires data[3][0] == 'N' || data[3][0] == 'S' || data[3][0] == 'E' || data[3][0] == 'W'
    ensures StoD(StdString.Head(data[3], 3)).None?
    ensures DraftAssignGGA(data).None?
  {
    var h := data[3];
    assert StdString.Head(h, 3) == h;
    assert ScanLead(h) == Lead(false, 0);
    assert AfterLead(h) == h;
    StoDNoNumeral(h);
  }

  /** The corrected draft agrees with src/gps.cpp's assignGGA on every
      sentence the latter decodes: the same time, and the same coordinates
      up to the hemisphere sign the draft does not apply. */
  lemma DraftFixedAgrees(data: seq<string>)
    requires |data| >= GGAFields && AssignGGA(data).Some?
    ensures DraftAssignGGAFixed(data).Some?
    ensures var d, g := DraftAssignGGAFixed(data).value, AssignGGA(data).value;
            && d.time == g.time
            && g.latitude == Signed(d.latitude, g.latDirection, 'S')
            && g.longitude == Signed(d.longitude, g.longDirection, 'W')
  {
    AssignGGADirections(data);
    AssignGGAConverts(data);
  }
}
