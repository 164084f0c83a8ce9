# NMEA 0183 GGA decoding, modelled in Dafny

This project models how the `gps` repository turns the text a GPS receiver
sends into a fix record. It covers the GPGGA (Global Positioning System Fix
Data) path of `src/gps.cpp` and the operations declared in `libs/gps.h`:

- **framing**: `getGPGGA` discards lines until one starts with `$GPGGA`;
- **splitting**: `split` cuts the sentence into comma-separated fields;
- **checksum**: `checksum`, `calculateChecksum` and `verifyChecksum` XOR the
  bytes between `$` and `*`;
- **field conversion**: `formatTime`, `formatLat`, `formatLong` and
  `assignGGA` fill the `GPGGA` record, using `std::stoi`, `std::stof`,
  `std::stod` and `std::stoul`.

It also models the two older files at the top of the repository:

- the draft `gps.cpp`, whose `assignGGA` reads the longitude from the wrong
  field;
- `split.cpp`, whose `split` never keeps the text after the last delimiter.

Every C++ call that can throw yields `None`: `substr` past the end,
`stoi`/`stod`/`stoul` with no digits, and `stoi`/`stoul` out of range (the
range check of `stod`/`stof` is left out). A thrown exception ends the decode, so
one failing conversion fails the whole record. The library conversions are
modelled as functions:

- `stoi` reads an optionally signed decimal prefix within the 32-bit range;
- `stod`/`stof` read a decimal numeral with an optional exponent, as an
  exact real;
- `stoul(…, 16)` reads a hexadecimal prefix within the 64-bit range, and the
  result is truncated to 32 bits when stored in an `int`.

Modules, one file each:

| file | module | models |
|---|---|---|
| options.dfy | Options | the failure-propagating result type |
| std_string.dfy | StdString | `std::string::substr` and `operator[]` |
| num_parse.dfy | NumParse | `stoi`, `stod`/`stof`, `stoul` base 16, int truncation |
| framer.dfy | Framer | `getGPGGA` |
| split.dfy | Split | both `split` variants, against a reference segmentation |
| checksum.dfy | Checksum | `checksum`, `calculateChecksum`, `verifyChecksum` |
| gga.dfy | Gga | `formatTime`, `formatLat`, `formatLong`, `assignGGA`, and split-then-assign |
| draft.dfy | Draft | the draft `assignGGA`, as written and corrected |
| examples.dfy | Examples | the repository's two sample sentences, decoded |

## Model

| member | source | states |
|---|---|---|
| Framer.GetGPGGA | src/gps.cpp:34-42 | the result is the first line starting with `$GPGGA`, and every earlier line fails that test; None exactly when no line passes |
| Framer.IsGPGGAPrefix | src/gps.cpp:40 | the loop test `substr(0,6) == "$GPGGA"` holds iff the line has at least six characters and they are `$GPGGA` |
| Framer.SkipsOtherSentences | libs/gps.h:62-63 | non-GGA lines before the stream do not change which sentence is returned |
| Split.Segments | src/gps.cpp:44-59 | the reference segmentation has one more piece than the string has delimiters |
| Split.SegmentsJoin | src/gps.cpp:44-59 | the segments hold no delimiter and join back to the string |
| Split.SegmentsOfJoin | src/gps.cpp:44-59 | delimiter-free pieces joined by the delimiter segment back into exactly those pieces |
| Split.Split | src/gps.cpp:44-59 | fields hold no delimiter, number delimiters + 1 if the text after the last delimiter is non-empty, else delimiters; they join back to the sentence, minus a final delimiter |
| Split.SplitLoop | src/gps.cpp:44-59 | the buffer loop computes `Split`: it pushes each delimited piece, empty ones included, and the last piece only if non-empty |
| Split.SplitCount | src/gps.cpp:44-59 | the field count is the delimiter count, plus one when the sentence is non-empty and does not end in the delimiter |
| Split.TrailingEmpty | src/gps.cpp:57 | the last piece is empty iff the sentence is empty or ends with the delimiter |
| Split.SplitJoin | src/gps.cpp:57 | a sentence not ending in the delimiter is recovered by joining its fields |
| Split.SplitOfJoin | src/gps.cpp:44-59 | splitting joined delimiter-free pieces whose last piece is non-empty returns those pieces, empty inner pieces kept |
| Split.SplitDrop | split.cpp:9-23 | fields hold no delimiter and number exactly the delimiters; each followed by the delimiter, then the dropped tail, gives the sentence |
| Split.SplitDropLoop | split.cpp:9-23 | the loop without the final push computes `SplitDrop` |
| Split.SplitDropOfTerminated | split.cpp:13-21 | delimiter-terminated pieces followed by any delimiter-free tail split back into exactly those pieces |
| Split.SplitVariants | split.cpp:9-23 | split.cpp's result plus the non-empty tail is src/gps.cpp's result |
| Split.TerminatedJoin | split.cpp:18-19 | terminated initial pieces followed by the last piece are the joined pieces |
| Checksum.Checksum | src/gps.cpp:61-70 | the XOR of the characters between the first and the last three, in 0..255; size_t wrap-around makes the window run to the end for 1-3 characters; None on an empty string |
| Checksum.XorAppend | src/gps.cpp:65-68 | the running XOR of a concatenation is the XOR of the parts' XORs |
| Checksum.XorAscii | src/gps.cpp:65-68 | over ASCII text the checksum stays below 128 |
| Checksum.CalculateChecksum | libs/gps.h:38-41 | the XOR of every character after the leading `$`, in 0..255; None on an empty string |
| Checksum.ChecksumOfSuffixed | libs/gps.h:38-41 | `checksum` of a sentence with a three-character `*HH` suffix equals `calculateChecksum` of the sentence without it |
| Checksum.VerifyChecksum | libs/gps.h:43-46 | 0 iff the sentence ends in `*HH` whose hexadecimal value is the XOR of the bytes between `$` and `*`; -1 iff there is no readable `*HH` tail |
| Checksum.VerifyCalculated | libs/gps.h:38-46 | a sentence with `*` and the hex form of its calculated checksum appended verifies (returns 0) |
| Checksum.VerifiedIsCalculated | libs/gps.h:38-46 | a verified sentence carries the calculated checksum of its body |
| Checksum.Hex2RoundTrip | libs/gps.h:38-46 | reading back the two hex digits written for n gives n |
| Checksum.ParseHex2RoundTrip | libs/gps.h:43-46 | two upper-case hex digits are exactly the digits written for their value |
| StdString.Substr | src/gps.cpp:64 | substr throws exactly when the position is past the end; otherwise it takes the characters from pos on, at most count of them |
| StdString.At | src/gps.cpp:101-104 | `s[pos]` is the character at pos, and the terminating '\0' at pos == size() |
| NumParse.StoI | src/gps.cpp:89-92 | stoi succeeds only with a value in the 32-bit int range |
| NumParse.StoINoDigits | src/gps.cpp:106-107 | stoi throws when no decimal digit follows the white space and sign |
| NumParse.StoIRange | src/gps.cpp:106-107 | stoi of a signed digit string throws out_of_range exactly when the signed value leaves the int range, else returns it |
| NumParse.StoIDigits | src/gps.cpp:89 | stoi of up to nine digits followed by a non-digit is their decimal value |
| NumParse.StoIShort | src/gps.cpp:90-92 | stoi of at most two characters lies in -9..99 |
| NumParse.StoD | src/gps.cpp:108-112 | stod fails on an empty string |
| NumParse.StoDNoNumeral | src/gps.cpp:108-112 | stod/stof throw when no numeral (digit, or '.' and a digit) follows the white space and sign |
| NumParse.StoDDecimal | src/gps.cpp:74-75 | stod of `digits.digits` followed by a non-numeric tail is the exact decimal value |
| NumParse.StoDWhole | src/gps.cpp:74 | stod of a digit string is its value |
| NumParse.StoDNegative | src/gps.cpp:110 | a leading '-' negates stod's value and does not change whether it succeeds |
| NumParse.StoUL16 | src/gps.cpp:114 | stoul base 16 succeeds only with a value in the unsigned long range |
| NumParse.StoUL16NoDigits | src/gps.cpp:114 | stoul base 16 throws when no hexadecimal digit follows the white space and sign |
| NumParse.StoUL16Digits | src/gps.cpp:114 | stoul base 16 of up to sixteen hex digits followed by a non-digit is their base-16 value |
| Checksum.StoUL16Hex2 | src/gps.cpp:114 | stoul base 16 of two hex digits reads the same value as verifyChecksum's reading of `*HH` |
| NumParse.ToInt32 | src/gps.cpp:114 | storing in an int keeps a value congruent modulo 2^32 within the int range, unchanged when already in range |
| Gga.FormatTime | src/gps.cpp:86-94 | formatTime can succeed only on a field of at least five characters |
| Gga.FormatTimeDigits | src/gps.cpp:86-94 | with six leading digits, hours/minutes/seconds are the digit pairs and rawUTC = hours*10000 + minutes*100 + seconds |
| Gga.FormatTimeRange | src/gps.cpp:90-92 | hours, minutes and seconds always lie in -9..99 |
| Gga.FormatCoordinate | src/gps.cpp:72-84 | a coordinate converts iff it is longer than its degree prefix and stof succeeds on both the prefix and the rest |
| Gga.FormatCoordinateNoNumeral | src/gps.cpp:72-84 | a degree prefix or minutes remainder that does not begin with a numeral makes the conversion throw |
| Gga.FormatCoordinateNmea | src/gps.cpp:72-84 | an NMEA coordinate decodes to degrees + minutes/60; below 60 minutes the degree digits are its whole part |
| Gga.LatLongWidths | libs/gps.h:68-72 | formatLat uses a two-digit and formatLong a three-digit degree prefix |
| Gga.FormatLat | src/gps.cpp:72-77 | latitude converts iff it is longer than two characters and stof succeeds on its first two characters and on the rest |
| Gga.FormatLong | src/gps.cpp:79-84 | longitude converts iff it is longer than three characters and stof succeeds on its first three characters and on the rest |
| Gga.AssignGGAConverts | src/gps.cpp:96-116 | the record exists iff every conversion succeeds: one throw fails it |
| Gga.AssignGGAReadsOnly | src/gps.cpp:96-116 | fields 0, 10, 12 and any after 14 do not affect the record |
| Gga.AssignGGA | src/gps.cpp:96-116 | on success the latitude is negated iff field 3 starts with 'S', the longitude iff field 5 starts with 'W' |
| Gga.AssignGGADirections | src/gps.cpp:101-105 | the stored hemisphere letters are the first characters of fields 3 and 5 ('\0' when empty) |
| Gga.AssignGGADGPSAge | src/gps.cpp:111-112 | an empty field 13 gives -1.0, any other is converted by stod |
| Gga.AssignGGAStation | src/gps.cpp:113-114 | station id is stoi of field 14's first four characters; checksum is base-16 of the two at offset 5, so field 14 must be longer than five |
| Gga.ChecksumField | src/gps.cpp:114 | the checksum converts iff field 14 has at least five characters and the hex parse of the two at offset 5 succeeds; the value is truncated to int |
| Gga.ChecksumFieldHex | src/gps.cpp:114 | with two hex digits at offset 5, the stored checksum is exactly the value verifyChecksum compares |
| Gga.AssignGGAValues | src/gps.cpp:99-110 | each member is the conversion of its own field, with the hemisphere sign applied |
| Gga.Decode | src/gps.cpp:176-180 | split-then-assign fails when the sentence has fewer than 14 commas |
| Gga.DecodeJoin | src/gps.cpp:179-180 | a sentence of at least 15 comma-free fields, the last non-empty, decodes to assignGGA of exactly those fields |
| Gga.DecodeNeedsFields | src/gps.cpp:176-180 | a sentence that splits into fewer than 15 fields never decodes |
| Draft.DraftAssignGGA | gps.cpp:69-76 | the draft succeeds iff time, latitude and field 3 as a longitude all convert; success needs field 3 longer than three characters |
| Draft.DraftRejectsHemisphere | gps.cpp:74 | a hemisphere field of at most three characters always makes the draft fail |
| Draft.DraftHemisphereThrows | gps.cpp:54 | a one-letter hemisphere field in field 3 makes the draft's first stof throw, so the draft fails |
| Draft.DraftAssignGGAFixed | gps.cpp:69-76 | reading field 4: succeeds iff the three conversions do, with latitude and longitude those of fields 2 and 4 |
| Draft.DraftFixedAgrees | gps.cpp:69-76 | the corrected draft agrees with src/gps.cpp's assignGGA up to the hemisphere sign |
| Examples.GgaLineFields | gps.cpp:90-91 | the draft's test sentence splits into 15 fields, field 13 empty and field 14 `0000*60` |
| Examples.DraftRejectsTestSentence | gps.cpp:90-95 | the draft's assignGGA fails on its own test sentence |
| Examples.TestTime | gps.cpp:59-67 | `210658.000` gives rawUTC 210658 and 21:06:58 |
| Examples.TestLatitude | gps.cpp:45-50 | `0302.78469` is 3 degrees 2.78469 minutes |
| Examples.TestLongitude | gps.cpp:52-57 | `10141.82531` is 101 degrees 41.82531 minutes |
| Examples.DraftFixedDecodesTestSentence | gps.cpp:69-76 | the corrected draft decodes the test sentence's time and unsigned coordinates |
| Examples.DecodeTestSentence | src/gps.cpp:96-116 | src/gps.cpp decodes the test sentence completely: west longitude negative, DGPS age -1.0, station 0, checksum 0x60 |
| Examples.TestFields | src/gps.cpp:96-116 | assignGGA of the test sentence's fields, member by member |
| Examples.RmcLineFields | split.cpp:27-28 | split.cpp's split of the RMC sample keeps 13 fields with `" "` second and drops `D*4F`; src/gps.cpp's split keeps 14 |
| Examples.RmcLineSegments | split.cpp:27 | the segments of the RMC sample |

## Left out

- Serial I/O (`serialRead`, `getData`, the global `gps` device): `getGPGGA` takes the lines the device would deliver as a finite sequence and gives None when they run out, where the real loop blocks.
- Framer.GetGPGGA: a blocking read that never finds a GGA line is modelled as None.
- `distance`, `bearing` and the great-circle formulas: floating-point trigonometry outside the decoding path.
- `printGGA`, `printGPGGA`, `main` output and split.cpp's printing loop, which reads one element past the end (`i <= size()`): console output only.
- Floating-point rounding: `float`/`double` values are exact reals, so the draft's float and src/gps.cpp's double coordinates coincide in the model.
- NumParse.StoD: gives None for `inf` and `nan` where strtod accepts them; of a hexadecimal float such as `0x1A` it reads only the leading `0`; and it does not reject values outside the `double`/`float` range (the float range check of `stof` is not modelled).
- Checksum.Checksum: characters are read as unsigned bytes; on platforms with signed `char` a byte above 127 XORs as a negative int, and that difference is not modelled.
- Checksum.VerifyChecksum: the implementation of the `GPS` class methods is not part of this model; libs/gps.h promises only 0 on a match, and the model returns 1 on a mismatch and -1 without a readable `*HH` tail.
- Checksum.CalculateChecksum: for the same reason it is built on the window rule of `checksum`, applied to a sentence written without `*HH`.
- Draft.DraftAssignGGA: requires 4 fields, and Draft.DraftAssignGGAFixed 5, for the same reason as Gga.AssignGGA: the draft indexes the vector without a bounds check.
- Gga.AssignGGA: requires 15 fields because indexing a shorter vector is undefined behaviour in the source; Gga.Decode checks the count instead.
- Gga.Decode: the sentence is not checksum-verified before decoding, as in src/gps.cpp's `main`.
- The draft's `GPGGA` fields that its `assignGGA` leaves uninitialised: only time, latitude and longitude are modelled.
- Trailing empty field: `split` drops an empty last field, so a sentence ending in a comma loses it. The model follows the code.
- Short or non-numeric time fields: `formatTime` accepts any field that `stoi` accepts in part (for example the five-character `"12345"` decodes to 12:34:05 and `"1a2b3c"` to 1:02:03). The model follows the code's partial parsing.
- `updateGPGGA`, `splitNmea` and the other `GPS` members declared in libs/gps.h: their implementation is not part of this model; `splitNmea` is taken to be src/gps.cpp's `split`.

## Findings

| source | as written | input that shows it | evidently intended | confidence | as-written member | corrected member |
|---|---|---|---|---|---|---|
| gps.cpp:74 | the draft's `assignGGA` passes field 3, the latitude hemisphere letter, to `formatLong` | the draft's own test sentence (gps.cpp:90), whose field 3 is `"N"`: `stof("N")` at gps.cpp:54 throws and no record is produced | `formatLong(data[4])`, as src/gps.cpp:103 does | not executed | Draft.DraftAssignGGA, Examples.DraftRejectsTestSentence | Draft.DraftAssignGGAFixed, Draft.DraftFixedAgrees |
