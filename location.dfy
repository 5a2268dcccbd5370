/**
 A named place on a planet and its tab-separated line form, as kept in the
 user locations file: serializeToLine writes the twelve fields, createFromLine
 reads a line back (trimming text fields, resolving the country code, decoding
 the N/S and E/W suffixes and filling in defaults for missing trailing fields),
 and getID gives the identifier shown to the user.

 Latitude and longitude are held in millionths of a degree, the precision the
 line form writes them with. The country-code lookup is a parameter.
 */
module StelLocation {
  import opened Text
  import opened Numbers

  const DefaultBortleScaleIndex: int := 2
  const DefaultPlanet: string := "Earth"

  datatype Location = Location(
    name: string,
    state: string,
    country: string,
    role: char,
    population: int,
    latitude: int,        // millionths of a degree, south negative
    longitude: int,       // millionths of a degree, west negative
    altitude: int,        // metres
    bortleScaleIndex: int,
    timeZone: string,
    planetName: string,
    landscapeKey: string)

  /** The record createFromLine starts from. Every field except timeZone and
      landscapeKey is overwritten; those two start as empty strings. */
  function Blank(): Location {
    Location("", "", "", 'X', 0, 0, 0, 0, DefaultBortleScaleIndex, "", DefaultPlanet, "")
  }

  /** Two records are equal when every field is. A proof aid: stating the
      twelve equalities separately keeps record equality cheap to check. */
  lemma SameFields(a: Location, b: Location)
    requires a.name == b.name && a.state == b.state && a.country == b.country
    requires a.role == b.role && a.population == b.population
    requires a.latitude == b.latitude && a.longitude == b.longitude && a.altitude == b.altitude
    requires a.bortleScaleIndex == b.bortleScaleIndex && a.timeZone == b.timeZone
    requires a.planetName == b.planetName && a.landscapeKey == b.landscapeKey
    ensures a == b
  {
  }

  // ---------------------------------------------------------------------
  // serializeToLine

  /** The absolute value of a coordinate. */
  function Magnitude(v: int): nat {
    if v < 0 then -v else v
  }

  /** A coordinate as its six-decimal magnitude followed by `pos` when it is
      not negative and by `neg` when it is. */
  function FormatCoord(v: int, pos: char, neg: char): (r: string)
    requires pos != neg
    ensures |r| >= 9
    ensures (r[|r| - 1] == neg) == (v < 0)
    ensures r[|r| - 1] == neg || r[|r| - 1] == pos
    ensures r[..|r| - 1] == FormatFixed6(Magnitude(v))
  {
    if v < 0 then FormatFixed6(-v) + [neg] else FormatFixed6(v) + [pos]
  }

  /** The twelve fields of the line form, in their fixed order. */
  function Fields(loc: Location): seq<string> {
    [ loc.name, loc.state, loc.country, [loc.role],
      FormatInt(TruncDiv(loc.population, 1000)),
      FormatCoord(loc.latitude, 'N', 'S'),
      FormatCoord(loc.longitude, 'E', 'W'),
      FormatInt(loc.altitude),
      FormatInt(loc.bortleScaleIndex),
      loc.timeZone, loc.planetName, loc.landscapeKey ]
  }

  /** Field i of the line form is the record's i-th field in its text form.
      A proof aid: it spells out every index of Fields once, so that other
      proofs need not index the twelve-element display themselves. */
  lemma FieldsAt(loc: Location)
    ensures var f := Fields(loc);
      |f| == 12 && f[0] == loc.name && f[1] == loc.state && f[2] == loc.country &&
      f[3] == [loc.role] && f[4] == FormatInt(TruncDiv(loc.population, 1000)) &&
      f[5] == FormatCoord(loc.latitude, 'N', 'S') && f[6] == FormatCoord(loc.longitude, 'E', 'W') &&
      f[7] == FormatInt(loc.altitude) && f[8] == FormatInt(loc.bortleScaleIndex) &&
      f[9] == loc.timeZone && f[10] == loc.planetName && f[11] == loc.landscapeKey
  {
  }

  function SerializeToLine(loc: Location): string {
    Join(Fields(loc), TAB)
  }

  // ---------------------------------------------------------------------
  // createFromLine, as a specification on the split line

  /** The display name for a country code, or the code itself when the
      lookup knows nothing of it. */
  function CountryOf(lookup: string -> string, field: string): (r: string)
    ensures r == lookup(Trim(field)) || r == Trim(field)
    ensures lookup(Trim(field)) != [] ==> r == lookup(Trim(field))
    ensures r == [] ==> Trim(field) == []
  {
    var code := Trim(field);
    if lookup(code) != [] then lookup(code) else code
  }

  /** The role: the first character of the (untrimmed) field upper-cased,
      'X' when there is none or it is the null character. */
  function RoleOf(field: string): (r: char)
    ensures r != NUL && !IsLowerAscii(r)
    ensures field == [] ==> r == 'X'
    ensures field != [] && field[0] == NUL ==> r == 'X'
    ensures field != [] && field[0] != NUL ==> r == ToUpper(field[0])
  {
    var c := if field == [] then NUL else ToUpper(field[0]);
    if c == NUL then 'X' else c
  }

  /** A coordinate: the trimmed field less its last character read as a
      number, negated when the field ends with `neg`. */
  function CoordOf(field: string, neg: char): int {
    var t := Trim(field);
    var m := ToFloat(Left(t, |t| - 1));
    if EndsWith(t, neg) then -m else m
  }

  /** The Bortle index from field 8: its integer value when present and
      well formed, the default otherwise. */
  function BortleOf(parts: seq<string>): (r: int)
    ensures Int32Min <= r <= Int32Max
    ensures r == DefaultBortleScaleIndex || (|parts| > 8 && ToInt(parts[8]) == Some(r))
    ensures |parts| > 8 && ToInt(parts[8]).Some? ==> r == ToInt(parts[8]).value
  {
    if |parts| > 8 then
      match ToInt(parts[8])
      case Some(b) => b
      case None => DefaultBortleScaleIndex
    else DefaultBortleScaleIndex
  }

  /** The record read from the fields of a split line. Fields 0 to 7 must
      be present; each of fields 8 to 11 is used only when present. */
  function ParseLine(lookup: string -> string, parts: seq<string>): Location
    requires |parts| >= 8
  {
    Location(
      name := Trim(parts[0]),
      state := Trim(parts[1]),
      country := CountryOf(lookup, parts[2]),
      role := RoleOf(parts[3]),
      population := TruncDiv(ToFloat(parts[4]), 1000),
      latitude := CoordOf(parts[5], 'S'),
      longitude := CoordOf(parts[6], 'W'),
      altitude := TruncDiv(ToFloat(parts[7]), Micro),
      bortleScaleIndex := BortleOf(parts),
      timeZone := if |parts| > 9 then Trim(parts[9]) else Blank().timeZone,
      planetName := if |parts| > 10 then Trim(parts[10]) else DefaultPlanet,
      landscapeKey := if |parts| > 11 then Trim(parts[11]) else Blank().landscapeKey)
  }

  /** The country step of createFromLine: the looked-up name, replaced by
      the trimmed code when the lookup gives nothing. */
  method ReadCountry(lookup: string -> string, field: string) returns (country: string)
    ensures country == CountryOf(lookup, field)
  {
    country := lookup(Trim(field));
    if country == [] {
      country := Trim(field);
    }
  }

  /** The role step of createFromLine: the upper-cased first character,
      replaced by 'X' when that is the null character. */
  method ReadRole(field: string) returns (role: char)
    ensures role == RoleOf(field)
  {
    role := if field == [] then NUL else ToUpper(field[0]);
    if role == NUL {
      role := 'X';
    }
  }

  /** A coordinate step of createFromLine: the number before the trailing
      hemisphere letter, negated when that letter is `neg`. */
  method ReadCoordinate(field: string, neg: char) returns (v: int)
    ensures v == CoordOf(field, neg)
  {
    var text := Trim(field);
    v := ToFloat(Left(text, |text| - 1));
    if EndsWith(text, neg) {
      v := -v;
    }
  }

  /** The Bortle step of createFromLine: the ninth field read as an
      integer, the default when it is absent or does not read. */
  method ReadBortle(splitline: seq<string>) returns (index: int)
    ensures index == BortleOf(splitline)
  {
    if |splitline| > 8 {
      var parsed := ToInt(splitline[8]);
      var ok := parsed.Some?;
      index := if ok then parsed.value else 0;
      if !ok {
        index := DefaultBortleScaleIndex;
      }
    } else {
      index := DefaultBortleScaleIndex;
    }
  }

  /** createFromLine: reads the split line field by field into the fields of
      a fresh record, overwriting the country, the role, the coordinates and
      the Bortle index where the line calls for it. Time zone and landscape
      key keep their initial values when their fields are absent. */
  method CreateFromLine(lookup: string -> string, rawline: string) returns (loc: Location)
    requires |Split(rawline, TAB)| >= 8
    ensures loc == ParseLine(lookup, Split(rawline, TAB))
  {
    var splitline := Split(rawline, TAB);
    var name := Trim(splitline[0]);
    var state := Trim(splitline[1]);
    var country := ReadCountry(lookup, splitline[2]);
    var role := ReadRole(splitline[3]);
    var population := TruncDiv(ToFloat(splitline[4]), 1000);
    var latitude := ReadCoordinate(splitline[5], 'S');
    var longitude := ReadCoordinate(splitline[6], 'W');
    var altitude := TruncDiv(ToFloat(splitline[7]), Micro);
    var bortleScaleIndex := ReadBortle(splitline);

    var timeZone := Blank().timeZone;
    if |splitline| > 9 {
      timeZone := Trim(splitline[9]);
    }

    var planetName;
    if |splitline| > 10 {
      planetName := Trim(splitline[10]);
    } else {
      planetName := DefaultPlanet;
    }

    var landscapeKey := Blank().landscapeKey;
    if |splitline| > 11 {
      landscapeKey := Trim(splitline[11]);
    }

    loc := Location(name, state, country, role, population, latitude, longitude,
                    altitude, bortleScaleIndex, timeZone, planetName, landscapeKey);
  }

  // ---------------------------------------------------------------------
  // getID

  /** The identifier: "lat, lng" for an unnamed place, "name, country" when
      the country is known, the bare name otherwise. `formatNumber` is the
      default number-to-text conversion. */
  function GetID(loc: Location, formatNumber: int -> string): (r: string)
    ensures loc.name == [] ==> r == formatNumber(loc.latitude) + ", " + formatNumber(loc.longitude)
    ensures loc.name != [] ==> |r| >= |loc.name| && r[..|loc.name|] == loc.name
    ensures loc.name != [] ==> (r == loc.name <==> loc.country == [])
    ensures loc.name != [] && loc.country != [] ==> r == loc.name + ", " + loc.country
  {
    if loc.name == [] then formatNumber(loc.latitude) + ", " + formatNumber(loc.longitude)
    else if loc.country != [] then loc.name + ", " + loc.country
    else loc.name
  }

  /** For named places whose names hold no comma and whose countries are
      known, the identifier tells name and country apart: equal identifiers
      exactly when both names and both countries agree. */
  lemma GetIDDistinguishes(a: Location, b: Location, formatNumber: int -> string)
    requires a.name != [] && b.name != [] && a.country != [] && b.country != []
    requires ',' !in a.name && ',' !in b.name
    ensures GetID(a, formatNumber) == GetID(b, formatNumber)
        <==> a.name == b.name && a.country == b.country
  {
    var ida, idb := GetID(a, formatNumber), GetID(b, formatNumber);
    assert ida == a.name + [','] + (" " + a.country);
    assert idb == b.name + [','] + (" " + b.country);
    CommaSplits(a.name, " " + a.country);
    CommaSplits(b.name, " " + b.country);
    if ida == idb {
      assert a.name == ida[..IndexOf(ida, ',')];
      assert b.name == idb[..IndexOf(idb, ',')];
      assert ida[|a.name| + 2..] == a.country;
      assert idb[|b.name| + 2..] == b.country;
    }
  }

  lemma CommaSplits(x: string, y: string)
    requires ',' !in x
    ensures IndexOf(x + [','] + y, ',') == |x|
    ensures (x + [','] + y)[..|x|] == x
  {
    var s := x + [','] + y;
    IndexOfFirst(s, ',');
    assert forall k :: 0 <= k < |x| ==> s[k] == x[k] && s[k] != ',';
    assert s[|x|] == ',';
  }

  // ---------------------------------------------------------------------
  // Properties of the line form

  /** The text fields come out trimmed; the country is the lookup's answer
      for the trimmed code or, when the lookup has none, that code. */
  lemma ParsedTextTrimmed(lookup: string -> string, parts: seq<string>)
    requires |parts| >= 8
    ensures var r := ParseLine(lookup, parts);
      NoEdgeSpace(r.name) && NoEdgeSpace(r.state) && NoEdgeSpace(r.timeZone) &&
      NoEdgeSpace(r.planetName) && NoEdgeSpace(r.landscapeKey)
    ensures var r := ParseLine(lookup, parts);
      r.name == Trim(parts[0]) && r.state == Trim(parts[1]) &&
      (lookup(Trim(parts[2])) != [] ==> r.country == lookup(Trim(parts[2]))) &&
      (lookup(Trim(parts[2])) == [] ==> r.country == Trim(parts[2]))
  {
  }

  /** The sign of a coordinate: for a field whose number carries no sign of
      its own, the value is negative only with the `neg` suffix, and never
      positive with it. */
  lemma CoordSign(field: string, neg: char)
    requires var t := Trim(field); |t| >= 2 && IsDigit(t[0])
    ensures CoordOf(field, neg) < 0 ==> EndsWith(Trim(field), neg)
    ensures EndsWith(Trim(field), neg) ==> CoordOf(field, neg) <= 0
    ensures var t := Trim(field);
      CoordOf(field, neg) == if EndsWith(t, neg) then -ToFloat(t[..|t| - 1]) else ToFloat(t[..|t| - 1])
  {
    var t := Trim(field);
    var body := Left(t, |t| - 1);
    assert body == t[..|t| - 1];
    UnsignedNumberNotNegative(body);
  }

  /** Text that starts with a digit never reads as a negative number. */
  lemma UnsignedNumberNotNegative(s: string)
    requires s != [] && IsDigit(s[0])
    ensures ToFloat(s) >= 0
  {
    var t := Trim(s);
    TrimFixedPoints(s);
    if !IsSpace(s[|s| - 1]) {
      assert t == s;
    } else {
      assert TrimStart(s) == s;
      var e := TrimEnd(s);
      TrimEndIsPrefix(s);
      assert t == e;
      if e != [] {
        assert e[0] == s[0];
      }
    }
  }

  /** Defaults for the optional trailing fields. */
  lemma ParsedDefaults(lookup: string -> string, parts: seq<string>)
    requires |parts| >= 8
    ensures var r := ParseLine(lookup, parts);
      (|parts| <= 8 ==> r.bortleScaleIndex == DefaultBortleScaleIndex) &&
      (|parts| > 8 && ToInt(parts[8]).None? ==> r.bortleScaleIndex == DefaultBortleScaleIndex) &&
      (|parts| <= 9 ==> r.timeZone == []) &&
      (|parts| <= 10 ==> r.planetName == "Earth") &&
      (|parts| <= 11 ==> r.landscapeKey == [])
  {
  }

  /** Fields after the twelfth are ignored. */
  lemma ParseIgnoresExtraFields(lookup: string -> string, parts: seq<string>)
    requires |parts| >= 12
    ensures ParseLine(lookup, parts) == ParseLine(lookup, parts[..12])
  {
  }

  /** What serializeToLine writes: exactly twelve fields, each readable as
      the field it came from, provided no text field holds a tab. */
  predicate TabFree(loc: Location) {
    TAB !in loc.name && TAB !in loc.state && TAB !in loc.country && loc.role != TAB &&
    TAB !in loc.timeZone && TAB !in loc.planetName && TAB !in loc.landscapeKey
  }

  lemma SerializedLayout(loc: Location)
    requires TabFree(loc)
    ensures var parts := Split(SerializeToLine(loc), TAB);
      |parts| == 12 &&
      parts[0] == loc.name && parts[1] == loc.state && parts[2] == loc.country &&
      parts[3] == [loc.role] &&
      parts[9] == loc.timeZone && parts[10] == loc.planetName && parts[11] == loc.landscapeKey
  {
    FieldsSplit(loc);
    FieldsAt(loc);
  }

  /** The integer fields of the line form: population in thousands and
      altitude read back by toFloat, and the Bortle index read back by toInt
      whenever it fits in 32 bits. */
  lemma SerializedNumbers(loc: Location)
    requires TabFree(loc)
    ensures var parts := Split(SerializeToLine(loc), TAB);
      |parts| == 12 &&
      ToFloat(parts[4]) == TruncDiv(loc.population, 1000) * Micro &&
      ToFloat(parts[7]) == loc.altitude * Micro &&
      (Int32Min <= loc.bortleScaleIndex <= Int32Max ==> ToInt(parts[8]) == Some(loc.bortleScaleIndex))
  {
    FieldsSplit(loc);
    FieldsAt(loc);
    ToFloatFormatInt(TruncDiv(loc.population, 1000));
    ToFloatFormatInt(loc.altitude);
    if Int32Min <= loc.bortleScaleIndex <= Int32Max {
      ToIntFormatInt(loc.bortleScaleIndex);
    }
  }

  /** The coordinate fields of the line form: each is its six-decimal
      magnitude followed by a hemisphere letter, S or W exactly when the
      coordinate is negative. */
  lemma SerializedCoordinates(loc: Location)
    requires TabFree(loc)
    ensures var parts := Split(SerializeToLine(loc), TAB);
      |parts| == 12 && |parts[5]| >= 9 && |parts[6]| >= 9 &&
      EndsWith(parts[5], 'S') == (loc.latitude < 0) &&
      parts[5][..|parts[5]| - 1] == FormatFixed6(Magnitude(loc.latitude)) &&
      EndsWith(parts[6], 'W') == (loc.longitude < 0) &&
      parts[6][..|parts[6]| - 1] == FormatFixed6(Magnitude(loc.longitude))
  {
    var parts := Split(SerializeToLine(loc), TAB);
    FieldsSplit(loc);
    FieldsAt(loc);
    CoordLayout(parts[5], loc.latitude, 'N', 'S');
    CoordLayout(parts[6], loc.longitude, 'E', 'W');
  }

  /** A latitude of 33.5 degrees south is written "33.500000S". */
  lemma FormatCoordExample()
    ensures FormatCoord(-33500000, 'N', 'S') == "33.500000S"
  {
    assert Digits(33) == "33";
    assert Pad(500000, 6) == "500000";
  }

  /** One coordinate field: its magnitude, then `neg` exactly when negative. */
  lemma CoordLayout(f: string, v: int, pos: char, neg: char)
    requires pos != neg && f == FormatCoord(v, pos, neg)
    ensures |f| >= 9 && EndsWith(f, neg) == (v < 0) && f[..|f| - 1] == FormatFixed6(Magnitude(v))
  {
  }

  lemma FieldsSplit(loc: Location)
    requires TabFree(loc)
    ensures Split(SerializeToLine(loc), TAB) == Fields(loc)
  {
    var f := Fields(loc);
    FieldsAt(loc);
    FormatIntNoTab(TruncDiv(loc.population, 1000));
    FormatIntNoTab(loc.altitude);
    FormatIntNoTab(loc.bortleScaleIndex);
    FormatCoordNoTab(loc.latitude, 'N', 'S');
    FormatCoordNoTab(loc.longitude, 'E', 'W');
    assert forall i :: 0 <= i < |f| ==> TAB !in f[i];
    SplitJoin(f, TAB);
  }

  lemma FormatIntNoTab(x: int)
    ensures TAB !in FormatInt(x)
  {
    FormatIntChars(x);
    var r := FormatInt(x);
    assert forall k :: 0 <= k < |r| ==> r[k] != TAB;
  }

  lemma FormatCoordNoTab(v: int, pos: char, neg: char)
    requires pos != neg && pos != TAB && neg != TAB
    ensures TAB !in FormatCoord(v, pos, neg)
  {
    var r := FormatCoord(v, pos, neg);
    var m := if v < 0 then -v else v;
    FormatFixed6Chars(m);
    assert forall k :: 0 <= k < |r| - 1 ==> r[k] == r[..|r| - 1][k] && r[k] != TAB;
  }

  /** A coordinate survives being written with its suffix and read back. */
  lemma CoordRoundTrip(v: int, pos: char, neg: char)
    requires pos != neg && !IsSpace(pos) && !IsSpace(neg)
    ensures CoordOf(FormatCoord(v, pos, neg), neg) == v
  {
    var s := FormatCoord(v, pos, neg);
    var m := if v < 0 then -v else v;
    TrimFixedPoints(s);
    assert Left(s, |s| - 1) == FormatFixed6(m);
    ToFloatFormatFixed6(m);
  }

  /** The records whose fields read back as written: text without
      surrounding whitespace, a role that upper-casing leaves alone, a country
      the lookup maps to itself or not at all, and a 32-bit Bortle index. */
  predicate FieldsReadBack(lookup: string -> string, loc: Location) {
    NoEdgeSpace(loc.name) && NoEdgeSpace(loc.state) && NoEdgeSpace(loc.country) &&
    NoEdgeSpace(loc.timeZone) && NoEdgeSpace(loc.planetName) && NoEdgeSpace(loc.landscapeKey) &&
    loc.role != NUL && ToUpper(loc.role) == loc.role &&
    (lookup(loc.country) == [] || lookup(loc.country) == loc.country) &&
    Int32Min <= loc.bortleScaleIndex <= Int32Max
  }

  /** The records the line form can carry without loss (apart from the
      population, which it keeps in thousands). */
  predicate LineSafe(lookup: string -> string, loc: Location) {
    TabFree(loc) && FieldsReadBack(lookup, loc)
  }

  /** Reading back a written line restores every field, the population
      rounded toward zero to whole thousands. */
  lemma LineRoundTrip(lookup: string -> string, loc: Location)
    requires LineSafe(lookup, loc)
    ensures |Split(SerializeToLine(loc), TAB)| == 12
    ensures ParseLine(lookup, Split(SerializeToLine(loc), TAB))
         == loc.(population := TruncDiv(loc.population, 1000) * 1000)
  {
    FieldsSplit(loc);
    FieldsRoundTrip(lookup, loc);
  }

  /** Reading the twelve written fields restores the record. */
  lemma FieldsRoundTrip(lookup: string -> string, loc: Location)
    requires FieldsReadBack(lookup, loc)
    ensures ParseLine(lookup, Fields(loc)) == loc.(population := TruncDiv(loc.population, 1000) * 1000)
  {
    TextFieldsBack(lookup, loc);
    NumberFieldsBack(loc);
    ParseLineFields(lookup, Fields(loc), loc.(population := TruncDiv(loc.population, 1000) * 1000));
  }

  /** ParseLine is determined field by field. A proof aid for the round
      trip: it lets each field be settled by its own lemma. */
  lemma ParseLineFields(lookup: string -> string, parts: seq<string>, target: Location)
    requires |parts| >= 12
    requires Trim(parts[0]) == target.name && Trim(parts[1]) == target.state
    requires CountryOf(lookup, parts[2]) == target.country && RoleOf(parts[3]) == target.role
    requires TruncDiv(ToFloat(parts[4]), 1000) == target.population
    requires CoordOf(parts[5], 'S') == target.latitude && CoordOf(parts[6], 'W') == target.longitude
    requires TruncDiv(ToFloat(parts[7]), Micro) == target.altitude
    requires ToInt(parts[8]) == Some(target.bortleScaleIndex)
    requires Trim(parts[9]) == target.timeZone && Trim(parts[10]) == target.planetName
    requires Trim(parts[11]) == target.landscapeKey
    ensures ParseLine(lookup, parts) == target
  {
    SameFields(ParseLine(lookup, parts), target);
  }

  /** The text fields, the country and the role of the written line read
      back as the record's own. */
  lemma TextFieldsBack(lookup: string -> string, loc: Location)
    requires FieldsReadBack(lookup, loc)
    ensures var parts := Fields(loc);
      Trim(parts[0]) == loc.name && Trim(parts[1]) == loc.state &&
      CountryOf(lookup, parts[2]) == loc.country && RoleOf(parts[3]) == loc.role &&
      Trim(parts[9]) == loc.timeZone && Trim(parts[10]) == loc.planetName &&
      Trim(parts[11]) == loc.landscapeKey
  {
    FieldsAt(loc);
    TextFieldsRoundTrip(lookup, loc);
  }

  /** The numeric fields of the written line read back as the record's own,
      the population in whole thousands. */
  lemma NumberFieldsBack(loc: Location)
    requires Int32Min <= loc.bortleScaleIndex <= Int32Max
    ensures var parts := Fields(loc);
      TruncDiv(ToFloat(parts[4]), 1000) == TruncDiv(loc.population, 1000) * 1000 &&
      CoordOf(parts[5], 'S') == loc.latitude && CoordOf(parts[6], 'W') == loc.longitude &&
      TruncDiv(ToFloat(parts[7]), Micro) == loc.altitude &&
      ToInt(parts[8]) == Some(loc.bortleScaleIndex)
  {
    FieldsAt(loc);
    PopulationRoundTrip(loc.population);
    CoordRoundTrip(loc.latitude, 'N', 'S');
    CoordRoundTrip(loc.longitude, 'E', 'W');
    AltitudeRoundTrip(loc.altitude);
    ToIntFormatInt(loc.bortleScaleIndex);
  }

  /** Each text field, the country and the role read back as written. */
  lemma TextFieldsRoundTrip(lookup: string -> string, loc: Location)
    requires FieldsReadBack(lookup, loc)
    ensures Trim(loc.name) == loc.name && Trim(loc.state) == loc.state
    ensures Trim(loc.timeZone) == loc.timeZone && Trim(loc.planetName) == loc.planetName
    ensures Trim(loc.landscapeKey) == loc.landscapeKey
    ensures CountryOf(lookup, loc.country) == loc.country
    ensures RoleOf([loc.role]) == loc.role
  {
    TrimFixedPoints(loc.name);
    TrimFixedPoints(loc.state);
    TrimFixedPoints(loc.country);
    TrimFixedPoints(loc.timeZone);
    TrimFixedPoints(loc.planetName);
    TrimFixedPoints(loc.landscapeKey);
  }

  /** The population, written in thousands, reads back as whole thousands. */
  lemma PopulationRoundTrip(population: int)
    ensures TruncDiv(ToFloat(FormatInt(TruncDiv(population, 1000))), 1000) == TruncDiv(population, 1000) * 1000
  {
    var q := TruncDiv(population, 1000);
    ToFloatFormatInt(q);
    ThousandsBack(q);
  }

  /** The altitude reads back as written. */
  lemma AltitudeRoundTrip(altitude: int)
    ensures TruncDiv(ToFloat(FormatInt(altitude)), Micro) == altitude
  {
    ToFloatFormatInt(altitude);
    TruncDivExact(altitude, Micro);
  }

  /** createFromLine applied to what serializeToLine writes. */
  function ReadBack(lookup: string -> string, loc: Location): Location
    requires TabFree(loc)
  {
    FieldsSplit(loc);
    ParseLine(lookup, Split(SerializeToLine(loc), TAB))
  }

  /** After one write and read, writing and reading again changes nothing. */
  lemma ReadBackIdempotent(lookup: string -> string, loc: Location)
    requires LineSafe(lookup, loc)
    ensures LineSafe(lookup, ReadBack(lookup, loc))
    ensures ReadBack(lookup, ReadBack(lookup, loc)) == ReadBack(lookup, loc)
  {
    var q := TruncDiv(loc.population, 1000);
    var once := loc.(population := q * 1000);
    LineRoundTrip(lookup, loc);
    assert ReadBack(lookup, loc) == once;
    SafeIgnoresPopulation(lookup, loc, q * 1000);
    LineRoundTrip(lookup, once);
    TruncDivExact(q, 1000);
    assert once.(population := TruncDiv(once.population, 1000) * 1000) == once;
  }

  lemma SafeIgnoresPopulation(lookup: string -> string, loc: Location, p: int)
    requires LineSafe(lookup, loc)
    ensures LineSafe(lookup, loc.(population := p))
  {
  }

  /** createFromLine on a line serializeToLine wrote. */
  method CreateFromSerialized(lookup: string -> string, loc: Location) returns (back: Location)
    requires LineSafe(lookup, loc)
    ensures back == loc.(population := TruncDiv(loc.population, 1000) * 1000)
  {
    LineRoundTrip(lookup, loc);
    back := CreateFromLine(lookup, SerializeToLine(loc));
  }
}
