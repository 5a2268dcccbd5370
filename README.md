# StelLocation line codec

A model of the tab-separated line form in which a location is stored in the user
locations file, and of the identifier shown for a location.

- `serializeToLine` writes the twelve fields of a location in a fixed order:
  name, state, country, role, population in thousands, latitude with an N/S
  suffix, longitude with an E/W suffix, altitude, Bortle index, time zone,
  planet name and landscape key.
- `createFromLine` reads such a line back:
  - it splits the line on tabs, keeping empty parts;
  - it trims the text fields;
  - it resolves the country code through a lookup, falling back to the code itself;
  - it upper-cases the role, and uses 'X' when there is none;
  - it decodes the hemisphere suffixes;
  - it fills in defaults for missing trailing fields: Bortle index 2 and planet "Earth".
- `getID` gives "lat, lng" for an unnamed place, "name, country" when the
  country is known, and the bare name otherwise.

The project has three modules:

- `Text` (`text.dfy`): the QString operations the codec uses. These are
  whitespace as `QChar::isSpace` defines it, `trimmed()`, `split()` on one
  character with empty parts kept (and the matching join), `left()`,
  `endsWith()` and `toUpper()`.
- `Numbers` (`numbers.dfy`): decimal text of integers, six-decimal text, and
  `toFloat` and `toInt` as left-to-right scanners. It also models C++ division
  and the float-to-int cast, both of which truncate toward zero.
- `StelLocation` (`location.dfy`): the record, the codec and the identifier.

Numbers are exact:

- Latitude and longitude are integers in millionths of a degree, which is the
  precision `arg(v, 0, 'f', 6)` writes.
- `toFloat` reads a decimal into millionths; digits after the sixth decimal
  are dropped.
- Population and altitude are integers.

Some parameters stand for code outside the model:

- The country lookup (`StelLocaleMgr::countryCodeToString`) is a function
  parameter.
- So is the default number-to-text conversion `getID` uses for coordinates.

`createFromLine` is modelled as two pieces:

- `ParseLine` is a specification function over the split line.
- `CreateFromLine` is a method that fills the fields one at a time and
  overwrites them as the source does:
  - the country when the lookup gives nothing;
  - the role when it is null;
  - each coordinate negated on 'S' or 'W';
  - the Bortle index when `toInt` fails.

  It is proved equal to `ParseLine`.

`createFromLine` reads fields 0 to 7 with `QStringList::at`. That requires
those indices to exist, so the method requires at least eight parts.

The population is written as the integer `population/1000`, with no decimal
part.

## Model

| member | source | states |
|---|---|---|
| Text.Trim | src/core/StelLocation.cpp:80-81 | trimmed() never lengthens its input and leaves no whitespace at either end |
| Text.TrimStartIsSuffix | src/core/StelLocation.cpp:80 | what the leading trim keeps is a suffix of the input and everything it drops is whitespace |
| Text.TrimEndIsPrefix | src/core/StelLocation.cpp:80 | what the trailing trim keeps is a prefix of the input and everything it drops is whitespace |
| Text.TrimFixedPoints | src/core/StelLocation.cpp:80-81 | trimmed() leaves a string unchanged exactly when it has no whitespace at either end |
| Text.TrimIdempotent | src/core/StelLocation.cpp:80-81 | trimming twice is trimming once |
| Text.TrimKeeps | src/core/StelLocation.cpp:80-81 | trimmed() keeps every character that is not whitespace |
| Text.Left | src/core/StelLocation.cpp:92 | left(n) is a prefix; it has length n when 0 <= n < size and is the whole string otherwise |
| Text.ToUpper | src/core/StelLocation.cpp:86 | the result is never a lower-case letter; lower-case letters map to their capitals and every other character to itself |
| Text.Split | src/core/StelLocation.cpp:79 | split() gives at least one part and no part contains the separator |
| Text.SplitCount | src/core/StelLocation.cpp:79 | split() gives one part more than there are separators (empty parts kept) |
| Text.SplitJoin | src/core/StelLocation.cpp:37-49 | splitting the tab-joined fields gives the fields back when none contains a tab |
| Text.JoinSplit | src/core/StelLocation.cpp:79 | joining the parts of a split restores the line: splitting loses nothing |
| Text.Join | src/core/StelLocation.cpp:37-49 | no contract of its own; the fields with a tab between each pair, whose inverse is Split (SplitJoin, JoinSplit) |
| Text.IsSpace | src/core/StelLocation.cpp:80 | no contract of its own; the characters QChar::isSpace accepts (tab to carriage return, space, U+0085, U+00A0 and the Unicode space, line and paragraph separators), the set that Trim, TrimStartIsSuffix and TrimEndIsPrefix drop |
| Text.EndsWith | src/core/StelLocation.cpp:93 | no contract of its own; true exactly when the last character is the one given, as used by CoordSign and SerializedCoordinates |
| Numbers.Digits | src/core/StelLocation.cpp:42 | the decimal text of a natural number is a nonempty digit string with no leading zero |
| Numbers.ValueOfDigits | src/core/StelLocation.cpp:42 | the digits written for n have the value n |
| Numbers.ValueOfPad | src/core/StelLocation.cpp:43-44 | the w zero-padded digits written for n < 10^w have the value n |
| Numbers.FormatInt | src/core/StelLocation.cpp:42 | arg(int) text is nonempty, has no surrounding whitespace and starts with '-' exactly for a negative value |
| Numbers.FormatIntChars | src/core/StelLocation.cpp:45-46 | arg(int) text holds only digits and the sign |
| Numbers.FormatFixed6 | src/core/StelLocation.cpp:43-44 | 'f', 6 text has at least eight characters and no surrounding whitespace, and starts and ends with a digit |
| Numbers.FormatFixed6Chars | src/core/StelLocation.cpp:43-44 | 'f', 6 text holds only digits and the decimal point |
| Numbers.FormatFixed6Places | src/core/StelLocation.cpp:43-44 | 'f', 6 text ends in the decimal point followed by exactly six digits |
| Numbers.ToInt | src/core/StelLocation.cpp:106 | toInt succeeds only with a value in the 32-bit range |
| Numbers.ToIntDigits | src/core/StelLocation.cpp:106-108 | toInt on plain digits gives their value when it is at most 2^31-1 and fails otherwise, which is when the Bortle default applies |
| Numbers.ForeignTextFails | src/core/StelLocation.cpp:89-108 | text holding a character that is no digit, point, sign or whitespace reads as 0 through toFloat and fails through toInt |
| Numbers.BlankTextFails | src/core/StelLocation.cpp:89-108 | empty or all-whitespace text reads as 0 through toFloat and fails through toInt |
| Numbers.ValueOfCons | src/core/StelLocation.cpp:106 | a leading digit is worth its value times the weight of its place |
| Numbers.ScanWholeDigits | src/core/StelLocation.cpp:92 | reading a run of whole digits adds their value, shifted into place, to what was read before |
| Numbers.ScanFracPlaces | src/core/StelLocation.cpp:92 | reading fraction digits adds each digit at its place: the digits' value shifted by the places left over, for as many digits as there are places |
| Numbers.ParseUnsignedDecimal | src/core/StelLocation.cpp:92 | the unsigned reader on whole.frac, with one to six fraction digits, gives the whole part in millionths plus the fraction scaled to six places |
| Numbers.ToFloatDecimal | src/core/StelLocation.cpp:92 | toFloat on a plain decimal such as 48.85, with one to six fraction digits, gives its exact value in millionths |
| Numbers.ScanIntDigits | src/core/StelLocation.cpp:106 | reading a run of digits for toInt gives their value |
| Numbers.ParseDigits | src/core/StelLocation.cpp:89 | the unsigned reader gives n millionths for the text of n |
| Numbers.ParseDecimalFormatInt | src/core/StelLocation.cpp:89 | the signed reader gives x millionths for the text arg(x) writes, negative values included |
| Numbers.ParseDecimalFormatNegative | src/core/StelLocation.cpp:89 | a written negative integer reads back, through its '-' sign, as its negated magnitude |
| Numbers.ToFloatFormatInt | src/core/StelLocation.cpp:89 | toFloat reads back exactly the integer arg(int) wrote |
| Numbers.ParseUnsignedFixed6 | src/core/StelLocation.cpp:43-44 | the unsigned reader gives back the millionths 'f', 6 wrote |
| Numbers.ToFloatFormatFixed6 | src/core/StelLocation.cpp:92 | toFloat reads back exactly the magnitude 'f', 6 wrote |
| Numbers.ToIntFormatInt | src/core/StelLocation.cpp:106 | toInt reads back every 32-bit integer arg(int) wrote |
| Numbers.TruncDivTowardZero | src/core/StelLocation.cpp:42 | integer division and the float-to-int cast round toward zero: the quotient lies between 0 and the exact quotient, less than one away |
| Numbers.TruncDivExact | src/core/StelLocation.cpp:101 | dividing an exact multiple gives the factor back |
| Numbers.ThousandsBack | src/core/StelLocation.cpp:89 | a count in thousands read as a float and multiplied by 1000 gives the whole count |
| Numbers.ParseDecimal | src/core/StelLocation.cpp:89 | no contract of its own; ParseDecimalFormatInt, ParseDecimalFormatNegative and ParseUnsignedDecimal state what it reads: an optional sign, then digits with at most one decimal point |
| Numbers.ToFloat | src/core/StelLocation.cpp:89 | no contract of its own; ToFloatFormatInt, ToFloatFormatFixed6 and ToFloatDecimal state what it reads, and UnsignedNumberNotNegative states it is never negative on digit text; ForeignTextFails and BlankTextFails state that it reads 0 on text that is not a number |
| Numbers.TruncDiv | src/core/StelLocation.cpp:42 | no contract of its own; TruncDivTowardZero states that it rounds toward zero, as C++ integer division and the float-to-int cast do |
| StelLocation.FormatCoord | src/core/StelLocation.cpp:43-44 | a coordinate is written as the 'f', 6 text of its magnitude plus one suffix, the negative one exactly when the value is negative |
| StelLocation.Blank | src/core/StelLocation.cpp:78 | no contract of its own; the record createFromLine starts from, whose timeZone and landscapeKey survive as empty strings when the line lacks them (ParsedDefaults) |
| StelLocation.Fields | src/core/StelLocation.cpp:37-49 | no contract of its own; the twelve fields in the source's order, specified by SerializedLayout, SerializedNumbers and SerializedCoordinates |
| StelLocation.SerializeToLine | src/core/StelLocation.cpp:35-50 | no contract of its own; SerializedLayout, SerializedNumbers, SerializedCoordinates and LineRoundTrip state what the line holds and how it reads back |
| StelLocation.ParseLine | src/core/StelLocation.cpp:76-136 | no contract of its own; ParsedTextTrimmed, CoordSign, ParsedDefaults, ParseIgnoresExtraFields and FieldsRoundTrip state what it gives |
| StelLocation.CoordOf | src/core/StelLocation.cpp:91-99 | no contract of its own; CoordSign and CoordRoundTrip state how the suffix sets the sign and that every written coordinate reads back |
| StelLocation.CountryOf | src/core/StelLocation.cpp:82-84 | the country is the lookup of the trimmed code, or that code when the lookup is empty; it is empty only for an empty code |
| StelLocation.RoleOf | src/core/StelLocation.cpp:86-88 | the role is never null and never lower-case; 'X' for an empty field or a null first character; otherwise the upper-cased first character |
| StelLocation.BortleOf | src/core/StelLocation.cpp:103-111 | the Bortle index is a 32-bit value: the toInt value of field 8 when present and valid, the default 2 otherwise |
| StelLocation.ReadCountry | src/core/StelLocation.cpp:82-84 | assigning the lookup and then overwriting it with the trimmed code when empty gives CountryOf |
| StelLocation.ReadRole | src/core/StelLocation.cpp:86-88 | upper-casing the first character and then overwriting a null with 'X' gives RoleOf |
| StelLocation.ReadCoordinate | src/core/StelLocation.cpp:91-99 | reading the number before the suffix and negating it in place on the negative suffix gives CoordOf |
| StelLocation.ReadBortle | src/core/StelLocation.cpp:103-111 | reading field 8 with toInt and overwriting with the default on failure gives BortleOf |
| StelLocation.CreateFromLine | src/core/StelLocation.cpp:76-136 | the record built field by field, with the conditional overwrites, is ParseLine of the split line |
| StelLocation.GetID | src/core/StelLocation.cpp:52-61 | an unnamed place gives "lat, lng"; a named place with a country gives "name, country"; a named place's ID starts with its name and is the bare name exactly when the country is empty |
| StelLocation.GetIDDistinguishes | src/core/StelLocation.cpp:57-58 | for comma-free names and known countries, two IDs are equal exactly when names and countries are |
| StelLocation.ParsedTextTrimmed | src/core/StelLocation.cpp:80-84 | name, state, time zone, planet and landscape key come out trimmed; the country is the lookup of the trimmed code or that code |
| StelLocation.CoordSign | src/core/StelLocation.cpp:91-99 | for a magnitude without its own sign, a coordinate is negative only with the S/W suffix and never positive with it; the last character is always dropped |
| StelLocation.UnsignedNumberNotNegative | src/core/StelLocation.cpp:92 | text starting with a digit never reads as a negative number |
| StelLocation.ParsedDefaults | src/core/StelLocation.cpp:103-134 | Bortle 2 with 8 parts or an invalid field 8; empty time zone with at most 9 parts; "Earth" with at most 10; empty landscape key with at most 11 |
| StelLocation.ParseIgnoresExtraFields | src/core/StelLocation.cpp:113-134 | parts after the twelfth are ignored |
| StelLocation.SerializedLayout | src/core/StelLocation.cpp:37-49 | a line with tab-free text splits into exactly 12 fields, with name, state, country, role, time zone, planet and landscape key at their places as they are |
| StelLocation.SerializedNumbers | src/core/StelLocation.cpp:42-46 | in that split, toFloat reads field 4 as population/1000 and field 7 as the altitude, and toInt reads field 8 as the Bortle index whenever it fits in 32 bits |
| StelLocation.SerializedCoordinates | src/core/StelLocation.cpp:43-44 | in that split, fields 5 and 6 are each the 'f', 6 text of the coordinate's magnitude followed by S or W exactly when it is negative |
| StelLocation.FormatCoordExample | src/core/StelLocation.cpp:43 | a latitude of 33.5 degrees south is written "33.500000S" |
| StelLocation.CoordLayout | src/core/StelLocation.cpp:43-44 | one written coordinate: at least nine characters, its magnitude's 'f', 6 text, then the negative suffix exactly when negative |
| StelLocation.FieldsSplit | src/core/StelLocation.cpp:37-49 | splitting the written line on tabs gives the twelve written fields back |
| StelLocation.FormatIntNoTab | src/core/StelLocation.cpp:42 | integer text holds no tab |
| StelLocation.FormatCoordNoTab | src/core/StelLocation.cpp:43-44 | coordinate text holds no tab |
| StelLocation.CoordRoundTrip | src/core/StelLocation.cpp:91-99 | every coordinate written with its suffix reads back as itself, sign included |
| StelLocation.TextFieldsRoundTrip | src/core/StelLocation.cpp:80-88 | text without edge whitespace, a stable role and a self-mapped country read back unchanged |
| StelLocation.TextFieldsBack | src/core/StelLocation.cpp:113-134 | the written text fields, country and role read back as the record's own |
| StelLocation.NumberFieldsBack | src/core/StelLocation.cpp:89-111 | the written population, coordinates, altitude and Bortle index read back, the population in whole thousands |
| StelLocation.PopulationRoundTrip | src/core/StelLocation.cpp:89 | the population written in thousands reads back as (population/1000)*1000 |
| StelLocation.AltitudeRoundTrip | src/core/StelLocation.cpp:101 | the altitude reads back as written |
| StelLocation.FieldsRoundTrip | src/core/StelLocation.cpp:37-49 | reading the twelve written fields restores the record, the population rounded to thousands |
| StelLocation.LineRoundTrip | src/core/StelLocation.cpp:35-50 | for a record with tab-free, trimmed text, a stable role, a self-mapped country and a 32-bit Bortle index, reading back the written line restores every field but the population, which becomes (population/1000)*1000 |
| StelLocation.ReadBackIdempotent | src/core/StelLocation.cpp:76-136 | after one write and read the record is a fixed point: it stays safe and a second write and read changes nothing |
| StelLocation.CreateFromSerialized | src/core/StelLocation.cpp:76-136 | createFromLine on the line serializeToLine wrote returns the record with its population rounded to thousands |

## Left out

- `distanceDegrees` (src/core/StelLocation.cpp:139-145): single-precision spherical trigonometry, floating point.
- The QDataStream operators and the `isUserLocation` flag they carry: Qt's binary encoding is outside the model.
- `initMetaType`: Qt type registration, a framework side effect.
- `StelLocaleMgr::countryCodeToString` is a function parameter; its locale tables are not part of this model.
- Floating point: coordinates are exact millionths and population and altitude are integers.
  - No float rounding is modelled: in the model `toFloat` drops digits after the sixth decimal, where the real conversion rounds to the nearest float.
  - The 32-bit width of the stored population and altitude is not modelled.
- StelLocation.PopulationRoundTrip: the float product `toFloat()*1000` is exact in the model. In single precision it rounds once the population reaches 2^27 (about 134 million): a population of 134219000 is written as "134219", and 134219 * 1000 rounds to the float 134219008. So the real read-back can be off by a few units where PopulationRoundTrip and LineRoundTrip give (population/1000)*1000.
- Numbers.ToFloat: accepts only an optional sign and `digits[.digits]` between whitespace; it does not accept the exponent, `inf` or `nan` forms Qt's conversion accepts.
- Numbers.ToFloat, Numbers.ToInt: Qt 5's skipping of surrounding whitespace is modelled with trimmed(). Locale-specific digits and group separators are not modelled.
- Text.ToUpper: case mapping beyond ASCII letters is not modelled.
- StelLocation.SerializeToLine: the chained `QString::arg` calls re-scan earlier substitutions for `%n` markers; the model assumes field text holds no such marker and joins the fields directly.
- StelLocation.GetID: the same `%n` re-scanning in `arg(name).arg(country)` is not modelled, and the number format for unnamed places is a parameter.
- The initial values of a fresh record come from StelLocation.hpp, which is not part of this model. Only `timeZone` and `landscapeKey` keep them (as empty strings) in `Blank`.
- Characters are Unicode scalar values, where QString holds UTF-16 code units. For a field starting with a character outside the Basic Multilingual Plane, `at(0)` takes a lone high surrogate as the role, where the model takes the whole character. For a coordinate ending with such a character, `left(size()-1)` drops only its low surrogate, so `toFloat` fails and reads 0; the model drops the whole character, so "12.5" followed by that character reads as 12.5.
- StelLocation.CreateFromLine: a line with fewer than eight parts is excluded by its precondition, since `QStringList::at` requires a valid index.
