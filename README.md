# Strobbie LED firmware in Dafny

Strobbie is firmware for an ESP8266 that drives a strip of 11 RGB LEDs. It
opens a Wi-Fi access point with a captive web page. On that page a user picks
a routine, a delay and a palette of up to three colours. The page offers five
routine names ("allOff", "solidColors", "flashingColors", "oneDirectionChase"
and "backAndForthChase"), but the firmware's `actions` table maps only the
first three; the two chase names select no routine. The firmware keeps these settings in flash memory. An
MD5 sentinel guards the stored record.

This project models the logic of that firmware and proves properties of it:

- `common.dfy`: `Option`, `byte`, and the 32-bit unsigned type `u32` with its
  modulus.
- `utils.dfy`, module `Utils`: the two nibble tables of `Utils.h` and the hex
  conversions of `Utils.cpp`. These are pure functions.
- `lighting.dfy`, module `Lighting`: the LED routines of `Lighting.h`.
  - The globals (`leds`, `actionColors`, `actionColorsSize`, `actionDelay`,
    `currentAction`) and the statics of `doFlashingColors` are the fields of
    class `Engine`.
  - Each routine is a method that writes the `leds` array in a loop.
  - Each method is proved against specification functions on sequences
    (`NextFlashColor`, `SolidFrame`, `AllOffFrame`, `Fill`).
- `settings.dfy`, module `Settings`: the `NVSettings` record, its factory
  values, and class `Settings`.
  - Saving and loading are specified by the functions `SaveSpec` and
    `LoadSpec`. These map the record in RAM and the record in flash to their
    new values.
  - EEPROM is class `Eeprom`, holding an optional stored record.
  - MD5 is a function parameter. Whether the flash commit succeeds is a
    boolean parameter.
- `firmware.dfy`, module `Firmware`: `src/main.cpp`.
  - It holds the `actions` table and the `loop()` throttle.
  - `setup()` is the constructor of class `Firmware`.
  - The palette editing of `handleRoot()` ("add", "remove:N", "update" and
    the GET resync) works on the static copy `tempColors`/`tempColorsSize`.
  - An HTTP request arrives as a `Request` value.

The clock is passed in as two `u32` readings. `now` is the reading for the
gate test of `doFlashingColors`. `later` is the reading it stores, because
the source calls `millis()` a second time. `FastLED.show()` appends the frame
to the ghost log `shown`.

Behaviour of the code worth knowing:

- The gate of `doFlashingColors` is one unsigned 32-bit difference with no
  other wrap-around check; `ElapsedAcrossWrap` proves that this is enough.
- `doSolidColors` fills the strip with one colour; with two colours it draws
  runs of 2, 3, 3, 3 pixels, alternating from the first colour; with three
  colours it alternates pixel by pixel, starting with the second colour
  (`SolidFrameShape`).
- `doAllOff` is commented "Turns off all the LEDS" (Lighting.h:95) but clears
  only the first `MAX_COLORS` (3) pixels (`AllOffDarkensOnlyHead`).

## Model

| member | source | states |
|---|---|---|
| Utils.HexDigitChar | lib/MyUtils/Utils.h:27-44 | every nibble has a lowercase hex digit whose value is that nibble |
| Utils.DecToHexTableComplete | lib/MyUtils/Utils.h:27-44 | decToHexDigitMap has an entry for each of 0..15, and that entry is the nibble's lowercase digit |
| Utils.HexToDecTableAgrees | lib/MyUtils/Utils.h:8-25 | looking up a lowercased character in hexToDecDigitMap gives its hex value (below 16), and gives 0 for a non-hex character, as std::map::operator[] does |
| Utils.NibbleLookup | lib/MyUtils/Utils.h:8-25 | every value read from hexToDecDigitMap is below 16, so two nibbles fit in a byte |
| Utils.DigitTablesInverse | lib/MyUtils/Utils.h:8-44 | the two tables are inverse: hexToDec[decToHex[n]] == n for every n in 0..15 |
| Utils.HexToDecTableHasNoUppercase | lib/MyUtils/Utils.h:19-24 | no key of hexToDecDigitMap contains an uppercase letter |
| Utils.Substring | lib/MyUtils/Utils.cpp:53-54 | String::substring: empty when the start is past the end; otherwise the end is clamped to the length, and each character is copied from its offset |
| Utils.HexTo8BitDecimal | lib/MyUtils/Utils.cpp:50-57 | the result is 16 times the value of the first hex digit plus the value of the second, in either case; a missing or non-hex character counts 0 |
| Utils.HexLookupAt | lib/MyUtils/Utils.cpp:51-54 | a table lookup of the one-character substring of the lowercased input reads the hex digit at that position |
| Utils.DecimalTo8BitHex | lib/MyUtils/Utils.cpp:39-48 | exactly two lowercase hex digits: the high nibble, then the low nibble |
| Utils.HexByteRoundTrip | lib/MyUtils/Utils.cpp:39-57 | hexTo8BitDecimal(decimalTo8BitHex(d)) == d for every byte d |
| Utils.HexParseIgnoresCase | lib/MyUtils/Utils.cpp:51 | upper- or lower-casing the input does not change what hexTo8BitDecimal returns |
| Utils.RgbDecimalsToHex | lib/MyUtils/Utils.cpp:59-66 | six lowercase hex digits; pairs 0-1, 2-3 and 4-5 spell red, green and blue |
| Utils.GenDeviceIdFromHash | lib/MyUtils/Utils.cpp:28-37 | the last six characters of the hash (all of it when it has at most six), uppercased, with no lowercase letter left |
| Lighting.SubstringPairParse | include/Lighting.h:134-136 | parsing the two-character substring at i gives the hex pair at i |
| Lighting.RgbStringToColor | include/Lighting.h:133-142 | red, green and blue are the hex pairs at begin, begin+2 and begin+4 |
| Lighting.ColorHexRoundTrip | include/Lighting.h:133-142 | rgbStringToColor(rgbDecimalsToHex(c), 0) == c, and the same holds at index 1 behind a '#' |
| Lighting.TaggedPairs | include/Lighting.h:133-142 | a leading '#' moves every hex pair one position to the right |
| Lighting.Elapsed | include/Lighting.h:44 | millis() - lastChange on 32-bit values: adding the result to since, modulo 2^32, gives now |
| Lighting.ElapsedAcrossWrap | include/Lighting.h:44 | when the clock wraps between the two readings, the unsigned difference still equals the real time that passed |
| Lighting.FindColor | include/Lighting.h:55-67 | the first index holding the colour; None when the palette lacks it |
| Lighting.FlashSingleColorAlternates | include/Lighting.h:47-52 | with one colour c (not Black), starting from Black, gated updates alternate c, Black, c, ... |
| Lighting.NextOfDistinct | include/Lighting.h:53-67 | in a palette without repeats, the colour after entry j is entry j+1, wrapping to entry 0 |
| Lighting.FlashCyclesThroughPalette | include/Lighting.h:53-71 | with 2 or 3 distinct colours, k gated updates from entry j show entry (j+k) mod size |
| Lighting.FlashFallsBackToFirst | include/Lighting.h:68-70 | a last colour that is not in the palette is followed by entry 0 |
| Lighting.FlashStuckOnRepeat | include/Lighting.h:56-66 | a colour whose first occurrence is directly followed by a copy of itself is shown for ever |
| Lighting.FlashTwoAddedBlacksStayDark | include/Lighting.h:53-71 | the palette [c, Black, Black], which two "add"s produce, flashes nothing: from Black it stays Black |
| Lighting.Fill | include/Lighting.h:74-76 | all NUM_LEDS pixels have the given colour |
| Lighting.AllOffFrame | include/Lighting.h:98-103 | doAllOff's frame keeps NUM_LEDS pixels |
| Lighting.AllOffDarkensOnlyHead | include/Lighting.h:94-103 | doAllOff leaves pixels 3..10 unchanged, so it turns the whole strip off exactly when those were already off |
| Lighting.GroupSizeValues | include/Lighting.h:109-110 | smallGroupSize is 11, 3, 1 for 1, 2, 3 colours, and is positive exactly while size <= NUM_LEDS (beyond that, i % 0 would divide by zero) |
| Lighting.SolidColorIndex | include/Lighting.h:109-118 | the colour index is always below the palette size |
| Lighting.SolidFrame | include/Lighting.h:114-118 | pixel i-1 gets the palette entry (i / g) mod size |
| Lighting.SolidFrameShape | include/Lighting.h:108-120 | one colour fills the strip; two colours give runs of 2, 3, 3, 3; three colours alternate pixel by pixel, starting with colour 1 |
| Lighting.SolidIndexStep | include/Lighting.h:116 | one update of the running colorIndex keeps it equal to (i / g) mod size |
| Lighting.Engine.Palette | include/Lighting.h:22-26 | the active palette has between 1 and MAX_COLORS entries |
| Lighting.Engine.constructor | include/Lighting.h:20-26 | the globals as declared: dark strip, one colour, a 70 ms delay, doFlashingColors selected, lastColor Black, lastChange 0 |
| Lighting.Engine.ChooseNextColor | include/Lighting.h:47-71 | the search loop returns NextFlashColor(lastColor, palette) |
| Lighting.Engine.DoFlashingColors | include/Lighting.h:40-83 | when millis() - lastChange >= actionDelay (unsigned): all pixels get the next colour, the frame is shown, lastColor and lastChange advance; otherwise nothing changes |
| Lighting.Engine.DoAllOff | include/Lighting.h:98-103 | pixels 0..2 become Black, the others keep their colour, and the frame is shown |
| Lighting.Engine.DoSolidColors | include/Lighting.h:108-120 | the strip becomes SolidFrame(palette), and the frame is shown |
| Lighting.Engine.Run | src/main.cpp:136 | calling the current routine gives that routine's post-state |
| Settings.DecimalString | lib/Settings/Settings.cpp:119-121 | String(n) of an unsigned number: a non-empty string of decimal digits |
| Settings.DecimalRoundTrip | lib/Settings/Settings.cpp:119-121 | reading back the decimal digits of n gives n |
| Settings.HashIgnoresSentinel | lib/Settings/Settings.cpp:116-121 | the hash input does not depend on the sentinel field |
| Settings.HashContentAmbiguous | lib/Settings/Settings.cpp:117-121 | with no separator, two records with different data give the same hash input, so one record's sentinel also vouches for the other |
| Settings.SaveSpec | lib/Settings/Settings.cpp:40-52 | the data fields are kept and the sentinel is the hash of them; flash holds the record after a successful commit, and is left wiped otherwise |
| Settings.SaveThenLoad | lib/Settings/Settings.cpp:40-86 | saving with a successful commit, then loading, succeeds and gives back all four data fields |
| Settings.LoadFallsBackToFactory | lib/Settings/Settings.cpp:75-78 | a sentinel mismatch makes the load fail and restores the factory data, stamped and saved |
| Settings.LoadWithNothingStored | lib/Settings/Settings.cpp:73-85 | with nothing stored the load fails and changes nothing |
| Settings.LoadSettlesStore | lib/Settings/Settings.cpp:64-86 | after a load, flash holds either nothing or an intact copy of the record in RAM, so loading again changes nothing |
| Settings.Eeprom.constructor | lib/Settings/Settings.cpp:67-74 | the flash starts with the given stored record |
| Settings.Settings.constructor | lib/Settings/Settings.cpp:15-17 | the record takes the factory data fields ("flashingColors", 70, "0000FF:000000:000000", 1) |
| Settings.Settings.DefaultSettings | lib/Settings/Settings.cpp:100-106 | the four data fields take the factory values; the sentinel is kept |
| Settings.Settings.SaveSettings | lib/Settings/Settings.cpp:40-52 | the new RAM and flash state is SaveSpec of the old one, and the result is the commit result |
| Settings.Settings.FactoryDefault | lib/Settings/Settings.cpp:27-32 | the factory data fields, saved as SaveSpec describes |
| Settings.Settings.LoadSettings | lib/Settings/Settings.cpp:64-86 | true exactly when something is stored and its sentinel matches; the new state is LoadSpec of the old one |
| Settings.Settings.SetActionName | lib/Settings/Settings.cpp:136 | only actionName changes, and getActionName returns the new value |
| Settings.Settings.SetActionDelay | lib/Settings/Settings.cpp:137 | only actionDelay changes, and getActionDelay returns the new value |
| Settings.Settings.SetColors | lib/Settings/Settings.cpp:138 | only colors changes, and getColors returns the new value |
| Settings.Settings.SetColorsSize | lib/Settings/Settings.cpp:139 | only colorsSize changes, and getColorsSize returns the new value |
| Firmware.LookupAction | src/main.cpp:48-58 | each of "allOff", "flashingColors" and "solidColors" selects its routine (if and only if); every other name selects none |
| Firmware.UnmappedNamesSelectNothing | src/main.cpp:51-56 | the chase and fade names select no routine |
| Firmware.UnmappedNameSurvivesRestart | src/main.cpp:75 | a saved, committed chase name is adopted again by the load in setup(), which then selects no routine |
| Firmware.NextCounter | src/main.cpp:130 | counter++ on a 32-bit unsigned long wraps to 0 |
| Firmware.ServiceCadence | src/main.cpp:128-132 | away from the wrap, after one serviced call the next 69 calls are not serviced and the 70th is |
| Firmware.ServiceGapAtWrap | src/main.cpp:128-132 | 2^32 is not a multiple of 70: across the wrap only 46 calls separate two serviced calls |
| Firmware.RemoveIndex | src/main.cpp:176-189 | the digit at index 7 of the do field; 0 when that character is missing or not a digit |
| Firmware.ApplyFields | src/main.cpp:164-168 | the palette keeps its three slots |
| Firmware.ApplyFieldsEffect | src/main.cpp:164-168 | a slot at or above the size, or one whose field is empty, keeps its colour; an active slot with a non-empty field takes that field parsed after its `#`, so "#" followed by the hex text of any colour c sets the slot to c |
| Firmware.ResubmitKeepsPalette | src/main.cpp:164-168 | posting back the colours the page showed leaves the palette unchanged |
| Firmware.AddAppendsBlack | src/main.cpp:169-172 | below capacity, "add" appends one Black slot and keeps the rest; at capacity it changes nothing |
| Firmware.ShiftLeft | src/main.cpp:189-195 | the palette keeps its three slots |
| Firmware.SourceShiftReads | src/main.cpp:190-192 | the shift reads index i+1 for each i from n up to size-1, in that order |
| Firmware.RemoveAtCapacityReadsPastEnd | src/main.cpp:190-192 | with a full palette the source's shift reads tempColors[MAX_COLORS], one past the end |
| Firmware.RemoveDropsEntry | src/main.cpp:189-195 | removing slot n with 0 < n < size keeps the other active colours in order, and slot 0 is never touched |
| Firmware.RemoveUndoesAdd | src/main.cpp:169-195 | removing the slot that "add" just appended gives the earlier active colours back |
| Firmware.Parts | src/main.cpp:210-215 | one part per colour field |
| Firmware.ColorsStringIsJoin | src/main.cpp:206-216 | when every field has more than its '#', the colours string is the ':'-join of the parts in index order |
| Firmware.EmptyFieldDropsSeparator | src/main.cpp:211-215 | a field holding only '#' leaves the string empty, so the next part gets no ':' in front and the string has fewer parts than colours |
| Firmware.BuildColorsString | src/main.cpp:206-216 | the loop builds ColorsString of the first size fields |
| Firmware.LoadKeepsCountsInRange | src/main.cpp:74-76 | loading the settings keeps every colour count in 1..MAX_COLORS |
| Firmware.ConfigureEngine | src/main.cpp:75-82 | the engine takes the loaded delay, the routine looked up by name, the count, and each colour parsed from its split piece |
| Firmware.Firmware.constructor | src/main.cpp:68-89 | setup(): the device id from the MAC hash, the settings loaded as LoadSpec describes, the engine configured from them, and handleRoot's statics at their initial values |
| Firmware.Firmware.ApplyColorFields | src/main.cpp:157-168 | each active slot with a non-empty field takes the parsed colour; the other slots stay |
| Firmware.Firmware.HandleGet | src/main.cpp:149-152 | all MAX_COLORS slots of tempColors are copied from actionColors |
| Firmware.Firmware.HandleAdd | src/main.cpp:157-174 | fields applied; one Black slot appended unless the palette is full; the count stays within 1..3; delay and action copied from the form |
| Firmware.Firmware.HandleRemove | src/main.cpp:175-197 | fields applied; when 0 < N < size, slot N is removed and the count drops by one; otherwise the count is kept |
| Firmware.Firmware.StoreUpdate | src/main.cpp:219-223 | the four setters, then saveSettings, as SaveSpec describes |
| Firmware.Firmware.ApplyUpdateColors | src/main.cpp:232-239 | each active slot with a non-empty field takes the parsed colour in both actionColors and tempColors |
| Firmware.Firmware.HandleUpdate | src/main.cpp:198-241 | settings saved; routine looked up by name (None when unmapped); delay, colours and actionColorsSize := tempColorsSize committed to the engine; the strip is untouched |
| Firmware.Firmware.HandleRoot | src/main.cpp:143-242 | dispatch on the method and on the do field: add (case-insensitive), then a "remove" prefix, then update (case-insensitive) |
| Firmware.Firmware.Loop | src/main.cpp:128-137 | the network is serviced exactly when the pre-increment counter is a multiple of 70; the counter wraps; the current routine runs once, or nothing runs when the routine is null |

## Left out

- Wi-Fi access point, DNS captive portal and web server calls: these are I/O. A request is a `Request` value, and the reply page is not built.
- HTML templating (`pageTemplate.replace`, `HtmlContent.h`): presentation only. The "remove:N" button value it produces is the input to `RemoveIndex`.
- FastLED hardware calls: `show()` is modelled as appending the frame to the ghost log `shown`.
- `millis()`: the two clock readings are parameters.
- MD5 (`hashString`, `MD5Builder`): a function parameter with no properties assumed.
- EEPROM `begin`/`end`/`percentUsed` and `delay(15)`: the flash is an optional stored record; commit success is a parameter.
- `Utils::split` is not part of this model: its body is not available. `setup()` takes the three pieces it produces as a parameter.
- `toDouble()` and the cast to `unsigned long` of the delay field: the form delivers the delay already as a `u32`.
- `doRotatingColorFade` is an empty stub. The chase routines do not exist in the code, and their table entries are commented out.
- `activateAPMode` and `initLighting` (hardware setup) are left out.
- Firmware.Firmware.HandleUpdate: requires the action name and the colours string to be shorter than 100 characters. The source copies them with `strcpy` into 100-byte fields and would overflow them.
- Settings.Settings.SetActionName and Settings.Settings.SetColors: require fewer than 100 characters for the same reason.
- Firmware.Firmware.constructor: requires a stored record with a matching sentinel to hold a colour count of 1..3. The firmware writes only such counts, and a larger count would make `doSolidColors` divide by zero or index past the palette.
- Firmware.Firmware.Loop: with an unmapped action name the source calls a null function pointer. The model reports `ran == false` and changes nothing. The page offers two such names, and an "update" with either stores it, so the null routine also comes back after a restart (`Firmware.UnmappedNameSurvivesRestart`).
- Strings are sequences of characters, while Arduino `String` and the `char[100]` fields hold bytes. The 100-character bound of the setters and of "update" counts characters, so it matches the 100-byte fields only for ASCII form input; likewise `Utils.HexTo8BitDecimal` reads the first two characters, where the source reads the first two bytes of a UTF-8 string.
- Firmware.Firmware.constructor: handleRoot's function-local statics are initialised when `setup()` ends rather than at the first request. Nothing changes the values they copy in between, so the result is the same.

## Findings

| source | as written | input that shows it | evidently intended | confidence | as-written member | corrected member |
|---|---|---|---|---|---|---|
| src/main.cpp:190-193 | the remove loop copies `tempColors[i + 1]` for every `i` up to `tempColorsSize - 1` | a full palette (3 colours) and "remove:1" or "remove:2": the last step reads `tempColors[3]`, past the end of the 3-slot array | shift only slots that have a successor, then drop the last active slot | not executed | Firmware.RemoveAtCapacityReadsPastEnd | Firmware.RemoveDropsEntry |
