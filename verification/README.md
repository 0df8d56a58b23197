# A verified model of GUI-Generic

GUI-Generic is firmware for ESP8266 and ESP32 boards: it finds 1-Wire thermometers, keeps its settings in
a small configuration file, hands out pins from web forms, moves servos, reads sensors and serves its own
pages. This project models the parts of it that compute something, in Dafny, and proves what they promise.

- **1-Wire search and CRC** (`RomCode`, `RomSearch`, `RomFamily`, `OneWire`, `Crc`, `DallasTemperature`).
  The wire is a finite set of 64-bit codes; reading a bit is a wired AND over the devices still selected,
  writing one drops those that disagree. `RomSearch` describes a search call as a function of the set and the
  state between calls, and proves that a run of calls is a sorted enumeration; `RomFamily` does it for a run
  that was targeted at a family. The classes `OneWire` and
  `DallasTemperature` do the bit-by-bit work in place and are proved against that function. `Crc` defines
  a reflected shift register once and relates the table-driven, bitwise and parity-based forms to it.
- **Configuration** (`ConfigText`, `ConfigManager`, `Decimal`). A list option is one comma-separated string
  in a fixed buffer; changing an element reprints the whole list and cuts it off. The store is proved to
  be an array, with the exact condition under which a write survives. The file image is proved to round
  trip, also between builds.
- **Pin allocator** (`PinTable`, `PinAllocator`). `PinTable` is the table on values, with its invariant over
  all sequences of form lines; `PinAllocator` works on the configuration strings and refines it.
- **Servo** (`ServoMotion`, `ServoMapping`, `ServoSafety`, `ServoSteps`, `ServoAngular`, `ServoRange`,
  `ServoRest`, `ServoDimmer`). One step per command, stop and poll; the class is proved to do exactly these steps and to
  stay safe and in range. Clock values are 32-bit; `WholeMove` and `DetachedAfterRest` relate them to true
  time.
- **CSE7766 power meter** (`Cse7766Frames`, `Cse7766`), **DS18S20/DS18B20 readings** (`DallasReading`),
  **MAX44009 thresholds** (`Max44009`), **Bosch temperature** (`BoschTemperature`), **page writer**
  (`ChunkWriter`).

`dafny verify dfyconfig.toml` checks everything. Integer widths are written out where they matter
(`% 0x1_0000_0000`, `Long`, `% 256`); C division is `CInteger.TruncDiv`.

## Where the code does less than one would expect

Each of these is proved as the exact condition, not only as an example.

- A device with family byte 0 hides every device on the wire: the search meets it first, refuses it and
  starts over. A cycle lists all devices if and only if there is no such device
  (`RomSearch.EnumerationIffNoZeroFamily`), and only then does the alarm search, which refuses nothing, agree
  with it (`AlarmWalk.AlarmAgreesIff`).
- A search targeted at a family skips its first device if and only if another one differs from it in the last
  bit only (`RomFamily.FamilyListedIff`). Their CRCs rule that out for valid codes
  (`DallasTemperature.ValidFamilyListed`).
- The pulse total of the power meter is short by the growth that follows an accepted counter value of 0
  (`Cse7766Pulses.TotalIsGrowthIff`). Its calibration error is never reported, because the parser has
  already dropped frames that begin with 0xAA (`Cse7766Pulses.AcceptedHeaders`).
- A legitimate reading can look like a power-on reset of a DS18B20 (`DallasReading.CodesAreApart`). The
  extended DS18S20 formula is met exactly where the kept bits suffice (`DallasReading.ExtendedReading`).
- A write to a list option survives exactly when the printed fields end before the buffer does, or the last
  non-empty one ends exactly there (`ConfigText.WriteSurvivesIff`). An element reads with a separator in it if
  and only if it is the last one of a string that ends in a separator (`ConfigText.OnlyLastHasSeparator`);
  writing another element takes the separator away (`ConfigText.TrailingSeparatorMoves`).
- Number 255 of a function is stored as 0 and looked up as 256, so it is never found again, and two lines put
  it on two pins. With two pins or more, numbers up to n are safe in every run if and only if n is below 255
  (`PinTable.SafeNumbers`); a given run is safe if and only if no line in it doubles
  (`PinTable.AllocatorSafety`). The limit check of a form line clears the pin the function had before, so a pin
  over the limit is taken back only if it was already there (`PinTable.FoundIff`).
- A continuous roller that is stopped keeps the last pulse written by a poll as "written": sending it the
  same way again sends no pulse but stand-still, however long it is polled (`ServoSafety.CommandReachesIff`,
  `ServoSafety.RepeatedMoveIsLost`, `ServoSafety.RollOnce`). A timed stop ends in stand-still only if an
  earlier poll had sent the target's pulse (`ServoSafety.TimedStopIff`). Once stopped away from its
  stand-still position the servo is never detached before the next command (`ServoSafety.RunResting`).
- An inverted relay servo is assumed at one end of its way after start-up and sent to the other for the same
  value (`ServoMapping.RelaySyncIff`).
- The two Bosch formulas agree exactly when no scaled-down term is negative and inexact
  (`BoschTemperature.FormsAgree`).

## Model

| member | source | states |
|---|---|---|
| `RomSearch.Chosen` | lib/OneWire/OneWire.cpp:384-498 | a pass ends at one participating device: the one that follows the previous code up to the last fork, turns to 1 there and to 0 at every later fork |
| `RomSearch.PassUnique` | lib/OneWire/OneWire.cpp:384-498 | at most one device follows a pass, so the bus decides the result |
| `RomSearch.WalkStep` | lib/OneWire/OneWire.cpp:422-472 | one bit keeps the loop invariant: the selected devices are those that agree with the bits stored so far, the last fork left at 0 is remembered for the code and for the family, and somebody is still selected |
| `RomSearch.WalkEnd` | lib/OneWire/OneWire.cpp:418-485 | after 64 bits the stored code is the chosen device and the remembered forks are its last ones |
| `RomSearch.FreshPassIsMinimum` | lib/OneWire/OneWire.cpp:342-352 | a pass from a cleared state finds the smallest device in wire order |
| `RomSearch.ResumedPassIsSuccessor` | lib/OneWire/OneWire.cpp:384-498 | a pass that resumes at the last fork left at 0 finds the next larger device |
| `RomSearch.NoZeroLeftIsMaximum` | lib/OneWire/OneWire.cpp:441-485 | `LastDiscrepancy` is 0 exactly when the device found is the largest |
| `RomSearch.ListingExists` | lib/OneWire/OneWire.cpp:384-498 | every finite set of devices has an ascending listing without repetition |
| `RomSearch.Progress` | lib/OneWire/OneWire.cpp:384-498 | call number k of a run reports the k-th device and leaves the state that stands at it |
| `RomSearch.Enumeration` | lib/OneWire/OneWire.cpp:342-352 | from a cleared state n calls report the n devices in order, the next one reports nothing, and the state is cleared again |
| `RomSearch.EmptyCallClears` | lib/OneWire/OneWire.cpp:402-408 | from every state: a call that reports nothing leaves a cleared state, one that reports a device has found a participant with a family byte other than 0 and remembers it |
| `RomSearch.StartsOver` | lib/OneWire/OneWire.cpp:488-493 | after a call in the middle of a run that reports nothing, the next one on any devices without family byte 0 reports the smallest |
| `RomSearch.ZeroFamilyHidesAll` | lib/OneWire/OneWire.cpp:488-496 | with a device of family byte 0 on the wire no call of any run reports a device |
| `RomSearch.EnumerationIffNoZeroFamily` | lib/OneWire/OneWire.cpp:488-496 | a cycle lists all devices if and only if none has family byte 0 |
| `RomSearch.TargetedCall` | lib/OneWire/OneWire.cpp:357-366 | the call after a family was targeted reports a device of that family exactly when one takes part |
| `RomFamily.TargetedChoice` | lib/OneWire/OneWire.cpp:357-440 | with `LastDiscrepancy` 64 a fork at the last bit is taken at 1: the pass finds the smallest device of the family, or the one that differs from it in bit 63 only, if that one is there |
| `RomFamily.FamilyStands` | lib/OneWire/OneWire.cpp:357-440 | the devices of a family that is present stand side by side in the ascending listing |
| `RomFamily.TargetedRun` | lib/OneWire/OneWire.cpp:357-498 | call k of a targeted run reports the k-th device from its start on, to the end of the listing; the start is the first place of the family, or the next one if that is its twin |
| `RomFamily.FamilyListedIff` | lib/OneWire/OneWire.cpp:357-498 | the first n calls report the n devices of the family in order if and only if no device differs from the first of them in the last bit only |
| `RomBytes.PutBit` | lib/OneWire/OneWire.cpp:451-456 | setting or clearing one bit behind the moving mask changes that bit of the code and no other |
| `RomBytes.FamilyByte` | lib/OneWire/OneWire.cpp:488-496 | byte 0 of the array is 0 exactly when the first eight bits of the code are |
| `OneWireBus.Bus.ReadBit` | lib/OneWire/OneWire.cpp:421-427 | a read is the AND of the next bit over the selected devices, the second read the AND of its complement |
| `OneWireBus.Bus.WriteBit` | lib/OneWire/OneWire.cpp:458-459 | a write drops the devices that disagree and moves on to the next bit |
| `OneWire.OneWire.ResetSearch` | lib/OneWire/OneWire.cpp:342-352 | the search state is cleared, and so are the eight bytes |
| `OneWire.OneWire.TargetSearch` | lib/OneWire/OneWire.cpp:357-366 | family byte, zeros and `LastDiscrepancy` 64; with a family other than 0 this is the state a targeted run starts from |
| `OneWire.OneWire.Decide` | lib/OneWire/OneWire.cpp:429-440 | the direction at one bit from the two reads, and at a fork from the previous code and the last fork |
| `OneWire.OneWire.Pass` | lib/OneWire/OneWire.cpp:418-485 | the in-place loop settles all 64 bits to the chosen device and its last forks, or stops at the first bit when nobody answers, leaving the state alone |
| `OneWire.OneWire.Search` | lib/OneWire/OneWire.cpp:384-498 | the method changes the state and reports a device exactly as the function `Call` says, and writes the caller's buffer only when it reports one |
| `AlarmWalk.JunctionStep` | lib/DallasTemperature/DallasTemperature.cpp:678-695 | the alarm search's bookkeeping of junctions after one bit is the last fork left at 0, counted from 0 |
| `AlarmWalk.AlarmEnumeration` | lib/DallasTemperature/DallasTemperature.cpp:648-710 | every alarmed device is reported once, in order, and then nothing ever again |
| `AlarmWalk.AlarmSimulatesSearch` | lib/DallasTemperature/DallasTemperature.cpp:648-710 | simulation without family byte 0: both searches report the same devices, and after every call that reports one they hold the same code, junction + 1 equals `LastDiscrepancy`, and the end marks agree |
| `AlarmWalk.AlarmAgreesIff` | lib/DallasTemperature/DallasTemperature.cpp:648-710 | the two searches report the same over a whole cycle and its closing empty call if and only if no device has family byte 0, which only the other one refuses |
| `DallasTemperature.DallasTemperature.ResetAlarmSearch` | lib/DallasTemperature/DallasTemperature.cpp:648-654 | the alarm search is back at its initial state, seven address bytes are 0 and the eighth is kept |
| `DallasTemperature.DallasTemperature.AlarmBit` | lib/DallasTemperature/DallasTemperature.cpp:670-702 | one bit of the alarm search stores and writes the same direction as the other walk |
| `DallasTemperature.DallasTemperature.AlarmPass` | lib/DallasTemperature/DallasTemperature.cpp:669-706 | the 64-bit loop ends at the device that the search function chooses, with junction and end mark as there |
| `DallasTemperature.DallasTemperature.AlarmSearch` | lib/DallasTemperature/DallasTemperature.cpp:656-710 | the method does what `AlarmCall` says and writes the caller's buffer only on success |
| `DallasTemperature.DallasTemperature.ValidAddress` | lib/DallasTemperature/DallasTemperature.cpp:140-142 | accepts exactly the codes whose last byte is the CRC of the others |
| `DallasTemperature.DallasTemperature.GetAddress` | lib/DallasTemperature/DallasTemperature.cpp:144-159 | finds a device exactly when the index is below the device count and the size of the ascending listing, no family byte is 0 and that code is valid; it is then the listing's element |
| `DallasTemperature.CallAt` | lib/DallasTemperature/DallasTemperature.cpp:150-156 | after k devices have been reported the next call reports place k of the listing and leaves the state that stands there, or reports nothing when there is none or a family byte is 0 |
| `DallasTemperature.TwinIsInvalid` | lib/DallasTemperature/DallasTemperature.cpp:140-142 | of two codes that differ in the last bit only at most one passes the CRC |
| `DallasTemperature.ValidFamilyListed` | lib/OneWire/OneWire.cpp:357-498 | with valid codes on the wire a targeted search lists the whole family, each device once and in order |
| `ShiftRegister.ShiftsLinear` | lib/OneWire/OneWire.cpp:537-555 | shifting is linear over exclusive or |
| `ShiftRegister.ShiftsInjective` | lib/OneWire/OneWire.cpp:537-555 | shifting a register of the polynomial's width loses nothing |
| `ShiftRegister.CrcInjective` | lib/OneWire/OneWire.cpp:537-592 | two registers agree after a message exactly when they agreed before it |
| `ShiftRegister.CrcLinear` | lib/OneWire/OneWire.cpp:537-592 | the register is linear in start value and message together |
| `ShiftRegister.OneByteDetected` | lib/OneWire/OneWire.cpp:520-592 | two messages that differ in one byte have different CRCs, for any polynomial that fills its width |
| `ShiftRegister.BurstDetected` | lib/OneWire/OneWire.cpp:520-592 | so do messages that differ within eight consecutive bits |
| `ShiftRegister.ParityTracked` | lib/OneWire/OneWire.cpp:520-592 | with an odd polynomial the register carries the parity of the message |
| `Crc8.Crc8Bitwise` | lib/OneWire/OneWire.cpp:537-555 | the bit-by-bit loop computes the CRC |
| `Crc8.TableIsShifts` | lib/OneWire/OneWire.cpp:511-516 | two table rows stand for eight shifts, for every byte |
| `Crc8.Crc8Table` | lib/OneWire/OneWire.cpp:520-531 | the table loop computes the same CRC |
| `Crc8.Residue` | lib/OneWire/OneWire.cpp:520-555 | the CRC of a message with one more byte is 0 exactly when that byte is its CRC |
| `Crc8.Linear` | lib/OneWire/OneWire.cpp:520-555 | the CRC of the bytewise exclusive or of two messages is the exclusive or of their CRCs |
| `Crc8.OneByteCorruption` | lib/DallasTemperature/DallasTemperature.cpp:140-142 | no valid ROM code becomes another valid one by a change of one byte |
| `Crc8.BurstCorruption` | lib/DallasTemperature/DallasTemperature.cpp:140-142 | nor by a burst of up to eight bits across two bytes |
| `Crc8.OddCorruption` | lib/DallasTemperature/DallasTemperature.cpp:140-142 | nor by a change of an odd number of bits |
| `Crc16.TrickIsUpdate` | lib/OneWire/OneWire.cpp:578-588 | the parity trick is eight shifts of the reflected register with x^16 + x^15 + x^2 + 1 |
| `Crc16.Crc16Byte` | lib/OneWire/OneWire.cpp:575-589 | one turn of the loop, in its own steps, is eight shifts |
| `Crc16.Crc16` | lib/OneWire/OneWire.cpp:565-592 | the whole loop is the bitwise CRC from any start value |
| `Crc16.CheckCrc16` | lib/OneWire/OneWire.cpp:559-563 | accepts two bytes exactly when they are the inverted CRC, low byte first |
| `Crc16.ChangeRejected` | lib/OneWire/OneWire.cpp:559-563 | a received message that passed fails after any change of one byte |
| `CStrings.CStringStops` | src/SuplaConfigManager.cpp:159-165 | a C string ends at its NUL whatever follows |
| `CStrings.CStringPrefix` | src/SuplaConfigManager.cpp:159-165 | cutting a buffer cuts its C string to the same number of characters |
| `ConfigText.ElemOfJoin` | src/SuplaConfigManager.cpp:108-122 | a printed field reads back as long as something follows it |
| `ConfigText.OnlyLastHasSeparator` | src/SuplaConfigManager.cpp:108-122 | an element holds a separator if and only if the string ends in one and the element is its last |
| `ConfigText.WriteIsUpdate` | src/SuplaConfigManager.cpp:108-165 | the store refines an array: if the first n fields with a separator each stay below the width before and after, a write changes exactly its field, and the string stays well kept |
| `ConfigText.PinRecordUpdate` | src/SuplaConfigManager.cpp:199-211 | an 18-field pin record in 36 characters is never corrupted while its fields total fewer than 18 characters |
| `ConfigText.WriteSurvivesIff` | src/SuplaConfigManager.cpp:108-165 | a write reads back in the first n fields if and only if they survive the cut |
| `ConfigText.TrailingSeparatorMoves` | src/SuplaConfigManager.cpp:112-121 | writing any other element within the width takes that separator away, for every such string |
| `ConfigText.TrailingSeparatorExample` | src/SuplaConfigManager.cpp:112-121 | "a," keeps its separator in element 0 until element 1 is written |
| `ConfigOption.FindElement` | src/SuplaConfigManager.cpp:108-122 | the index loop of `getElement` finds the element |
| `ConfigOption.ConfigOption.constructor` | src/SuplaConfigManager.cpp:34-44 | an option that is loaded and has a declared width holds its initial value cut to that width; any other one has no buffer and reads as empty |
| `ConfigOption.ConfigOption.SetValue` | src/SuplaConfigManager.cpp:159-165 | the buffer holds the value cut to its width and NULs to its end |
| `ConfigOption.ConfigOption.GetElement` | src/SuplaConfigManager.cpp:108-122 | reads the element of the stored string |
| `ConfigOption.ConfigOption.ReplaceElement` | src/SuplaConfigManager.cpp:143-157 | the reprinted list, cut to the width, is the string `Written` |
| `ConfigManager.OffsetsIncrease` | src/SuplaConfigManager.cpp:675-684 | the blocks of the image do not overlap |
| `ConfigManager.ReadInto` | src/SuplaConfigManager.cpp:672-673 | below the file's length the buffer holds the file's characters, above it what it held before; a file of the buffer's length is the buffer |
| `ConfigManager.LoadedFromFile` | src/SuplaConfigManager.cpp:675-684 | an option whose whole block is in the file gets the C string of that block cut to its width, unless that is empty; one without a buffer gets nothing |
| `ConfigManager.SaveThenLoad` | src/SuplaConfigManager.cpp:637-760 | reading a saved image into any buffer and loading it, in this build or another with the same widths, gives each key that both load its saved value if there was one, and leaves every other key alone |
| `ConfigManager.BlocksMakeImage` | src/SuplaConfigManager.cpp:726-742 | blocks written one after the other at the running offset make an image, byte by byte: every string in its block, padded with NULs |
| `ConfigManager.ConfigManager.Get` | src/SuplaConfigManager.cpp:801-808 | finds the option with the key, or nothing |
| `ConfigManager.ConfigManager.Set` | src/SuplaConfigManager.cpp:815-823 | replaces the value of one key and of no other |
| `ConfigManager.ConfigManager.SetElement` | src/SuplaConfigManager.cpp:846-855 | exactly the option of the key changes, to the string `Written` |
| `ConfigManager.ConfigManager.Save` | src/SuplaConfigManager.cpp:712-760 | the array filled block by block is the image of the current values, byte by byte |
| `ConfigManager.ConfigManager.Load` | src/SuplaConfigManager.cpp:637-710 | every option becomes what the file gives it (`FromFile`, in terms of the file itself) and what `LoadedTexts` says of the file read over a buffer with arbitrary bytes; the file may be shorter than expected |
| `Decimal.ToIntOfDigits` | src/SuplaConfigManager.cpp:825-827 | a number printed into the configuration reads back |
| `Decimal.DigitsAppend` | src/SuplaConfigManager.cpp:825-827 | the printed text is decimal notation |
| `Decimal.ToIntStops` | src/SuplaConfigManager.cpp:825-827 | reading stops at the first character that is not a digit |
| `PinTable.HolderUnique` | src/SuplaConfigESP.cpp:314-362 | under the invariant at most one pin serves a function and number, and `getGpio` finds it |
| `PinTable.SaveKeepsIff` | src/SuplaWebServer.cpp:220-328 | a form line keeps the invariant if and only if it does not double: it does not give a free pin to number 255 of a function while another pin is stored under the number 0 that 255 wraps to |
| `PinTable.AllocatorSafety` | src/SuplaWebServer.cpp:220-328 | for any sequence of form lines, all numbers included: from a cleared table no two pins ever serve the same number of a function, or are both the configuration button or LED, if and only if no line of the sequence doubles |
| `PinTable.SafeNumbers` | src/SuplaWebServer.cpp:220-328 | with two pins or more, every run of form lines with numbers up to n leaves all pins apart if and only if n is below 255 |
| `PinTable.Number255Clashes` | src/SuplaConfigESP.cpp:629-632 | two lines for number 255 put any ordinary function on any two pins of any table, whatever their limit |
| `PinTable.RefusedIff` | src/SuplaWebServer.cpp:279-318 | a line is refused exactly when it names a real pin that serves another function or number, and then nothing changes |
| `PinTable.OthersUntouched` | src/SuplaWebServer.cpp:290-325 | only the old and the new pin of the function are touched; a line whose field was not filled in is accepted and changes nothing |
| `PinTable.ChangedOnlyIf` | src/SuplaWebServer.cpp:226-325 | a record changes only at the chosen pin of an accepted line, or at the old pin if that one is given up for "no pin" or for a free pin |
| `PinTable.ChosenPin` | src/SuplaWebServer.cpp:290-316 | field by field, what an accepted line that does not take the pin back leaves at the chosen pin: number, function and the settings of the function on a free pin, what was there on a pin that serves it already |
| `PinTable.LeftPin` | src/SuplaWebServer.cpp:286-325 | field by field, what is left at the pin that a function gives up: for "no pin", for a free pin, or at the limit |
| `PinTable.UnfilledDropped` | src/SuplaWebServer.cpp:226-228 | lines whose field was not filled in can be dropped from any run |
| `PinTable.Independent` | src/SuplaConfigESP.cpp:629-701 | functions and configuration flags are independent on every pin, and the expander's fields are never touched |
| `PinTable.FoundIff` | src/SuplaWebServer.cpp:290-325 | after an accepted line for a real pin, for all numbers, limits and functions: the function is found there if and only if it is not taken back (it already held that pin and its number reaches the limit) and it is a configuration function or its number is below 255; otherwise it is found nowhere |
| `PinTable.FoundBelowLimit` | src/SuplaWebServer.cpp:320-325 | an ordinary function below the limit gets the pin it asked for |
| `PinTable.NoPinFrees` | src/SuplaWebServer.cpp:290-292 | "no pin" takes the function away |
| `PinTable.Number255Wraps` | src/SuplaWebPageRelay.cpp:161 | the LED line of the relay page, which has no limit, does it on a board with two pins |
| `PinStrings.FieldWrite` | src/SuplaConfigManager.cpp:199-211 | writing a number that fits into a stored pin record updates exactly its field, and the string stays within its budget |
| `PinAllocator.WriteMatches` | src/SuplaConfigManager.cpp:846-855 | the string layer refines the table, one write at a time |
| `PinAllocator.PinAllocator.GetGpio` | src/SuplaConfigESP.cpp:314-362 | the scan over the strings finds the holder of the table |
| `PinAllocator.PinAllocator.CheckBusyCfg` | src/SuplaConfigESP.cpp:533-550 | a pin is the configuration button or LED by its flag, the LED also by the legacy function |
| `PinAllocator.PinAllocator.SetGpio` | src/SuplaConfigESP.cpp:629-654 | the strings then stand for the table with the pin given away |
| `PinAllocator.PinAllocator.ClearGpio` | src/SuplaConfigESP.cpp:656-701 | the strings then stand for the table with the pin taken back and its defaults |
| `PinAllocator.PinAllocator.SaveGpio` | src/SuplaWebServer.cpp:220-328 | a form line on the strings has the outcome of `PinTable.Save`, result and table; one that was not filled in is accepted and changes no string; options other than the pins are kept |
| `ServoMapping.MapWithin` | src/SuplaServoDimmer.cpp:159-165 | `map` stays between its two ends, reaches both and is monotone, if its product fits 32 bits |
| `ServoMapping.ScaleIs` | src/SuplaServoDimmer.cpp:270 | the 8-bit brightness is 255/1023 of the 10-bit one, rounded down, and 255 above 1023 |
| `ServoMapping.OutsideDeadband` | src/SuplaServoDimmer.cpp:152-165 | outside the dead band the divisors of both sides are positive and the brightness lies in the mapped range |
| `ServoMapping.ContinuousMapping` | src/SuplaServoDimmer.cpp:139-165 | the pulse of a continuous servo stays in range, follows the brightness (against it when inverted), and is stand-still exactly on the dead band |
| `ServoMapping.ContinuousIs` | src/SuplaServoDimmer.cpp:152-165 | the pulse outside the dead band: the share of the way from 40 us beside stand-still to the end that the brightness is beyond the band |
| `ServoMapping.AngularMapping` | src/SuplaServoDimmer.cpp:166-171 | the pulse of an angular servo stays in range, follows the brightness and reaches both ends |
| `ServoMapping.AngularTargetIs` | src/SuplaServoDimmer.cpp:276-291 | where a command sends an angular servo: the share of the way for the brightness, or one end as a relay |
| `ServoMapping.ContinuousDuration` | src/SuplaServoDimmer.cpp:299-307 | a roller move takes its share of the transition time, the same in both directions; stand-still and relays take none |
| `ServoMapping.BrighterIsFull` | src/SuplaServoDimmer.cpp:139-141 | a brightness above 255 counts as 255 |
| `ServoMapping.BrightnessBack` | src/SuplaServoDimmer.cpp:173-179 | reading the brightness back from its pulse is exact when inverted and at most one too low otherwise, with at least 255 us of way |
| `ServoMapping.RelaySyncIff` | src/SuplaServoDimmer.cpp:144-150 | the pulse that a relay servo is assumed at and the one it is sent to agree unless it is inverted |
| `ServoSafety.RunSafe` | src/SuplaServoDimmer.cpp:211-394 | in every reachable state a moving servo is attached and not waiting to be detached |
| `ServoSafety.StepAttachment` | src/SuplaServoDimmer.cpp:211-394 | a step detaches only in a poll that leaves the servo not moving, a continuous one at stand-still, and whose clock reading is the detach delay or more after the remembered one as a 32-bit difference; it attaches only on a command, and pulses only go to an attached servo |
| `ServoRest.WaitingIsRest` | src/SuplaServoDimmer.cpp:221-394 | in every run on a true clock: while a servo waits to be detached, the remembered reading is of a moment since which it has not moved |
| `ServoRest.DetachedAfterRest` | src/SuplaServoDimmer.cpp:221-394 | in every such run, wherever the 32-bit clock wraps: a servo is detached only after it has really been at rest for the detach delay |
| `ServoRest.DetachesIff` | src/SuplaServoDimmer.cpp:384-394 | within one wrap-around of the moment of rest, a poll detaches if and only if the delay is over and a continuous servo stands still, and stops waiting if and only if the delay is over |
| `ServoSafety.RunResting` | src/SuplaServoDimmer.cpp:221-246 | a stopped continuous servo gets no other pulse than stand-still until the next command, and stays attached unless it was sent to stand-still |
| `ServoSafety.LimitStop` | src/SuplaServoDimmer.cpp:238-246 | a limit switch stops an attached continuous servo in the poll that sees it, and only stand-still pulses follow until the next command |
| `ServoSafety.RollingPoll` | src/SuplaServoDimmer.cpp:352-368 | a poll during a timed move sends the target's pulse unless a poll wrote it last |
| `ServoSafety.TimedStopIff` | src/SuplaServoDimmer.cpp:353-368 | the pulses of the poll that ends a timed move, its brightness and the moment it remembers; the last pulse is stand-still if and only if a poll had sent the target's pulse before |
| `ServoSafety.TimedMoveEndsAtRest` | src/SuplaServoDimmer.cpp:332-394 | once it has, all further pulses are stand-still, whatever polls follow |
| `ServoSafety.CommandReachesIff` | src/SuplaServoDimmer.cpp:221-236 | a command reaches a roller in its first poll if and only if its pulse is not the one a poll wrote last, or the servo has it still |
| `ServoSafety.StaysStopped` | src/SuplaServoDimmer.cpp:221-236 | stops and polls keep a stopped roller in the state in which repeating its last command is lost |
| `ServoSafety.RepeatedCommandIsLost` | src/SuplaServoDimmer.cpp:221-236 | such a repeated command counts as a move but the last pulse is still stand-still |
| `ServoSafety.RepeatedMoveIsLost` | src/SuplaServoDimmer.cpp:221-394 | however that repeated move is polled, all it sends is stand-still |
| `ServoSafety.RollOnce` | src/SuplaServoDimmer.cpp:264-394 | the whole story: a timed move ends, stops and polls go by, the same command is given and polled in any way; from the end of the first move on only stand-still is sent |
| `ServoExample.SecondRollExample` | src/SuplaServoDimmer.cpp:264-394 | the same with numbers: fully up, timed stop, fully up again |
| `ServoSteps.FirstValue` | src/SuplaServoDimmer.cpp:272-280 | the first value only tells the servo where it is: no pulse, no move |
| `ServoSteps.ContinuousCommand` | src/SuplaServoDimmer.cpp:282-330 | a later command to a continuous servo: its target pulse, its share of the transition time, and nothing sent yet |
| `ServoSteps.StopIs` | src/SuplaServoDimmer.cpp:248-257 | a stop action reaches rollers only: what is sent, where the servo is then, and the moment remembered |
| `ServoSteps.LimitBrightness` | src/SuplaServoDimmer.cpp:238-246 | at a limit switch the brightness is fully up or fully down |
| `ServoSteps.SkippedPoll` | src/SuplaServoDimmer.cpp:332-339 | a poll of a detached servo, or one within 20 ms of the last, does nothing |
| `ServoSteps.UntimedPoll` | src/SuplaServoDimmer.cpp:352-382 | a continuous servo sent to stand-still arrives in its first poll; as a relay it keeps running |
| `ServoSteps.DetachedForgets` | src/SuplaServoDimmer.cpp:211-219 | in every run a servo that is not attached has no pulse on record, so the first pulse of its next move is sent |
| `ServoSteps.ArrivalIsSent` | src/SuplaServoDimmer.cpp:343-373 | however the move of an angular servo is polled, the last pulse sent at its arrival is the target's, or that was on record already |
| `ServoAngular.CommandStarts` | src/SuplaServoDimmer.cpp:282-322 | a command starts from the current position, takes its share of the transition time, and goes to the pulse that stands for the 10-bit brightness |
| `ServoAngular.PositionToward` | src/SuplaServoDimmer.cpp:345-351 | interpolation goes from start to target without turning back |
| `ServoAngular.ElapsedTime` | src/SuplaServoDimmer.cpp:346 | the 32-bit difference is the true elapsed time for polls within one wrap-around of the start |
| `ServoAngular.CoursePoll` | src/SuplaServoDimmer.cpp:332-388 | one poll of a move goes on toward the target, and one that is not skipped after the end arrives |
| `ServoAngular.WholeMove` | src/SuplaServoDimmer.cpp:332-388 | however a move is polled and wherever the clock wraps, its pulses go from start to target without turning back, and the first poll after the end that is not skipped arrives |
| `ServoAngular.CommandMoves` | src/SuplaServoDimmer.cpp:264-394 | the same from any reachable state: from where the servo is to the target of the brightness within the transition time |
| `ServoRange.PulsesInRange` | src/SuplaServoDimmer.cpp:264-394 | whatever commands, stops and polls arrive, an angular or continuous servo only gets pulses between minimum and maximum, and is attached and not waiting to be detached while it moves |
| `ServoDimmer.SuplaServoDimmer.constructor` | src/SuplaServoDimmer.cpp:18-42 | the state after start-up: at rest, detached, nothing sent, at the pulse of the stored brightness |
| `ServoDimmer.SuplaServoDimmer.HandleStop` | src/SuplaServoDimmer.cpp:248-257 | a stop action is the step `Stop`, and keeps the servo safe and in range |
| `ServoDimmer.SuplaServoDimmer.SetRGBWValueOnDevice` | src/SuplaServoDimmer.cpp:264-330 | a command is the step `SetValue`, and keeps the servo safe and in range |
| `ServoDimmer.SuplaServoDimmer.IterateAlways` | src/SuplaServoDimmer.cpp:332-394 | a poll is the step `Poll`, and keeps the servo safe and in range |
| `Cse7766Frames.FrameIsFromStream` | lib/CSE7766/CSE7766.cpp:224-257 | every frame handed on is 24 consecutive stream bytes with a legal header and no silence above the sync interval |
| `Cse7766Frames.WellFormedIs` | lib/CSE7766/CSE7766.cpp:231-250 | a frame on the line: first byte 0x55 or from 0xF0 on, second 0x5A, 24 bytes with at most 300 ms between them |
| `Cse7766Frames.FramesDisjoint` | lib/CSE7766/CSE7766.cpp:224-257 | frames do not overlap |
| `Cse7766Frames.DeliveredIffIdle` | lib/CSE7766/CSE7766.cpp:224-257 | a well-formed frame on the line is delivered if and only if the parser is idle at its first byte |
| `Cse7766Frames.SilenceResynchronises` | lib/CSE7766/CSE7766.cpp:231-233 | silence brings the parser back to idle |
| `Cse7766Frames.RunDelivered` | lib/CSE7766/CSE7766.cpp:224-257 | a run of back-to-back well-formed frames is delivered frame for frame |
| `Cse7766Pulses.AcceptedHeaders` | lib/CSE7766/CSE7766.cpp:143-173 | which frames count, and that the calibration error is unreachable |
| `Cse7766Pulses.ChecksumIs` | lib/CSE7766/CSE7766.cpp:123-129 | bytes 2 to 22 add up to byte 23 modulo 256 |
| `Cse7766Pulses.ByteChangeDetected` | lib/CSE7766/CSE7766.cpp:123-145 | an accepted checksum fails after any change of one byte from the third on, and after no change of the two header bytes |
| `Cse7766Pulses.FrameEnergy` | lib/CSE7766/CSE7766.cpp:168-221 | the energy grows by the new pulses times the coefficient in bytes 14 to 16, highest first |
| `Cse7766Pulses.EnergyIsPulses` | lib/CSE7766/CSE7766.cpp:168-221 | over frames with one coefficient the energy is the total of the pulses times it |
| `Cse7766Pulses.ErrorOf` | lib/CSE7766/CSE7766.cpp:131-225 | a call leaves no error if and only if every frame it processed was accepted |
| `Cse7766Pulses.PulseConservation` | lib/CSE7766/CSE7766.cpp:208-221 | over any frames, accepted or not, whose bytes 21 and 22 show the low 16 bits of a true count, total plus what grew after readings of 0 is the true growth |
| `Cse7766Pulses.TotalIsGrowthIff` | lib/CSE7766/CSE7766.cpp:208-221 | the total never exceeds the growth of those counts, and equals it if and only if no reading of 0 is followed by growth |
| `Cse7766.Cse7766.ChecksumOk` | lib/CSE7766/CSE7766.cpp:123-129 | the wrapping sum of bytes 2 to 22 is compared with byte 23 |
| `Cse7766.Cse7766.ProcessFrame` | lib/CSE7766/CSE7766.cpp:131-222 | a frame is refused with its error, leaving the meter alone, or its counter (bytes 21 and 22) is kept, its pulses and their energy are added, and the error is kept |
| `Cse7766.Cse7766.Read` | lib/CSE7766/CSE7766.cpp:224-257 | everything that arrived: the parser's new state, the meter after all frames completed, and the error of the last frame refused in this call |
| `DallasReading.PlainReading` | lib/DallasTemperature/DallasTemperature.cpp:530-602 | outside the fault and diagnostic codes a reading is eight times the signed register |
| `DallasReading.FaultReading` | lib/DallasTemperature/DallasTemperature.cpp:540-549 | the fault code of a thermocouple converter, by its lowest fault bit |
| `DallasReading.DiagnosticReading` | lib/DallasTemperature/DallasTemperature.cpp:561-567 | the two diagnostic codes of a DS18B20, by its bytes |
| `DallasReading.CodesAreApart` | lib/DallasTemperature/DallasTemperature.cpp:530-602 | in the working range a reading is taken for a code exactly when it carries the power-on or power-supply pattern of a DS18B20 |
| `DallasReading.ExtendedReading` | lib/DallasTemperature/DallasTemperature.cpp:595-599 | the DS18S20 result is the data sheet formula, its part of a degree bracketed by the two counters, if and only if the reading fits the bits that are kept |
| `DallasReading.ExtendedInRange` | lib/DallasTemperature/DallasTemperature.cpp:595-599 | from -55 to 125 degrees it always is |
| `Max44009.Normalise` | lib/Max44009/Max44009.cpp:238-244 | the loop ends with a mantissa of eight bits, the smallest exponent, at most 14, and the count between the two neighbours |
| `Max44009.SetThreshold` | lib/Max44009/Max44009.cpp:233-249 | a value in range is written as the code of its count, any other one is refused |
| `Max44009.NearestCount` | lib/Max44009/Max44009.cpp:238 | the count is within half a step of the value |
| `Max44009.ReadBackError` | lib/Max44009/Max44009.cpp:220-265 | what is read back in lux differs from the value written by at most eight steps of the exponent and the half step of the rounding |
| `Max44009.DecodeError` | lib/Max44009/Max44009.cpp:252-257 | reading back is within eight steps of the exponent, and within a sixteenth once an exponent is used |
| `Max44009.EncodingUnique` | lib/Max44009/Max44009.cpp:233-257 | a count has one code |
| `Max44009.Reencode` | lib/Max44009/Max44009.cpp:233-257 | every normalised register is the code of what it decodes to |
| `Max44009.DecodedInRange` | lib/Max44009/Max44009.cpp:233-257 | what a normalised register reads back as can be written again exactly when its exponent is at most 14 |
| `Max44009.WriteBack` | lib/Max44009/Max44009.cpp:220-257 | writing back what was read gives the same register and no other |
| `BoschTemperature.Bme280.ReadTemperature` | lib/Adafruit_BME280/Adafruit_BME280.cpp:341-358 | refuses exactly the value of a disabled measurement; otherwise the steps of the division form give the fine temperature, with the compensation set before, and the hundredths of `Bme280Reading` |
| `BoschTemperature.Bmp280.ReadTemperature` | lib/Adafruit_BMP280/Adafruit_BMP280.cpp:310-329 | the steps of the shift form give `Bmp280Reading`, and the fine temperature is less than four units too low and two too high against the data sheet's polynomial |
| `BoschTemperature.ShiftIsAccurate` | lib/Adafruit_BMP280/Adafruit_BMP280.cpp:310-329 | against the data sheet's polynomial of the reading without the bits that the differences drop, three roundings cost the shift form less than four units downwards and two upwards, for every calibration and reading |
| `BoschTemperature.DivisionAgainstShift` | lib/Adafruit_BME280/Adafruit_BME280.cpp:341-358 | the division form is the shift form plus one for each negative inexact term, for every calibration and reading |
| `BoschTemperature.Hundredths` | lib/Adafruit_BME280/Adafruit_BME280.cpp:356-358 | both results are the fine temperatures in hundredths of a degree to the nearest one; below zero the division form may be one higher |
| `BoschTemperature.FormsAgree` | lib/Adafruit_BME280/Adafruit_BME280.cpp:341-358 | what the two drivers return for one raw reading: the fine temperatures differ by 0 to 2, by 0 exactly when no term is negative and inexact, and the results by 0 to 2 hundredths; a compensation adds its own share |
| `CInteger.TruncAgainstFloor` | lib/Adafruit_BME280/Adafruit_BME280.cpp:349-354 | C division differs from a right shift on negative inexact quotients only |
| `ChunkWriter.Writer.SendContent` | src/SuplaWebServer.cpp:146-163 | sent chunks followed by the buffered bytes grow by exactly the piece, the NUL fits, no empty chunk is sent, and nothing is sent while the piece fits the buffer |
| `ChunkWriter.Writer.SendContentBuffer` | src/SuplaWebServer.cpp:165-171 | the flush moves the buffered bytes into one chunk |
| `ChunkWriter.Writer.Page` | src/SuplaWebServer.cpp:180-197 | a whole page: the chunks sent are the concatenation of its pieces |

## Left out

- Bus and pin timing, interrupts, delays, SPIFFS and flash calls, logging and HTTP: they appear as a device
  set, a character array, clock values passed in and a list of chunks or pulses.
- Page builders, board templates, conditions, channel acknowledgements and telemetry.
- Humidity, pressure and altitude formulas, heat index, LM75A, MAX31855 and PCT2075.
- Floating point: MAX44009 lux values are exact reals, CSE7766 energy is an exact integer in millionths, the
  dead band is compared in exact integers, and the duration of a roller move is the exact quotient rounded
  down.
- Cse7766.Cse7766.ProcessFrame: voltage, current and active power, floating-point quotients of two fields, are
  not modelled; the acceptance of the frame, the pulses and the energy are.
- Cse7766Pulses.PulseConservation: states pulses, because the energy in the source is a rounded float.
- ConfigManager.SaveThenLoad: a key that either build does not load, or that was empty when saved, keeps its
  value, as in the source.
- `setLength`, `addKey` bounds, `getValueHex` and the migration of old files.
- Decimal.ToIntOfDigits: text with blanks or a sign in front is not modelled; the allocator stores neither.
- PinAllocator.PinAllocator.ClearGpio: the relay number of a cleared button and the type of a cleared relay's
  thermostat are elements of other options (`beside`), and what is written there is not modelled.
- PinAllocator.PinAllocator.SaveGpio: pins up to the "no pin" value only, because a larger number from a form
  addresses unrelated options; the virtual relay (pin 77), the analog pin and the port expander fields 8 to 15
  are other options. "No pin" shares its key with the display
  type; writes to it are modelled as not reaching the table.
- Legacy pins whose function field holds the configuration LED are read by `PinTable.BusyCfg` but excluded by
  the invariant.
- ServoRest.DetachedAfterRest: takes the limit switch to read the clock before the poll and the end of a timed
  move after it, in the order of the code.
- ServoAngular.CommandMoves: needs minimum at most maximum and products below 2^31, as the 32-bit arithmetic
  of the source does.
- ServoMapping.ContinuousMapping: needs 40 us on both sides of the stand-still pulse and a product below 2^31.
- ServoMotion: a servo without a pin ignores everything and is not modelled; actions other than stops are
  arbitrary commands; the pulse that `attach` itself may send belongs to the servo library.
- DallasTemperature.DallasTemperature.GetAddress: the device count is a field that the model does not compute.
- Crc8, Crc16: messages are sequences of bytes; the length argument is the sequence's length.
