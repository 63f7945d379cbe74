# A verified model of the device firmware's algorithms and protocols

The firmware consists of actors that exchange messages. This project models the parts of it that
compute or that run a protocol, and proves what they promise over all inputs, all runs and, where
processes interleave, all interleavings. What other parts of the system answer (the flash and file
system drivers, the network, the allocator, the clock, other actors) is an input of each step, so
every statement holds whatever they answer.

| file | what it models |
|---|---|
| `Common.dfy` | what several files share |
| `Calendar.dfy` | epoch seconds to dates and back over a four-year table; weekdays and the weekday masks of the schedule |
| `DateWindow.dfy` | the date window of a schedule record, day-of-year numbering under the other leap rule |
| `Dst.dfy` | UTC to local time with a daylight-saving table |
| `Schedule.dfy`, `SunTimes.dfy`, `Loader.dfy` | one two-pass scan of the schedule table; which sunset and sunrise it uses; the batched loader that fills the table |
| `Polling.dfy`, `Scheduler.dfy` | the polling loop: the once-per-minute latch and the time warp; the loop together with the scan, in real time and in a time warp |
| `Gf2.dfy` | polynomials over GF(2), division with remainder |
| `Crc.dfy`, `Registers.dfy`, `Checksums.dfy` | the two bit-serial checksums, their algebra, error detection |
| `OtaStream.dfy` | the firmware update that arrives as write requests |
| `Hex.dfy`, `BleOta.dfy`, `Bench.dfy` | hexadecimal payloads, the chunked update and the throughput bench of the BLE link |
| `HttpReader.dfy`, `Download.dfy` | reading with reconnect and skip; the stop-and-wait download of three processes |
| `Debounce.dfy` | the digital-input task |
| `JsonMerge.dfy`, `LogRotation.dfy` | storing variables, the two-file logs |
| `CopyAll.dfy` | copying all files with retries |

Code that changes state step by step is modelled by classes and loops whose postconditions tie the
new state to a specification function of the old one; the promises are then proved of those
functions. `dafny verify dfyconfig.toml` checks the project.

## Where the code does not do what its surroundings suggest

Each of these is stated by the members named, most with the exact condition.

- The calendar has 2100-02-29: `Calendar.SuccessorIsGregorian` and `Calendar.DecodedDateIsGregorian`
  hold up to 2100-02-28 and not after.
- The weekday formula subtracts 2 in unsigned arithmetic and is wrong for the first two days of 2000
  (`Calendar.WeekdayTestIsExact`).
- A sun-relative record whose offset leads before midnight is never due (`Schedule.SunTimeWraps`).
- In a time warp, or when the report of a scan cannot be allocated, a sun-relative record may be timed by the
  sun of another day: only the first record in its window refreshes a stored time, only the one it depends
  on, and only if the day of the month has changed (`Scheduler.TodaysSunIsUsedIff`).
- A gap in the row ids of a full batch of the loader makes it store a row twice (`Loader.LoadIsExact`).
- Polls more than six seconds apart can miss a minute (`Polling.SixSecondsSufficeAndNoMore`); a time warp that
  starts while the latch is set skips its first minute (`Polling.LatchedWarpSkipsTheFirstMinute`).
- An abandoned firmware update, or one with a failed write, leaves its session open: the header of the next
  image is not checked, and the report may come before its last request. It comes with the last one and is
  right iff the session held fewer bytes than that request carries (or there is only one request) and those
  bytes happened to have checksum zero (`OtaStream.AbandonedSessionTaintsTheNext`).
- The comment "always send, even on error" at the acknowledgement of OTA chunks does not hold for
  messages without the three fields (`BleOta.MalformedMessagesAreInvisible`), and the number of chunks is
  taken from each chunk alone (`BleOta.AnnouncedLengthIff`, `BleOta.TotalIsNotRemembered`). A failure to set the
  boot partition is not noticed; the device restarts with the old image (`BleOta.Updater.HandleChunk`).
- `crc_match` compares lengths only (`Bench.MatchComparesOnlyLengths`).
- A download whose mode starts with "w" but is not "w", or starts with another letter, keeps only its last
  chunk (`Download.SuccessLeavesTheBodyIff`); a lost request or answer, and nothing else, stops it for ever
  (`Download.HangsIffMessageLost`, `Download.LostMessageHangs`).
- A number stored over a value that is not a number is lost (`JsonMerge.KeyTakesItsValueIff`), and a
  file that cannot be read is replaced by the request alone (`JsonMerge.VariableFile.WriteVariable`).
- A search that fails and a renaming that fails for good let the log grow without bound
  (`LogRotation.OverrunIff`, `LogRotation.GrowsWithoutBoundIff`).
- A text stored over a value that is not a text makes the code compare a null pointer
  (`JsonMerge.JsonObject.Update`).
- Some input combinations share their action code with a single input (`Debounce.SharedCodes`).

## Model

| member | source | states |
|---|---|---|
| Calendar.EpochToDateTime | main/EVENT_Actor.c:1311-1332 | the loops that decode an epoch find the date the specification function gives, with a year below 256 |
| Calendar.DateOfDay | main/EVENT_Actor.c:1316-1331 | every day number has a date that fits its month and encodes back to it |
| Calendar.EncodeUndoesDecode | main/EVENT_Actor.c:1311-1340 | encoding a decoded epoch gives the epoch, and the fields are in range |
| Calendar.DecodeUndoesEncode | main/EVENT_Actor.c:1311-1340 | decoding an encoded date and time gives it back |
| Calendar.DateIsDetermined | main/EVENT_Actor.c:1334-1340 | two dates with one day number are equal |
| Calendar.SuccessorIsGregorian | main/EVENT_Actor.c:309-315 | day n+1 is the Gregorian successor of day n iff n is not 2100-02-28 |
| Calendar.DecodedDateIsGregorian | main/EVENT_Actor.c:1311-1332 | day n is the n-th day of the Gregorian calendar counted from 2000-01-01 iff n is at most 2100-02-28 |
| Calendar.ParseWeekDays | main/EVENT_Actor.c:3230-3248 | the loop over the letters computes the union of their bits |
| Calendar.MaskHasBit | main/EVENT_Actor.c:3236-3246 | the mask has a day's bit iff the day's letter occurs in the string |
| Calendar.WeekdayTestIsExact | main/EVENT_Actor.c:1784 | the scan's weekday test selects exactly the day's letter for every string iff the day is not one of the first two of 2000 |
| DateWindow.DayNumberingsAgree | main/EVENT_Actor.c:1291-1305 | day-of-year and four-year table number the days alike iff the date is not after February of year 100 or 200 |
| DateWindow.YDayOrderIsDateOrder | main/EVENT_Actor.c:1296-1305 | day-of-year numbers order existing dates by month, then day |
| DateWindow.StartEpochDay | main/EVENT_Actor.c:1351-1431 | the first day of the window, for fixed dates and for holidays with offset |
| DateWindow.StopEpochDay | main/EVENT_Actor.c:1440-1522 | the last day of the window |
| DateWindow.WindowTestIsCyclic | main/EVENT_Actor.c:1785-1790 | today lies between the two iff its day-of-year lies on the cyclic interval from start to end, over New Year or not |
| DateWindow.DateWindowTest | main/EVENT_Actor.c:1785-1790 | the test of the scan accepts a day iff it lies on the record's cyclic interval |
| DateWindow.FixedRangeAccepts | main/EVENT_Actor.c:1351-1522 | a fixed range accepts the days from its first month and day to its last, over New Year if the first comes later |
| DateWindow.HolidayRangeAccepts | main/EVENT_Actor.c:1368-1390 | a holiday range accepts the days from the day number of one table entry with its offset to that of the other |
| Dst.DstScan | main/EVENT_Actor.c:1641-1651 | the early-exit scan is membership in the union of the intervals |
| Dst.ToLocal | main/EVENT_Actor.c:1635-1657 | the conversion adds the offset and, if daylight saving is enabled and in an interval, one hour |
| Dst.DisabledIsPlain | main/EVENT_Actor.c:1636-1639 | with daylight saving disabled the offset is all that is added |
| Dst.EnablingAddsAnHourIff | main/EVENT_Actor.c:1639-1657 | enabling it adds an hour in the intervals and nothing elsewhere |
| Dst.SharedLocalTime | main/EVENT_Actor.c:1635-1657 | two instants share a local time iff they are 3600 s apart across one end of daylight saving |
| Dst.PreimageCount | main/EVENT_Actor.c:1635-1657 | a local time has no instant in the hour after a start, two in the hour after an end, one otherwise |
| Dst.UsTableIsSpaced | main/EVENT_Actor.c:261-284 | the table's intervals are disjoint, ordered and more than two hours apart |
| Schedule.SunTimeWraps | main/EVENT_Actor.c:1848-1900 | a sun-relative record is due at its minute of the day, past midnight too, but never when it falls before midnight |
| Schedule.DueAtTheSun | main/EVENT_Actor.c:1846-1900 | without offset a sunset record is due at sunset and a sunrise record at sunrise |
| Schedule.WeekdayOfToday | main/EVENT_Actor.c:1778-1784 | the scan tests the weekday of today, counted from 2000-01-01: its letter, in every string |
| Schedule.EligibleIff | main/EVENT_Actor.c:1780-1926 | a record is due iff today is in its window, its string of weekdays holds today's letter and the clock shows its time, or the one its sun time and offset give |
| Schedule.SunSettles | main/EVENT_Actor.c:1812-1902 | after the first record in its window the record loop of a scan no longer changes the sun times |
| Schedule.PriorityChooses | main/EVENT_Actor.c:1973 | comparing with the first pass's priority is having the least sort order in 1..100 among due records |
| Schedule.ChosenIff | main/EVENT_Actor.c:1911-1973 | chosen are all due records of the least sort order in 1..100 and no other |
| Schedule.NothingEmitted | main/EVENT_Actor.c:1934-2090 | nothing is emitted iff no due record has a sort order in 1..100 |
| Schedule.EventTask.TimeOfRecord | main/EVENT_Actor.c:1812-1902 | the time of a record in its window, with the daily refresh of the sun time it depends on |
| Schedule.EventTask.Examine | main/EVENT_Actor.c:1780-1926 | what the first pass finds for a record is its eligibility as defined |
| Schedule.EventTask.FirstPass | main/EVENT_Actor.c:1780-1926 | the first pass leaves the least sort order in 1..100 of the eligible records |
| Schedule.EventTask.SecondPass | main/EVENT_Actor.c:1934-2090 | the second pass emits the chosen records in table order, and each report on an emission stores both of today's sun times |
| Schedule.EventTask.Scan | main/EVENT_Actor.c:1737-2090 | a completed scan emits, in table order, exactly the eligible records of least sort order, and leaves the specified sun times, with the report before the passes that a time warp omits |
| SunTimes.LoopUsesTodaysIff | main/EVENT_Actor.c:1811-1902 | the record loop uses today's sunset or sunrise iff it was stored, or the first record in its window depends on it and finds another day of the month |
| SunTimes.ReportedScanUsesTodaysSun | main/EVENT_Actor.c:1737-1772 | outside a time warp a scan that writes its report times every record by today's sun, whatever was stored |
| SunTimes.FlagsMeanDue | main/EVENT_Actor.c:1780-1926 | the flags of a scan say which records are due, by the sun times it uses |
| SunTimes.EmissionStoresBothTimes | main/EVENT_Actor.c:1990-2020 | a chosen record whose report is written leaves both of today's times, otherwise those the scan used stay |
| SunTimes.LatchAfterScan | main/EVENT_Actor.c:1811-1813 | only a record in its window moves the day latch |
| Loader.ReceiveBatch | main/EVENT_Actor.c:3184-3312 | the records of a reply are stored one after the other from the batch's start |
| Loader.UpdateScheduleTable | main/EVENT_Actor.c:3163-3317 | clearing the table and loading it batch by batch gives the specified table |
| Loader.LoadIsExact | main/EVENT_Actor.c:3166-3316 | the loaded table lists the rows in order iff ids start at 1 and the full batches have no gap |
| Loader.LoadedTableCanBeScanned | main/EVENT_Actor.c:3163-3317 | a table filled without gaps holds its rows and a terminator, as the scan needs |
| Polling.EventLoop.TimeWarpCommand | main/EVENT_Actor.c:4034-4055 | both bounds are cut to whole minutes, a missing one is kept |
| Polling.EventLoop.Iterate | main/EVENT_Actor.c:1611-2143 | one iteration: the instant it uses, whether it scans, the latch and the warp afterwards |
| Polling.EventLoop.RunWarp | main/EVENT_Actor.c:2111-2143 | the loop of a warp ends and scans what the specification lists |
| Polling.AtMostOncePerMinute | main/EVENT_Actor.c:1733-1735 | with nondecreasing local polls two scans are in different minutes |
| Polling.OncePerMinute | main/EVENT_Actor.c:1733-2105 | with polls at most 6 s apart every minute reached after the first is scanned exactly once |
| Polling.ScannedOnceIff | main/EVENT_Actor.c:1733-2105 | a minute after the first is scanned iff some poll in its first six seconds follows one that was in no minute's first six, and then exactly once |
| Polling.SixSecondsSufficeAndNoMore | main/EVENT_Actor.c:1733-2105 | polls at most a given time apart scan every minute they reach iff that time is at most 6 s |
| Polling.LoopFollowsLatch | main/EVENT_Actor.c:1733-2105 | the loop without a warp scans exactly at the polls the latch lets through |
| Polling.WholeMinuteShowsZero | main/EVENT_Actor.c:1612-1691 | a whole minute shows second 0 under any offset and daylight saving, within the 32-bit range and exactly where else |
| Polling.WarpScansEachMinute | main/EVENT_Actor.c:2111-2143 | from a clear latch a warp scans S, S+60000, .. once each in order, max(1,(E-S)/60000) minutes in all |
| Polling.LatchedWarpSkipsTheFirstMinute | main/EVENT_Actor.c:1733-1735 | from a set latch it scans all of them but the first |
| Scheduler.RunPolls | main/EVENT_Actor.c:1611-2105 | the loop with its scans emits what the specification lists poll by poll |
| Scheduler.RunWarp | main/EVENT_Actor.c:1611-2143 | a time warp from a clear latch ends and has emitted, minute by minute in order, what each simulated minute emits |
| Scheduler.EachSimulatedMinuteEmits | main/EVENT_Actor.c:1934-2143 | each simulated minute is scanned at second 0 and emits each of its chosen records exactly once |
| Scheduler.TodaysSunIsUsedIff | main/EVENT_Actor.c:1737-2143 | in any run, time warp or not, a scan uses today's sunset or sunrise iff it was stored before, or the first record in its window depends on it and finds another day of the month, or a report was written since the day began |
| Scheduler.EachChosenRecordOnce | main/EVENT_Actor.c:1934-2090 | what a scan emits are the chosen records, each once, in the order of the table |
| Scheduler.EachMinuteEmitsItsRecords | main/EVENT_Actor.c:1733-2105 | with polls at most 6 s apart and an unchanged table every minute after the first has one scan and emits each of its eligible records of least sort order exactly once |
| Scheduler.EachMinuteEmitsTodaysRecords | main/EVENT_Actor.c:1733-2105 | if the report is written, these are the records eligible by today's sun at whichever poll of the minute one asks |
| Crc.GenCrc161 | main/JFS_FLASH_Actor.c:2504-2517 | the nested loops compute the specified update, from any start value |
| Crc.FileCrc | main/File_Manager_Actor.c:1657-1667 | the file checksum is that of the content up to where reads end, however long each read is, and there is none if one fails |
| Crc.UpdateConcat | main/JFS_FLASH_Actor.c:2504-2517 | the checksum of a concatenation continues from that of the first part |
| Crc.BranchFreeStep | main/BLE_Actor.c:2302-2303 | the branch-free step of the bench is the branching polynomial step |
| Crc.BenchCrc | main/BLE_Actor.c:2300-2305 | the bench loop computes the specified update |
| Gf2.RemainderIsUnique | main/JFS_FLASH_Actor.c:2504-2517 | a polynomial has one remainder modulo the generator |
| Registers.FeedingIsDividing | main/JFS_FLASH_Actor.c:2504-2517 | feeding a message bit by bit leaves the remainder of its polynomial times x^w |
| Registers.FeedAllXor | main/JFS_FLASH_Actor.c:2504-2517 | the checksum is linear |
| Registers.StepIsInjective | main/JFS_FLASH_Actor.c:2507-2512 | the bit step takes different registers to different ones |
| Registers.StepIsBijection | main/JFS_FLASH_Actor.c:2507-2512 | the bit step is a bijection of the registers of its width, with the predecessor of each |
| Registers.BurstIsDetected | main/JFS_FLASH_Actor.c:2504-2517 | messages that differ only within as many consecutive bits as the register has, differ in checksum |
| Registers.Polynomials | main/JFS_FLASH_Actor.c:2502 | 0xA001 stands for x^16+x^15+x^2+1 and 0xEDB88320 for the generator of section 3.2.9 of IEEE Std 802.3 |
| Checksums.Crc16IsRemainder | main/JFS_FLASH_Actor.c:2504-2517 | a register is the 16-bit checksum of a buffer iff its reflected polynomial is the remainder of the message polynomial times x^16 |
| Checksums.Crc32IsRemainder | main/BLE_Actor.c:2296-2307 | the same of the 32-bit checksum of the bench |
| Checksums.Crc16DetectsTwoAdjacentBytes | main/JFS_FLASH_Actor.c:2504-2517 | buffers that differ only within two adjacent bytes get different checksums |
| Checksums.Crc32DetectsFourAdjacentBytes | main/BLE_Actor.c:2296-2307 | payloads that differ only within four adjacent bytes get different checksums |
| Checksums.MessageKeepsRegistersApart | main/JFS_FLASH_Actor.c:2504-2517 | one message takes two start values to one checksum iff they are equal |
| Checksums.ResidueIsZero | main/JFS_FLASH_Actor.c:2504-2517 | two more bytes take the checksum to 0 iff they are its low byte and its high byte |
| OtaStream.Session.WriteBinFileOta | main/JFS_FLASH_Actor.c:2245-2465 | one write request: session variables and replies afterwards, for every header, driver and allocator answer |
| OtaStream.RefusedWithoutSession | main/JFS_FLASH_Actor.c:2267-2396 | without a session an image of another project, a known invalid or the running version, one that is too short and one for which the driver fails is answered with terminate and opens none |
| OtaStream.ChunkInSession | main/JFS_FLASH_Actor.c:2404-2464 | a chunk counts iff it was written and could be answered; the call that reaches the size reports and closes |
| OtaStream.SessionsHaveGoodHeaders | main/JFS_FLASH_Actor.c:2252-2396 | in every run an open session was opened by an image with a good header, and every other call without a session was refused |
| OtaStream.SessionInvariant | main/JFS_FLASH_Actor.c:2236-2465 | in every run: no session implies checksum 0, an open one describes exactly the chunks accepted since it was opened |
| OtaStream.ReportCoversTheSession | main/JFS_FLASH_Actor.c:2434-2464 | a reported checksum is the file checksum of the bytes accepted in the session, which then is closed |
| OtaStream.TransferReportsTheImage | main/JFS_FLASH_Actor.c:2404-2464 | however an image is cut, the last request and no earlier one reports the checksum of the image |
| OtaStream.FirstReportIff | main/JFS_FLASH_Actor.c:2404-2464 | in an open session, with any failed writes, the first report comes with the call that brings all its bytes to the size asked for, and covers all of them |
| OtaStream.AbandonedSessionTaintsTheNext | main/JFS_FLASH_Actor.c:2252-2464 | however the next image is cut, its last request and no earlier one reports its checksum iff the open session held fewer bytes than that request (or there is only one), and they have checksum 0 |
| Hex.HexDecode | main/BLE_Actor.c:1753-1769 | succeeds iff the string is pairs of digits that fit the buffer, then writes exactly the decoded bytes |
| Hex.DecodeUndoesEncode | main/BLE_Actor.c:1753-1769 | decoding the encoding of bytes gives the bytes |
| Hex.EncodeUndoesDecode | main/BLE_Actor.c:1753-1769 | encoding what a string decodes to gives the string in lower case |
| Hex.DecodesToIff | main/BLE_Actor.c:1753-1769 | a string decodes to given bytes iff it is their encoding up to letter case |
| BleOta.Updater.HandleChunk | main/BLE_Actor.c:2083-2188 | one message: session, partition and answers afterwards, for every error |
| BleOta.AcceptedIff | main/BLE_Actor.c:2103-2146 | a chunk is acknowledged without error iff it is the next of an open session or opens one, and is decoded and written |
| BleOta.ErrorTellsWhy | main/BLE_Actor.c:2103-2146 | which error a refused chunk is answered with |
| BleOta.AcceptedChunk | main/BLE_Actor.c:2139-2187 | what an accepted chunk leaves, and when its image is booted |
| BleOta.MalformedMessagesAreInvisible | main/BLE_Actor.c:2095-2098 | messages without the fields change nothing and are not answered |
| BleOta.OpenSessionIsConsecutive | main/BLE_Actor.c:2103-2146 | in every run the open session has written exactly the decoded chunks 0 .. expected-1, the last ones received |
| BleOta.BootedImageIsComplete | main/BLE_Actor.c:2175-2185 | an image is booted only after chunk total-1 and is what the last `total` well-formed messages carry, chunks 0 .. total-1 in order |
| BleOta.ErrorsForceRestart | main/BLE_Actor.c:2123-2161 | after an error answer every chunk is refused until a chunk 0 |
| BleOta.LastChunkClosesTheSession | main/BLE_Actor.c:2175-2187 | after the last chunk of an image, valid or not, every chunk is refused until a chunk 0 |
| BleOta.SendingAnImageBootsIt | main/BLE_Actor.c:2083-2188 | from any state, sending pieces of at most 200 bytes in order, in either letter case, boots exactly the image if the boot partition can be set, and not before the last chunk |
| BleOta.AnnouncedLengthIff | main/BLE_Actor.c:2100-2176 | a booted image has as many chunks as its chunk 0 announced iff that count equals the one of the chunk that boots it |
| BleOta.TotalIsNotRemembered | main/BLE_Actor.c:2100-2176 | a case where they differ: chunk 1 finishes an image that chunk 0 announced longer |
| Bench.Accumulator.SpeedTest | main/BLE_Actor.c:2023-2067 | the operations and what `end` claims |
| Bench.Accumulator.HandleBench | main/BLE_Actor.c:2296-2307 | a payload counts iff armed, with length modulo 2^32 and checksum |
| Bench.CountsExactlyTheArmedPayloads | main/BLE_Actor.c:2015-2307 | in every run the accumulator holds the checksum and the length modulo 2^32 of exactly the payloads that arrived armed since the last start |
| Bench.ActiveIff | main/BLE_Actor.c:2023-2053 | the bench is active iff there was a start and no end since |
| Bench.FragmentationIsInvisible | main/BLE_Actor.c:2296-2307 | cutting a payload in two changes nothing that follows |
| Bench.MatchComparesOnlyLengths | main/BLE_Actor.c:2053-2066 | in every run `crc_match` says that 0 was announced or that the bytes that arrived armed are as many, modulo 2^32 |
| Bench.MeasurementMatchesIff | main/BLE_Actor.c:2023-2066 | start(n), arm, payload, disarm, end matches, from any state, iff n is 0 or the payload's length modulo 2^32 |
| Bench.CrcTellsPayloadsApart | main/BLE_Actor.c:2053-2066 | the `crc32` of the same answer differs for payloads that differ within four adjacent bytes |
| HttpReader.SkipRequest | main/HTTP_Actor.c:1218-1226 | a skipping read asks for something, fits the buffer and never reaches beyond the bytes to skip |
| HttpReader.Reader.Skip | main/HTTP_Actor.c:1215-1237 | skipping never overshoots and leaves nothing iff it arrives where the download left off |
| HttpReader.Reader.ReadChunk | main/HTTP_Actor.c:1179-1251 | data read are the next bytes of the body, after any failures; when there are data for sure and when not |
| Download.StopAndWait | main/HTTP_Actor.c:1174-1304 | in every interleaving: one chunk outstanding at most, downloaded + remaining constant, nothing outstanding while the buffer is filled |
| Download.FileIsAPrefix | main/JFS_FLASH_Actor.c:420-485 | in mode "w" the file is untouched or a prefix of the body, and the bytes downloaded once the last write is acknowledged |
| Download.UntouchedUntilOpened | main/JFS_FLASH_Actor.c:440-463 | in every mode the file is untouched until it could be opened |
| Download.SuccessIsComplete | main/HTTP_Actor.c:1174-1327 | a download that ends without error has read and written the whole body |
| Download.SuccessLeavesTheBodyIff | main/HTTP_Actor.c:1082-1291 | it leaves exactly the body iff the mode is "w", or it appends to an empty file, or there was one chunk |
| Download.HangsIffMessageLost | main/HTTP_Actor.c:1174-1327 | in every run the reader waits with nothing on its way iff a request or an answer was lost |
| Download.LostMessageHangs | main/JFS_FLASH_Actor.c:359-376 | after such a loss it waits for ever, whatever happens later |
| Download.UndisturbedRunsAreHealthy | main/HTTP_Actor.c:1174-1327 | in every interleaving in which reads bring data, nothing is lost and writes succeed there is no error, the reader does not give up, and finishing is succeeding |
| Download.WorkDecreases | main/HTTP_Actor.c:1174-1327 | each step but a turn that finds the response awaited decreases the work left, whatever reads, writes and messages meet |
| Download.EveryDownloadEnds | main/HTTP_Actor.c:1174-1327 | in every run without a lost message the reader has ended or a step that makes progress is possible, and no run has more than 100 times the body's length and 3 of them |
| Download.SucceedsIffUndisturbed | main/HTTP_Actor.c:1174-1327 | a download that has ended has succeeded iff every write succeeded, no message was lost and every read brought data |
| Download.UndisturbedDownloadSucceeds | main/HTTP_Actor.c:1174-1327 | in each such interleaving the download has succeeded or a step that makes progress is possible, and there are at most 100 times the body's length and 3 of them |
| Download.InTurnScheduleSucceeds | main/HTTP_Actor.c:1174-1327 | however the connection cuts the body there is such an interleaving that succeeds |
| Debounce.InputTask.Turn | main/B394_DigitalInput.c:821-877 | one turn of the loop |
| Debounce.SendsIffDue | main/B394_DigitalInput.c:821-877 | an event is sent at a poll iff some edge has its deadline there first, the mask, not zero, unchanged since |
| Debounce.OneEventPerEdge | main/B394_DigitalInput.c:821-841 | an edge has at most one event and an event one edge |
| Debounce.HeldEdgeIsSent | main/B394_DigitalInput.c:821-877 | an edge still unchanged, not zero, at a poll past its deadline has an event by then |
| Debounce.EventIsDebouncedIff | main/B394_DigitalInput.c:834-839 | an event is at least the debounce time after its edge iff the clock has not stepped back behind the edge |
| Debounce.EventWaitsAsConfigured | main/B394_DigitalInput.c:834-839 | no event comes before the configured time, or 1000 ms if that is 0, has passed since its edge, and it comes at the first poll after |
| Debounce.HeldAsConfiguredIsSent | main/B394_DigitalInput.c:834-839 | if the inputs, not all off, hold until that time has passed, one has come |
| Debounce.SteppingBackEndsTheWaitIff | main/B394_DigitalInput.c:838 | after a step back behind the edge the wait is over iff the step, with the debounce time, is at most 2^64 ms |
| Debounce.Resolve | main/B394_DigitalInput.c:846-874 | bank and slot make up the action code |
| Debounce.CodeOfInputs | main/B394_DigitalInput.c:849-874 | input i alone has code i, any other combination its mask |
| Debounce.SharedCodes | main/B394_DigitalInput.c:846-874 | exactly which pairs of different masks share an action code |
| JsonMerge.JsonObject.Update | main/JFS_FLASH_Actor.c:1062-1124 | the loop edits the object to the specified merge and counts the specified differences, or crashes iff a text meets a value that is none |
| JsonMerge.SameKeyIff | main/JFS_FLASH_Actor.c:1076 | keys meet iff they differ in the case of letters at most |
| JsonMerge.SpellingOfKey | main/JFS_FLASH_Actor.c:1104-1112 | nulls, arrays and objects bring their spelling of the key, scalars keep the stored one |
| JsonMerge.LostNumberIsFreeIff | main/JFS_FLASH_Actor.c:1085-1096 | a number that meets another kind is lost and counts unless it equals the numeric fields found there |
| JsonMerge.MergeItemByItem | main/JFS_FLASH_Actor.c:1062-1124 | items keep their places, named ones are updated, others kept, missing ones appended in the request's order |
| JsonMerge.KeyTakesItsValueIff | main/JFS_FLASH_Actor.c:1085-1096 | a key has its new value afterwards iff no number meets an item that is not a number |
| JsonMerge.OtherKeysKeep | main/JFS_FLASH_Actor.c:1074-1122 | keys the request does not name keep place and value |
| JsonMerge.CountIsZeroIff | main/JFS_FLASH_Actor.c:1062-1124 | the count is zero iff the request is scalar and every key already has its value |
| JsonMerge.CountTellsChange | main/JFS_FLASH_Actor.c:1062-1124 | for scalar requests the count is zero iff nothing changes |
| JsonMerge.RepeatingIsFree | main/JFS_FLASH_Actor.c:1062-1124 | the same request again changes nothing, and counts nothing iff it is scalar |
| JsonMerge.VariableFile.WriteVariable | main/JFS_FLASH_Actor.c:1126-1174 | skipping the write leaves the file equal to the merge; an unreadable file is replaced by the request; what a failing write or a crash leaves |
| LogRotation.LogFiles.SaveLog | main/JFS_FLASH_Actor.c:1485-1564 | one log request: both files afterwards, for every answer of the file system |
| LogRotation.AddedIffNotRefused | main/JFS_FLASH_Actor.c:1510-1562 | an entry is added iff its append succeeds and, if rotation is needed, the old log can be removed and the current one does not stay open through three attempts |
| LogRotation.SmallLogTakesTheEntry | main/JFS_FLASH_Actor.c:1511-1557 | a log within its limit, with space left, takes the entry and keeps everything |
| LogRotation.FullLogIsRotated | main/JFS_FLASH_Actor.c:1511-1557 | a log that is too long, or has too little space, becomes the old log when that can be removed and a renaming succeeds in time |
| LogRotation.OldLogStaysUnlessRemoved | main/JFS_FLASH_Actor.c:1514-1520 | otherwise the old log stays unless it was removed for a rotation or dropped for a download |
| LogRotation.NothingIsRefused | main/JFS_FLASH_Actor.c:1485-1564 | in a run whose file operations succeed the two logs hold the last of all entries that were sent |
| LogRotation.StepKeeps | main/JFS_FLASH_Actor.c:2057-2105 | a request keeps a suffix of the entries, and at least the current log with what it adds |
| LogRotation.LogsAreASuffix | main/JFS_FLASH_Actor.c:1485-1564 | under any failures the old log followed by the current one is what was accepted last, without a gap |
| LogRotation.OverrunIff | main/JFS_FLASH_Actor.c:1510-1558 | an entry leaves the current log more than itself over the limit iff the log was over it and the search failed with space left or the renaming failed for good |
| LogRotation.CurrentLogIsBounded | main/JFS_FLASH_Actor.c:1510-1558 | in every run without such a request the current log exceeds its limit by at most one entry |
| LogRotation.GrowsWithoutBoundIff | main/JFS_FLASH_Actor.c:1510-1558 | a log over its limit keeps everything and takes every accepted entry iff no request finds, makes room for and renames it |
| LogRotation.FailedRenamingGrowsWithoutBound | main/JFS_FLASH_Actor.c:1542-1551 | if the old log was removed before each failed renaming, it is gone and no entry was refused |
| CopyAll.CopyAllFiles | main/File_Manager_Actor.c:1788-1871 | the loop ends, makes at most 4n requests, completes iff some round copied all n files, gives up iff four replies were errors, and ends with the card lost iff it does not come back after the last |
| CopyAll.ErrorsAreFailures | main/File_Manager_Actor.c:1818-1820 | the retries that are counted are the error replies |
| CopyAll.LastRepliesWereSuccesses | main/File_Manager_Actor.c:1788-1871 | when it completes the last n replies were successes for files 0 .. n-1 in order |
| CopyAll.CompletesIff | main/File_Manager_Actor.c:1788-1871 | file n would be next iff the n replies of some round, from file 0, were all successes |
| CopyAll.RequestsAreBounded | main/File_Manager_Actor.c:1815-1829 | each of at most four rounds asks at most for n files |

## Left out

- Queues, semaphores, delays, tasks and their stacks: a queue is a sequence, a task's step is one step of the model. Races on the local time and on the schedule table while it is reloaded are not modelled.
- The formulas for sunrise and sunset (main/EVENT_Actor.c:3326-3607): a scan takes today's times as inputs. The console command that also stores them (main/EVENT_Actor.c:3980-3981) between scans.
- The contents of the holiday and daylight-saving tables as dates; only the spacing of the latter is proved.
- Schedule tables of more than 256 records, which the 8-bit index of the window functions cannot reach, row ids above the size of the table, and months outside 1..12.
- UTC instants before 2000, which the code represents as huge unsigned numbers.
- The scan's exits in the middle when events are switched off, and its `continue` statements (main/EVENT_Actor.c:1985 and 2060) that leave the shifted weekday bit behind.
- The loader's handling of a row that does not parse, which ends the load like a row that does not come.
- The comparison of project name and version in the first chunk of a firmware update: its result is an input. What the flash holds after a failed write is not modelled.
- Chunk numbers beyond the range of `int`, and the conversion of such numbers from a JSON double.
- Download modes for firmware files, whose chunks go to the update session instead; uploads; the mail reader; the comparison of checksums after a download.
- Download: the file is opened, written and closed in one step of the file actor, and reading with reconnects is one step of the reader, proved by itself in `HttpReader.dfy`; no other process takes a step that matters meanwhile.
- JsonMerge.JsonObject.Update: does not model requests with two keys that are equal or differ only in case, whose second item would meet fields left over from the first.
- Printing and parsing of JSON, and the limits on file size while storing variables. The JSON library's lookup that ignores case, and its replacement that keeps the place and takes the new spelling of the key, are taken as they are documented.
- Logs: an append that writes part of an entry. The separate log of the WiFi actor.
- Copying all files: what is sent to the other actors after the loop, which does not depend on the outcome.
- The get, set, help and property code of the actors, the LED, Ethernet and idle actors, and the configuration files: many cases, each easy.
