# Verified models of the device firmware's libraries

A Dafny project about the difficult parts of an Arduino firmware tree for a device that measures, keeps time and talks to
a cloud service. The firmware's own headers are thin; what is modelled here are the libraries below them, each in the form
its source has: objects with fields that methods update, loops over arrays, and functions where the source only computes.
Every operation is proved against a specification, and what the source promises is proved about that specification.

`Basics.dfy` holds what several models share. Run `dafny verify dfyconfig.toml` to check everything.

| component | files | what is proved |
|---|---|---|
| Streaming SHA-256 and HMAC | `Fips180.dfy`, `Fips180Constants.dfy`, `Fips180Example.dfy`, `Sha256.dfy` | the standard's tables are the roots of primes that it says they are, and its worked example comes out; the byte-at-a-time hasher computes SHA-256 of FIPS 180-2 and HMAC of RFC 2104 for every message whose length fits its 32-bit count, and pads as the standard says exactly for those |
| MQTT packets | `MqttCodec.dfy`, `Mqtt311.dfy`, `MqttFlags.dfy`, `MqttWriter.dfy`, `MqttReader.dfy`, `MqttRoundTrip.dfy`, `MqttSession.dfy` | every packet sent is the one MQTT 3.1.1 lays out, byte for byte; lengths and writers agree exactly for strings without NUL; every packet is read back, in whatever portions it comes as long as the reader never finds nothing there; the two PUBLISH readers agree |
| MQTT client | `MqttTrace.dfy`, `MqttClient.dfy` | laws of every run of the mutually recursive send, wait and handle functions: bounded retries, one id per call, QoS 2 in order, no second open ping; termination |
| Calendars and clock | `Calendar.dfy`, `TimeLib.dfy`, `Calendars.dfy`, `Clock.dfy` | break-down and make-up of times are inverse, three calendar computations agree, the clock survives the wrapping counter |
| EDM types | `EdmNumbers.dfy`, `EdmDates.dfy`, `EdmDateTimes.dfy`, `EdmStrings.dfy`, `EdmBinary.dfy` | printers and parsers undo each other within their fixed buffers, and the texts accepted for numbers, dates and binary values are described exactly; the two-pass escaper is exact |
| Base64 | `Rfc4648.dfy`, `Base64.dfy` | the in-place codec and its length functions meet RFC 4648 |
| Value trees | `ValueTrees.dfy` | deep copy and destruction own, release and share exactly what they should, under every pattern of allocation failures |
| Commands | `Commands.dfy`, `DesiredProperties.dfy` | schema-directed decoding succeeds exactly on conforming trees; a command makes exactly the call its text asks for, once or not at all; properties land at the sums of the offsets along their paths |
| JSON arenas | `JsonArenas.dfy` | after any sequence of allocations and string building, all regions are aligned, disjoint and inside their blocks, and every string reads exactly as built |
| Block upload | `Blob.dfy` | the commit is sent exactly after a complete upload, with the right list |

## How the world is modelled

- The millisecond counter is a wrapping 32-bit number. Between calls any time may pass; between two samples inside one
  call it is any time below a second for the clock, and any time below 2^30 ms on a connection. Sockets deliver a sequence
  of bytes or packets, and each answers `available`, `write` and `connected` in any way. Memory is granted or refused in
  any way, and refusals are counted, so that an operation can be said to succeed if and only if nothing was refused.
  HTTP answers and callbacks are arbitrary.
- `int`, `long`, `size_t` and pointers have 32 bits. Where the source lets numbers wrap, the model says so.
- Ghost fields record what has happened: bytes fed to a hasher, events on a connection, regions given out, callbacks made.

## Where the source and its descriptions disagree

The model follows the code.

- PUBACK has no variable header of its own and goes out without its packet id (`MqttRoundTrip.PubAckLosesItsId`), although
  its constructor takes one.
- The length field of a hash is right exactly below 2^32 bytes (`Sha256Streaming.PaddingIsStandardExactlyBelow4GB`).
- A packet is filled exactly if and only if no string in it holds a NUL (`MqttCodec.LengthsAgreeExactlyWithoutNul`).
- The summer time formula leaves out the century terms, and is right in exactly the years where they cancel
  (`Calendars.FormulasExactlyInFormulaYears`); with zones beyond 23 hours a switch can leave its month. Otherwise it is
  wrong at some moment of the year (`Calendars.SummertimeExactlyWhenSwitchesInMonth`).
- A broken-down time round trips if and only if its seconds fit 32 bits (`TimeLib.BreakUndoesMakeExactlyIn32Bits`), and the
  getters are wrong for time 0 until they have been asked for another time (`Clock.GettersRightExactlyOnceWarm`).
- A validated date-time whose unprinted parts are not in normal form comes back normalised
  (`EdmDateTimes.RoundTripExactlyNormal`).
- Block ids are padded with spaces where a comment promises zeros. A refused block, with a status of 300 or more, is
  reported as success without a commit, as is any status of the commit itself.
- Setting the QoS of a PUBLISH back to 0 with `set_qos` leaves it asking for a packet id (`MqttFlags.PublishFlags.SetQos`).
- readPacket does not wait for the rest of a small packet: if nothing is available for a moment it goes on with an
  unset buffer (`MqttReader.Network.ReadSmall`).
- `connect` takes any CONNACK for success: its return code is not looked at.

## Model

| member | source | states |
|---|---|---|
| Sha256Streaming.TwoShiftsRotate | libraries/AzureIoTHubMQTTClient/src/sha256.cpp:35-37 | the two shifts of `ror32` are the circular right shift of FIPS 180-2 section 3.2, for every distance up to 32 |
| Sha256Streaming.Ror32 | libraries/AzureIoTHubMQTTClient/src/sha256.cpp:35-37 | returns the circular right shift of its argument |
| Sha256Streaming.XorThreeReversesLanes | libraries/AzureIoTHubMQTTClient/src/sha256.cpp:81 | `offset ^ 3` keeps the word of a byte and reverses its place within it, so bytes arrive in big-endian order |
| Sha256Streaming.ChooseIsCh | libraries/AzureIoTHubMQTTClient/src/sha256.cpp:63 | the rewritten Ch equals the standard one on all words |
| Sha256Streaming.MajorityIsMaj | libraries/AzureIoTHubMQTTClient/src/sha256.cpp:67 | the rewritten Maj equals the standard one on all words |
| Sha256Streaming.SwapMakesBigEndian | libraries/AzureIoTHubMQTTClient/src/sha256.cpp:118-126 | the final byte swap lays a word out most significant byte first |
| Sha256Streaming.Sha256Class.Init | libraries/AzureIoTHubMQTTClient/src/sha256.cpp:29-33 | afterwards the hasher stands for the empty message |
| Sha256Streaming.Sha256Class.HashBlock | libraries/AzureIoTHubMQTTClient/src/sha256.cpp:39-78 | the state becomes one compression of FIPS 180-2 section 6.2.2 of the old state and buffer; at step i the sixteen-word ring holds the newest schedule words |
| Sha256Streaming.Sha256Class.Schedule | libraries/AzureIoTHubMQTTClient/src/sha256.cpp:53-60 | after step i the ring holds W up to i, each word at its number modulo 16, and the step uses W_i |
| Sha256Streaming.Sha256Class.ScheduleWord | libraries/AzureIoTHubMQTTClient/src/sha256.cpp:54-58 | the word computed from the ring is W_i of the standard schedule |
| Sha256Streaming.Sha256Class.Mix | libraries/AzureIoTHubMQTTClient/src/sha256.cpp:61-67 | the two temporaries of a round are T1 and T2 of the standard |
| Sha256Streaming.Sha256Class.AddToState | libraries/AzureIoTHubMQTTClient/src/sha256.cpp:70-77 | adds the working variables to the hash word by word |
| Sha256Streaming.Sha256Class.StoreByte | libraries/AzureIoTHubMQTTClient/src/sha256.cpp:81 | changes exactly one byte of the buffer, the one the message order asks for |
| Sha256Streaming.Sha256Class.AddUncounted | libraries/AzureIoTHubMQTTClient/src/sha256.cpp:80-87 | one byte more has been fed: state is the fold over the full blocks and the buffer holds the tail; the offset counts modulo 64 |
| Sha256Streaming.Sha256Class.Write | libraries/AzureIoTHubMQTTClient/src/sha256.cpp:89-92 | one byte more has been fed, and the 32-bit count follows |
| Sha256Streaming.Sha256Class.Pad | libraries/AzureIoTHubMQTTClient/src/sha256.cpp:94-110 | feeds 0x80, the least number of zeros that reaches offset 56 and the length field; ends with offset 0 |
| Sha256Streaming.Sha256Class.AddLength | libraries/AzureIoTHubMQTTClient/src/sha256.cpp:102-109 | feeds the eight bytes of the length field |
| Sha256Streaming.Sha256Class.Result | libraries/AzureIoTHubMQTTClient/src/sha256.cpp:113-130 | for messages below 2^32 bytes returns their SHA-256; beyond, the hash with the wrapped length field |
| Sha256Streaming.Sha256Class.SwapState | libraries/AzureIoTHubMQTTClient/src/sha256.cpp:117-126 | turns the state into the bytes of the hash |
| Sha256Streaming.Sha256Class.WriteAll | libraries/AzureIoTHubMQTTClient/src/sha256.cpp:144 | feeding a run of bytes appends exactly these |
| Sha256Streaming.Sha256Class.WriteMasked | libraries/AzureIoTHubMQTTClient/src/sha256.cpp:152-154 | feeds the key buffer combined with a mask byte |
| Sha256Streaming.Sha256Class.StoreKey | libraries/AzureIoTHubMQTTClient/src/sha256.cpp:140-149 | the key buffer holds the bytes followed by zeros |
| Sha256Streaming.Sha256Class.InitHmac | libraries/AzureIoTHubMQTTClient/src/sha256.cpp:138-155 | the key buffer is the key block of RFC 2104 section 2, a long key hashed first, and the inner hash has been started |
| Sha256Streaming.Sha256Class.ResultHmac | libraries/AzureIoTHubMQTTClient/src/sha256.cpp:157-166 | after initHmac and writes of a text below 2^32 - 64 bytes, where the count of the inner hash still fits, returns the HMAC of RFC 2104 section 2 |
| Sha256Streaming.PaddingIsStandardExactlyBelow4GB | libraries/AzureIoTHubMQTTClient/src/sha256.cpp:94-110 | the padding is that of FIPS 180-2 section 5.1.1 if and only if the message is below 2^32 bytes |
| Sha256Streaming.FewerZerosMissTheMark | libraries/AzureIoTHubMQTTClient/src/sha256.cpp:99 | the padding loop stops at the standard number of zeros and not before |
| Fips180Constants.PrimeNumbers | libraries/AzureIoTHubMQTTClient/src/sha256.cpp:5-14 | each of the 64 numbers behind the table is a prime, and the smaller primes are exactly those before it |
| Fips180Constants.RoundConstants | libraries/AzureIoTHubMQTTClient/src/sha256.cpp:5-14 | section 4.2.2 of FIPS 180-2, for all 64 entries: the first 32 bits of the fraction of the cube root of the prime with as many smaller ones, by inequalities on integers |
| Fips180Constants.InitialHash | libraries/AzureIoTHubMQTTClient/src/sha256.cpp:18-27 | section 5.3.2: the words of the initial state are those of the square roots of the first eight primes |
| Fips180Example.HashOfAbc | libraries/AzureIoTHubMQTTClient/src/sha256.cpp:39-130 | section B.1 of FIPS 180-2: the standard the hasher is compared with turns "abc" into the digest printed there; all 64 schedule words and states are numbers |
| Fips180Example.RoundStep | libraries/AzureIoTHubMQTTClient/src/sha256.cpp:61-67 | one iteration with its rotations as pairs of shifts, for any state |
| Fips180Example.WordStep | libraries/AzureIoTHubMQTTClient/src/sha256.cpp:54-58 | one schedule word with its rotations as pairs of shifts, for any four words |
| TimeLib.BreakTime | libraries/Time/Time.cpp:151-202 | for every 32-bit time the fields are those of the proleptic calendar; the year stays far below the limit of its byte |
| TimeLib.SplitYear | libraries/Time/Time.cpp:170-178 | the accumulated days find the year and the day within it |
| TimeLib.SplitMonth | libraries/Time/Time.cpp:180-201 | the month loop finds the month and the day within it |
| TimeLib.MakeTime | libraries/Time/Time.cpp:204-233 | returns the seconds since 1970 of the fields, modulo 2^32 |
| TimeLib.BrokenDownIsUnique | libraries/Time/Time.cpp:151-202 | no two broken-down times stand for the same second |
| TimeLib.MakeUndoesBreak | libraries/Time/Time.cpp:151-233 | makeTime(breakTime(t)) is t for every 32-bit t |
| TimeLib.BreakUndoesMakeExactlyIn32Bits | libraries/Time/Time.cpp:151-233 | a valid broken-down time comes back if and only if its seconds fit 32 bits, and then with the right weekday |
| TimeLib.LeapDaysAreTheRest | libraries/Time/Time.cpp:213-218 | the loop over leap years adds exactly the days beyond 365 a year |
| Calendar.KnownDays | libraries/Time/Time.cpp:161-169 | 1 January 1970 was a Thursday and 1 January 2000, 10957 days later, a Saturday |
| Calendars.DaysInAllPreviousMonths | libraries/AzureIoTHub/src/sdk/agenttypesystem.c:2951-2974 | sums the months before the given one, with 28 days for February |
| Calendars.FillYdayWday | libraries/AzureIoTHub/src/sdk/agenttypesystem.c:2977-2988 | for every valid date from year -9999 to 9999 fills in the day of the year and the weekday of the proleptic calendar |
| Calendars.FillAgreesWithBreakTime | libraries/Time/Time.cpp:161-201 | for every 32-bit time the weekday and day of the year of the two calendars agree |
| Calendars.FormulasExactlyInFormulaYears | libraries/AzureIoTHubMQTTClient/src/NtpClientLib_ESP.cpp:311 | the formula gives the last Sunday of March, and likewise of October, in exactly the years whose omitted century terms add up to a multiple of seven |
| Calendars.FormulaYears | libraries/AzureIoTHubMQTTClient/src/NtpClientLib_ESP.cpp:306-315 | 1900 to 2099 are such years and 2100 to 2199 are not |
| Calendars.SummertimeExactlyWhenSwitchesInMonth | libraries/AzureIoTHubMQTTClient/src/NtpClientLib_ESP.cpp:306-315 | for every year up to 9999 and every zone, summertime is right all year round if and only if the formula has the right Sundays and both switches fall into their months; the latter holds for zones up to 23 hours |
| Calendars.WrongSundays | libraries/AzureIoTHubMQTTClient/src/NtpClientLib_ESP.cpp:306-315 | in every other year there is a moment at which summertime is wrong |
| Calendars.SwitchOutsideMonth | libraries/AzureIoTHubMQTTClient/src/NtpClientLib_ESP.cpp:306-315 | so there is when a switch leaves its month |
| Calendars.SummertimeInMonth | libraries/AzureIoTHubMQTTClient/src/NtpClientLib_ESP.cpp:306-315 | summertime switches at 01:00 UTC on the last Sundays of March and October |
| Clock.SystemClock.CountSeconds | libraries/Time/Time.cpp:250-259 | whatever the wrapping counter does, less than a second is left uncounted, unless calls are almost a whole turn of the counter apart |
| Clock.SystemClock.Now | libraries/Time/Time.cpp:250-272 | the clock shows the true time, asks the provider exactly when the sync time has come, and follows its answer |
| Clock.SystemClock.SetTime | libraries/Time/Time.cpp:274-284 | the clock stands at the given time and counts from now |
| Clock.SystemClock.AdjustTime | libraries/Time/Time.cpp:302-304 | shifts the clock, modulo 2^32, and nothing else |
| Clock.SystemClock.SetSyncProvider | libraries/Time/Time.cpp:312-316 | the provider is asked at once, unless the 32-bit seconds wrap during the call; its answer is followed, and less than a second is left uncounted |
| Clock.SystemClock.SetSyncInterval | libraries/Time/Time.cpp:318-321 | the next sync is an interval from the time the clock shows |
| Clock.TimeCache.RefreshCache | libraries/Time/Time.cpp:42-47 | afterwards the cache is the break-down of t, except that it stays cold as long as only time 0 has been asked for |
| Clock.TimeCache.Year | libraries/Time/Time.cpp:137-140 | the calendar year of t, after any queries |
| Clock.TimeCache.HourFormat12 | libraries/Time/Time.cpp:62-70 | after any queries: between 1 and 12 and equal modulo 12 to the hour of t |
| Clock.GettersRightExactlyOnceWarm | libraries/Time/Time.cpp:38-47 | after any queries the cache is right for t if and only if t is not 0 or some earlier query was for another time than 0 |
| MqttCodec.VarIntLength | libraries/AzureIoTHubMQTTClient/src/MQTT.cpp:111-120 | the length function of the fixed header is right if and only if the remaining length is below 2^28 |
| MqttCodec.VarIntRoundTrip | libraries/AzureIoTHubMQTTClient/src/MQTT.cpp:137-143 | reading the remaining length gives back the number written, whatever follows, for numbers of any size |
| MqttCodec.LengthsAgreeExactlyWithoutNul | libraries/AzureIoTHubMQTTClient/src/MQTT.cpp:150-176 | what is written fills the allocated packet exactly if and only if no string holds a NUL, and never exceeds it |
| MqttCodec.CStringIsWholeExactlyWithoutNul | libraries/AzureIoTHubMQTTClient/src/MQTT.cpp:37-47 | a string is written whole if and only if it has no NUL |
| MqttFlags.PublishFlags.SetQos | libraries/AzureIoTHubMQTTClient/src/MQTT.cpp:476-486 | masks and shifts set the QoS, cut off at 2, and leave retain and dup; a QoS above 0 asks for a packet id, and going back to 0 does not take that back |
| MqttFlags.PublishFlags.UnsetQos | libraries/AzureIoTHubMQTTClient/src/MQTT.h:298-299 | QoS 0 and no packet id asked for; retain and dup stay |
| MqttFlags.PublishFlags.SetRetain | libraries/AzureIoTHubMQTTClient/src/MQTT.h:289-290 | sets retain and leaves QoS and dup |
| MqttFlags.PublishFlags.UnsetRetain | libraries/AzureIoTHubMQTTClient/src/MQTT.h:291-292 | clears retain and leaves QoS and dup |
| MqttFlags.PublishFlags.SetDup | libraries/AzureIoTHubMQTTClient/src/MQTT.h:303-304 | sets dup and leaves QoS and retain |
| MqttFlags.PublishFlags.UnsetDup | libraries/AzureIoTHubMQTTClient/src/MQTT.h:305-306 | clears dup and leaves QoS and retain |
| MqttFlags.Getters | libraries/AzureIoTHubMQTTClient/src/MQTT.h:287-302 | the shifts and masks of the getters read the binary digits of the flags byte, which is what the packets are modelled with |
| MqttFlags.LowHalfOnWire | libraries/AzureIoTHubMQTTClient/src/MQTT.cpp:126-128 | the mask under which the flags go into the fixed header keeps their low four digits |
| MqttWriter.WriteU16 | libraries/AzureIoTHubMQTTClient/src/MQTT.cpp:24-27 | two bytes, most significant first, and nothing else changes |
| MqttWriter.WriteBlock | libraries/AzureIoTHubMQTTClient/src/MQTT.cpp:30-34 | length and bytes |
| MqttWriter.WriteText | libraries/AzureIoTHubMQTTClient/src/MQTT.cpp:37-47 | the characters up to the first NUL, behind a length that is filled in afterwards |
| MqttWriter.WriteBarePayload | libraries/AzureIoTHubMQTTClient/src/MQTT.cpp:49-52 | the bytes alone |
| MqttWriter.WriteFixedHeader | libraries/AzureIoTHubMQTTClient/src/MQTT.cpp:122-144 | the remaining length behind the first byte, which is 0x10 for a CONNECT, 0x30 and the flags for a PUBLISH, 0x62 for a PUBREL, 0x82 for a SUBSCRIBE and so on for every type |
| MqttWriter.WriteVarInt | libraries/AzureIoTHubMQTTClient/src/MQTT.cpp:136-143 | the base-128 digits, the low ones first |
| MqttWriter.WriteVariableHeader | libraries/AzureIoTHubMQTTClient/src/MQTT.cpp:325-351 | the variable header of each message |
| MqttWriter.WriteConnectHeader | libraries/AzureIoTHubMQTTClient/src/MQTT.cpp:325-351 | protocol name, level, flags and keepalive |
| MqttWriter.WriteConnectFlags | libraries/AzureIoTHubMQTTClient/src/MQTT.cpp:329-348 | the flag byte made up bit by bit is the one of the message |
| MqttWriter.WriteTopicAndId | libraries/AzureIoTHubMQTTClient/src/MQTT.cpp:501-505 | topic and, for QoS above 0, the packet id |
| MqttWriter.WritePayload | libraries/AzureIoTHubMQTTClient/src/MQTT.cpp:367-380 | the payload of each message |
| MqttWriter.WriteConnectPayload | libraries/AzureIoTHubMQTTClient/src/MQTT.cpp:367-380 | client id, will, and credentials, each if it is there |
| MqttWriter.WriteWill | libraries/AzureIoTHubMQTTClient/src/MQTT.cpp:370-373 | will topic and message |
| MqttWriter.WriteCredentials | libraries/AzureIoTHubMQTTClient/src/MQTT.cpp:375-379 | user name and password |
| MqttWriter.BuildPacket | libraries/AzureIoTHubMQTTClient/src/MQTT.cpp:150-165 | the writers stay inside the packet, which without NULs is exactly the packet that sections 2 and 3 of MQTT 3.1.1 lay out, byte for byte |
| Mqtt311.SentAsPrescribed | libraries/AzureIoTHubMQTTClient/src/MQTT.cpp:122-165 | every message a client sends is the packet of MQTT 3.1.1 written out in numbers: first byte, length digits, fields with their length in front, flags and ids; a PUBACK lacks its id |
| Mqtt311.FirstByteIs | libraries/AzureIoTHubMQTTClient/src/MQTT.h:36-58 | the first byte of every type of message, in numbers |
| Mqtt311.VarIntIs | libraries/AzureIoTHubMQTTClient/src/MQTT.cpp:136-143 | the digits of the remaining length below 2^28: at most four, the top bit on all but the last, their sum the number |
| MqttReader.ReadBufferText | libraries/AzureIoTHubMQTTClient/src/MQTT.cpp:71-79 | reads a string from a buffer, or stops at its end |
| MqttReader.PublishFromBuffer | libraries/AzureIoTHubMQTTClient/src/MQTT.cpp:424-440 | topic, id and payload of a PUBLISH in a buffer |
| MqttReader.Network.ReadByte | libraries/AzureIoTHubMQTTClient/src/MQTT.cpp:86-89 | takes the next byte of the stream; waits if there is none |
| MqttReader.Network.ReadU16 | libraries/AzureIoTHubMQTTClient/src/MQTT.cpp:92-96 | takes two bytes |
| MqttReader.Network.ReadText | libraries/AzureIoTHubMQTTClient/src/MQTT.cpp:99-107 | takes a string |
| MqttReader.Network.PublishFromStream | libraries/AzureIoTHubMQTTClient/src/MQTT.cpp:451-469 | topic and id of a large PUBLISH, whose payload is left in the stream |
| MqttReader.Network.ReadRemainingLength | libraries/AzureIoTHubMQTTClient/src/MQTT.cpp:187-198 | reads the base-128 digits; past four of them the fixed array overflows |
| MqttReader.Network.ReadPacket | libraries/AzureIoTHubMQTTClient/src/MQTT.cpp:180-274 | agrees with the parser on every stream and leaves it where the parser says, unless nothing is available for a moment within a small packet |
| MqttReader.Network.ReadLarge | libraries/AzureIoTHubMQTTClient/src/MQTT.cpp:203-212 | packets above 1024 bytes |
| MqttReader.Network.ReadSmall | libraries/AzureIoTHubMQTTClient/src/MQTT.cpp:214-273 | packets up to 1024 bytes, taken in any portions; if nothing is available for a moment the buffer stays partly unset and the rest of the packet in the stream |
| MqttReader.Network.Receive | libraries/AzureIoTHubMQTTClient/src/MQTT.cpp:219-221 | one portion: the next bytes of the stream go behind those already read |
| MqttReader.MessageFromBuffer | libraries/AzureIoTHubMQTTClient/src/MQTT.cpp:226-273 | the message of each type |
| MqttRoundTrip.LengthBack | libraries/AzureIoTHubMQTTClient/src/MQTT.cpp:187-198 | the remaining length below 2^28 is read back as written |
| MqttRoundTrip.HeaderBack | libraries/AzureIoTHubMQTTClient/src/MQTT.cpp:180-198 | the fixed header of every message is read back: type, flags and remaining length, with type and flags in numbers |
| MqttRoundTrip.AnyPacketReads | libraries/AzureIoTHubMQTTClient/src/MQTT.cpp:180-198 | on any first byte and any well-formed length, whoever wrote them: the reader takes the upper four bits for the type, the lower for the flags, and the length for what it says |
| MqttRoundTrip.RepliesRead | libraries/AzureIoTHubMQTTClient/src/MQTT.cpp:220-271 | CONNACK, PUBACK, PUBREC, PUBREL, PUBCOMP, UNSUBACK and the pings as a server writes them: each becomes the message of its type with its id |
| MqttRoundTrip.SubAckReads | libraries/AzureIoTHubMQTTClient/src/MQTT.cpp:199-271 | a SUBACK as a server writes it, of any length: its id and return codes, which stay in the stream beyond 1024 bytes |
| MqttRoundTrip.PublishReads | libraries/AzureIoTHubMQTTClient/src/MQTT.cpp:199-271 | a PUBLISH as a server writes it, with any flags: topic, id for QoS above 0, and payload, which stays in the stream beyond 1024 bytes |
| MqttRoundTrip.PublishRoundTrip | libraries/AzureIoTHubMQTTClient/src/MQTT.cpp:180-274 | reading a sent PUBLISH recovers topic, QoS, retain, dup, packet id and payload; a large one is left with the stream at its payload |
| MqttRoundTrip.ConstructorsAgree | libraries/AzureIoTHubMQTTClient/src/MQTT.cpp:424-469 | on every packet body the two constructors agree on topic, id and payload length, and the streaming one stops at the payload |
| MqttRoundTrip.StreamedStaysInsideExactlyWhenBufferedDoes | libraries/AzureIoTHubMQTTClient/src/MQTT.cpp:424-469 | the streaming constructor stays inside its packet if and only if the buffered one accepts it |
| MqttRoundTrip.AcksRoundTrip | libraries/AzureIoTHubMQTTClient/src/MQTT.cpp:549-609 | PUBREC, PUBREL, PUBCOMP and the pings are read back as sent |
| MqttRoundTrip.PubAckLosesItsId | libraries/AzureIoTHubMQTTClient/src/MQTT.h:328-339 | PUBACK has no variable header: it goes out without its packet id |
| MqttSession.RemainingLengthDecodes | libraries/AzureIoTHubMQTTClient/src/MQTT.cpp:150-165 | decoding the remaining length of a packet gives the sum of the length functions and leaves exactly header and payload |
| MqttSession.ConnectFlagBits | libraries/AzureIoTHubMQTTClient/src/MQTT.cpp:329-348 | the connect flags say exactly which payload fields follow |
| MqttSession.ConnectRoundTrip | libraries/AzureIoTHubMQTTClient/src/MQTT.cpp:321-380 | a reader of MQTT 3.1.1 that takes the whole packet, first byte and length included, recovers the session from a CONNECT |
| MqttSession.EntriesRoundTrip | libraries/AzureIoTHubMQTTClient/src/MQTT.cpp:634-656 | a reader recovers all subscriptions of a SUBSCRIBE in order |
| MqttSession.SubscribeRoundTrip | libraries/AzureIoTHubMQTTClient/src/MQTT.cpp:634-680 | and so the id and all subscriptions, in order, from a SUBSCRIBE packet |
| MqttSession.Subscriptions.AddTopic | libraries/AzureIoTHubMQTTClient/src/MQTT.cpp:634-639 | one subscription more behind the others |
| MqttTrace.AtMostOneTryAndTheRetries | libraries/AzureIoTHubMQTTClient/src/PubSubClient.cpp:55-83 | what the law that SendMessage keeps means: a call transmits at most `_max_retries` + 1 times, send failures and missed replies together |
| MqttTrace.OneCallOneMessage | libraries/AzureIoTHubMQTTClient/src/PubSubClient.cpp:55-83 | what the law that SendMessage keeps means: all transmissions of a call are the same message with the same packet id |
| MqttTrace.NoPingWhilePingOpen | libraries/AzureIoTHubMQTTClient/src/PubSubClient.cpp:207-223 | what the law that Loop keeps means: between a PINGREQ that went out and the next one a PINGRESP was handled or a connection opened |
| MqttTrace.CompleteOnlyAfterRelease | libraries/AzureIoTHubMQTTClient/src/PubSubClient.cpp:98-110 | what the law that Acknowledge keeps means: no PUBCOMP before the PUBREC has gone out and its PUBREL has come |
| MqttTrace.ReleaseOnlyAfterRecord | libraries/AzureIoTHubMQTTClient/src/PubSubClient.cpp:282-289 | what the law that Publish keeps means: no PUBREL before the PUBLISH has gone out and its PUBREC has come |
| MqttClient.IdsWrapToOne | libraries/AzureIoTHubMQTTClient/src/PubSubClient.h:74-78 | the n-th next packet id in closed form: the ids 1 to 65535 over and over |
| MqttClient.IdsNonZeroAndDistinct | libraries/AzureIoTHubMQTTClient/src/PubSubClient.h:74-78 | any 65535 consecutive packet ids are non-zero and pairwise distinct |
| MqttClient.PubSubClient.RecvMessage | libraries/AzureIoTHubMQTTClient/src/PubSubClient.cpp:48-53 | takes one packet and notes the time if it is a message |
| MqttClient.PubSubClient.AwaitBytes | libraries/AzureIoTHubMQTTClient/src/PubSubClient.cpp:127-131 | ends, with bytes there or after the keepalive time, although the millisecond counter wraps |
| MqttClient.PubSubClient.SendMessage | libraries/AzureIoTHubMQTTClient/src/PubSubClient.cpp:55-83 | keeps the run lawful; success means sent and, if a reply is asked for, answered by the last event; failure means all tries are used up; the id advances only if one is needed; what goes out has the type, flags, topic, payload, length and buffer it was given, and the new id |
| MqttClient.OnlyTheIdChanges | libraries/AzureIoTHubMQTTClient/src/MQTT.h:99-102 | giving a message its id leaves everything else as it is |
| MqttClient.EndsInItsReply | libraries/AzureIoTHubMQTTClient/src/PubSubClient.cpp:128-158 | what an answered message ends with: a CONNACK for CONNECT, a PUBACK with its id for a PUBLISH of QoS 1, a SUBACK with its id for SUBSCRIBE, an UNSUBACK with its id for UNSUBSCRIBE |
| MqttClient.PubSubClient.Try | libraries/AzureIoTHubMQTTClient/src/PubSubClient.cpp:62-81 | one transmission, and the wait for its reply |
| MqttClient.PubSubClient.Transmit | libraries/AzureIoTHubMQTTClient/src/PubSubClient.cpp:63-69 | one transmission more of the same message |
| MqttClient.PubSubClient.WaitFor | libraries/AzureIoTHubMQTTClient/src/PubSubClient.cpp:126-164 | success ends with the packet asked for; failure with time run out, a wrong id, or, for a SUBACK, one noted before or come in since; terminates on the packets left |
| MqttClient.PubSubClient.CheckOne | libraries/AzureIoTHubMQTTClient/src/PubSubClient.cpp:135-158 | one packet of a wait: it is the one asked for, or is handled and the wait goes on, or a SUBACK has turned up elsewhere |
| MqttClient.PubSubClient.ProcessMessage | libraries/AzureIoTHubMQTTClient/src/PubSubClient.cpp:85-124 | hands a PUBLISH to the callback once, answers it by its QoS, answers a ping and notes a ping answer |
| MqttClient.PubSubClient.Acknowledge | libraries/AzureIoTHubMQTTClient/src/PubSubClient.cpp:94-110 | PUBACK for QoS 1; PUBREC and, after its PUBREL, PUBCOMP for QoS 2 |
| MqttClient.PubSubClient.Connect | libraries/AzureIoTHubMQTTClient/src/PubSubClient.cpp:178-205 | a new connection starts without an open ping and with the ids from the beginning; success means that the last thing to come was a CONNACK |
| MqttClient.PubSubClient.Open | libraries/AzureIoTHubMQTTClient/src/PubSubClient.cpp:194-197 | what a new connection resets |
| MqttClient.PubSubClient.Publish | libraries/AzureIoTHubMQTTClient/src/PubSubClient.cpp:271-292 | a successful QoS 2 publish leaves PUBLISH, PUBREC, PUBREL and PUBCOMP in this order with one non-zero id, whatever was handled in between; QoS 0 and 1 accordingly; the id is the next one, taken only if something was sent |
| MqttClient.PubSubClient.PublishAll | libraries/AzureIoTHubMQTTClient/src/PubSubClient.cpp:271-292 | the ids of successive publishes on a connection are the next ones in turn: non-zero, and different within any 65535 |
| MqttClient.EveryRun | libraries/AzureIoTHubMQTTClient/src/PubSubClient.cpp:55-164 | whatever the methods of a client are called for: bounded retries, one message per call, no second open ping, PUBREL and PUBCOMP only after what they answer, and every PUBLISH received handed over once, in order |
| MqttClient.PubSubClient.Subscribe | libraries/AzureIoTHubMQTTClient/src/PubSubClient.cpp:294-325 | success means that the message with its buffer went out under the next id, which is not zero, and the last thing to come was the SUBACK or UNSUBACK with that id; the counter moves on by one |
| MqttClient.PubSubClient.Loop | libraries/AzureIoTHubMQTTClient/src/PubSubClient.cpp:207-234 | pings a quiet connection, gives up one whose last ping is open, otherwise handles at most the first packet |
| MqttClient.PubSubClient.TakeOne | libraries/AzureIoTHubMQTTClient/src/PubSubClient.cpp:225-232 | the first packet is received and handled, or nothing happens |
| MqttClient.PubSubClient.Disconnect | libraries/AzureIoTHubMQTTClient/src/PubSubClient.cpp:327-335 | sends at most a DISCONNECT |
| EdmNumbers.PrintInteger | libraries/AzureIoTHub/src/sdk/agenttypesystem.c:1679-1700 | the rank loop writes the canonical decimal, without leading zeros, inside the buffer |
| EdmNumbers.Int16ToString | libraries/AzureIoTHub/src/sdk/agenttypesystem.c:1670-1712 | for every Int16, the least included, the seven-byte buffer suffices |
| EdmNumbers.Int32ToString | libraries/AzureIoTHub/src/sdk/agenttypesystem.c:1713-1755 | likewise for Int32 and its twelve bytes |
| EdmNumbers.Int64ToString | libraries/AzureIoTHub/src/sdk/agenttypesystem.c:1756-1797 | likewise for Int64 and its 21 bytes |
| EdmNumbers.PrintByte | libraries/AzureIoTHub/src/sdk/agenttypesystem.c:1371-1390 | a Byte in four bytes and an SByte (lines 1798-1827) in five |
| EdmNumbers.ParseSmall | libraries/AzureIoTHub/src/sdk/agenttypesystem.c:3213-3276 | SByte, Byte and Int16: accepts only what is in range |
| EdmNumbers.ParseWide | libraries/AzureIoTHub/src/sdk/agenttypesystem.c:3279-3389 | Int32 and Int64: the sign is taken off first; accepts only what is in range |
| EdmNumbers.SmallRoundTrip | libraries/AzureIoTHub/src/sdk/agenttypesystem.c:3213-3276 | parsing a printed SByte, Byte or Int16 gives it back |
| EdmNumbers.SmallExactly | libraries/AzureIoTHub/src/sdk/agenttypesystem.c:3213-3276 | a text of digits, with or without a minus sign, is accepted if and only if its number is in range, and then for it |
| EdmNumbers.Int32Exactly | libraries/AzureIoTHub/src/sdk/agenttypesystem.c:3279-3333 | likewise for Int32, up to eleven characters |
| EdmNumbers.Int64Exactly | libraries/AzureIoTHub/src/sdk/agenttypesystem.c:3334-3389 | likewise for Int64, up to twenty characters |
| EdmNumbers.SignedTextExactly | libraries/AzureIoTHub/src/sdk/agenttypesystem.c:3213-3276 | what strtol and strtoul take for a number: exactly white space, a sign or none, and digits |
| EdmNumbers.Int32RoundTrip | libraries/AzureIoTHub/src/sdk/agenttypesystem.c:3279-3333 | parsing a printed Int32 gives it back |
| EdmNumbers.Int64RoundTrip | libraries/AzureIoTHub/src/sdk/agenttypesystem.c:3336-3389 | parsing a printed Int64 gives it back |
| EdmDates.ValidateDateExactlyCalendarDates | libraries/AzureIoTHub/src/sdk/agenttypesystem.c:822-942 | accepts exactly the dates of the proleptic Gregorian calendar from year -9999 to 9999 |
| EdmDates.ScanAndReadNDigits | libraries/AzureIoTHub/src/sdk/agenttypesystem.c:390-404 | reads at most n digits and succeeds if and only if there are exactly n |
| EdmDates.CreateDate | libraries/AzureIoTHub/src/sdk/agenttypesystem.c:945-971 | makes a date if and only if it is one |
| EdmDates.ParseDate | libraries/AzureIoTHub/src/sdk/agenttypesystem.c:3392-3431 | accepts only valid dates |
| EdmDates.ParseDateExactly | libraries/AzureIoTHub/src/sdk/agenttypesystem.c:3392-3431 | accepted are exactly the quoted texts that begin with a valid date in digits and hyphens, and for that date |
| EdmDates.DateTextIs | libraries/AzureIoTHub/src/sdk/agenttypesystem.c:1392-1417 | the text of a date, digit by digit |
| EdmDates.DateIntoBuffer | libraries/AzureIoTHub/src/sdk/agenttypesystem.c:1391-1427 | writes the date and its terminator inside fourteen bytes, all of them used exactly for negative years |
| EdmDates.DateRoundTrip | libraries/AzureIoTHub/src/sdk/agenttypesystem.c:3392-3431 | parsing a printed valid date gives it back, negative years included |
| EdmDateTimes.Build | libraries/AzureIoTHub/src/sdk/agenttypesystem.c:3551-3582 | makes a valid date-time-offset of the scanned parts or none |
| EdmDateTimes.ParsedIsValid | libraries/AzureIoTHub/src/sdk/agenttypesystem.c:3434-3597 | whatever is accepted would pass the checks of the constructor |
| EdmDateTimes.RoundTripExactlyNormal | libraries/AzureIoTHub/src/sdk/agenttypesystem.c:1428-1656 | parsing a printed value gives it back if and only if everything that the text does not say is in normal form, and its normal form always |
| EdmDateTimes.ValidExactlyInRange | libraries/AzureIoTHub/src/sdk/agenttypesystem.c:3551-3582 | what the constructor lets pass: exactly valid dates, hours below 24, minutes and seconds below 60, fractions below 10^12, zones below 24 hours |
| EdmDateTimes.TextIs | libraries/AzureIoTHub/src/sdk/agenttypesystem.c:1428-1656 | the text of a date-time, character by character |
| EdmStrings.Count | libraries/AzureIoTHub/src/sdk/agenttypesystem.c:1836-1857 | the first pass recognises seven-bit strings and counts exactly what the second one writes |
| EdmStrings.EscapeString | libraries/AzureIoTHub/src/sdk/agenttypesystem.c:1828-1932 | fails exactly on other strings; else the buffer holds the quoted content, the closing quote directly before the terminator |
| EdmStrings.WriteContent | libraries/AzureIoTHub/src/sdk/agenttypesystem.c:1876-1908 | the second pass writes the escaped content behind the opening quote |
| EdmStrings.WriteEscaped | libraries/AzureIoTHub/src/sdk/agenttypesystem.c:1880-1907 | one character, escaped if it has to be |
| EdmStrings.EscapingIsFaithful | libraries/AzureIoTHub/src/sdk/agenttypesystem.c:1828-1932 | the content is valid inside a string of RFC 8259 section 7, and unescaping it gives the string back |
| EdmStrings.EscapedIs | libraries/AzureIoTHub/src/sdk/agenttypesystem.c:1880-1920 | each seven-bit character: quotes, backslashes and slashes get a backslash, control characters their number in four hexadecimal digits |
| Base64.EncLenIsExact | libraries/AzureIoTHubMQTTClient/src/Base64.cpp:95-98 | the length function is the length of the encoding |
| Base64.A3ToA4 | libraries/AzureIoTHubMQTTClient/src/Base64.cpp:110-115 | the shifts and masks split three bytes into the four digits of RFC 4648 |
| Base64.A4ToA3 | libraries/AzureIoTHubMQTTClient/src/Base64.cpp:117-121 | and put them together again |
| Base64.EncodeGroups | libraries/AzureIoTHubMQTTClient/src/Base64.cpp:17-28 | the loop has encoded all full groups |
| Base64.FinishGroup | libraries/AzureIoTHubMQTTClient/src/Base64.cpp:30-44 | the last one or two bytes with their padding |
| Base64.EncodeInto | libraries/AzureIoTHubMQTTClient/src/Base64.cpp:11-47 | the output is the base 64 of RFC 4648 section 4, terminated |
| Base64.DecodeGroups | libraries/AzureIoTHubMQTTClient/src/Base64.cpp:56-74 | the loop has decoded all full groups before the padding |
| Base64.DecodeInto | libraries/AzureIoTHubMQTTClient/src/Base64.cpp:49-93 | the output is the decoding of the characters before the padding, whatever they are |
| Base64.LookupUndoes | libraries/AzureIoTHubMQTTClient/src/Base64.cpp:123-130 | the table of the decoder inverts the alphabet |
| Base64.LookupExactly | libraries/AzureIoTHubMQTTClient/src/Base64.cpp:123-130 | a character is found at its place in the alphabet, and any other gives 255 |
| Base64.DecodedUndoesEncode | libraries/AzureIoTHubMQTTClient/src/Base64.cpp:49-93 | decoding an encoding gives back the bytes, for every array |
| Base64.DecLen | libraries/AzureIoTHubMQTTClient/src/Base64.cpp:100-108 | counts the padding from the end |
| Base64.DecLenIsExact | libraries/AzureIoTHubMQTTClient/src/Base64.cpp:100-108 | of a non-empty encoding it is the length of the original |
| EdmBinary.TablesAreTheAlphabet | libraries/AzureIoTHub/src/sdk/agenttypesystem.c:89-132 | the character tables are the alphabet of RFC 4648 section 5 and its parts |
| EdmBinary.NeededSizeIsExact | libraries/AzureIoTHub/src/sdk/agenttypesystem.c:2230-2232 | the size asked for is that of the quoted encoding and its terminator |
| EdmBinary.EncodeGroups | libraries/AzureIoTHub/src/sdk/agenttypesystem.c:2246-2266 | the loop has encoded all full groups |
| EdmBinary.BinaryToString | libraries/AzureIoTHub/src/sdk/agenttypesystem.c:2218-2307 | the buffer is filled exactly with the quoted encoding and its terminator |
| EdmBinary.ToPlace | libraries/AzureIoTHub/src/sdk/agenttypesystem.c:582-610 | finds the place of a character in one of the small tables |
| EdmBinary.ScanFour | libraries/AzureIoTHub/src/sdk/agenttypesystem.c:551-579 | reads four digits into three bytes, or nothing |
| EdmBinary.ScanB16Into | libraries/AzureIoTHub/src/sdk/agenttypesystem.c:614-643 | reads a group of two bytes |
| EdmBinary.ScanB8Into | libraries/AzureIoTHub/src/sdk/agenttypesystem.c:646-671 | reads a group of one byte |
| EdmBinary.WritesFit | libraries/AzureIoTHub/src/sdk/agenttypesystem.c:3903 | the allocation is enough for any number of full groups and whatever follows |
| EdmBinary.SolidGroups | libraries/AzureIoTHub/src/sdk/agenttypesystem.c:3914-3919 | the loop over full groups stays inside the allocation on every input |
| EdmBinary.LastBytes | libraries/AzureIoTHub/src/sdk/agenttypesystem.c:3921-3931 | so do the last bytes |
| EdmBinary.ParseBinary | libraries/AzureIoTHub/src/sdk/agenttypesystem.c:3876-3967 | accepts what the grammar accepts, with its bytes; malformed input writes nowhere else |
| EdmBinary.BinaryRoundTrip | libraries/AzureIoTHub/src/sdk/agenttypesystem.c:3876-3967 | parsing printed bytes gives them back, for every array |
| EdmBinary.ParsedExactly | libraries/AzureIoTHub/src/sdk/agenttypesystem.c:3876-3967 | accepted are exactly the quoted encodings of any bytes, with or without padding, for these bytes, and any text of length two for none |
| ValueTrees.Heap.Malloc | libraries/AzureIoTHub/src/sdk/agenttypesystem.c:2700 | an address that was free, or a failure |
| ValueTrees.Destroy | libraries/AzureIoTHub/src/sdk/agenttypesystem.c:1061-1278 | frees exactly the blocks of the tree, each once, at any depth |
| ValueTrees.Copy | libraries/AzureIoTHub/src/sdk/agenttypesystem.c:2397-2768 | succeeds if and only if no allocation fails and every part can be copied; the copy has the same shape and only new storage; a failed copy leaves the heap as it was |
| ValueTrees.CopyComplex | libraries/AzureIoTHub/src/sdk/agenttypesystem.c:2686-2768 | the same for a structure and all its members |
| ValueTrees.CopySlot | libraries/AzureIoTHub/src/sdk/agenttypesystem.c:2716-2747 | one member: whatever happens, the slot owns exactly what is new |
| ValueTrees.DestroyHalfBaked | libraries/AzureIoTHub/src/sdk/agenttypesystem.c:2349-2378 | frees exactly what a half built structure owns |
| ValueTrees.CopyAndDestroy | libraries/AzureIoTHub/src/sdk/agenttypesystem.c:1061-1278 | destroying a copy frees exactly what copying allocated |
| ValueTrees.ShapeTells | libraries/AzureIoTHub/src/sdk/agenttypesystem.c:2397-2768 | equal shapes mean the same values, member names, texts and bytes all the way down, at whatever addresses |
| ValueTrees.OwnedIsAddresses | libraries/AzureIoTHub/src/sdk/agenttypesystem.c:1061-1278 | what a value owns is every address that occurs in it, and it is sound exactly when none occurs twice |
| ValueTrees.TwoSameNames | libraries/AzureIoTHub/src/sdk/agenttypesystem.c:2330-2347 | tells whether two members have the same name |
| ValueTrees.CreateFromMembers | libraries/AzureIoTHub/src/sdk/agenttypesystem.c:2828-2947 | succeeds if and only if there are members, their names differ, every value can be copied and no allocation fails; invalid exactly without members or with equal names; the result has the shape of the members |
| ValueTrees.DestroyAll | libraries/AzureIoTHub/src/sdk/commanddecoder.c:138-141 | destroys each value once and frees exactly what they own |
| Commands.GetChildByName | libraries/AzureIoTHub/src/sdk/commanddecoder.c:108 | the first child with the name |
| Commands.CreateFromLeaf | libraries/AzureIoTHub/src/sdk/commanddecoder.c:161-167 | a value with the shape of the leaf |
| Commands.DecodeValue | libraries/AzureIoTHub/src/sdk/commanddecoder.c:29-170 | succeeds if and only if the tree conforms to the type and no allocation fails; the result has the shape the type and tree determine, and nothing else stays allocated |
| Commands.DecodeStruct | libraries/AzureIoTHub/src/sdk/commanddecoder.c:58-148 | the same for a structure; its member values are destroyed again |
| Commands.ExpectedMemberIs | libraries/AzureIoTHub/src/sdk/commanddecoder.c:88-120 | each member of a decoded structure comes from the first child with its name, read as its type |
| Commands.DecodeAll | libraries/AzureIoTHub/src/sdk/commanddecoder.c:81-121 | the values decoded so far, in order, each owned once |
| Commands.DecodeMember | libraries/AzureIoTHub/src/sdk/commanddecoder.c:88-120 | one member |
| Commands.RelativeAndLast | libraries/AzureIoTHub/src/sdk/commanddecoder.c:402-485 | what stands before and after the last slash of a path |
| Commands.Decoder.ScanPath | libraries/AzureIoTHub/src/sdk/commanddecoder.c:402-485 | finds the model if and only if every segment resolves |
| Commands.Decoder.ExecuteAction | libraries/AzureIoTHub/src/sdk/commanddecoder.c:402-485 | if the text is segments with slashes behind them, an action and a closing character, the segments lead from model to model, the last has the action and the parameters conform, then the callback runs once, with these segments as path and this action as name; otherwise not at all |
| Commands.Decoder.DecodeAndExecute | libraries/AzureIoTHub/src/sdk/commanddecoder.c:172-293 | all or nothing: one call with all arguments, or none; every decoded argument is destroyed once |
| Commands.Decoder.DecodeCommand | libraries/AzureIoTHub/src/sdk/commanddecoder.c:572-611 | the same from the text of the Name child, which begins with one more character, the opening quote; whatever does not ask for a call in this way is an error and calls nothing |
| Commands.Decoder.ExecuteMethod | libraries/AzureIoTHub/src/sdk/commanddecoder.c:487-570 | the same for methods, whose text is not quoted and whose payload may be missing |
| Commands.Decoder.RequestsExactly | libraries/AzureIoTHub/src/sdk/commanddecoder.c:572-611 | a command asks for a call, as its text says, if and only if the decoder makes one, and then for this one |
| Commands.Decoder.ExecutesExactlyWhatIsAsked | libraries/AzureIoTHub/src/sdk/commanddecoder.c:402-485 | the same behind the opening quote |
| Commands.Decoder.InvokesExactlyWhatIsAsked | libraries/AzureIoTHub/src/sdk/commanddecoder.c:487-570 | the same for methods |
| Commands.LeadsThere | libraries/AzureIoTHub/src/sdk/commanddecoder.c:402-485 | scanning a path segment by segment ends at the model to which its segments lead by name |
| Commands.Decoder.DecodeAndInvoke | libraries/AzureIoTHub/src/sdk/commanddecoder.c:295-399 | all or nothing for methods |
| DesiredProperties.Device.Validate | libraries/AzureIoTHub/src/sdk/commanddecoder.c:803-937 | true if and only if every child at every level has its place and nothing was refused; then for every path through the tree that ends at a desired property, in the order of the tree, there was one write, of what is there, to the start plus the sum of the offsets along the path, and no other; notices bear the address of the model around |
| DesiredProperties.Device.IngestChild | libraries/AzureIoTHub/src/sdk/commanddecoder.c:812-921 | one child: a property or a model within, at its offset from the model around, or an error |
| DesiredProperties.EffectsByPaths | libraries/AzureIoTHub/src/sdk/commanddecoder.c:803-937 | the same of the specification: following the tree and going along its paths come to the same effects |
| DesiredProperties.IngestibleByPaths | libraries/AzureIoTHub/src/sdk/commanddecoder.c:812-921 | and to the same trees that are refused |
| DesiredProperties.Device.IngestProperty | libraries/AzureIoTHub/src/sdk/commanddecoder.c:857-891 | a desired property is decoded, written at its address, announced and destroyed |
| JsonArenas.Rounded | libraries/ArduinoJson/src/ArduinoJson/JsonBuffer.hpp:69-76 | the least multiple of four not below, as long as the sum does not wrap |
| JsonArenas.RoomWhereRounded | libraries/ArduinoJson/src/ArduinoJson/JsonBuffer.hpp:69-76 | rounding finds the first aligned place that fits if there is one |
| JsonArenas.CapacityDoubles | libraries/ArduinoJson/src/ArduinoJson/DynamicJsonBuffer.hpp:132-138 | n blocks since the last clear together have at least C(2^n - 1) bytes |
| JsonArenas.Run | libraries/ArduinoJson/src/ArduinoJson/DynamicJsonBuffer.hpp:64-105 | for any sequence of allocations and string building on a growing arena: at its end everything given out before and during the run is aligned, inside its block, apart from everything else, and every string still reads exactly as built; only malloc has kept anything from being given |
| JsonArenas.EverythingSoundAndApart | libraries/ArduinoJson/src/ArduinoJson/DynamicJsonBuffer.hpp:64-105 | what the invariant of the growing arena says of all regions, all finished strings and the total capacity |
| JsonArenas.AllocAfterText | libraries/ArduinoJson/src/ArduinoJson/DynamicJsonBuffer.hpp:64-105 | an allocation after a finished string stays off it, and the string still reads the same |
| JsonArenas.BuildText | libraries/ArduinoJson/src/ArduinoJson/DynamicJsonBuffer.hpp:82-105 | a whole string from start to `c_str`: exactly its characters and the terminator, across every relocation, unless malloc refuses |
| JsonArenas.RunStatic | libraries/ArduinoJson/src/ArduinoJson/StaticJsonBuffer.hpp:14-66 | the same for any sequence on the fixed arena |
| JsonArenas.BuildStaticText | libraries/ArduinoJson/src/ArduinoJson/StaticJsonBuffer.hpp:14-35 | a string is given out if and only if it fits with its terminator, and then reads exactly as built |
| JsonArenas.DynamicBuffer.Size | libraries/ArduinoJson/src/ArduinoJson/DynamicJsonBuffer.hpp:57-61 | the sum of the sizes of all blocks |
| JsonArenas.DynamicBuffer.Alloc | libraries/ArduinoJson/src/ArduinoJson/DynamicJsonBuffer.hpp:64-67 | the first aligned place behind the fill of the newest block if there is room, else the start of a new block; apart from everything given out before; refused only by malloc; what lies below the fill is left alone |
| JsonArenas.DynamicBuffer.Carve | libraries/ArduinoJson/src/ArduinoJson/DynamicJsonBuffer.hpp:64-67 | a region apart from everything given out, from the newest block or a new one |
| JsonArenas.DynamicBuffer.AlignNextAlloc | libraries/ArduinoJson/src/ArduinoJson/DynamicJsonBuffer.hpp:118-120 | moves on to the next multiple of four |
| JsonArenas.DynamicBuffer.CanAllocInHead | libraries/ArduinoJson/src/ArduinoJson/DynamicJsonBuffer.hpp:122-124 | tells whether the newest block has room |
| JsonArenas.DynamicBuffer.AllocInHead | libraries/ArduinoJson/src/ArduinoJson/DynamicJsonBuffer.hpp:126-130 | the bytes behind those already given out |
| JsonArenas.DynamicBuffer.AllocInNewBlock | libraries/ArduinoJson/src/ArduinoJson/DynamicJsonBuffer.hpp:132-138 | a new block of the next capacity or more, and twice that for the one after it |
| JsonArenas.DynamicBuffer.AddNewBlock | libraries/ArduinoJson/src/ArduinoJson/DynamicJsonBuffer.hpp:140-149 | one block more, or malloc refused |
| JsonArenas.DynamicBuffer.Put | libraries/ArduinoJson/src/ArduinoJson/DynamicJsonBuffer.hpp:88-90 | one character behind the fill, and nothing else changes |
| JsonArenas.DynamicBuffer.FillHead | libraries/ArduinoJson/src/ArduinoJson/DynamicJsonBuffer.hpp:95-96 | the characters of a new block |
| JsonArenas.DynamicBuffer.Clear | libraries/ArduinoJson/src/ArduinoJson/DynamicJsonBuffer.hpp:71-80 | no block is left, and the next one will be as large as the first was |
| JsonArenas.TextBuilder.Append | libraries/ArduinoJson/src/ArduinoJson/DynamicJsonBuffer.hpp:87-100 | one character more, across every relocation; the list of blocks at most grows by a new one and what lies below a fill is left alone; lost exactly if malloc has refused |
| JsonArenas.TextBuilder.AppendInHead | libraries/ArduinoJson/src/ArduinoJson/DynamicJsonBuffer.hpp:88-91 | one character behind the text |
| JsonArenas.TextBuilder.Relocate | libraries/ArduinoJson/src/ArduinoJson/DynamicJsonBuffer.hpp:92-98 | the text moves to a new block with the character behind it |
| JsonArenas.TextBuilder.AppendAll | libraries/ArduinoJson/src/ArduinoJson/DynamicJsonBuffer.hpp:87-100 | a whole string more, across every relocation |
| JsonArenas.TextBuilder.CStr | libraries/ArduinoJson/src/ArduinoJson/DynamicJsonBuffer.hpp:102-105 | exactly the appended characters and a terminator, at the start of the text and up to the fill; they count as given out from then on |
| JsonArenas.StaticBuffer.Alloc | libraries/ArduinoJson/src/ArduinoJson/StaticJsonBuffer.hpp:56-60 | granted if and only if an aligned place behind the fill fits, and then the first; apart from everything given out before |
| JsonArenas.StaticBuffer.AlignNextAlloc | libraries/ArduinoJson/src/ArduinoJson/StaticJsonBuffer.hpp:76-78 | moves on to the next multiple of four |
| JsonArenas.StaticBuffer.CanAlloc | libraries/ArduinoJson/src/ArduinoJson/StaticJsonBuffer.hpp:80-82 | tells whether there is room |
| JsonArenas.StaticBuffer.DoAlloc | libraries/ArduinoJson/src/ArduinoJson/StaticJsonBuffer.hpp:84-88 | the bytes behind the fill |
| JsonArenas.StaticBuffer.Clear | libraries/ArduinoJson/src/ArduinoJson/StaticJsonBuffer.hpp:64-66 | nothing is given out any more |
| JsonArenas.StaticTextBuilder.Append | libraries/ArduinoJson/src/ArduinoJson/StaticJsonBuffer.hpp:20-25 | one character more or dropped for ever |
| JsonArenas.StaticTextBuilder.AppendAll | libraries/ArduinoJson/src/ArduinoJson/StaticJsonBuffer.hpp:20-25 | a whole string more; something is dropped exactly if it does not fit |
| JsonArenas.StaticTextBuilder.CStr | libraries/ArduinoJson/src/ArduinoJson/StaticJsonBuffer.hpp:27-35 | not NULL only if no character was dropped, and then exactly the appended characters; the arena stays usable |
| Blob.SixWideIsSix | libraries/AzureIoTHub/src/sdk/blob.c:37-44 | below a million sprintf reports six characters |
| Blob.SixWideIs | libraries/AzureIoTHub/src/sdk/blob.c:37-44 | place by place: digits, and spaces in front of them |
| Blob.BlockIdReads | libraries/AzureIoTHub/src/sdk/blob.c:45-52 | decoding a block id gives these characters |
| Blob.BlockIdsDiffer | libraries/AzureIoTHub/src/sdk/blob.c:37-47 | different blocks have different ids |
| Blob.Upload.UploadBlock | libraries/AzureIoTHub/src/sdk/blob.c:14-125 | the id is entered into the list and the block put under it, or an error is reported and nothing is put |
| Blob.Upload.PutNext | libraries/AzureIoTHub/src/sdk/blob.c:243-292 | blocks over 4 MB and beyond the 50000th are refused; an error is noted unless the block was accepted |
| Blob.Upload.UploadBlocks | libraries/AzureIoTHub/src/sdk/blob.c:219-294 | the loop ends for every callback, and says how |
| Blob.Upload.Commit | libraries/AzureIoTHub/src/sdk/blob.c:300-366 | sends the completed list, or reports an error |
| Blob.Upload.UploadMultipleBlocks | libraries/AzureIoTHub/src/sdk/blob.c:210-366 | the list is committed, once and last, if and only if the callback ended normally, every block was accepted and no memory was refused; as a reader finds them in it, it holds the ids under which the blocks were put, in order; n is at most 50000; the result for every other end |
| Blob.ListReadsBack | libraries/AzureIoTHub/src/sdk/blob.c:54-60 | a reader of the list finds exactly the ids of the blocks, in order and pairwise distinct |

## Left out

- MqttReader.Network.ReadRemainingLength: more than four digits overflow a fixed array; the outcome is called Undefined and nothing is claimed after it.
- MqttReader.Network.ReadPacket: a body shorter than its constructor reads is Undefined too; a connection that delivers nothing more blocks it for ever, outcome Waiting; large packets of types other than PUBLISH and SUBACK leave their body in the stream, as in the source.
- MqttWriter.BuildPacket: a will message has fewer than 65536 bytes, the type of its length; the remaining length is below 2^28, the protocol's limit.
- MqttClient.PubSubClient.WaitFor: a sample of the counter advances by less than 2^30 ms, and `yield` by at least one. A note of a SUBACK that an earlier wait left behind makes a wait for one fail although its own is still to come, as in the source; the contract allows for it.
- MqttClient.PubSubClient.RecvMessage: packets come as messages, or as ones that are read past. What a client does with a packet on which readPacket is undefined, or which never ends, is claimed only as far as the outcome Blocked.
- MqttClient.PubSubClient.ProcessMessage: a callback is set and does not call into the client. A PUBLISH of QoS 2 that the server repeats reaches it again: once per PUBLISH received, not per message.
- MqttClient.PubSubClient.SendMessage: the number of retries is fixed before the first message; retransmissions do not set DUP, as in the source.
- MqttClient.PubSubClient.Subscribe: the bound on the QoS in the variant with a topic string, and the construction of the messages, are not repeated here.
- Unsubscribe::add_topic: like the one of Subscribe without the QoS byte.
- Sha256Streaming.Sha256Class.InitHmac: the key and inner hash buffers, which all hashers of a program share, are fields of one hasher here, so that two interleaved HMAC computations are not modelled.
- Clock.SystemClock.Now: the true time is promised only when less than a turn of the counter has passed since the last call, which is all the counter can tell; two samples within a call are less than a second apart; the provider does not call into the clock.
- Clock.TimeCache.RefreshCache: the six-argument setTime, which writes the cached fields without their time, is not called.
- The getters minute, second, day, weekday, month, isAM and isPM: one field each of the cache, like the year; while the cache is cold, day, month and weekday are 0.
- EdmNumbers.ParseSmall: `strtol` and its relatives follow ISO C; a stale errno makes no difference, as a saturated value is out of range anyway.
- EdmDateTimes.ParsedIsValid: the parser takes a sign or white space in front of the fraction and anything after the zone; so does the model.
- EdmDateTimes.RoundTripExactlyNormal: printf's conversions are functions on digits here; the malloc of its buffer is not modelled.
- EdmStrings.EscapeString: allocation failure. Reading strings back is left to a reader of JSON, since the parser here only strips quotes.
- EdmBinary.ParseBinary: the failure of an allocation; any two characters are taken for an empty value, as in the source.
- Base64.DecLen: needs a character that is no padding, since the source would read before the string otherwise.
- ValueTrees.Copy: a value and its blocks are one datatype value with addresses, so updates in place and aliasing between trees are seen only through the addresses. GUID, duration and geography types, and floating point, are leaves or unsupported.
- ValueTrees.CreateFromMembers: what it leaks when a copy fails half way, because the type is set only at the end, stays unclaimed; so after such a failure the live blocks are only bounded from below.
- Commands.Decoder.ExecuteAction: an action name of up to 128 characters, the size of a fixed buffer.
- Commands.DecodeValue: schema and tree are datatypes whose own functions do not fail. What a primitive text means is any partial function that the schema carries; the EDM modules say what the real one is.
- DesiredProperties.Device.Validate: the twin document around the desired properties, with its leaking branch.
- JsonArenas.TextBuilder.Append: once malloc has refused a block the beginning of the text is lost in the source too, and nothing is claimed of it. No allocation and no other string comes between the characters of one, since the source would then copy from beyond its block; and nothing is appended after `c_str`.
- JsonArenas.DynamicBuffer.Alloc: requests are below 2^31 bytes, and malloc never grants more; the compile-time switch for alignment is on.
- JsonArenas.StaticBuffer.Alloc: aligned places are counted from the start of the buffer, whose own address is not modelled.
- Blob.Upload.UploadMultipleBlocks: begins behind the HTTP handle: the host name of the URI, certificates and proxy are set up before. The base 64 encoder of block ids belongs to another library and is taken to follow section 4 of RFC 4648.
- EDM_BOOLEAN, EDM_GUID, EDM_DECIMAL and floating point types: short, fixed-size or about rounding.
- JSON objects, arrays and variants, sockets, HTTP, sensors and buses: plumbing or easy members.
