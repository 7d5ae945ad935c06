# nmea_publisher in Dafny

This project models the `nmea_publisher` ROS node of the glider simulator
(`nmea_publisher/nodes/nmea_publisher.py`). The node reads the simulated
glider's status and turns its position and depth into an NMEA 0183 `GGA`
sentence with the talker `PV`. It sends each sentence as one UDP datagram to
the Fledermaus Vessel Manager at `127.0.0.1:30362`.

The model has five modules:

- `Text` holds the Python formatting the node relies on:
  - `int()` truncation toward zero (`Trunc`);
  - `%i` and `%02i` (`FormatInt`: the sign first, then the digits zero-padded to the width);
  - `%f` (`FixedSix`: round half to even at six decimals).

  `FormatInt` and `FixedSix` each come with a reader (`IntValue`, `FixedSixValue`) and a round-trip lemma. `Trunc` is pinned down by its own contract.
- `TimeEncoder` is `sTohhmmss`. It uses Python's float `//` and `%`, which are floor division and floor modulo. It is connected to the integer split of the clock's floor into hours, minutes and seconds. The hours are never wrapped at 24.
- `CoordinateEncoder` is `ddToddm`, plus the latitude field and the longitude field (`"0" + ddToddm(-longitude)`). It also has the reading an NMEA `DDMM.mmmmmm` receiver applies, and lemmas that show where that reading recovers the angle and where it does not.
- `Nmea` covers NMEA 0183 framing as `pynmea2` renders a talker sentence:
  - `$`, the identifier and the comma-joined fields, `*`, then the XOR checksum as two uppercase hexadecimal digits;
  - the receiver's parse, which checks the checksum and splits the fields.
- `Publisher` holds the GGA field list, the sentence and the datagram. It also has the `Node` class:
  - the baseline `t0` and the constructor's wait loop;
  - the one-millisecond gate of `publish_NMEA`;
  - the socket, modelled as the log `sent` of every datagram sent;
  - the main loop, taken over a finite list of scheduler ticks.

Python floats are modelled as exact `real` numbers. Each operation Python applies to them is written out explicitly.

## Model

| member | source | states |
|---|---|---|
| Text.Trunc | nmea_publisher/nodes/nmea_publisher.py:43 | `int(deg)` truncates toward zero: the result lies within one unit of the value on the side of zero. For negative values it is not the floor. |
| Text.Abs | nmea_publisher/nodes/nmea_publisher.py:44 | `abs` is non-negative and equals the value or its negation. |
| Text.RoundHalfEven | nmea_publisher/nodes/nmea_publisher.py:45 | The integer `%f` rounds to lies within one half of the value. It is not negative for a non-negative value, and an exact tie goes to the even integer. |
| Text.FormatInt | nmea_publisher/nodes/nmea_publisher.py:52 | `%0<width>i`: the sign, then the digits zero-padded; `FormatIntRoundTrip` states that it reads back as the integer and its exact length. |
| Text.FormatIntRoundTrip | nmea_publisher/nodes/nmea_publisher.py:52 | The `%02i` and `%i` text reads back as the integer. It is a minus sign and digits, or only digits. Its length is the natural length (digits plus the sign) or the width, whichever is larger. |
| Text.FormatIntChars | nmea_publisher/nodes/nmea_publisher.py:52 | The `%i` text holds only digits and a minus sign. |
| Text.FixedSix | nmea_publisher/nodes/nmea_publisher.py:45 | `%f`; `FixedSixRoundTrip` states that it reads back as the value rounded half to even at six decimals. |
| Text.FixedSixRoundTrip | nmea_publisher/nodes/nmea_publisher.py:45 | The `%f` text of a non-negative value reads back as the value rounded to the nearest millionth: digits, a point and exactly six decimals. |
| Text.FixedSixWhole | nmea_publisher/nodes/nmea_publisher.py:45 | `%f` of a whole number is its digits followed by `.000000`. |
| Text.FixedSixChars | nmea_publisher/nodes/nmea_publisher.py:45 | The `%f` text holds only digits and one point. |
| TimeEncoder.Split | nmea_publisher/nodes/nmea_publisher.py:48-51 | Hours, minutes and seconds recombine to the total, with minutes and seconds in `[0, 60)`. |
| TimeEncoder.SplitUnique | nmea_publisher/nodes/nmea_publisher.py:48-51 | Any other decomposition with minutes and seconds below 60 equals `Split`. |
| TimeEncoder.SecondsToHhmmss | nmea_publisher/nodes/nmea_publisher.py:47-52 | `sTohhmmss`; `PrintedFieldsAreSplit`, `HhmmssRoundTrip` and `HhmmssWidth` state its fields, its reading and its width. |
| TimeEncoder.FloorDivOfFloor | nmea_publisher/nodes/nmea_publisher.py:48-51 | With divisors 3600 and 60, float `//` and `%` agree with integer division and remainder of the floor. The float remainder lies in `[0, d)`. |
| TimeEncoder.PrintedFieldsAreSplit | nmea_publisher/nodes/nmea_publisher.py:47-52 | The three integers `sTohhmmss` prints are the hours, minutes and seconds of the clock value's floor. |
| TimeEncoder.HhmmssRoundTrip | nmea_publisher/nodes/nmea_publisher.py:47-52 | Reading the text back as signed hours plus two-digit minutes and seconds gives the split of the floor. Nothing is wrapped. |
| TimeEncoder.HhmmssWidth | nmea_publisher/nodes/nmea_publisher.py:48-52 | The text has at least 6 characters. It has exactly 6 iff `-32400 <= seconds < 360000`; 100 hours or more widen the hour field. |
| TimeEncoder.HhmmssChars | nmea_publisher/nodes/nmea_publisher.py:52 | The text holds only digits and minus signs. |
| TimeEncoder.HhmmssExamples | nmea_publisher/nodes/nmea_publisher.py:47-52 | 3661 gives `010101`, 3725 gives `010205`, and 90000 gives `250000` (no wrap at 24 hours). |
| CoordinateEncoder.Minutes | nmea_publisher/nodes/nmea_publisher.py:43-44 | `abs(deg - int(deg)) * 60` always lies in `[0, 60)`. |
| CoordinateEncoder.MicroMinutes | nmea_publisher/nodes/nmea_publisher.py:44-45 | The minutes `%f` prints, in millionths, never exceed 60 minutes. |
| CoordinateEncoder.DdToDdm | nmea_publisher/nodes/nmea_publisher.py:42-45 | `ddToddm`; `DdmParts` and `DdmChars` state its text, `ReadDdmWithTwoDigitMinutes` what a `DDMM.mmmmmm` reader recovers from it. |
| CoordinateEncoder.LatitudeField | nmea_publisher/nodes/nmea_publisher.py:91 | The latitude field is `ddToddm(latitude)`; `ReadDdmWithTwoDigitMinutes` and `DdmTenAndAHalf` state its reading. |
| CoordinateEncoder.LongitudeField | nmea_publisher/nodes/nmea_publisher.py:92 | The longitude field is `"0" + ddToddm(-longitude)`; `ReadLongitudeWithTwoDigitMinutes`, `LongitudeWest` and `LongitudeEast` state its reading. |
| CoordinateEncoder.DdmParts | nmea_publisher/nodes/nmea_publisher.py:42-45 | The `ddToddm` text is the `%i` text of the degrees truncated toward zero, directly followed by the `%f` text of the minutes. There is no separator. Each part reads back as its value. |
| CoordinateEncoder.DdmChars | nmea_publisher/nodes/nmea_publisher.py:45 | The text holds only digits, the point and a minus sign. |
| CoordinateEncoder.ReadDdmWithTwoDigitMinutes | nmea_publisher/nodes/nmea_publisher.py:42-45 | For a non-negative angle whose minutes print with two whole digits, a `DDMM.mmmmmm` reader recovers the truncated degrees and the rounded minutes. |
| CoordinateEncoder.ReadLongitudeWithTwoDigitMinutes | nmea_publisher/nodes/nmea_publisher.py:92 | For a western longitude the same holds for the longitude field. The leading `0` only widens the degrees. |
| CoordinateEncoder.ReadDdmLeadingZero | nmea_publisher/nodes/nmea_publisher.py:92 | Prefixing `0` leaves the reader's result unchanged. |
| CoordinateEncoder.DdmTenAndAHalf | nmea_publisher/nodes/nmea_publisher.py:42-45 | 10.5 degrees gives `1030.000000`. |
| CoordinateEncoder.MinutesUnpadded | nmea_publisher/nodes/nmea_publisher.py:45 | Below ten minutes the minutes text has 8 characters, one fewer than the `MM.mmmmmm` a reader expects. |
| CoordinateEncoder.DdmNotInjective | nmea_publisher/nodes/nmea_publisher.py:45 | 103 degrees and 10.5 degrees give the same text. |
| CoordinateEncoder.DdmUnpaddedMinutes | nmea_publisher/nodes/nmea_publisher.py:45 | 10.05 degrees gives `103.000000`, because the minutes are not padded. A `DDMM.mmmmmm` reader takes that for 1 degree 3 minutes. |
| CoordinateEncoder.LongitudeWest | nmea_publisher/nodes/nmea_publisher.py:92 | A longitude of -20.25 gives the field `02015.000000`. |
| CoordinateEncoder.LongitudeEast | nmea_publisher/nodes/nmea_publisher.py:92 | A longitude of +20.25 gives the field `0-2015.000000`. The hemisphere letter stays `W`. |
| CoordinateEncoder.SmallNegativeLosesSign | nmea_publisher/nodes/nmea_publisher.py:43-45 | For angles between -1 and 0 the degrees print as `0`, so the sign is lost. |
| Nmea.AsciiBytes | nmea_publisher/nodes/nmea_publisher.py:98 | `.encode()` of ASCII text gives one byte per character, equal to its code. |
| Nmea.AsciiRoundTrip | nmea_publisher/nodes/nmea_publisher.py:98 | Decoding the encoded bytes gives the text back. |
| Nmea.Checksum | nmea_publisher/nodes/nmea_publisher.py:97 | The XOR of the body's bytes; `ChecksumConcat`, `ChecksumDetectsOneChange` and `ChecksumCancels` state its properties. |
| Nmea.ChecksumConcat | nmea_publisher/nodes/nmea_publisher.py:89-97 | The XOR checksum of a concatenation is the XOR of the parts' checksums. |
| Nmea.ChecksumDetectsOneChange | nmea_publisher/nodes/nmea_publisher.py:89-97 | Changing any single byte changes the checksum. |
| Nmea.ChecksumCancels | nmea_publisher/nodes/nmea_publisher.py:89-97 | Appending the checksum makes the checksum zero. |
| Nmea.Hex2RoundTrip | nmea_publisher/nodes/nmea_publisher.py:97 | `%02X` gives two uppercase hexadecimal digits that read back as the byte. |
| Nmea.SplitFields | nmea_publisher/nodes/nmea_publisher.py:89-95 | Splitting at commas always yields at least one field. |
| Nmea.SplitJoin | nmea_publisher/nodes/nmea_publisher.py:89-95 | Comma-joined fields without commas split back into exactly those fields. |
| Nmea.Body | nmea_publisher/nodes/nmea_publisher.py:89-97 | The text between `$` and `*` of a framable sentence is ASCII. |
| Nmea.Render | nmea_publisher/nodes/nmea_publisher.py:97 | `str(msg)`; `RenderShape` states its layout and `ParseRender` that a receiver parses it back. |
| Nmea.RenderShape | nmea_publisher/nodes/nmea_publisher.py:97 | The rendered sentence is `$`, the body, `*` and the two hexadecimal digits of the body's checksum. |
| Nmea.RenderAscii | nmea_publisher/nodes/nmea_publisher.py:97-98 | The rendered sentence is ASCII. |
| Nmea.ParseRender | nmea_publisher/nodes/nmea_publisher.py:89-97 | A receiver parses the rendered sentence back to the same talker, type and fields, and the checksum matches. |
| Nmea.ParseRejectsMismatch | nmea_publisher/nodes/nmea_publisher.py:97 | A frame whose hexadecimal digits do not match the body's checksum is rejected. |
| Nmea.ParseRejectsCorruptedBody | nmea_publisher/nodes/nmea_publisher.py:97 | A frame with one body character changed after checksumming is rejected. |
| Publisher.GgaFramable | nmea_publisher/nodes/nmea_publisher.py:89-95 | Every GGA field is ASCII without a comma, whatever the inputs, so the field list frames losslessly. |
| Publisher.GgaFields | nmea_publisher/nodes/nmea_publisher.py:89-95 | The 14 GGA fields; `GgaFramable`, `GgaReceived` and `GgaFieldsExample` state them. |
| Publisher.Message | nmea_publisher/nodes/nmea_publisher.py:97 | `str(msg)` is ASCII text, so it can be encoded. |
| Publisher.GgaReceived | nmea_publisher/nodes/nmea_publisher.py:89-97 | The sentence parses back as talker `PV`, type `GGA` and exactly 14 fields in order: <br>• the time, which reads back as the split of `now`'s floor; <br>• the latitude text and `N`; <br>• `"0"` + `ddToddm(-longitude)` and `W`; <br>• the literals `1`, `04` and empty; <br>• the depth text and `M`; <br>• empty, `M`, empty and `0000`. |
| Publisher.GgaFieldsExample | nmea_publisher/nodes/nmea_publisher.py:89-95 | At 3725 s, 10.5 N, 20.25 W and depth `5.2`, the fields are those of `$PVGGA,010205,1030.000000,N,02015.000000,W,1,04,,5.2,M,,M,,0000`. |
| Publisher.Packet | nmea_publisher/nodes/nmea_publisher.py:98 | The datagram sent; `PacketReceived` states its address, length and reading. |
| Publisher.PacketReceived | nmea_publisher/nodes/nmea_publisher.py:97-98 | The datagram goes to `127.0.0.1:30362` (lines 39-40). It has one byte per character of the sentence, and its bytes parse back as the GGA sentence. |
| Publisher.WaitForClock | nmea_publisher/nodes/nmea_publisher.py:58-62 | The wait loop stops at the first clock reading of at least 0.01. Every earlier reading was below 0.01. |
| Publisher.Skips | nmea_publisher/nodes/nmea_publisher.py:76-77 | The one-millisecond gate; `Node.PublishNmea` and `OutboxAllSkipped` state its effect. |
| Publisher.Outbox | nmea_publisher/nodes/nmea_publisher.py:115-118 | The datagrams a run of calls sends; `Node.Spin`, `OutboxAllSkipped` and `OutboxOnceArmed` state it. |
| Publisher.LastRead | nmea_publisher/nodes/nmea_publisher.py:115-118 | The `sim_msg` after a run of calls; `Node.Spin` states it. |
| Publisher.Node.constructor | nmea_publisher/nodes/nmea_publisher.py:56-67 | `t0 >= 0.01` and is the first reading of at least 0.01. `sim_msg` is the default status and nothing has been sent. |
| Publisher.Node.PublishNmea | nmea_publisher/nodes/nmea_publisher.py:73-100 | `t0` is unchanged in every case. <br>• If `now - t0 < 0.001`: `sim_msg` and the send log are unchanged. <br>• Otherwise: `sim_msg` is the status read, and the log grows by exactly the one datagram carrying the GGA sentence. |
| Publisher.Node.Spin | nmea_publisher/nodes/nmea_publisher.py:115-118 | After a run of calls, `t0` is unchanged. The log has grown by the datagrams of the calls that passed the gate, in order, and `sim_msg` is the last status read. |
| Publisher.OutboxAllSkipped | nmea_publisher/nodes/nmea_publisher.py:75-80 | While every call falls within a millisecond of `t0`, nothing is sent. |
| Publisher.OutboxOnceArmed | nmea_publisher/nodes/nmea_publisher.py:73-100 | Once one call passes the gate, every later call whose reading is no earlier sends exactly one datagram. `t0` never moves, so the gate does not close again. |

## Left out

- ROS plumbing is left out: `init_node`, `get_param`, `Rate` and `sleep`, `is_shutdown`, the interrupt handler and `logwarn`.
  - The clock readings come in as parameters.
  - The main loop takes a finite list of ticks.
  - The constructor takes the sequence of readings the wait loop sees, and requires one of them to reach 0.01. A clock that never does makes the source wait forever.
- `rospy.wait_for_message` is not modelled; the status it returns is a parameter of `PublishNmea`. The blocking wait is not modelled either.
- Socket creation and `sendto` are left out. The socket is the log `sent` of datagrams: address, port and bytes. Delivery, loss and errors are not modelled.
- Floats are exact reals. CPython's binary rounding is not modelled, so a `%f` result that depends on the binary value can differ from the model near a rounding tie.
- `str(depth)` is not computed. The status carries the depth as the text `str` produced, restricted to the characters a Python float's text can hold.
- The `pynmea2` library is not modelled beyond the rendering rule: `$`, the identifier, the comma-joined fields, `*` and the `%02X` XOR checksum.
  - Message: the checksum is taken over the ASCII encoding of the body. That is the only case the node produces, as `GgaFramable` shows.
- A NaN or infinite latitude or longitude is not modelled: reals have neither. In the source, `int(deg)` at line 43 raises for them after line 84 has already overwritten `sim_msg`; nothing is sent, and since the `except` at line 119 catches only `ROSInterruptException`, the node stops. `PublishNmea` always sends once past the gate.
- The dead `t0_init` assignment and the unused `d0` field are left out. They have no effect on anything observable.
- CoordinateEncoder.ReadDdmWithTwoDigitMinutes: the `DDMM.mmmmmm` reader's recovery is stated only for non-negative angles whose minutes have two whole digits. Outside those cases the text is ambiguous, as `DdmNotInjective` and `DdmUnpaddedMinutes` show.
