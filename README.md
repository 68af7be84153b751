# CO2-mini sensor driver, modelled in Dafny

This project models the driver core of a CO2 monitor that reads a low-cost
USB HID CO2 sensor (the "CO2-mini", USB vendor Holtek Semiconductor, Inc.)
through a Linux hidraw node. The driver reads 8-byte frames, checks a
terminator byte and a checksum, and keeps the last raw value per operation
code in a dictionary that accessors read.

The two driver files, `sensor/CO2MINI.py` and `sensor/CO2MINI_HidrawAdjust.py`,
carry the same `read_data`, `_hd`, `get_co2`, accessors and initial dictionary,
line for line. One model covers both. The table below cites `CO2MINI.py`. The
counterparts in `CO2MINI_HidrawAdjust.py` are: constants 1-3, initial
dictionary 27, `read_data` 43-54, `_hd` 56-58, `get_co2` 60-61,
`get_temperature` 63-64, `get_humidity` 66-67, worker loop 14-19. The
device-selection rule `find_co2_sensor` (69-81) exists only in the second file.

Modules, one per file:

- `Bits` (bits.dfy): Python's `&`, `|` and `<<` on non-negative ints, defined
  bit by bit, and what they reduce to for the checksum mask and the 16-bit value.
- `Protocol` (protocol.dfy): the frame layout, the three operation codes
  (0x50 CO2, 0x42 temperature, 0x44 humidity), the terminator 0x0D, the vendor
  key, the decoder `Decode`, and an encoder `Encode` that it inverts.
- `HexDump` (hexdump.dfy): the `_hd` formatter and a parser that inverts it.
- `Sensor` (sensor.dfy): the `CO2MINI` object as class `Co2Mini`. Its field
  `values` is the `_values` dictionary. `ReadData` updates it in place.
  `ReadStep` is the pure specification of one `read_data` call, and `Replay`
  folds it over a sequence of reads.
- `Discovery` (discovery.dfy): the selection rule of `find_co2_sensor`, over the
  results of the shell calls given as data.
- `Worker` (worker.dfy): the polling thread's stop condition, and the loop
  driving `ReadData` (see Findings).
- `Wrappers` (wrappers.dfy): an `Option` type for Python's `None`.

The device read is an input, `ReadOutcome`: either the read raised, or it
returned a list of bytes (0 to 8 of them).

Where the design description of this driver and the code disagree, the model
follows the code:

- A read of 5 to 7 bytes is not treated as failed. `read_data` decodes its
  first five bytes like a full frame.
- A frame that fails the checks is discarded, but `read_data` still returns
  True. Only a read that raises, or that returns fewer than 5 bytes, gives False.
- An unknown operation code is stored as a new key. The key set only grows.
- The polling thread is described as stopping once the driver object becomes
  unreachable. As written, it keeps the object reachable itself (see Findings).

## Model

| member | source | states |
|---|---|---|
| Bits.AndMask | sensor/CO2MINI.py:67 | masking with 2^k-1 (`& 0xFF` for k = 8) gives the remainder modulo 2^k |
| Bits.ShiftLeftIsMul | sensor/CO2MINI.py:71 | `a << k` equals a * 2^k |
| Bits.OrDisjoint | sensor/CO2MINI.py:71 | or-ing a value below 2^k into a multiple of 2^k is addition |
| Protocol.LowByte | sensor/CO2MINI.py:67 | the checksum side `sum & 0xFF` equals the sum modulo 256 |
| Protocol.BigEndian16 | sensor/CO2MINI.py:71 | `b1 << 8` or-ed with `b2` equals b1*256 + b2 and lies in 0..65535 |
| Protocol.Decode | sensor/CO2MINI.py:64-72 | too short exactly when fewer than 5 bytes; accepted exactly when byte 4 is 0x0D and (b0+b1+b2) mod 256 equals b3; an accepted frame yields operation b0 and value b1*256+b2 in 0..65535 |
| Protocol.DecodeEncode | sensor/CO2MINI.py:67-71 | every (operation, 16-bit value) frame built by the sensor decodes back to itself, whatever bytes 5..7 hold |
| Protocol.EncodeDecode | sensor/CO2MINI.py:67-71 | every accepted frame is the encoding of what it decodes to, so no other frame is accepted |
| Protocol.DecodeIgnoresReserved | sensor/CO2MINI.py:67-71 | bytes 5..7 are never consulted: replacing them leaves the outcome unchanged |
| Protocol.ExampleFrames | sensor/CO2MINI.py:67-72 | frame 50 01 94 E5 0D decodes to CO2 = 404; frame 50 01 94 95 0D is a checksum error |
| HexDump.Token | sensor/CO2MINI.py:87 | `"%02X" % b` is two characters for every byte |
| HexDump.Dump | sensor/CO2MINI.py:77-87 | n bytes give 3n-1 characters; no bytes give the empty string |
| HexDump.DumpTokenAt | sensor/CO2MINI.py:87 | the i-th byte's two-digit token sits at offset 3i and is followed by a single space unless it is the last |
| HexDump.ParseDump | sensor/CO2MINI.py:87 | parsing the dump gives back exactly the bytes dumped, so the dump loses nothing |
| HexDump.DumpParse | sensor/CO2MINI.py:87 | any string the parser accepts is the dump of its result, so the parser accepts exactly the dumps |
| Sensor.InitialValues | sensor/CO2MINI.py:42 | the initial dictionary has exactly the keys 0x50, 0x42 and 0x44, all mapped to 0 |
| Sensor.ReadStep | sensor/CO2MINI.py:64-75 | returns True exactly when the read gave at least 5 bytes; an accepted frame sets key b0 to b1*256+b2; every other key keeps its value; a checksum failure, a short read or a raised read changes nothing; no key is removed; the invariant is kept |
| Sensor.ReplayWellFormed | sensor/CO2MINI.py:64-75 | any run of reads keeps the three known keys, keeps every value in 0..65535, and removes no key |
| Sensor.ReplayKeepsUnwritten | sensor/CO2MINI.py:89-92 | a key keeps its value across reads with no accepted frame for that code, so `get_co2` agrees before and after reads without an accepted 0x50 frame |
| Sensor.ReplayLastWriteWins | sensor/CO2MINI.py:70-72 | after a run of reads, a code holds the value of the last accepted frame for it, whatever came before |
| Sensor.Co2Mini.constructor | sensor/CO2MINI.py:42 | a new sensor starts from the initial dictionary |
| Sensor.Co2Mini.ReadData | sensor/CO2MINI.py:55-75 | returns and leaves behind exactly what `ReadStep` prescribes for the old dictionary, keeping the invariant |
| Sensor.Co2Mini.GetCo2 | sensor/CO2MINI.py:89-92 | returns the stored CO2 value unconverted, in 0..65535, without changing state |
| Sensor.Co2Mini.GetTemperature | sensor/CO2MINI.py:94-97 | raw/16 - 273.15 over exact reals: lies in -273.15..3822.7875 and determines the raw value back |
| Sensor.Co2Mini.GetHumidity | sensor/CO2MINI.py:99-103 | raw/100 over exact reals: lies in 0..655.35 and determines the raw value back |
| Sensor.Example | sensor/CO2MINI.py:64-92 | after the good 404 ppm frame `get_co2` is 404; the same frame with a bad checksum returns True and CO2 stays 404; an empty read returns False |
| Discovery.Contains | sensor/CO2MINI_HidrawAdjust.py:76 | the substring test holds exactly when the vendor string occurs at some offset of the query output |
| Discovery.FirstSensor | sensor/CO2MINI_HidrawAdjust.py:73-79 | None exactly when no node's query succeeded with the vendor string in it; otherwise the path of such a node with no such node listed before it |
| Discovery.FindCo2Sensor | sensor/CO2MINI_HidrawAdjust.py:69-81 | None when the listing fails; otherwise the first-match selection over the listed nodes |
| Discovery.PrefersEarlier | sensor/CO2MINI_HidrawAdjust.py:73-79 | a matching node is selected whenever no node before it matches, whatever is listed after it |
| Worker.IterationsAsWritten | sensor/CO2MINI.py:23-27 | as written, the loop runs at most one iteration per liveness check and starts only if the sensor is alive |
| Worker.AsWrittenOutlivesOwner | sensor/CO2MINI.py:23-27 | as written, once the first iteration ran the loop never stops, whatever the owner does |
| Worker.OwnerReleasedAfterFirstCheck | sensor/CO2MINI.py:23-27 | owner trace [true, false, false]: 3 reads as written, 1 read as intended |
| Worker.Iterations | sensor/CO2MINI.py:23-27 | corrected loop: runs exactly while the owner still holds the sensor, and stops at the first check after it let go |
| Worker.RunWorker | sensor/CO2MINI.py:14-27 | the corrected loop performs `Iterations(owner)` reads and leaves the sensor holding the replay of exactly those reads |

## Findings

| source | as written | input that shows it | evidently intended | confidence | as-written member | corrected member |
|---|---|---|---|---|---|---|
| sensor/CO2MINI.py:23-27 | `self = weak_self()` keeps a strong reference in the worker's local `self` across iterations, so each later call of the weak reference finds the sensor alive; the thread never stops and the sensor and its file are never released (same loop in sensor/CO2MINI_HidrawAdjust.py:15-19) | the owner drops the sensor right after the worker's first liveness check (owner trace [true, false, false]): 3 reads instead of 1 | the thread stops at the first check after the owner drops the sensor, as the docstring at lines 17-18 says; for instance by deleting `self` at the end of each iteration | not executed; follows from CPython reference counting | Worker.AsWrittenOutlivesOwner | Worker.Iterations |

## Left out

- Device I/O is not modelled: opening the hidraw node, the feature-report
  handshake (`ioctl` with the leading zero byte and `VENDOR_KEY`) and the
  blocking `read(8)`. The read becomes the input `ReadOutcome`.
- Payloads are read as plaintext, as in the source. The vendor key is kept as
  a constant only.
- The constructor fallback in sensor/CO2MINI_HidrawAdjust.py:29-37 is device
  I/O: when opening or the handshake fails, it opens the discovered path.
  `Co2Mini.constructor` models only the initial dictionary.
- Thread creation, the daemon flag and concurrency between the worker and the
  accessors are not modelled. The worker is modelled over a finite trace of
  liveness observations, while the source loops for as long as the sensor lives.
- Worker.RunWorker: runs the corrected loop of the Finding, not the loop as
  written. The as-written behaviour is `Worker.IterationsAsWritten`.
- Sensor.Co2Mini.ReadData: inside the source's bare `except`, any other
  exception (for instance from the checksum-error `print`) also returns False.
  Only exceptions from the read and from `data[4]` are modelled.
- Printing and logging are left out, including the "Checksum error" line. The
  hex dump it prints is modelled as `HexDump.Dump`.
- Sensor.Co2Mini.GetTemperature and Sensor.Co2Mini.GetHumidity: computed over
  exact reals, not IEEE-754 doubles, so rounding is not modelled.
- Discovery.FindCo2Sensor: the `ls` and `udevadm` shell calls are replaced by
  their results. The listing is given already split into paths, so the
  whitespace split of `ls` output is not modelled.
- The `main` functions (argument parsing and the sleep loop) are not modelled.
- lib/spread_sheet.py is not part of this model: it forwards calls to a
  spreadsheet service over the network.
- handler.py is not part of this model: it only schedules calls to `read_data`,
  `get_co2` and the spreadsheet.
