/**
 * The sensor state of a CO2MINI object: the `_values` dictionary from
 * operation code to last-seen raw value, updated in place by `read_data`
 * and read by the accessors.
 */
module Sensor {
  import opened Protocol

  /** What `self._file.read(8)` produced. */
  datatype ReadOutcome =
    | ReadRaised             // the read raised (or gave no bytes object)
    | Got(bytes: seq<Byte>)  // `list(...)` of the bytes that were read

  /** The return value of `read_data` and the dictionary it leaves behind. */
  datatype StepResult = StepResult(ok: bool, values: map<Byte, int>)

  /** The dictionary built in `__init__`. */
  function InitialValues(): (m: map<Byte, int>)
    ensures m.Keys == {CO2METER_CO2, CO2METER_TEMP, CO2METER_HUM}
    ensures forall k :: k in m ==> m[k] == 0
    ensures WellFormed(m)
  {
    map[CO2METER_CO2 := 0, CO2METER_TEMP := 0, CO2METER_HUM := 0]
  }

  /** The accessors' keys are present and every stored value is a 16-bit value. */
  predicate WellFormed(m: map<Byte, int>)
  {
    && CO2METER_CO2 in m && CO2METER_TEMP in m && CO2METER_HUM in m
    && forall k :: k in m ==> 0 <= m[k] < 0x1_0000
  }

  /** The read delivered a frame that passes both checks. */
  predicate Updates(read: ReadOutcome)
  {
    read.Got? && Accepts(read.bytes)
  }

  /**
   * One `read_data` call on the dictionary `values`: a raised read or a short
   * read (fewer than five bytes, so `data[4]` raises) gives False and changes
   * nothing; a checksum failure gives True and changes nothing; an accepted
   * frame gives True and stores its value under its operation code, whatever
   * that code is.
   */
  function ReadStep(values: map<Byte, int>, read: ReadOutcome): (r: StepResult)
    ensures r.ok <==> read.Got? && |read.bytes| >= 5
    ensures Updates(read) ==>
      r.values == values[read.bytes[0] := read.bytes[1] as int * 256 + read.bytes[2]]
    ensures !Updates(read) ==> r.values == values
    ensures values.Keys <= r.values.Keys
    ensures forall k :: k in values && !(Updates(read) && k == read.bytes[0]) ==> r.values[k] == values[k]
    ensures WellFormed(values) ==> WellFormed(r.values)
  {
    match read
    case ReadRaised => StepResult(false, values)
    case Got(data) =>
      match Decode(data)
      case TooShort => StepResult(false, values)
      case ChecksumError => StepResult(true, values)
      case Sample(operation, value) => StepResult(true, values[operation := value])
  }

  /** The dictionary after a run of `read_data` calls, as the polling thread makes them. */
  function Replay(values: map<Byte, int>, outcomes: seq<ReadOutcome>): map<Byte, int>
    decreases |outcomes|
  {
    if outcomes == [] then values
    else Replay(ReadStep(values, outcomes[0]).values, outcomes[1..])
  }

  lemma ReplayStep(values: map<Byte, int>, outcomes: seq<ReadOutcome>, read: ReadOutcome)
    ensures Replay(values, outcomes + [read]) == ReadStep(Replay(values, outcomes), read).values
    decreases |outcomes|
  {
    if outcomes != [] {
      assert (outcomes + [read])[1..] == outcomes[1..] + [read];
      ReplayStep(ReadStep(values, outcomes[0]).values, outcomes[1..], read);
    }
  }

  /** No run of reads removes a key or breaks the accessors' invariant. */
  lemma {:induction false} ReplayWellFormed(values: map<Byte, int>, outcomes: seq<ReadOutcome>)
    requires WellFormed(values)
    ensures WellFormed(Replay(values, outcomes))
    ensures values.Keys <= Replay(values, outcomes).Keys
    decreases |outcomes|
  {
    if outcomes != [] {
      ReplayWellFormed(ReadStep(values, outcomes[0]).values, outcomes[1..]);
    }
  }

  /**
   * A key keeps its value across any run of reads in which no accepted frame
   * carries that operation code: in particular `get_co2` returns the same
   * value before and after reads without an accepted 0x50 frame.
   */
  lemma {:induction false} ReplayKeepsUnwritten(values: map<Byte, int>, outcomes: seq<ReadOutcome>, key: Byte)
    requires key in values
    requires forall i :: 0 <= i < |outcomes| ==> !(Updates(outcomes[i]) && outcomes[i].bytes[0] == key)
    ensures key in Replay(values, outcomes) && Replay(values, outcomes)[key] == values[key]
    decreases |outcomes|
  {
    if outcomes != [] {
      ReplayKeepsUnwritten(ReadStep(values, outcomes[0]).values, outcomes[1..], key);
    }
  }

  /** The last accepted frame for a code decides that code's value, whatever came before. */
  lemma {:induction false} ReplayLastWriteWins(values: map<Byte, int>, outcomes: seq<ReadOutcome>, j: nat)
    requires j < |outcomes| && Updates(outcomes[j])
    requires forall i :: j < i < |outcomes| ==> !(Updates(outcomes[i]) && outcomes[i].bytes[0] == outcomes[j].bytes[0])
    ensures outcomes[j].bytes[0] in Replay(values, outcomes)
    ensures Replay(values, outcomes)[outcomes[j].bytes[0]] == outcomes[j].bytes[1] as int * 256 + outcomes[j].bytes[2]
    decreases |outcomes|
  {
    if j > 0 {
      ReplayLastWriteWins(ReadStep(values, outcomes[0]).values, outcomes[1..], j - 1);
    } else {
      var after := ReadStep(values, outcomes[0]).values;
      ReplayKeepsUnwritten(after, outcomes[1..], outcomes[0].bytes[0]);
    }
  }

  class Co2Mini {
    var values: map<Byte, int>

    ghost predicate Valid()
      reads this
    {
      WellFormed(values)
    }

    /** `__init__` without the device: the dictionary starts with the three known codes at 0. */
    constructor ()
      ensures Valid()
      ensures values == InitialValues()
    {
      values := InitialValues();
    }

    /** `read_data`, given what the device read produced. */
    method ReadData(read: ReadOutcome) returns (ok: bool)
      requires Valid()
      modifies this
      ensures Valid()
      ensures ok == ReadStep(old(values), read).ok
      ensures values == ReadStep(old(values), read).values
    {
      match read {
        case ReadRaised =>
          ok := false;
        case Got(data) =>
          match Decode(data) {
            case TooShort =>
              ok := false;
            case ChecksumError =>
              ok := true;
            case Sample(operation, value) =>
              values := values[operation := value];
              ok := true;
          }
      }
    }

    /** `get_co2`: the raw stored CO2 reading, in ppm. */
    function GetCo2(): (r: int)
      reads this
      requires Valid()
      ensures r == values[CO2METER_CO2] && 0 <= r < 0x1_0000
    {
      values[CO2METER_CO2]
    }

    /** `get_temperature`, over exact reals: raw / 16 - 273.15, which the raw value determines. */
    function GetTemperature(): (r: real)
      reads this
      requires Valid()
      ensures -273.15 <= r <= 3822.7875
      ensures (r + 273.15) * 16.0 == values[CO2METER_TEMP] as real
    {
      values[CO2METER_TEMP] as real / 16.0 - 273.15
    }

    /** `get_humidity`, over exact reals: raw / 100. */
    function GetHumidity(): (r: real)
      reads this
      requires Valid()
      ensures 0.0 <= r <= 655.35
      ensures r * 100.0 == values[CO2METER_HUM] as real
    {
      values[CO2METER_HUM] as real / 100.0
    }
  }

  /**
   * The worked example: a good 404 ppm frame, then the same frame with a bad
   * checksum, then an empty read.
   */
  method Example() returns (co2AfterGood: int, okBad: bool, co2AfterBad: int, okEmpty: bool)
    ensures co2AfterGood == 404 && co2AfterBad == 404
    ensures okBad && !okEmpty
  {
    ExampleFrames();
    var sensor := new Co2Mini();
    var ok := sensor.ReadData(Got([0x50, 0x01, 0x94, 0xE5, 0x0D, 0, 0, 0]));
    co2AfterGood := sensor.GetCo2();
    okBad := sensor.ReadData(Got([0x50, 0x01, 0x94, 0x95, 0x0D, 0, 0, 0]));
    co2AfterBad := sensor.GetCo2();
    okEmpty := sensor.ReadData(Got([]));
  }
}
