/**
 * Command dispatch, the second half of `MettlerToledoSim.read`: an exact-match
 * choice among ten MT-SICS command IDs, answered from the fixed instrument
 * profile, with `<cmd> A` for every other command ID.
 */
module Dispatcher {
  import opened Text

  /** What `Date.prototype.getSeconds` can return. */
  type Second = s: nat | s < 60

  datatype Configuration = Configuration(
    weighMode: string,
    environmentalStability: string,
    autoZeroMode: string,
    standbyTimeout: string)

  /** The instrument profile (`meterConfig`), fixed when the simulator is constructed. */
  datatype InstrumentProfile = InstrumentProfile(
    make: string,
    model: string,
    scaleType: string,
    serialNumber: string,
    firmwareRev: string,
    configuration: Configuration)

  const MeterConfig: InstrumentProfile :=
    InstrumentProfile("Mettler Toledo", "SimModel", "SimType", "X12345678", "SIM.0.0.0",
                      Configuration("0", "2", "1", "0"))

  /** `Math.trunc(seconds / 10) * 10`: the seconds rounded down to a multiple of ten. */
  function Weight(seconds: Second): (w: nat)
    ensures w % 10 == 0 && w <= seconds < w + 10
    ensures w <= 50
  {
    seconds / 10 * 10
  }

  /** `Weight(seconds).toFixed(2)`: the whole number followed by two zero decimals. */
  function WeightField(seconds: Second): (f: string)
  {
    NatToString(Weight(seconds)) + ".00"
  }

  /** The weight field is decimal digits that read back as the weight, then `.00`. */
  lemma WeightFieldDenotesWeight(seconds: Second)
    ensures var f := WeightField(seconds);
            |f| >= 4 && f[|f| - 3..] == ".00" && IsDigits(f[..|f| - 3])
            && ParseNat(f[..|f| - 3]) == Weight(seconds)
  {
    var f := WeightField(seconds);
    assert f[..|f| - 3] == NatToString(Weight(seconds));
    ParseNatToString(Weight(seconds));
  }

  /** Over a minute the weight field takes exactly the six values 0.00, 10.00, ..., 50.00, ten seconds each. */
  lemma WeightFieldValues(seconds: Second)
    ensures WeightField(seconds) == ["0.00", "10.00", "20.00", "30.00", "40.00", "50.00"][seconds / 10]
  {
    var k := seconds / 10;
    if k > 0 {
      assert NatToString(k * 10) == NatToString(k) + [DigitChar(0)];
    }
  }

  /** Lines 111-133 of the read handler: the response text for a command ID. */
  function Dispatch(p: InstrumentProfile, cmd: string, seconds: Second): string
  {
    if cmd == "S" then "S S " + WeightField(seconds) + " KG"
    else if cmd == "TA" then "TA A " + WeightField(seconds) + " KG"
    else if cmd == "I11" then "I11 A \"" + p.model + "\""
    else if cmd == "I2" then "I2 A \"" + p.scaleType + "\""
    else if cmd == "I4" then "I4 A \"" + p.serialNumber + "\""
    else if cmd == "I3" then "I3 A \"" + p.firmwareRev + "\""
    else if cmd == "M01" then "M01 A " + p.configuration.weighMode
    else if cmd == "M02" then "M02 A " + p.configuration.environmentalStability
    else if cmd == "M03" then "M03 A " + p.configuration.autoZeroMode
    else if cmd == "M16" then "M16 A " + p.configuration.standbyTimeout
    else cmd + " A"
  }

  /** `cmd` followed by a space and a status character heads `r`. */
  predicate Echoes(r: string, cmd: string, status: char) {
    |r| > |cmd| + 1 && r[..|cmd| + 1] == cmd + " " && r[|cmd| + 1] == status
  }

  /**
   * Every response starts with the command ID and a space, then the status:
   * `S` (stable weight) for the scale-value command, `A` for every other one.
   */
  lemma ResponseEchoesCommand(p: InstrumentProfile, cmd: string, seconds: Second)
    ensures Echoes(Dispatch(p, cmd, seconds), cmd, if cmd == "S" then 'S' else 'A')
  {
    var status := if cmd == "S" then 'S' else 'A';
    var r := Dispatch(p, cmd, seconds);
    ResponseHead(p, cmd, seconds, status);
    assert r[..|cmd| + 1] == r[..|cmd| + 2][..|cmd| + 1];
  }

  lemma ResponseHead(p: InstrumentProfile, cmd: string, seconds: Second, status: char)
    requires status == if cmd == "S" then 'S' else 'A'
    ensures var r := Dispatch(p, cmd, seconds);
            |r| >= |cmd| + 2 && r[..|cmd| + 2] == cmd + [' ', status]
  {
  }

  /** The command IDs that get a data-bearing response. */
  const KnownCommands: set<string> := {"S", "TA", "I11", "I2", "I4", "I3", "M01", "M02", "M03", "M16"}

  /**
   * A command ID gets a data-bearing response exactly when it is one of the
   * ten compared in the chain; every other ID gets the bare `<cmd> A`.
   */
  lemma DataBearingIffKnown(p: InstrumentProfile, cmd: string, seconds: Second)
    ensures Dispatch(p, cmd, seconds) != cmd + " A" <==> cmd in KnownCommands
  {
  }

  /** Any command ID outside the ten is acknowledged with exactly `<cmd> A`, never an error. */
  lemma UnknownCommandAcknowledged(p: InstrumentProfile, cmd: string, seconds: Second)
    requires cmd !in KnownCommands
    ensures Dispatch(p, cmd, seconds) == cmd + " A"
  {
  }

  /** The weighing responses of the simulator's own profile. */
  lemma MeterConfigWeighing(seconds: Second)
    ensures Dispatch(MeterConfig, "S", seconds) == "S S " + WeightField(seconds) + " KG"
    ensures Dispatch(MeterConfig, "TA", seconds) == "TA A " + WeightField(seconds) + " KG"
  {
  }

  /** The identification responses of the simulator's own profile. */
  lemma MeterConfigIdentity(seconds: Second)
    ensures Dispatch(MeterConfig, "I11", seconds) == "I11 A \"SimModel\""
    ensures Dispatch(MeterConfig, "I2", seconds) == "I2 A \"SimType\""
    ensures Dispatch(MeterConfig, "I4", seconds) == "I4 A \"X12345678\""
    ensures Dispatch(MeterConfig, "I3", seconds) == "I3 A \"SIM.0.0.0\""
  {
  }

  /** The configuration responses of the simulator's own profile. */
  lemma MeterConfigSettings(seconds: Second)
    ensures Dispatch(MeterConfig, "M01", seconds) == "M01 A 0"
    ensures Dispatch(MeterConfig, "M02", seconds) == "M02 A 2"
    ensures Dispatch(MeterConfig, "M03", seconds) == "M03 A 1"
    ensures Dispatch(MeterConfig, "M16", seconds) == "M16 A 0"
  {
  }
}
