/**
  The device's module-level state as a value: the heat pump's power, mode
  and temperatures, the 50-byte device-name buffer and the tick counter of
  the room-temperature simulation, with the constants the queries report.
 */
module HeatPumpState {
  import opened Codec

  type int32 = x: int | -0x8000_0000 <= x < 0x8000_0000

  /** heatpump_mode_t; the mode is stored as a raw 32-bit value. */
  const HpmCool: u32 := 0
  const HpmHeat: u32 := 1
  const HpmCirculate: u32 := 2
  const HpmDehumidify: u32 := 3

  predicate IsKnownMode(m: u32) {
    m == HpmCool || m == HpmHeat || m == HpmCirculate || m == HpmDehumidify
  }

  const MaxDeviceNameLength: nat := 50
  const DeviceNameDefault: seq<byte> := Ascii("AMP Heat App")
  const DeviceProduct: seq<byte> := Ascii("ACME 9002 Heatpump")
  const DeviceIcon: seq<byte> := Ascii("chip-small.png")
  const DeviceInterfaceId: seq<byte> := Ascii("317aadf2-3137-474b-8ddb-fea437c424f4")
  const InterfaceVersionMajor: u16 := 1
  const InterfaceVersionMinor: u16 := 0

  // The text constants are NUL-free C strings of these lengths.

  lemma InterfaceIdText()
    ensures 0 !in DeviceInterfaceId && |DeviceInterfaceId| == 36
  {
  }

  lemma ProductText()
    ensures 0 !in DeviceProduct && |DeviceProduct| == 18
  {
  }

  lemma IconText()
    ensures 0 !in DeviceIcon && |DeviceIcon| == 14
  {
  }

  lemma DefaultNameText()
    ensures 0 !in DeviceNameDefault && |DeviceNameDefault| == 12
  {
  }

  /** The room temperature moves once the tick counter has passed this value. */
  const TickThreshold: u16 := 60000

  datatype DeviceState = DeviceState(
    power: byte,      // heatpump_state_
    mode: u32,        // heatpump_mode_
    target: int32,    // heatpump_target_temperature_
    room: int32,      // heatpump_room_temperature_
    name: seq<byte>,  // device_name_[MAX_DEVICE_NAME_LENGTH]
    ticks: u16        // ticks_ of demo_application_tick
  )

  /** The name buffer has its fixed size and holds a terminated string, so strlen stays inside it. */
  predicate WellFormed(s: DeviceState) {
    |s.name| == MaxDeviceNameLength && CStrLen(s.name) < MaxDeviceNameLength
  }

  /** The statics as the program image initialises them: the name buffer is all zero. */
  function Initial(): (s: DeviceState)
    ensures WellFormed(s) && CStr(s.name) == []
    ensures s.name == seq(MaxDeviceNameLength, _ => 0) && s.ticks == 0
    ensures s.power == 1 && s.mode == HpmHeat && s.target == 23 && s.room == 19
  {
    DeviceState(1, HpmHeat, 23, 19, seq(MaxDeviceNameLength, _ => 0), 0)
  }

  /** The snprintf of DEVICE_NAME_DEFAULT into device_name_ done by demo_init:
      the default text and its terminator, the rest of the buffer untouched. */
  function WithDefaultName(s: DeviceState): (r: DeviceState)
    requires WellFormed(s)
    ensures WellFormed(r) && CStr(r.name) == DeviceNameDefault
    ensures r.name[|DeviceNameDefault| + 1..] == s.name[|DeviceNameDefault| + 1..]
    ensures r == s.(name := r.name)
  {
    DefaultNameText();
    var rest := s.name[|DeviceNameDefault| + 1..];
    CStrOfTerminated(DeviceNameDefault, rest);
    s.(name := DeviceNameDefault + [0] + rest)
  }

  // ---------------------------------------------------------------------
  // Two's-complement casts between the signed temperatures and the wire
  // ---------------------------------------------------------------------

  /** (uint32_t) of an int32_t: the 32-bit pattern congruent to the value, the value itself when not negative. */
  function ToU32(t: int32): (w: u32)
    ensures w % 0x1_0000_0000 == t % 0x1_0000_0000
    ensures t >= 0 ==> w == t
  {
    if t < 0 then t + 0x1_0000_0000 else t
  }

  /** An int32_t read through a uint32_t pointer: the signed value congruent to the pattern. */
  function FromU32(w: u32): (t: int32)
    ensures t % 0x1_0000_0000 == w
    ensures t < 0 <==> w >= 0x8000_0000
  {
    if w < 0x8000_0000 then w else w - 0x1_0000_0000
  }

  lemma FromToU32(t: int32)
    ensures FromU32(ToU32(t)) == t
  {
  }

  lemma ToFromU32(w: u32)
    ensures ToU32(FromU32(w)) == w
  {
  }

  // ---------------------------------------------------------------------
  // The room-temperature simulation
  // ---------------------------------------------------------------------

  function Dist(a: int, b: int): nat {
    if a <= b then b - a else a - b
  }

  /** One adjustment of the room temperature: a degree toward the target,
      never past it, and none when it is already reached. */
  function Drift(room: int32, target: int32): (r: int32)
    ensures Dist(r, target) == if room == target then 0 else Dist(room, target) - 1
    ensures Dist(room, r) <= 1
    ensures room <= target ==> room <= r <= target
    ensures target <= room ==> target <= r <= room
  {
    if room < target then room + 1
    else if room > target then room - 1
    else room
  }

  /** demo_application_tick on the state (the display update left aside). */
  function Tick(s: DeviceState): (r: DeviceState)
    ensures r.room != s.room ==> s.ticks > TickThreshold
    ensures r == s.(room := r.room, ticks := r.ticks)
  {
    // on an adjustment the counter is reset to 0 and then incremented
    if s.ticks > TickThreshold then s.(room := Drift(s.room, s.target), ticks := 1)
    else s.(ticks := s.ticks + 1)
  }

  // ---------------------------------------------------------------------
  // The text demo_application_tick puts on the temperature label
  // ---------------------------------------------------------------------

  /** The size of the `number` buffer the label text is printed into. */
  const NumberBufferSize: nat := 2

  /** A buffer that holds the %u text of any 32-bit value with its terminator. */
  const LabelBufferSize: nat := 11

  function Pow10(k: nat): (p: nat)
    ensures p >= 1
  {
    if k == 0 then 1 else 10 * Pow10(k - 1)
  }

  predicate IsDigits(r: seq<byte>) {
    forall i :: 0 <= i < |r| ==> 48 <= r[i] <= 57
  }

  /** %u: the decimal digits of a value, most significant first, without leading zeros. */
  function Decimal(n: nat): (r: seq<byte>)
    ensures 1 <= |r| && IsDigits(r)
  {
    if n < 10 then [48 + n] else Decimal(n / 10) + [48 + n % 10]
  }

  /** The value a string of decimal digits denotes. */
  function DigitsValue(r: seq<byte>): nat
    requires IsDigits(r)
  {
    if r == [] then 0 else 10 * DigitsValue(r[..|r| - 1]) + (r[|r| - 1] - 48)
  }

  /** Reading the digits back gives the value printed. */
  lemma {:induction false} DecimalRoundTrip(n: nat)
    ensures DigitsValue(Decimal(n)) == n
  {
    if n >= 10 {
      DecimalRoundTrip(n / 10);
      var r := Decimal(n);
      assert r[..|r| - 1] == Decimal(n / 10);
    }
  }

  /** A value below 10^k prints in at most k digits. */
  lemma {:induction false} DecimalShort(n: nat, k: nat)
    requires 1 <= k && n < Pow10(k)
    ensures |Decimal(n)| <= k
  {
    if n >= 10 {
      assert k >= 2;
      assert n / 10 < Pow10(k - 1);
      DecimalShort(n / 10, k - 1);
    }
  }

  /** A value of at least 10^k prints in more than k digits. */
  lemma {:induction false} DecimalLong(n: nat, k: nat)
    requires Pow10(k) <= n
    ensures |Decimal(n)| > k
  {
    if k > 0 {
      assert n >= 10;
      assert Pow10(k - 1) <= n / 10;
      DecimalLong(n / 10, k - 1);
    }
  }

  /** As written, the label text goes into a two-byte buffer: for every room temperature of
      10 degrees or more (the initial 19 among them), and for every negative one, the digits
      and their terminator do not fit. */
  lemma NumberBufferOverflows(room: int32)
    requires room >= 10 || room < 0
    ensures |Decimal(ToU32(room))| + 1 > NumberBufferSize
  {
    DecimalLong(ToU32(room), 1);
  }

  /** The label text of a room temperature, for a buffer large enough for any 32-bit value:
      it fits with its terminator and reads back as the temperature's 32-bit pattern. */
  function RoomLabel(room: int32): (r: seq<byte>)
    ensures IsDigits(r) && |r| + 1 <= LabelBufferSize
    ensures DigitsValue(r) == ToU32(room)
  {
    DecimalShort(ToU32(room), 10);
    DecimalRoundTrip(ToU32(room));
    Decimal(ToU32(room))
  }

  /** `n` successive ticks. */
  function Ticks(s: DeviceState, n: nat): DeviceState {
    if n == 0 then s else Tick(Ticks(s, n - 1))
  }

  /** `n` successive adjustments of the room temperature toward a fixed target. */
  function Drifts(room: int32, target: int32, n: nat): int32 {
    if n == 0 then room else Drift(Drifts(room, target, n - 1), target)
  }

  /** While the counter stays at or below the threshold, ticks only count. */
  lemma {:induction false} QuietTicks(s: DeviceState, n: nat)
    requires s.ticks + n <= TickThreshold + 1
    ensures Ticks(s, n) == s.(ticks := s.ticks + n)
  {
    if n > 0 {
      QuietTicks(s, n - 1);
    }
  }

  /** After an adjustment the counter is 1, and the next adjustment comes
      exactly 60001 ticks later: the room temperature is adjusted once per
      60001 ticks. */
  lemma TickPeriod(s: DeviceState)
    requires s.ticks == 1
    ensures forall n :: 0 <= n <= TickThreshold ==> Ticks(s, n).room == s.room
    ensures Ticks(s, TickThreshold as nat + 1) == s.(room := Drift(s.room, s.target), ticks := 1)
  {
    forall n | 0 <= n <= TickThreshold
      ensures Ticks(s, n).room == s.room
    {
      QuietTicks(s, n);
    }
    QuietTicks(s, TickThreshold as nat);
  }

  /** From the initial counter the first adjustment happens on tick 60002. */
  lemma FirstAdjustment(s: DeviceState)
    requires s.ticks == 0
    ensures Ticks(s, TickThreshold as nat + 1).room == s.room
    ensures Ticks(s, TickThreshold as nat + 2) == s.(room := Drift(s.room, s.target), ticks := 1)
  {
    QuietTicks(s, TickThreshold as nat + 1);
  }

  /** Repeated adjustments converge to the target one degree at a time and never overshoot. */
  lemma {:induction false} DriftsConverge(room: int32, target: int32, n: nat)
    ensures Dist(Drifts(room, target, n), target) == if n <= Dist(room, target) then Dist(room, target) - n else 0
    ensures room <= target ==> room <= Drifts(room, target, n) <= target
    ensures target <= room ==> target <= Drifts(room, target, n) <= room
  {
    if n > 0 {
      DriftsConverge(room, target, n - 1);
    }
  }

  /** The room temperature moves monotonically: each adjustment keeps going the same way. */
  lemma {:induction false} DriftsMonotone(room: int32, target: int32, n: nat)
    ensures room <= target ==> Drifts(room, target, n) <= Drifts(room, target, n + 1)
    ensures target <= room ==> Drifts(room, target, n + 1) <= Drifts(room, target, n)
  {
    DriftsConverge(room, target, n);
  }

  /** With the initial 19 degrees and target 23, the room reaches 23 after four adjustments and stays. */
  lemma DefaultWarmUp(n: nat)
    ensures Drifts(19, 23, n) == if n <= 4 then 19 + n else 23
  {
    DriftsConverge(19, 23, n);
  }
}
