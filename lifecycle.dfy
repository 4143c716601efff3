/**
  The application's state machine: APP_Initialize puts it in its initial
  state, and each APP_Tasks call waits for the TCP/IP stack, then formats the
  device id from the MAC address and starts the Nabto stack and the demo,
  then ticks the demo for ever. What the platform answers during one call
  (stack status, MAC address, the result of unabto_init) is an Environment.
 */
module Lifecycle {
  import opened Codec
  import opened HeatPumpState
  import opened Firmware

  datatype AppState = Init | InitUnabto | ServiceTasks

  type Mac = s: seq<byte> | |s| == 6 witness [0, 0, 0, 0, 0, 0]

  /** The platform's answers during one APP_Tasks call: TCPIP_STACK_Status == SYS_STATUS_READY,
      TCPIP_STACK_NetAddressMac (None for NULL), and unabto_init(). */
  datatype Environment = Environment(stackReady: bool, mac: Option<Mac>, unabtoInitOk: bool)

  /** How far along the start-up a state is. */
  function Stage(st: AppState): nat {
    match st
    case Init => 0
    case InitUnabto => 1
    case ServiceTasks => 2
  }

  /** Whether an APP_Tasks call in INIT_UNABTO gets past both checks and runs demo_init. */
  predicate Starts(env: Environment) {
    env.mac.Some? && env.unabtoInitOk
  }

  /** The state after one APP_Tasks call. */
  function Next(st: AppState, env: Environment): (r: AppState)
    ensures Stage(st) <= Stage(r) <= Stage(st) + 1
    ensures st == Init ==> (r == InitUnabto <==> env.stackReady)
    ensures st == InitUnabto ==> (r == ServiceTasks <==> Starts(env))
    ensures st == ServiceTasks ==> r == ServiceTasks
  {
    match st
    case Init => if env.stackReady then InitUnabto else Init
    case InitUnabto => if Starts(env) then ServiceTasks else InitUnabto
    case ServiceTasks => ServiceTasks
  }

  /** The device statics after one APP_Tasks call: demo_init names the device and, as the
      case has no break, the same call goes on into the first service tick. */
  function DeviceAfter(st: AppState, env: Environment, s: DeviceState): (r: DeviceState)
    requires WellFormed(s)
    ensures WellFormed(r)
    ensures st == Init || (st == InitUnabto && !Starts(env)) ==> r == s
    ensures st == InitUnabto && Starts(env) ==> r == Tick(WithDefaultName(s))
    ensures st == ServiceTasks ==> r == Tick(s)
  {
    match st
    case Init => s
    case InitUnabto => if Starts(env) then Tick(WithDefaultName(s)) else s
    case ServiceTasks => Tick(s)
  }

  /** The value demo_init passes to setLed(1, ...), when it runs in this call. */
  function LedAfter(st: AppState, env: Environment, s: DeviceState): (led: Option<byte>)
    ensures led.Some? <==> st == InitUnabto && Starts(env)
    ensures led.Some? ==> led.value == s.power
  {
    if st == InitUnabto && Starts(env) then Some(s.power) else None
  }

  /** The state after a run of APP_Tasks calls. */
  function Run(st: AppState, envs: seq<Environment>): AppState {
    if envs == [] then st else Next(Run(st, envs[..|envs| - 1]), envs[|envs| - 1])
  }

  /** The device statics after a run of APP_Tasks calls. */
  function RunDevice(st: AppState, envs: seq<Environment>, s: DeviceState): (r: DeviceState)
    requires WellFormed(s)
    ensures WellFormed(r)
  {
    if envs == [] then s
    else DeviceAfter(Run(st, envs[..|envs| - 1]), envs[|envs| - 1], RunDevice(st, envs[..|envs| - 1], s))
  }

  /** Start-up only moves forward: once past INIT the application never returns to it,
      and once serving it stays serving. */
  lemma {:induction false} RunMovesForward(st: AppState, envs: seq<Environment>)
    ensures Stage(st) <= Stage(Run(st, envs))
    ensures st != Init ==> Run(st, envs) != Init
    ensures st == ServiceTasks ==> Run(st, envs) == ServiceTasks
  {
    if envs != [] {
      RunMovesForward(st, envs[..|envs| - 1]);
    }
  }

  /** While serving, APP_Tasks is the demo tick and nothing else, whatever the platform answers. */
  lemma {:induction false} ServingTicks(envs: seq<Environment>, s: DeviceState)
    requires WellFormed(s)
    ensures RunDevice(ServiceTasks, envs, s) == Ticks(s, |envs|)
  {
    if envs != [] {
      RunMovesForward(ServiceTasks, envs[..|envs| - 1]);
      ServingTicks(envs[..|envs| - 1], s);
    }
  }

  /** A call in INIT_UNABTO that gets past both checks names the device, ticks once, and serves from then on. */
  lemma StartUp(env: Environment, s: DeviceState)
    requires WellFormed(s) && Starts(env)
    ensures Next(InitUnabto, env) == ServiceTasks
    ensures CStr(DeviceAfter(InitUnabto, env, s).name) == DeviceNameDefault
    ensures DeviceAfter(InitUnabto, env, s) == Tick(s).(name := DeviceAfter(InitUnabto, env, s).name)
  {
  }

  // ---------------------------------------------------------------------
  // The device id: sprintf("%02x%02x%02x%s", mac[3], mac[4], mac[5], idSuffix)
  // ---------------------------------------------------------------------

  const IdSuffix: seq<byte> := Ascii(".starterkit.u.nabto.net")
  const IdBufferSize: nat := 64

  /** A lower-case hexadecimal digit, as %x prints it. */
  function HexDigit(d: nat): (c: byte)
    requires d < 16
    ensures c != 0
  {
    if d < 10 then 48 + d else 87 + d
  }

  /** The value of a lower-case hexadecimal digit. */
  function HexValue(c: byte): Option<nat> {
    if 48 <= c <= 57 then Some(c - 48)
    else if 97 <= c <= 102 then Some(c - 87)
    else None
  }

  /** HexValue inverts HexDigit, and HexDigit prints exactly the characters HexValue accepts. */
  lemma HexDigitRoundTrip(d: nat, c: byte)
    requires d < 16
    ensures HexValue(HexDigit(d)) == Some(d)
    ensures HexValue(c) == Some(d) ==> HexDigit(d) == c
  {
  }

  /** %02x of one byte. */
  function Hex2(b: byte): (r: seq<byte>)
    ensures |r| == 2 && 0 !in r
  {
    [HexDigit(b / 16), HexDigit(b % 16)]
  }

  /** Reading two hexadecimal digits back. */
  function HexPair(s: seq<byte>): Option<byte>
    requires |s| == 2
  {
    match (HexValue(s[0]), HexValue(s[1]))
    case (Some(hi), Some(lo)) => if hi < 16 && lo < 16 then Some((16 * hi + lo) as byte) else None
    case _ => None
  }

  lemma Hex2RoundTrip(b: byte)
    ensures HexPair(Hex2(b)) == Some(b)
  {
    HexDigitRoundTrip(b / 16, 0);
    HexDigitRoundTrip(b % 16, 0);
  }

  /** The device id: the last three MAC bytes in hexadecimal, then the suffix. */
  function DeviceId(mac: Mac): (id: seq<byte>)
    ensures |id| == 6 + |IdSuffix|
  {
    Hex2(mac[3]) + Hex2(mac[4]) + Hex2(mac[5]) + IdSuffix
  }

  /** The suffix is a NUL-free string of 23 characters. */
  lemma SuffixText()
    ensures 0 !in IdSuffix && |IdSuffix| == 23
  {
  }

  /** The id holds no NUL, fits idBuffer with its terminator, ends in the suffix, and its
      first six characters read back as the last three MAC bytes. */
  lemma DeviceIdFields(mac: Mac)
    ensures 0 !in DeviceId(mac) && |DeviceId(mac)| + 1 <= IdBufferSize
    ensures DeviceId(mac)[6..] == IdSuffix
    ensures HexPair(DeviceId(mac)[0..2]) == Some(mac[3])
    ensures HexPair(DeviceId(mac)[2..4]) == Some(mac[4])
    ensures HexPair(DeviceId(mac)[4..6]) == Some(mac[5])
  {
    var id := DeviceId(mac);
    SuffixText();
    assert id[0..2] == Hex2(mac[3]) && id[2..4] == Hex2(mac[4]) && id[4..6] == Hex2(mac[5]);
    Hex2RoundTrip(mac[3]);
    Hex2RoundTrip(mac[4]);
    Hex2RoundTrip(mac[5]);
  }

  /** Two devices get the same id exactly when their MAC addresses end in the same three bytes. */
  lemma DeviceIdInjective(m1: Mac, m2: Mac)
    ensures DeviceId(m1) == DeviceId(m2) <==> m1[3..] == m2[3..]
  {
    DeviceIdFields(m1);
    DeviceIdFields(m2);
    if DeviceId(m1) == DeviceId(m2) {
      assert m1[3] == m2[3] && m1[4] == m2[4] && m1[5] == m2[5];
      assert m1[3..] == [m1[3], m1[4], m1[5]];
      assert m2[3..] == [m2[3], m2[4], m2[5]];
    }
  }

  /** idBuffer after the memset and the sprintf: the id, its terminator, then zeros. */
  function IdBuffer(mac: Mac): (r: seq<byte>)
    ensures |r| == IdBufferSize
    ensures CStrLen(r) < IdBufferSize && CStr(r) == DeviceId(mac)
  {
    var id := DeviceId(mac);
    DeviceIdFields(mac);
    var rest := seq(IdBufferSize - |id| - 1, _ => 0);
    CStrOfTerminated(id, rest);
    id + [0] + rest
  }

  /** appData together with the statics it drives: the device state and idBuffer. */
  class App {
    var state: AppState       // appData.state
    const idBuffer: array<byte>
    const device: Device

    ghost predicate Valid()
      reads this, device, device.name
    {
      device.Valid() && idBuffer.Length == IdBufferSize && idBuffer != device.name
    }

    /** APP_Initialize, with the statics as the program image initialises them. */
    constructor ()
      ensures Valid() && state == Init
      ensures device.State() == Initial() && idBuffer[..] == seq(IdBufferSize, _ => 0)
      ensures fresh(device) && fresh(device.name) && fresh(idBuffer)
    {
      state := Init;
      idBuffer := new byte[IdBufferSize](_ => 0);
      device := new Device();
      new;
      assert idBuffer[..] == seq(IdBufferSize, _ => 0);
    }

    /** The memset and sprintf into idBuffer. */
    method FormatId(mac: Mac)
      requires Valid()
      modifies idBuffer
      ensures Valid() && idBuffer[..] == IdBuffer(mac)
    {
      forall i | 0 <= i < IdBufferSize {
        idBuffer[i] := 0;
      }
      var id := DeviceId(mac);
      forall i | 0 <= i < |id| {
        idBuffer[i] := id[i];
      }
      assert idBuffer[..] == IdBuffer(mac);
    }

    /** APP_Tasks: one step of the state machine, in the given platform environment.
        `led` is the value demo_init passes to setLed(1, ...), when it runs. */
    method Tasks(env: Environment) returns (led: Option<byte>)
      requires Valid()
      modifies this, device, device.name, idBuffer
      ensures Valid()
      ensures state == Next(old(state), env)
      ensures device.State() == DeviceAfter(old(state), env, old(device.State()))
      ensures led == LedAfter(old(state), env, old(device.State()))
      ensures idBuffer[..] ==
        if old(state) == InitUnabto && env.mac.Some? then IdBuffer(env.mac.value) else old(idBuffer[..])
    {
      led := None;
      if state == Init {
        if env.stackReady {
          state := InitUnabto;
        }
        return;
      }
      if state == InitUnabto {
        if env.mac.None? {
          return;
        }
        FormatId(env.mac.value);
        if !env.unabtoInitOk {
          return;
        }
        var power := device.DemoInit();
        led := Some(power);
        state := ServiceTasks;
      }
      // SERVICE_TASKS, also reached by falling through from INIT_UNABTO
      var shown := device.ApplicationTick();
    }
  }
}
