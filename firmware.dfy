/**
  The application's module-level statics and the code that updates them in
  place: copy_buffer, copy_string and write_string over the query buffers,
  application_event, demo_init's naming of the device and the tick of the
  room-temperature simulation. Each method is proved to do exactly what the
  corresponding function of Queries or HeatPumpState says.
 */
module Firmware {
  import opened Codec
  import opened Acl
  import opened HeatPumpState
  import opened Queries

  /** copy_buffer: read a byte list from the request and memcpy it to the front of `dest`.
      The caller guarantees that `dest` holds at least `bufSize` bytes. */
  method CopyBuffer(request: Request, dest: array<byte>, bufSize: u16) returns (res: AerResult, len: u16)
    requires request.Valid()
    requires bufSize <= dest.Length
    modifies request, dest
    ensures request.Valid()
    ensures var c := CopyBufferSpec(old(request.Remaining()), bufSize, old(dest[..]));
      res == c.result && request.pos == old(request.pos) + c.consumed && dest[..] == c.dest &&
      (res != TooSmall ==> len == c.len)
  {
    var ok, bytes := request.ReadList();
    if !ok {
      return TooSmall, 0;
    }
    len := |bytes|;
    if len > bufSize {
      return TooLarge, len;
    }
    // memcpy(dest, buffer, *len)
    forall i | 0 <= i < len {
      dest[i] := bytes[i];
    }
    assert dest[..] == bytes + old(dest[..])[len..];
    return ResponseReady, len;
  }

  /** copy_string: copy_buffer into all but the last byte of `dest`, then the terminator.
      `destSize - 1` is computed in 16 bits, so the caller must pass at least 1. */
  method CopyString(request: Request, dest: array<byte>, destSize: u16) returns (res: AerResult)
    requires request.Valid()
    requires 1 <= destSize <= dest.Length
    modifies request, dest
    ensures request.Valid()
    ensures var c := CopyStringSpec(old(request.Remaining()), destSize, old(dest[..]));
      res == c.result && request.pos == old(request.pos) + c.consumed && dest[..] == c.dest
  {
    var len;
    res, len := CopyBuffer(request, dest, destSize - 1);
    if res != ResponseReady {
      return res;
    }
    dest[len] := 0;
    return ResponseReady;
  }

  /** write_string: write the C string held in `s` (its bytes before the first NUL) as a byte list. */
  method WriteString(response: Response, s: seq<byte>) returns (ok: bool)
    requires response.Valid()
    requires CStrLen(s) < |s| && CStrLen(s) <= MaxListLength
    modifies response
    ensures response.Valid()
    ensures ok == (Size(List(CStr(s))) <= old(response.free))
    ensures response.written == if ok then old(response.written) + Encode(List(CStr(s))) else old(response.written)
  {
    ok := response.Write(List(CStr(s)));
  }

  /** write_string applied to a string literal: the literal's bytes, as a byte list. */
  method WriteText(response: Response, text: seq<byte>) returns (ok: bool)
    requires response.Valid()
    requires 0 !in text && |text| <= MaxListLength
    modifies response
    ensures response.Valid()
    ensures ok == (Size(List(text)) <= old(response.free))
    ensures response.written == if ok then old(response.written) + Encode(List(text)) else old(response.written)
  {
    CStrOfTerminated(text, []);
    assert text + [0] + [] == text + [0];
    ok := WriteString(response, text + [0]);
  }

  /** The statics of app.c that the queries and the tick update. */
  class Device {
    var power: byte    // heatpump_state_
    var mode: u32      // heatpump_mode_
    var target: int32  // heatpump_target_temperature_
    var room: int32    // heatpump_room_temperature_
    var ticks: u16     // the static ticks_ of demo_application_tick
    const name: array<byte>  // device_name_

    /** The statics as a value. */
    function State(): DeviceState
      reads this, name
    {
      DeviceState(power, mode, target, room, name[..], ticks)
    }

    ghost predicate Valid()
      reads this, name
    {
      WellFormed(State())
    }

    /** The statics as the program image initialises them. */
    constructor ()
      ensures Valid() && fresh(name) && State() == Initial()
    {
      power, mode, target, room, ticks := 1, HpmHeat, 23, 19, 0;
      name := new byte[MaxDeviceNameLength](_ => 0);
      new;
      assert name[..] == seq(MaxDeviceNameLength, _ => 0);
    }

    /** The part of demo_init that touches the statics: snprintf of the default device name.
        `led` is the value it then passes to setLed(1, ...). */
    method DemoInit() returns (led: byte)
      requires Valid()
      modifies name
      ensures Valid() && State() == WithDefaultName(old(State()))
      ensures led == power
    {
      var text := DeviceNameDefault + [0];
      forall i | 0 <= i < |text| {
        name[i] := text[i];
      }
      assert name[..] == text + old(name[..])[|text|..];
      assert State() == old(State()).(name := name[..]);
      assert State() == WithDefaultName(old(State()));
      led := power;
    }

    /** demo_application_tick. `shown` is the text put on the temperature label when the
        room temperature is adjusted, printed into a buffer large enough for it. */
    method ApplicationTick() returns (shown: Option<seq<byte>>)
      requires Valid()
      modifies this
      ensures Valid() && State() == Tick(old(State()))
      ensures shown == if old(ticks) > TickThreshold then Some(RoomLabel(room)) else None
    {
      shown := None;
      if ticks > TickThreshold {
        if room < target {
          room := room + 1;
        } else if room > target {
          room := room - 1;
        }
        ticks := 0;
        shown := Some(RoomLabel(room));
      }
      ticks := ticks + 1;
    }

    /** case 0 of application_event: interface id, major and minor version. The ghost
        values w1..w3 are the write chain of GetInterfaceInfo: once one write fails the rest
        of the chain keeps its output, which is what an early return leaves behind. */
    method AnswerInterfaceInfo(response: Response) returns (res: AerResult)
      requires response.Valid()
      modifies response
      ensures response.Valid()
      ensures var o := GetInterfaceInfo(old(State()), old(response.free));
        res == o.result && response.written == old(response.written) + o.output
    {
      ghost var base := response.written;
      ghost var o := GetInterfaceInfo(State(), response.free);
      ghost var w1 := Start(response.free).Then(List(DeviceInterfaceId));
      ghost var w2 := w1.Then(U16(InterfaceVersionMajor));
      ghost var w3 := w2.Then(U16(InterfaceVersionMinor));
      assert o.output == w3.out && o.result == Written(w3);
      InterfaceIdText();
      var ok := WriteText(response, DeviceInterfaceId);
      if !ok { return RspTooLarge; }
      assert w1.out == [] + Encode(List(DeviceInterfaceId)) == Encode(List(DeviceInterfaceId));
      ok := response.Write(U16(InterfaceVersionMajor));
      if !ok { return RspTooLarge; }
      Regroup(base, w1.out, Encode(U16(InterfaceVersionMajor)));
      ok := response.Write(U16(InterfaceVersionMinor));
      if !ok { return RspTooLarge; }
      Regroup(base, w2.out, Encode(U16(InterfaceVersionMinor)));
      return ResponseReady;
    }

    /** The three write_string calls case 10000 starts with: the name buffer, the product, the icon. */
    method WritePublicStrings(response: Response) returns (ok: bool)
      requires Valid() && response.Valid()
      modifies response
      ensures response.Valid()
      ensures var w := PublicStrings(old(State()), old(response.free));
        ok == !w.overflowed && response.written == old(response.written) + w.out && response.free == w.free
    {
      ghost var base := response.written;
      ghost var w1 := Start(response.free).Then(List(CStr(name[..])));
      ghost var w2 := w1.Then(List(DeviceProduct));
      ProductText();
      IconText();
      ok := WriteString(response, name[..]);
      if !ok { return; }
      assert w1.out == [] + Encode(List(CStr(name[..]))) == Encode(List(CStr(name[..])));
      ok := WriteText(response, DeviceProduct);
      if !ok { return; }
      Regroup(base, w1.out, Encode(List(DeviceProduct)));
      ok := WriteText(response, DeviceIcon);
      if !ok { return; }
      Regroup(base, w2.out, Encode(List(DeviceIcon)));
    }

    /** case 10000: the device name, product and icon, then the three ACL flags. */
    method AnswerPublicDeviceInfo(q: Query, response: Response) returns (res: AerResult)
      requires Valid() && response.Valid()
      modifies response
      ensures response.Valid()
      ensures var o := GetPublicDeviceInfo(old(State()), q, old(response.free));
        res == o.result && response.written == old(response.written) + o.output
    {
      ghost var base := response.written;
      ghost var o := GetPublicDeviceInfo(State(), q, response.free);
      ghost var w3 := PublicStrings(State(), response.free);
      ghost var w4 := w3.Then(U8(Flag(q.acl.pairAllowed)));
      ghost var w5 := w4.Then(U8(Flag(q.acl.userPaired)));
      ghost var w6 := w5.Then(U8(Flag(q.acl.userOwner)));
      assert o.output == w6.out && o.result == Written(w6);
      var ok := WritePublicStrings(response);
      if !ok { return RspTooLarge; }
      ok := response.Write(U8(Flag(q.acl.pairAllowed)));
      if !ok { return RspTooLarge; }
      Regroup(base, w3.out, Encode(U8(Flag(q.acl.pairAllowed))));
      ok := response.Write(U8(Flag(q.acl.userPaired)));
      if !ok { return RspTooLarge; }
      Regroup(base, w4.out, Encode(U8(Flag(q.acl.userPaired))));
      ok := response.Write(U8(Flag(q.acl.userOwner)));
      if !ok { return RspTooLarge; }
      Regroup(base, w5.out, Encode(U8(Flag(q.acl.userOwner))));
      return ResponseReady;
    }

    /** case 10010: owner only; copy_string into device_name_, then echo the stored name. */
    method AnswerSetDeviceInfo(q: Query, request: Request, response: Response) returns (res: AerResult)
      requires Valid() && request.Valid() && response.Valid()
      modifies name, request, response
      ensures Valid() && request.Valid() && response.Valid()
      ensures var o := SetDeviceInfo(old(State()), q, old(request.Remaining()), old(response.free));
        res == o.result && State() == o.state && request.pos == old(request.pos) + o.consumed &&
        response.written == old(response.written) + o.output
    {
      if !IsRequestAllowed(q, Owner) { return NoAccess; }
      res := CopyString(request, name, MaxDeviceNameLength as u16);
      if res != ResponseReady { return res; }
      ghost var bytes := TakeList(old(request.Remaining())).value;
      CStrLenAtMost(name[..], |bytes|);
      var ok := WriteString(response, name[..]);
      if !ok { return RspTooLarge; }
      assert [] + Encode(List(CStr(name[..]))) == Encode(List(CStr(name[..])));
      return ResponseReady;
    }

    /** case 20000: power, mode, target and room temperature. */
    method AnswerFullState(q: Query, response: Response) returns (res: AerResult)
      requires response.Valid()
      modifies response
      ensures response.Valid()
      ensures var o := GetFullState(old(State()), q, old(response.free));
        res == o.result && response.written == old(response.written) + o.output
    {
      if !IsRequestAllowed(q, Guest) { return NoAccess; }
      ghost var base := response.written;
      ghost var o := GetFullState(State(), q, response.free);
      ghost var w1 := Start(response.free).Then(U8(power));
      ghost var w2 := w1.Then(U32(mode));
      ghost var w3 := w2.Then(U32(ToU32(target)));
      ghost var w4 := w3.Then(U32(ToU32(room)));
      assert o.output == w4.out && o.result == Written(w4);
      var ok := response.Write(U8(power));
      if !ok { return RspTooLarge; }
      assert w1.out == [] + Encode(U8(power)) == Encode(U8(power));
      ok := response.Write(U32(mode));
      if !ok { return RspTooLarge; }
      Regroup(base, w1.out, Encode(U32(mode)));
      ok := response.Write(U32(ToU32(target)));
      if !ok { return RspTooLarge; }
      Regroup(base, w2.out, Encode(U32(ToU32(target))));
      ok := response.Write(U32(ToU32(room)));
      if !ok { return RspTooLarge; }
      Regroup(base, w3.out, Encode(U32(ToU32(room))));
      return ResponseReady;
    }

    /** case 20010: read the power byte straight into heatpump_state_, echo it, set the LED. */
    method AnswerSetActivationState(q: Query, request: Request, response: Response)
      returns (res: AerResult, led: Option<byte>)
      requires Valid() && request.Valid() && response.Valid()
      modifies this, request, response
      ensures Valid() && request.Valid() && response.Valid()
      ensures var o := SetActivationState(old(State()), q, old(request.Remaining()), old(response.free));
        res == o.result && led == o.led && State() == o.state &&
        request.pos == old(request.pos) + o.consumed && response.written == old(response.written) + o.output
    {
      if !IsRequestAllowed(q, Guest) { return NoAccess, None; }
      var ok, v := request.ReadU8();
      if !ok { return TooSmall, None; }
      power := v;
      ok := response.Write(U8(power));
      if !ok { return RspTooLarge, None; }
      assert [] + Encode(U8(power)) == Encode(U8(power));
      return ResponseReady, Some(power);
    }

    /** case 20020: read 32 bits into the signed target, echo them, set the LED to the power state. */
    method AnswerSetTargetTemperature(q: Query, request: Request, response: Response)
      returns (res: AerResult, led: Option<byte>)
      requires Valid() && request.Valid() && response.Valid()
      modifies this, request, response
      ensures Valid() && request.Valid() && response.Valid()
      ensures var o := SetTargetTemperature(old(State()), q, old(request.Remaining()), old(response.free));
        res == o.result && led == o.led && State() == o.state &&
        request.pos == old(request.pos) + o.consumed && response.written == old(response.written) + o.output
    {
      if !IsRequestAllowed(q, Guest) { return NoAccess, None; }
      var ok, v := request.ReadU32();
      if !ok { return TooSmall, None; }
      target := FromU32(v);
      ok := response.Write(U32(ToU32(target)));
      if !ok { return RspTooLarge, None; }
      assert [] + Encode(U32(ToU32(target))) == Encode(U32(ToU32(target)));
      return ResponseReady, Some(power);
    }

    /** case 20030: read any 32-bit value into heatpump_mode_ and echo it. */
    method AnswerSetMode(q: Query, request: Request, response: Response) returns (res: AerResult)
      requires Valid() && request.Valid() && response.Valid()
      modifies this, request, response
      ensures Valid() && request.Valid() && response.Valid()
      ensures var o := SetMode(old(State()), q, old(request.Remaining()), old(response.free));
        res == o.result && o.led == None && State() == o.state &&
        request.pos == old(request.pos) + o.consumed && response.written == old(response.written) + o.output
    {
      if !IsRequestAllowed(q, Guest) { return NoAccess; }
      var ok, v := request.ReadU32();
      if !ok { return TooSmall; }
      mode := v;
      ok := response.Write(U32(mode));
      if !ok { return RspTooLarge; }
      assert [] + Encode(U32(mode)) == Encode(U32(mode));
      return ResponseReady;
    }

    /** application_event. `pairing` is what fp_acl_ae_dispatch does with a query of the
        pairing block; `led` is the value passed to setLed(1, ...), if it is called. */
    method ApplicationEvent(q: Query, request: Request, response: Response, pairing: PairingAnswer)
      returns (res: AerResult, led: Option<byte>)
      requires Valid() && request.Valid() && response.Valid()
      requires IsPairingQuery(q.id) ==> PairingWithinBounds(pairing, request.Remaining(), response.free)
      modifies this, name, request, response
      ensures Valid() && request.Valid() && response.Valid()
      ensures var o := Dispatch(old(State()), q, old(request.Remaining()), old(response.free), pairing);
        res == o.result && led == o.led && State() == o.state &&
        request.pos == old(request.pos) + o.consumed &&
        response.written == old(response.written) + o.output
    {
      led := None;
      if PairingQueryBase <= q.id < PairingQueryEnd {
        request.Skip(pairing.consumed);
        response.WriteBytes(pairing.output);
        return pairing.result, None;
      }
      if q.id == GetInterfaceInfoId {
        res := AnswerInterfaceInfo(response);
      } else if q.id == GetPublicDeviceInfoId {
        res := AnswerPublicDeviceInfo(q, response);
      } else if q.id == SetDeviceInfoId {
        res := AnswerSetDeviceInfo(q, request, response);
      } else if q.id == GetFullStateId {
        res := AnswerFullState(q, response);
      } else if q.id == SetActivationStateId {
        res, led := AnswerSetActivationState(q, request, response);
      } else if q.id == SetTargetTemperatureId {
        res, led := AnswerSetTargetTemperature(q, request, response);
      } else if q.id == SetModeId {
        res := AnswerSetMode(q, request, response);
      } else {
        res := InvQueryId;
      }
    }
  }
}
