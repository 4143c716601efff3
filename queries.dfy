/**
  What application_event does with one request, as a function of the
  device state before it, the query, the unread request bytes and the room
  left in the response: the status it returns, the state after it, how many
  request bytes it consumes, the bytes it appends to the response and the
  value it signals to the power LED. Firmware.Device.ApplicationEvent is
  proved to behave exactly so; the lemmas below state what the handlers
  promise.
 */
module Queries {
  import opened Codec
  import opened Acl
  import opened HeatPumpState

  /** application_event_result */
  datatype AerResult = ResponseReady | NoAccess | TooSmall | TooLarge | RspTooLarge | InvQueryId

  /** The block of query ids forwarded to the pairing dispatcher of the ACL module. */
  const PairingQueryBase: u32 := 11000
  const PairingQueryEnd: u32 := 12000

  predicate IsPairingQuery(id: u32) {
    PairingQueryBase <= id < PairingQueryEnd
  }

  const GetInterfaceInfoId: u32 := 0
  const GetPublicDeviceInfoId: u32 := 10000
  const SetDeviceInfoId: u32 := 10010
  const GetFullStateId: u32 := 20000
  const SetActivationStateId: u32 := 20010
  const SetTargetTemperatureId: u32 := 20020
  const SetModeId: u32 := 20030

  predicate IsHandledQuery(id: u32) {
    id in {GetInterfaceInfoId, GetPublicDeviceInfoId, SetDeviceInfoId, GetFullStateId,
           SetActivationStateId, SetTargetTemperatureId, SetModeId}
  }

  /** The permission level a handler checks before anything else; None for the two public queries. */
  function RequiredPermission(id: u32): Option<Permission> {
    if id == SetDeviceInfoId then Some(Owner)
    else if id in {GetFullStateId, SetActivationStateId, SetTargetTemperatureId, SetModeId} then Some(Guest)
    else None
  }

  // ---------------------------------------------------------------------
  // copy_buffer and copy_string
  // ---------------------------------------------------------------------

  /** The status, the request bytes consumed, the length read and the destination buffer afterwards. */
  datatype Copy = Copy(result: AerResult, consumed: nat, len: nat, dest: seq<byte>)

  /** copy_buffer: read a byte list and copy it to the front of `dest` if it fits in `bufSize` bytes. */
  function CopyBufferSpec(input: seq<byte>, bufSize: nat, dest: seq<byte>): (c: Copy)
    requires bufSize <= |dest|
    ensures |c.dest| == |dest| && c.dest[bufSize..] == dest[bufSize..]
    ensures c.consumed <= |input|
    ensures c.result == TooSmall <==> TakeList(input).None?
    ensures c.result == TooLarge <==> TakeList(input).Some? && bufSize < |TakeList(input).value|
    ensures c.result in {ResponseReady, TooSmall, TooLarge}
    ensures c.result != TooSmall ==> c.len == |TakeList(input).value|
    ensures c.result == ResponseReady ==>
      var bytes := TakeList(input).value;
      c.dest == bytes + dest[|bytes|..]
    ensures c.result != ResponseReady ==> c.dest == dest
  {
    match TakeList(input)
    case None => Copy(TooSmall, 0, 0, dest)
    case Some(bytes) =>
      TakeListExact(input);
      if |bytes| > bufSize then Copy(TooLarge, Size(List(bytes)), |bytes|, dest)
      else Copy(ResponseReady, Size(List(bytes)), |bytes|, bytes + dest[|bytes|..])
  }

  /** copy_string: copy_buffer with room for a terminator, then the terminator. */
  function CopyStringSpec(input: seq<byte>, destSize: nat, dest: seq<byte>): (c: Copy)
    requires 1 <= destSize <= |dest|
    ensures |c.dest| == |dest| && c.dest[destSize..] == dest[destSize..]
    ensures c.consumed <= |input|
    ensures c.result == TooSmall <==> TakeList(input).None?
    ensures c.result == TooLarge <==> TakeList(input).Some? && destSize <= |TakeList(input).value|
    ensures c.result in {ResponseReady, TooSmall, TooLarge}
    ensures c.result == ResponseReady ==>
      var bytes := TakeList(input).value;
      |bytes| < destSize && c.dest == bytes + [0] + dest[|bytes| + 1..]
    ensures c.result != ResponseReady ==> c.dest == dest
  {
    var c := CopyBufferSpec(input, destSize - 1, dest);
    if c.result != ResponseReady then c
    else
      var bytes := TakeList(input).value;
      assert c.dest[c.len := 0] == bytes + [0] + dest[|bytes| + 1..];
      c.(dest := c.dest[c.len := 0])
  }

  // ---------------------------------------------------------------------
  // The handlers
  // ---------------------------------------------------------------------

  /** The status, the new state, the request bytes consumed, the response
      bytes appended, and the value passed to setLed(1, ...) if it was called. */
  datatype Outcome = Outcome(result: AerResult, state: DeviceState, consumed: nat, output: seq<byte>, led: Option<byte>)

  /** A return that reads, writes and changes nothing. */
  function Refuse(s: DeviceState, result: AerResult): Outcome {
    Outcome(result, s, 0, [], None)
  }

  /** The status of a handler whose remaining steps are writes. */
  function Written(w: Writes): AerResult {
    if w.overflowed then RspTooLarge else ResponseReady
  }

  function Flag(b: bool): byte {
    if b then 1 else 0
  }

  /** 0, get_interface_info: interface id, major and minor version. */
  function GetInterfaceInfo(s: DeviceState, free: nat): (o: Outcome)
    ensures o.state == s && o.consumed == 0 && o.led == None
    ensures o.result == ResponseReady || o.result == RspTooLarge
    ensures |o.output| <= free
  {
    var w := Start(free)
      .Then(List(DeviceInterfaceId))
      .Then(U16(InterfaceVersionMajor))
      .Then(U16(InterfaceVersionMinor));
    Outcome(Written(w), s, 0, w.out, None)
  }

  /** The three strings get_public_device_info starts with: the name buffer's string, product and icon. */
  function PublicStrings(s: DeviceState, free: nat): Writes
    requires WellFormed(s)
  {
    Start(free)
      .Then(List(CStr(s.name)))
      .Then(List(DeviceProduct))
      .Then(List(DeviceIcon))
  }

  /** 10000, get_public_device_info: name, product, icon, then three ACL flags. */
  function GetPublicDeviceInfo(s: DeviceState, q: Query, free: nat): (o: Outcome)
    requires WellFormed(s)
    ensures o.state == s && o.consumed == 0 && o.led == None
    ensures o.result == ResponseReady || o.result == RspTooLarge
    ensures |o.output| <= free
  {
    var w := PublicStrings(s, free)
      .Then(U8(Flag(q.acl.pairAllowed)))
      .Then(U8(Flag(q.acl.userPaired)))
      .Then(U8(Flag(q.acl.userOwner)));
    Outcome(Written(w), s, 0, w.out, None)
  }

  /** 10010, set_device_info: owner only; copy the new name into the buffer, then echo the buffer's string. */
  function SetDeviceInfo(s: DeviceState, q: Query, input: seq<byte>, free: nat): (o: Outcome)
    requires WellFormed(s)
    ensures WellFormed(o.state)
  {
    if !IsRequestAllowed(q, Owner) then Refuse(s, NoAccess)
    else
      var c := CopyStringSpec(input, MaxDeviceNameLength, s.name);
      if c.result != ResponseReady then Outcome(c.result, s, c.consumed, [], None)
      else
        assert c.dest[|TakeList(input).value|] == 0;
        var w := Start(free).Then(List(CStr(c.dest)));
        Outcome(Written(w), s.(name := c.dest), c.consumed, w.out, None)
  }

  /** 20000, heatpump_get_full_state: power, mode, target and room temperature, in that order. */
  function GetFullState(s: DeviceState, q: Query, free: nat): (o: Outcome)
    ensures o.state == s && o.consumed == 0 && o.led == None
    ensures o.result == NoAccess <==> !IsRequestAllowed(q, Guest)
    ensures o.result in {NoAccess, ResponseReady, RspTooLarge}
    ensures |o.output| <= free
  {
    if !IsRequestAllowed(q, Guest) then Refuse(s, NoAccess)
    else
      var w := Start(free)
        .Then(U8(s.power))
        .Then(U32(s.mode))
        .Then(U32(ToU32(s.target)))
        .Then(U32(ToU32(s.room)));
      Outcome(Written(w), s, 0, w.out, None)
  }

  /** 20010, heatpump_set_activation_state: read the power byte into the state, echo it, signal the LED. */
  function SetActivationState(s: DeviceState, q: Query, input: seq<byte>, free: nat): (o: Outcome)
    ensures o.result == NoAccess <==> !IsRequestAllowed(q, Guest)
    ensures o.result == TooSmall <==> IsRequestAllowed(q, Guest) && |input| < 1
    ensures o.result in {NoAccess, TooSmall, ResponseReady, RspTooLarge}
    ensures o.state.(power := s.power) == s
    ensures o.consumed <= |input| && |o.output| <= free
    ensures o.led.Some? <==> o.result == ResponseReady
  {
    if !IsRequestAllowed(q, Guest) then Refuse(s, NoAccess)
    else
      match TakeU8(input)
      case None => Refuse(s, TooSmall)
      case Some(power) =>
        var w := Start(free).Then(U8(power));
        Outcome(Written(w), s.(power := power), 1, w.out, if w.overflowed then None else Some(power))
  }

  /** 20020, heatpump_set_target_temperature: read 32 bits into the signed target, echo it, signal the LED. */
  function SetTargetTemperature(s: DeviceState, q: Query, input: seq<byte>, free: nat): (o: Outcome)
    ensures o.result == NoAccess <==> !IsRequestAllowed(q, Guest)
    ensures o.result == TooSmall <==> IsRequestAllowed(q, Guest) && |input| < 4
    ensures o.result in {NoAccess, TooSmall, ResponseReady, RspTooLarge}
    ensures o.state.(target := s.target) == s
    ensures o.consumed <= |input| && |o.output| <= free
    ensures o.led.Some? <==> o.result == ResponseReady
  {
    if !IsRequestAllowed(q, Guest) then Refuse(s, NoAccess)
    else
      match TakeU32(input)
      case None => Refuse(s, TooSmall)
      case Some(raw) =>
        var target := FromU32(raw);
        var w := Start(free).Then(U32(ToU32(target)));
        Outcome(Written(w), s.(target := target), 4, w.out, if w.overflowed then None else Some(s.power))
  }

  /** 20030, heatpump_set_mode: read any 32-bit value into the mode and echo it. */
  function SetMode(s: DeviceState, q: Query, input: seq<byte>, free: nat): (o: Outcome)
    ensures o.result == NoAccess <==> !IsRequestAllowed(q, Guest)
    ensures o.result == TooSmall <==> IsRequestAllowed(q, Guest) && |input| < 4
    ensures o.result in {NoAccess, TooSmall, ResponseReady, RspTooLarge}
    ensures o.state.(mode := s.mode) == s
    ensures o.consumed <= |input| && |o.output| <= free
    ensures o.led == None
  {
    if !IsRequestAllowed(q, Guest) then Refuse(s, NoAccess)
    else
      match TakeU32(input)
      case None => Refuse(s, TooSmall)
      case Some(mode) =>
        var w := Start(free).Then(U32(mode));
        Outcome(Written(w), s.(mode := mode), 4, w.out, None)
  }

  /** What fp_acl_ae_dispatch does with a query of the pairing block: the status it returns,
      the request bytes it reads and the response bytes it writes. */
  datatype PairingAnswer = PairingAnswer(result: AerResult, consumed: nat, output: seq<byte>)

  /** The pairing dispatcher works through the same all-or-nothing primitives, so it reads
      no more than the request holds and writes no more than the room left. */
  predicate PairingWithinBounds(p: PairingAnswer, input: seq<byte>, free: nat) {
    p.consumed <= |input| && |p.output| <= free
  }

  /** application_event. `pairing` is what fp_acl_ae_dispatch does with a query in
      the pairing block. Whatever the request, the handlers of this file never
      read past the request and never write past the response's room (for the
      pairing block that is the dispatcher's own bound), keep the name buffer
      terminated and leave the simulation alone. */
  function Dispatch(s: DeviceState, q: Query, input: seq<byte>, free: nat, pairing: PairingAnswer): (o: Outcome)
    requires WellFormed(s)
    ensures WellFormed(o.state)
    ensures !IsPairingQuery(q.id) || PairingWithinBounds(pairing, input, free) ==>
      o.consumed <= |input| && |o.output| <= free
    ensures o.state.room == s.room && o.state.ticks == s.ticks
  {
    if IsPairingQuery(q.id) then Outcome(pairing.result, s, pairing.consumed, pairing.output, None)
    else if q.id == GetInterfaceInfoId then GetInterfaceInfo(s, free)
    else if q.id == GetPublicDeviceInfoId then GetPublicDeviceInfo(s, q, free)
    else if q.id == SetDeviceInfoId then SetDeviceInfo(s, q, input, free)
    else if q.id == GetFullStateId then GetFullState(s, q, free)
    else if q.id == SetActivationStateId then SetActivationState(s, q, input, free)
    else if q.id == SetTargetTemperatureId then SetTargetTemperature(s, q, input, free)
    else if q.id == SetModeId then SetMode(s, q, input, free)
    else Refuse(s, InvQueryId)
  }

  // ---------------------------------------------------------------------
  // Routing and authorization
  // ---------------------------------------------------------------------

  /** A query in the pairing block gets the pairing dispatcher's status, reads and writes
      unchanged, and no device state changes. */
  lemma PairingQueriesForwarded(s: DeviceState, q: Query, input: seq<byte>, free: nat, pairing: PairingAnswer)
    requires WellFormed(s) && IsPairingQuery(q.id)
    ensures Dispatch(s, q, input, free, pairing) ==
      Outcome(pairing.result, s, pairing.consumed, pairing.output, None)
  {
  }

  /** Any other unknown id is rejected without reading, writing or changing anything. */
  lemma UnknownQueriesRejected(s: DeviceState, q: Query, input: seq<byte>, free: nat, pairing: PairingAnswer)
    requires WellFormed(s) && !IsPairingQuery(q.id) && !IsHandledQuery(q.id)
    ensures Dispatch(s, q, input, free, pairing) == Refuse(s, InvQueryId)
  {
  }

  /** A gated handler whose permission check fails returns NoAccess before reading the
      request, writing the response or touching the state, whatever the payload and the
      room in the response; so repeating a denied request changes nothing either. */
  lemma DeniedBeforeAnything(s: DeviceState, q: Query, input: seq<byte>, free: nat, pairing: PairingAnswer)
    requires WellFormed(s) && !IsPairingQuery(q.id)
    requires RequiredPermission(q.id).Some? && !IsRequestAllowed(q, RequiredPermission(q.id).value)
    ensures Dispatch(s, q, input, free, pairing) == Refuse(s, NoAccess)
    ensures Dispatch(Dispatch(s, q, input, free, pairing).state, q, input, free, pairing)
         == Dispatch(s, q, input, free, pairing)
  {
  }

  /** Exactly the ids that have a handler and a permission level are gated. */
  lemma GatedQueries(id: u32)
    ensures RequiredPermission(id) == Some(Owner) <==> id == SetDeviceInfoId
    ensures RequiredPermission(id) == Some(Guest) <==>
      id == GetFullStateId || id == SetActivationStateId || id == SetTargetTemperatureId || id == SetModeId
    ensures RequiredPermission(id).Some? ==> IsHandledQuery(id) && !IsPairingQuery(id)
  {
  }

  /** The two public queries answer the same whatever the permission checks would say. */
  lemma PublicQueriesUngated(s: DeviceState, q: Query, input: seq<byte>, free: nat, pairing: PairingAnswer, guest: bool, owner: bool)
    requires WellFormed(s)
    requires q.id == GetInterfaceInfoId || q.id == GetPublicDeviceInfoId
    ensures var q' := q.(acl := q.acl.(allowsGuest := guest, allowsOwner := owner));
      Dispatch(s, q', input, free, pairing) == Dispatch(s, q, input, free, pairing)
  {
  }

  // ---------------------------------------------------------------------
  // The read-only queries
  // ---------------------------------------------------------------------

  /** get_interface_info answers the interface id and version 1.0, or RspTooLarge when they do not fit. */
  lemma InterfaceInfoLayout(s: DeviceState, free: nat)
    ensures var o := GetInterfaceInfo(s, free);
      var frame := Encode(List(DeviceInterfaceId)) + Encode(U16(1)) + Encode(U16(0));
      o.state == s && o.consumed == 0 &&
      (o.result == ResponseReady <==> |frame| <= free) &&
      (o.result != ResponseReady ==> o.result == RspTooLarge) &&
      (o.result == ResponseReady ==> o.output == frame)
  {
    var w1 := Start(free).Then(List(DeviceInterfaceId));
    if !w1.overflowed {
      assert w1.out == [] + Encode(List(DeviceInterfaceId)) == Encode(List(DeviceInterfaceId));
    }
  }

  /** The response of get_public_device_info: name, product, icon, then the pairing-allowed,
      paired and owner flags as one byte each. */
  function PublicDeviceInfoFrame(s: DeviceState, q: Query): seq<byte>
    requires WellFormed(s)
  {
    Encode(List(CStr(s.name))) + Encode(List(DeviceProduct)) + Encode(List(DeviceIcon))
      + Encode(U8(Flag(q.acl.pairAllowed))) + Encode(U8(Flag(q.acl.userPaired))) + Encode(U8(Flag(q.acl.userOwner)))
  }

  /** get_public_device_info answers its frame, or RspTooLarge when the frame does not fit. */
  lemma PublicDeviceInfoLayout(s: DeviceState, q: Query, free: nat)
    requires WellFormed(s)
    ensures var o := GetPublicDeviceInfo(s, q, free);
      o.state == s && o.consumed == 0 &&
      (o.result == ResponseReady <==> |PublicDeviceInfoFrame(s, q)| <= free) &&
      (o.result != ResponseReady ==> o.result == RspTooLarge) &&
      (o.result == ResponseReady ==> o.output == PublicDeviceInfoFrame(s, q))
  {
    var o := GetPublicDeviceInfo(s, q, free);
    var w1 := Start(free).Then(List(CStr(s.name)));
    var w2 := w1.Then(List(DeviceProduct));
    var w3 := w2.Then(List(DeviceIcon));
    var w4 := w3.Then(U8(Flag(q.acl.pairAllowed)));
    var w5 := w4.Then(U8(Flag(q.acl.userPaired)));
    var w6 := w5.Then(U8(Flag(q.acl.userOwner)));
    assert o.output == w6.out && o.result == Written(w6);
    if !w6.overflowed {
      assert w1.out == [] + Encode(List(CStr(s.name))) == Encode(List(CStr(s.name)));
    }
  }

  /** The first field of get_public_device_info is the name buffer's string, and a client reads it back. */
  lemma PublicDeviceInfoName(s: DeviceState, q: Query)
    requires WellFormed(s)
    ensures TakeList(PublicDeviceInfoFrame(s, q)) == Some(CStr(s.name))
  {
    var e1 := Encode(List(CStr(s.name)));
    var e12 := e1 + Encode(List(DeviceProduct));
    var e123 := e12 + Encode(List(DeviceIcon));
    var e1234 := e123 + Encode(U8(Flag(q.acl.pairAllowed)));
    var e12345 := e1234 + Encode(U8(Flag(q.acl.userPaired)));
    TakeListEncoded(CStr(s.name), []);
    assert e1 + [] == e1;
    TakeListPrefix(e1, Encode(List(DeviceProduct)));
    TakeListPrefix(e12, Encode(List(DeviceIcon)));
    TakeListPrefix(e123, Encode(U8(Flag(q.acl.pairAllowed))));
    TakeListPrefix(e1234, Encode(U8(Flag(q.acl.userPaired))));
    TakeListPrefix(e12345, Encode(U8(Flag(q.acl.userOwner))));
  }

  /** The response of a full-state read: power (u8), mode, target and room (u32 each, the
      temperatures in two's complement), in that order. */
  function FullStateFrame(s: DeviceState): seq<byte> {
    Encode(U8(s.power)) + Encode(U32(s.mode)) + Encode(U32(ToU32(s.target))) + Encode(U32(ToU32(s.room)))
  }

  /** A client decoding the full-state frame gets exactly the state's four values back. */
  lemma FullStateFrameDecodes(s: DeviceState)
    ensures |FullStateFrame(s)| == 13
    ensures TakeU8(FullStateFrame(s)) == Some(s.power)
    ensures TakeU32(FullStateFrame(s)[1..]) == Some(s.mode)
    ensures TakeU32(FullStateFrame(s)[5..]) == Some(ToU32(s.target))
    ensures TakeU32(FullStateFrame(s)[9..]) == Some(ToU32(s.room))
    ensures FromU32(ToU32(s.target)) == s.target && FromU32(ToU32(s.room)) == s.room
  {
    var frame := FullStateFrame(s);
    var m, t, r := Encode(U32(s.mode)), Encode(U32(ToU32(s.target))), Encode(U32(ToU32(s.room)));
    assert frame[1..] == m + (t + r);
    assert frame[5..] == t + r;
    assert frame[9..] == r + [];
    TakeU32Encoded(s.mode, t + r);
    TakeU32Encoded(ToU32(s.target), r);
    TakeU32Encoded(ToU32(s.room), []);
    FromToU32(s.target);
    FromToU32(s.room);
  }

  /** heatpump_get_full_state answers the full-state frame; any write that does not fit makes it
      RspTooLarge. */
  lemma FullStateLayout(s: DeviceState, q: Query, free: nat)
    requires IsRequestAllowed(q, Guest)
    ensures var o := GetFullState(s, q, free);
      o.state == s && o.consumed == 0 &&
      (o.result == ResponseReady <==> 13 <= free) &&
      (o.result != ResponseReady ==> o.result == RspTooLarge) &&
      (o.result == ResponseReady ==> o.output == FullStateFrame(s))
  {
    var o := GetFullState(s, q, free);
    var w1 := Start(free).Then(U8(s.power));
    var w4 := w1.Then(U32(s.mode)).Then(U32(ToU32(s.target))).Then(U32(ToU32(s.room)));
    assert o.output == w4.out && o.result == Written(w4);
    if !w4.overflowed {
      assert w1.out == [] + Encode(U8(s.power)) == Encode(U8(s.power));
    }
  }

  /** With the statics as initialised, a full-state read answers power 1, mode HEAT, target 23 and room 19. */
  lemma FreshFullState(q: Query, free: nat)
    requires IsRequestAllowed(q, Guest) && 13 <= free
    ensures var o := GetFullState(Initial(), q, free);
      o.result == ResponseReady &&
      TakeU8(o.output) == Some(1) &&
      TakeU32(o.output[1..]) == Some(HpmHeat) &&
      TakeU32(o.output[5..]) == Some(23) &&
      TakeU32(o.output[9..]) == Some(19)
  {
    var s := Initial();
    FullStateLayout(s, q, free);
    FullStateFrameDecodes(s);
  }

  // ---------------------------------------------------------------------
  // The device name
  // ---------------------------------------------------------------------

  /** A truncated request or a name of 50 bytes or more leaves the name buffer as it was and writes nothing. */
  lemma DeviceNameRejected(s: DeviceState, q: Query, input: seq<byte>, free: nat, pairing: PairingAnswer)
    requires WellFormed(s) && q.id == SetDeviceInfoId && IsRequestAllowed(q, Owner)
    requires TakeList(input).None? || |TakeList(input).value| > MaxDeviceNameLength - 1
    ensures var o := Dispatch(s, q, input, free, pairing);
      o.state == s && o.output == [] &&
      o.result == (if TakeList(input).None? then TooSmall else TooLarge)
  {
  }

  /** A name that fits is stored with its terminator, the rest of the buffer is kept, and the
      buffer's string is echoed, or RspTooLarge with nothing written when the echo does not fit; when the name has no NUL byte the client reads back exactly it. */
  lemma DeviceNameStored(s: DeviceState, q: Query, input: seq<byte>, free: nat, pairing: PairingAnswer)
    requires WellFormed(s) && q.id == SetDeviceInfoId && IsRequestAllowed(q, Owner)
    requires TakeList(input).Some? && |TakeList(input).value| < MaxDeviceNameLength
    ensures var bytes := TakeList(input).value;
      var o := Dispatch(s, q, input, free, pairing);
      o.state == s.(name := bytes + [0] + s.name[|bytes| + 1..]) &&
      o.consumed == Size(List(bytes)) &&
      CStr(o.state.name) == CStr(bytes) &&
      (o.result == ResponseReady <==> Size(List(CStr(bytes))) <= free) &&
      (o.result == ResponseReady ==> o.output == Encode(List(CStr(bytes)))) &&
      (o.result != ResponseReady ==> o.result == RspTooLarge && o.output == []) &&
      (o.result == ResponseReady && 0 !in bytes ==> TakeList(o.output) == Some(bytes))
  {
    var bytes := TakeList(input).value;
    CStrOfTerminated(bytes, s.name[|bytes| + 1..]);
    if 0 !in bytes {
      TakeListEncoded(bytes, []);
      assert Encode(List(bytes)) + [] == Encode(List(bytes));
    }
  }

  // ---------------------------------------------------------------------
  // The setters
  // ---------------------------------------------------------------------

  /** heatpump_set_activation_state stores the byte read and echoes exactly it; a missing byte
      is TooSmall with no state change and no response. */
  lemma ActivationStateEcho(s: DeviceState, q: Query, input: seq<byte>, free: nat, pairing: PairingAnswer)
    requires WellFormed(s) && q.id == SetActivationStateId && IsRequestAllowed(q, Guest)
    ensures var o := Dispatch(s, q, input, free, pairing);
      (|input| == 0 ==> o == Refuse(s, TooSmall)) &&
      (|input| > 0 ==>
        o.state == s.(power := input[0]) && o.consumed == 1 &&
        (o.result == ResponseReady <==> 1 <= free) &&
        (o.result == ResponseReady ==> o.output == input[..1] && o.led == Some(input[0])) &&
        (o.result != ResponseReady ==> o.result == RspTooLarge && o.output == [] && o.led == None))
  {
  }

  /** heatpump_set_target_temperature stores the 32 bits read as a signed temperature and echoes
      the very bytes it received; a request shorter than four bytes is TooSmall and changes nothing. */
  lemma TargetTemperatureEcho(s: DeviceState, q: Query, input: seq<byte>, free: nat, pairing: PairingAnswer)
    requires WellFormed(s) && q.id == SetTargetTemperatureId && IsRequestAllowed(q, Guest)
    ensures var o := Dispatch(s, q, input, free, pairing);
      (|input| < 4 ==> o == Refuse(s, TooSmall)) &&
      (|input| >= 4 ==>
        o.state == s.(target := FromU32(TakeU32(input).value)) && o.consumed == 4 &&
        (o.result == ResponseReady <==> 4 <= free) &&
        (o.result == ResponseReady ==> o.output == input[..4] && o.led == Some(s.power)) &&
        (o.result != ResponseReady ==> o.result == RspTooLarge && o.output == [] && o.led == None))
  {
    if |input| >= 4 {
      TakeU32Exact(input);
      ToFromU32(TakeU32(input).value);
    }
  }

  /** heatpump_set_mode stores the 32 bits read and echoes the very bytes it received. */
  lemma ModeEcho(s: DeviceState, q: Query, input: seq<byte>, free: nat, pairing: PairingAnswer)
    requires WellFormed(s) && q.id == SetModeId && IsRequestAllowed(q, Guest)
    ensures var o := Dispatch(s, q, input, free, pairing);
      (|input| < 4 ==> o == Refuse(s, TooSmall)) &&
      (|input| >= 4 ==>
        o.state == s.(mode := TakeU32(input).value) && o.consumed == 4 &&
        (o.result == ResponseReady <==> 4 <= free) &&
        (o.result == ResponseReady ==> o.output == input[..4]) &&
        (o.result != ResponseReady ==> o.result == RspTooLarge && o.output == []))
  {
    if |input| >= 4 {
      TakeU32Exact(input);
    }
  }

  /** The mode is not checked against the four known modes: a client can store 7. */
  lemma ModeNotRangeChecked(s: DeviceState, q: Query, free: nat, pairing: PairingAnswer)
    requires WellFormed(s) && q.id == SetModeId && IsRequestAllowed(q, Guest)
    ensures !IsKnownMode(7)
    ensures Dispatch(s, q, Encode(U32(7)), free, pairing).state.mode == 7
  {
    TakeU32Encoded(7, []);
    assert Encode(U32(7)) + [] == Encode(U32(7));
  }

  /** The size of a setter's echo: one byte for the activation state, four for the others. */
  function EchoSize(id: u32): nat {
    if id == SetActivationStateId then 1 else 4
  }

  /** A setter whose echo does not fit returns RspTooLarge, writes nothing and signals nothing,
      yet keeps the value it read: the new state is the one it has when the echo fits. */
  lemma EchoOverflowKeepsUpdate(s: DeviceState, q: Query, input: seq<byte>, free: nat, pairing: PairingAnswer)
    requires WellFormed(s) && IsRequestAllowed(q, Guest)
    requires q.id == SetActivationStateId || q.id == SetTargetTemperatureId || q.id == SetModeId
    requires EchoSize(q.id) <= |input| && free < EchoSize(q.id)
    ensures var o := Dispatch(s, q, input, free, pairing);
      var fits := Dispatch(s, q, input, EchoSize(q.id), pairing);
      o.result == RspTooLarge && o.output == [] && o.led == None && o.consumed == EchoSize(q.id) &&
      fits.result == ResponseReady && o.state == fits.state
  {
  }
}
