/**
  The uNabto query codec as the application sees it: a request buffer read
  through a cursor and an append-only response buffer of fixed capacity.

  The library's primitives (unabto_query_read_* and unabto_query_write_*)
  are modelled here; their wire layout is fixed as big-endian integers and
  a 16-bit length prefix in front of every byte list. Every read either
  consumes a whole field or fails and consumes nothing; every write either
  appends a whole field or fails and appends nothing.
 */
module Codec {

  type byte = x: int | 0 <= x < 0x100
  type u16 = x: int | 0 <= x < 0x1_0000
  type u32 = x: int | 0 <= x < 0x1_0000_0000

  /** The longest byte list a 16-bit length prefix can announce. */
  const MaxListLength: nat := 0xFFFF

  type ByteList = s: seq<byte> | |s| <= MaxListLength

  datatype Option<+T> = None | Some(value: T)

  /** One typed field of a request or a response. */
  datatype Field = U8(b: byte) | U16(h: u16) | U32(w: u32) | List(bytes: ByteList)

  /** The bytes of a C string literal; the literals used here are ASCII. */
  function Ascii(s: string): (r: seq<byte>)
    ensures |r| == |s|
  {
    seq(|s|, i requires 0 <= i < |s| => s[i] as int % 0x100)
  }

  // ---------------------------------------------------------------------
  // Encoding
  // ---------------------------------------------------------------------

  function Size(f: Field): nat {
    match f
    case U8(_) => 1
    case U16(_) => 2
    case U32(_) => 4
    case List(bytes) => 2 + |bytes|
  }

  function EncodeU16(v: u16): (r: seq<byte>)
    ensures |r| == 2
  {
    [v / 0x100, v % 0x100]
  }

  function EncodeU32(v: u32): (r: seq<byte>)
    ensures |r| == 4
  {
    EncodeU16(v / 0x1_0000) + EncodeU16(v % 0x1_0000)
  }

  function DecodeU16(s: seq<byte>): u16
    requires |s| == 2
  {
    var high: int := s[0];
    high * 0x100 + s[1]
  }

  function DecodeU32(s: seq<byte>): u32
    requires |s| == 4
  {
    DecodeU16(s[..2]) * 0x1_0000 + DecodeU16(s[2..])
  }

  /** The bytes a successful write of `f` appends to a response. */
  function Encode(f: Field): (r: seq<byte>)
    ensures |r| == Size(f)
  {
    match f
    case U8(b) => [b]
    case U16(h) => EncodeU16(h)
    case U32(w) => EncodeU32(w)
    case List(bytes) => EncodeU16(|bytes|) + bytes
  }

  lemma DecodeEncodeU16(v: u16)
    ensures DecodeU16(EncodeU16(v)) == v
  {
  }

  lemma EncodeDecodeU16(s: seq<byte>)
    requires |s| == 2
    ensures EncodeU16(DecodeU16(s)) == s
  {
  }

  /** Decoding inverts encoding for every 32-bit value. */
  lemma DecodeEncodeU32(v: u32)
    ensures DecodeU32(EncodeU32(v)) == v
  {
    var e := EncodeU32(v);
    assert e[..2] == EncodeU16(v / 0x1_0000);
    assert e[2..] == EncodeU16(v % 0x1_0000);
    DecodeEncodeU16(v / 0x1_0000);
    DecodeEncodeU16(v % 0x1_0000);
  }

  /** Encoding inverts decoding: four bytes are determined by the value they carry. */
  lemma EncodeDecodeU32(s: seq<byte>)
    requires |s| == 4
    ensures EncodeU32(DecodeU32(s)) == s
  {
    var v := DecodeU32(s);
    EncodeDecodeU16(s[..2]);
    EncodeDecodeU16(s[2..]);
    assert v / 0x1_0000 == DecodeU16(s[..2]);
    assert v % 0x1_0000 == DecodeU16(s[2..]);
    assert s == s[..2] + s[2..];
  }

  // ---------------------------------------------------------------------
  // Reading: what a read yields from the unread part of a request
  // ---------------------------------------------------------------------

  /** unabto_query_read_uint8: succeeds exactly when a byte remains, and reads the byte its encoding holds. */
  function TakeU8(input: seq<byte>): (r: Option<byte>)
    ensures r.Some? <==> 1 <= |input|
    ensures r.Some? ==> Encode(U8(r.value)) == input[..1]
  {
    if |input| < 1 then None else Some(input[0])
  }

  /** unabto_query_read_uint32: succeeds exactly when four bytes remain. */
  function TakeU32(input: seq<byte>): (r: Option<u32>)
    ensures r.Some? <==> 4 <= |input|
  {
    if |input| < 4 then None else Some(DecodeU32(input[..4]))
  }

  /** A length-prefixed byte list; None when the prefix or the bytes it announces are missing. */
  function TakeList(input: seq<byte>): (r: Option<ByteList>)
    ensures |input| < 2 ==> r.None?
    ensures r.Some? ==> Size(List(r.value)) <= |input| && r.value == input[2..Size(List(r.value))]
  {
    if |input| < 2 then None
    else
      var n := DecodeU16(input[..2]);
      if |input| - 2 < n then None else Some(input[2..2 + n])
  }

  lemma TakeU8Encoded(b: byte, rest: seq<byte>)
    ensures TakeU8(Encode(U8(b)) + rest) == Some(b)
  {
  }

  /** A 32-bit field written by a client is read back as the same value. */
  lemma TakeU32Encoded(w: u32, rest: seq<byte>)
    ensures TakeU32(Encode(U32(w)) + rest) == Some(w)
  {
    assert (Encode(U32(w)) + rest)[..4] == EncodeU32(w);
    DecodeEncodeU32(w);
  }

  /** A byte list written by a client is read back as the same bytes. */
  lemma TakeListEncoded(bytes: ByteList, rest: seq<byte>)
    ensures TakeList(Encode(List(bytes)) + rest) == Some(bytes)
  {
    var input := Encode(List(bytes)) + rest;
    assert input[..2] == EncodeU16(|bytes|);
    DecodeEncodeU16(|bytes|);
    assert input[2..2 + |bytes|] == bytes;
  }

  /** A list read only looks at the bytes it consumes: more bytes after them change nothing. */
  lemma TakeListPrefix(input: seq<byte>, more: seq<byte>)
    requires TakeList(input).Some?
    ensures TakeList(input + more) == TakeList(input)
  {
    var n := DecodeU16(input[..2]);
    assert (input + more)[..2] == input[..2];
    assert (input + more)[2..2 + n] == input[2..2 + n];
  }

  /** Conversely, whatever a 32-bit read returns is exactly what the request's next four bytes encode. */
  lemma TakeU32Exact(input: seq<byte>)
    requires TakeU32(input).Some?
    ensures input[..4] == Encode(U32(TakeU32(input).value))
  {
    EncodeDecodeU32(input[..4]);
  }

  /** Conversely, a list read consumes exactly the encoding of the bytes it returns. */
  lemma TakeListExact(input: seq<byte>)
    requires TakeList(input).Some?
    ensures var bytes := TakeList(input).value;
      Size(List(bytes)) <= |input| && input[..Size(List(bytes))] == Encode(List(bytes))
  {
    var bytes := TakeList(input).value;
    EncodeDecodeU16(input[..2]);
    assert input[..2 + |bytes|] == input[..2] + input[2..2 + |bytes|];
  }

  // ---------------------------------------------------------------------
  // Writing: a run of writes that stops at the first one that does not fit
  // ---------------------------------------------------------------------

  /** The response bytes appended so far, the room left, and whether a write has failed. */
  datatype Writes = Writes(out: seq<byte>, free: nat, overflowed: bool) {

    /** The next write of a handler that returns as soon as one write fails. */
    function Then(f: Field): (r: Writes)
      ensures |r.out| + r.free == |out| + free
      ensures r.overflowed <==> overflowed || free < Size(f)
      ensures r.out == if r.overflowed then out else out + Encode(f)
    {
      if overflowed || free < Size(f) then this.(overflowed := true)
      else Writes(out + Encode(f), free - Size(f), false)
    }
  }

  /** Appending field after field to a response regroups its contents. */
  lemma Regroup(a: seq<byte>, b: seq<byte>, c: seq<byte>)
    ensures a + b + c == a + (b + c)
  {
  }

  function Start(free: nat): Writes {
    Writes([], free, false)
  }

  // ---------------------------------------------------------------------
  // C strings
  // ---------------------------------------------------------------------

  /** strlen: the number of bytes before the first NUL, or the whole length when there is none. */
  function CStrLen(s: seq<byte>): (n: nat)
    ensures n <= |s|
    ensures n < |s| ==> s[n] == 0
  {
    if s == [] || s[0] == 0 then 0 else 1 + CStrLen(s[1..])
  }

  /** strlen stops at the first NUL: no byte before it is a NUL. */
  lemma {:induction false} CStrLenFirstNul(s: seq<byte>)
    ensures forall i :: 0 <= i < CStrLen(s) ==> s[i] != 0
  {
    if s != [] && s[0] != 0 {
      CStrLenFirstNul(s[1..]);
    }
  }

  /** strlen stops at the latest at any NUL it meets. */
  lemma {:induction false} CStrLenAtMost(s: seq<byte>, i: nat)
    requires i < |s| && s[i] == 0
    ensures CStrLen(s) <= i
  {
    if i > 0 && s[0] != 0 {
      CStrLenAtMost(s[1..], i - 1);
    }
  }

  /** The string a char buffer holds: its bytes up to the first NUL. */
  function CStr(s: seq<byte>): (r: seq<byte>)
    ensures 0 !in r
  {
    CStrLenFirstNul(s);
    s[..CStrLen(s)]
  }

  /** A buffer holding `bytes`, a terminator and anything after it reads as the C string of `bytes`. */
  lemma CStrOfTerminated(bytes: seq<byte>, rest: seq<byte>)
    ensures CStr(bytes + [0] + rest) == CStr(bytes)
    ensures 0 !in bytes ==> CStr(bytes + [0] + rest) == bytes
  {
    var s := bytes + [0] + rest;
    var n, m := CStrLen(s), CStrLen(bytes);
    CStrLenFirstNul(s);
    CStrLenFirstNul(bytes);
    assert s[|bytes|] == 0;
    if m < |bytes| {
      assert s[m] == 0;
    }
    assert n == m;
    assert s[..n] == bytes[..m];
    assert m < |bytes| ==> bytes[m] in bytes;
  }

  // ---------------------------------------------------------------------
  // The buffers
  // ---------------------------------------------------------------------

  /** unabto_query_request: the request's bytes and a read cursor. */
  class Request {
    const data: seq<byte>
    var pos: nat

    ghost predicate Valid()
      reads this
    {
      pos <= |data|
    }

    /** The bytes not yet read. */
    function Remaining(): seq<byte>
      reads this
      requires Valid()
    {
      data[pos..]
    }

    constructor (data: seq<byte>)
      ensures Valid() && this.data == data && pos == 0
    {
      this.data := data;
      pos := 0;
    }

    /** The reads of another handler working on this request: `n` bytes consumed. */
    method Skip(n: nat)
      requires Valid() && n <= |Remaining()|
      modifies this
      ensures Valid() && pos == old(pos) + n && Remaining() == old(Remaining())[n..]
    {
      pos := pos + n;
    }

    /** unabto_query_read_uint8 */
    method ReadU8() returns (ok: bool, v: byte)
      requires Valid()
      modifies this
      ensures Valid()
      ensures ok == TakeU8(old(Remaining())).Some?
      ensures ok ==> v == TakeU8(old(Remaining())).value && pos == old(pos) + 1
      ensures !ok ==> pos == old(pos)
    {
      ok := pos + 1 <= |data|;
      v := 0;
      if ok {
        v := data[pos];
        pos := pos + 1;
      }
    }

    /** unabto_query_read_uint32 */
    method ReadU32() returns (ok: bool, v: u32)
      requires Valid()
      modifies this
      ensures Valid()
      ensures ok == TakeU32(old(Remaining())).Some?
      ensures ok ==> v == TakeU32(old(Remaining())).value && pos == old(pos) + 4
      ensures !ok ==> pos == old(pos)
    {
      ok := pos + 4 <= |data|;
      v := 0;
      if ok {
        assert data[pos..][..4] == data[pos..pos + 4];
        v := DecodeU32(data[pos..pos + 4]);
        pos := pos + 4;
      }
    }

    /** unabto_query_read_uint8_list: the announced bytes, or a failure when they are not all there. */
    method ReadList() returns (ok: bool, bytes: ByteList)
      requires Valid()
      modifies this
      ensures Valid()
      ensures ok == TakeList(old(Remaining())).Some?
      ensures ok ==> bytes == TakeList(old(Remaining())).value && pos == old(pos) + Size(List(bytes))
      ensures !ok ==> pos == old(pos)
    {
      bytes := [];
      ok := false;
      if pos + 2 <= |data| {
        assert data[pos..][..2] == data[pos..pos + 2];
        var n := DecodeU16(data[pos..pos + 2]);
        if n <= |data| - pos - 2 {
          assert data[pos..][2..2 + n] == data[pos + 2..pos + 2 + n];
          bytes := data[pos + 2..pos + 2 + n];
          pos := pos + 2 + n;
          ok := true;
        }
      }
    }
  }

  /** unabto_query_response: the bytes written so far and a fixed capacity. */
  class Response {
    const capacity: nat
    var written: seq<byte>
    var free: nat  // the room left for further fields

    ghost predicate Valid()
      reads this
    {
      |written| + free == capacity
    }

    constructor (capacity: nat)
      ensures Valid() && this.capacity == capacity && written == [] && free == capacity
    {
      this.capacity := capacity;
      written := [];
      free := capacity;
    }

    /** The writes of another handler working on this response: `bytes` appended within the room left. */
    method WriteBytes(bytes: seq<byte>)
      requires Valid() && |bytes| <= free
      modifies this
      ensures Valid() && written == old(written) + bytes && free == old(free) - |bytes|
    {
      written := written + bytes;
      free := free - |bytes|;
    }

    /** unabto_query_write_uint8, _uint16, _uint32 and _uint8_list: all or nothing. */
    method Write(f: Field) returns (ok: bool)
      requires Valid()
      modifies this
      ensures Valid()
      ensures ok == (Size(f) <= old(free))
      ensures written == if ok then old(written) + Encode(f) else old(written)
      ensures free == if ok then old(free) - Size(f) else old(free)
    {
      ok := Size(f) <= free;
      if ok {
        written := written + Encode(f);
        free := free - Size(f);
      }
    }
  }
}
