/**
  The exported typed accessors of `MemoryAccess`: integers and bytes through
  `BitConverter`, ASCII text, `ClearMem` and the pointer read `ReadAddress`.
  Each one builds or consumes a buffer and goes through `ReadBuffer` or
  `WriteBuffer`, so every address is relative to the session's base.
 */
module MemoryAccess {
  import opened Words
  import opened Wrappers
  import opened Ascii
  import opened Attachment
  import opened MemoryIO

  // ---------------------------------------------------------------------------
  // Reads
  // ---------------------------------------------------------------------------

  /** `ReadByte`: the byte at the absolute address, or 0 when the read fails. */
  function ReadByte(s: Session, mem: Memory, a: Int32): (v: byte)
    ensures Transfers(s, mem, a, 1) ==> v == mem[Absolute(s.base, a)]
    ensures !Transfers(s, mem, a, 1) ==> v == 0
  {
    ReadBytes(s, mem, a, 1)[0]
  }

  /** `ReadInt16`: the value whose little-endian encoding is stored there, or 0 when the read fails. */
  function ReadInt16(s: Session, mem: Memory, a: Int32): (v: Int16)
    ensures Transfers(s, mem, a, 2) ==> GetBytesInt16(v) == Contents(mem, Absolute(s.base, a), 2)
    ensures !Transfers(s, mem, a, 2) ==> v == 0
  {
    var bs := ReadBytes(s, mem, a, 2);
    EncodeDecodeInt(bs, 2);
    assert bs[..2] == bs;
    DecodeIntZeros(2);
    ToInt16(bs)
  }

  /** `ReadInt32`: the value whose little-endian encoding is stored there, or 0 when the read fails. */
  function ReadInt32(s: Session, mem: Memory, a: Int32): (v: Int32)
    ensures Transfers(s, mem, a, 4) ==> GetBytesInt32(v) == Contents(mem, Absolute(s.base, a), 4)
    ensures !Transfers(s, mem, a, 4) ==> v == 0
  {
    var bs := ReadBytes(s, mem, a, 4);
    EncodeDecodeInt(bs, 4);
    assert bs[..4] == bs;
    DecodeIntZeros(4);
    ToInt32(bs)
  }

  /** `ReadInt64`: the value whose little-endian encoding is stored there, or 0 when the read fails. */
  function ReadInt64(s: Session, mem: Memory, a: Int32): (v: Int64)
    ensures Transfers(s, mem, a, 8) ==> GetBytesInt64(v) == Contents(mem, Absolute(s.base, a), 8)
    ensures !Transfers(s, mem, a, 8) ==> v == 0
  {
    var bs := ReadBytes(s, mem, a, 8);
    EncodeDecodeInt(bs, 8);
    assert bs[..8] == bs;
    DecodeIntZeros(8);
    ToInt64(bs)
  }

  /**
    `ReadString(address, len, autoTrim)`: len bytes decoded as ASCII, with
    the trailing NULs removed when autoTrim is set. A negative len throws.
   */
  function ReadString(s: Session, mem: Memory, a: Int32, len: int, autoTrim: bool): (r: Result<string, Exception>)
    ensures r.Failure? <==> len < 0
    ensures r.Failure? ==> r.error == Overflow
    ensures len >= 0 ==> r.Success? && var text := GetString(ReadBytes(s, mem, a, len));
      && r.value <= text
      && (!autoTrim ==> |r.value| == len)
      && (autoTrim ==> (|r.value| == 0 || r.value[|r.value| - 1] != Nul)
                       && forall i :: |r.value| <= i < len ==> text[i] == Nul)
  {
    if len < 0 then Failure(Overflow)
    else
      var text := GetString(ReadBytes(s, mem, a, len));
      Success(if autoTrim then TrimEndNul(text) else text)
  }

  // ---------------------------------------------------------------------------
  // Writes
  // ---------------------------------------------------------------------------

  /**
    `WriteByte` as written: `BitConverter.GetBytes(value)` with a `byte`
    argument binds to the `Int16` overload, so two bytes are written, the
    value and a zero after it, and nothing at all is written when only the
    first byte is accessible.
   */
  function WriteByte(s: Session, mem: Memory, a: Int32, v: byte): (m': Memory)
    ensures Transfers(s, mem, a, 2) ==> StoredAt(mem, m', Absolute(s.base, a), [v, 0])
    ensures !Transfers(s, mem, a, 2) ==> m' == mem
  {
    ByteAsInt16(v);
    WriteBuffer(s, mem, a, GetBytesInt16(v))
  }

  /** `WriteInt16`: the 2-byte little-endian two's-complement encoding of v. */
  function WriteInt16(s: Session, mem: Memory, a: Int32, v: Int16): (m': Memory)
    ensures Transfers(s, mem, a, 2) ==> StoredAt(mem, m', Absolute(s.base, a), GetBytesInt16(v))
    ensures !Transfers(s, mem, a, 2) ==> m' == mem
  {
    WriteBuffer(s, mem, a, GetBytesInt16(v))
  }

  /** `WriteInt32`: the 4-byte little-endian two's-complement encoding of v. */
  function WriteInt32(s: Session, mem: Memory, a: Int32, v: Int32): (m': Memory)
    ensures Transfers(s, mem, a, 4) ==> StoredAt(mem, m', Absolute(s.base, a), GetBytesInt32(v))
    ensures !Transfers(s, mem, a, 4) ==> m' == mem
  {
    WriteBuffer(s, mem, a, GetBytesInt32(v))
  }

  /** `WriteInt64`: the 8-byte little-endian two's-complement encoding of v. */
  function WriteInt64(s: Session, mem: Memory, a: Int32, v: Int64): (m': Memory)
    ensures Transfers(s, mem, a, 8) ==> StoredAt(mem, m', Absolute(s.base, a), GetBytesInt64(v))
    ensures !Transfers(s, mem, a, 8) ==> m' == mem
  {
    WriteBuffer(s, mem, a, GetBytesInt64(v))
  }

  /**
    `WriteString(address, str)`: one ASCII byte per UTF-16 code unit of the
    text (one per character for text within U+FFFF) and no terminator, so
    the byte just past the encoded text keeps its value.
   */
  function WriteString(s: Session, mem: Memory, a: Int32, str: string): (m': Memory)
    ensures Transfers(s, mem, a, Utf16Count(str)) ==> StoredAt(mem, m', Absolute(s.base, a), GetBytes(str))
    ensures Transfers(s, mem, a, Utf16Count(str)) && Absolute(s.base, a) + Utf16Count(str) in mem
      ==> m'[Absolute(s.base, a) + Utf16Count(str)] == mem[Absolute(s.base, a) + Utf16Count(str)]
    ensures !Transfers(s, mem, a, Utf16Count(str)) ==> m' == mem
  {
    WriteBuffer(s, mem, a, GetBytes(str))
  }

  /** `ClearMem(address, len)`: len zero bytes; a negative len throws before anything is written. */
  function ClearMem(s: Session, mem: Memory, a: Int32, len: int): (r: Result<Memory, Exception>)
    ensures r.Failure? <==> len < 0
    ensures r.Failure? ==> r.error == Overflow
    ensures len >= 0 && Transfers(s, mem, a, len) ==> r.Success? && StoredAt(mem, r.value, Absolute(s.base, a), Zeros(len))
    ensures len >= 0 && !Transfers(s, mem, a, len) ==> r == Success(mem)
  {
    if len < 0 then Failure(Overflow) else Success(WriteBuffer(s, mem, a, Zeros(len)))
  }

  // ---------------------------------------------------------------------------
  // Pointer resolution
  // ---------------------------------------------------------------------------

  /**
    `ReadAddress(address, offset)` as written: the selected process's base
    is added to the address (throwing when no process is selected), the
    resulting relative address goes through `ReadInt32`, which adds
    `BaseAddress` again, and offset is added to the pointer read, all with
    wrap-around. The result is the Int32 stored at absolute address
    address + process base + BaseAddress (mod 2^32), or 0 when that read
    fails, plus offset.
   */
  function ReadAddress(s: Session, mem: Memory, a: Int32, offset: Int32): (r: Result<Int32, Exception>)
    ensures r.Failure? <==> s.proc.None?
    ensures r.Failure? ==> r.error == NullReference
    ensures r.Success? ==>
      var p := (a + s.proc.value.base + s.base) % TwoTo32;
      Wrap32(r.value - offset) == (if s.handle != 0 && Accessible(mem, p, 4) then ToInt32(Contents(mem, p, 4)) else 0)
  {
    if s.proc.None? then Failure(NullReference)
    else
      var addr := Wrap32(s.proc.value.base + a);
      var pointer := ReadInt32(s, mem, addr);
      AbsoluteOfWrapped(s.base, s.proc.value.base, a);
      ReadInt32Decodes(s, mem, addr);
      Wrap32AddSub(pointer, offset);
      Success(Wrap32(pointer + offset))
  }

  /** A successful `ReadInt32` is `BitConverter.ToInt32` of the four bytes stored there. */
  lemma ReadInt32Decodes(s: Session, mem: Memory, a: Int32)
    ensures Transfers(s, mem, a, 4) ==> ReadInt32(s, mem, a) == ToInt32(Contents(mem, Absolute(s.base, a), 4))
  {
    if Transfers(s, mem, a, 4) {
      var v := ReadInt32(s, mem, a);
      Int32Codec(v, Contents(mem, Absolute(s.base, a), 4));
    }
  }

  /** Wrapping the inner sum first does not change the absolute address. */
  lemma AbsoluteOfWrapped(base: Int32, b: Int32, a: Int32)
    ensures Absolute(base, Wrap32(b + a)) == (a + b + base) % TwoTo32
  {
    var w := Wrap32(b + a);
    assert (w - (b + a)) % TwoTo32 == 0;
    assert (w + base) % TwoTo32 == (a + b + base) % TwoTo32;
  }

  // ---------------------------------------------------------------------------
  // Round trips
  // ---------------------------------------------------------------------------

  /** `WriteInt16` then `ReadInt16` at the same address yields the value written. */
  lemma Int16RoundTrip(s: Session, mem: Memory, a: Int32, v: Int16)
    requires Transfers(s, mem, a, 2)
    ensures ReadInt16(s, WriteInt16(s, mem, a, v), a) == v
  {
    var bs := GetBytesInt16(v);
    var m' := WriteInt16(s, mem, a, v);
    ReadAfterWrite(s, mem, a, bs, 2);
    assert bs[..2] == bs;
    Int16Codec(v, bs);
  }

  /** `WriteInt32` then `ReadInt32` at the same address yields the value written. */
  lemma Int32RoundTrip(s: Session, mem: Memory, a: Int32, v: Int32)
    requires Transfers(s, mem, a, 4)
    ensures ReadInt32(s, WriteInt32(s, mem, a, v), a) == v
  {
    var bs := GetBytesInt32(v);
    ReadAfterWrite(s, mem, a, bs, 4);
    assert bs[..4] == bs;
    Int32Codec(v, bs);
  }

  /** `WriteInt64` then `ReadInt64` at the same address yields the value written. */
  lemma Int64RoundTrip(s: Session, mem: Memory, a: Int32, v: Int64)
    requires Transfers(s, mem, a, 8)
    ensures ReadInt64(s, WriteInt64(s, mem, a, v), a) == v
  {
    var bs := GetBytesInt64(v);
    ReadAfterWrite(s, mem, a, bs, 8);
    assert bs[..8] == bs;
    Int64Codec(v, bs);
  }

  /**
    `WriteByte` then `ReadByte` yields the value written, because `ReadByte`
    reads only the first of the two bytes; the byte after it is now zero.
   */
  lemma ByteRoundTrip(s: Session, mem: Memory, a: Int32, v: byte)
    requires Transfers(s, mem, a, 2)
    ensures ReadByte(s, WriteByte(s, mem, a, v), a) == v
    ensures WriteByte(s, mem, a, v)[Absolute(s.base, a) + 1] == 0
  {
    ByteAsInt16(v);
    ReadAfterWrite(s, mem, a, [v, 0], 1);
    assert Absolute(s.base, a) + 1 in mem;
  }

  /** When only the addressed byte is accessible, `WriteByte` writes nothing at all. */
  lemma WriteByteAtEdgeIsLost(s: Session, mem: Memory, a: Int32, v: byte)
    requires Transfers(s, mem, a, 1) && !Transfers(s, mem, a, 2)
    ensures WriteByte(s, mem, a, v) == mem
  {
  }

  /**
    `WriteString` then `ReadString` of the same length yields the text,
    for 7-bit text; with autoTrim, the text less its trailing NULs.
   */
  lemma StringRoundTrip(s: Session, mem: Memory, a: Int32, str: string)
    requires IsAscii(str)
    requires Transfers(s, mem, a, |str|)
    ensures ReadString(s, WriteString(s, mem, a, str), a, |str|, false) == Success(str)
    ensures ReadString(s, WriteString(s, mem, a, str), a, |str|, true) == Success(TrimEndNul(str))
  {
    var bs := GetBytes(str);
    ReadAfterWrite(s, mem, a, bs, |str|);
    assert bs[..|str|] == bs;
    GetStringGetBytes(str);
  }

  /**
    With autoTrim, NULs that are followed by other text survive: text with
    no trailing NUL, padded with NULs in memory, reads back exactly.
   */
  lemma ReadStringTrimsOnlyPadding(s: Session, mem: Memory, a: Int32, str: string, padding: string)
    requires IsAscii(str)
    requires |str| == 0 || str[|str| - 1] != Nul
    requires forall i :: 0 <= i < |padding| ==> padding[i] == Nul
    requires Transfers(s, mem, a, |str| + |padding|)
    ensures ReadString(s, WriteString(s, mem, a, str + padding), a, |str + padding|, true) == Success(str)
  {
    var full := str + padding;
    assert IsAscii(full) by {
      forall i | 0 <= i < |full|
        ensures full[i] as int < 0x80
      {
        if i < |str| {
          assert full[i] == str[i];
        } else {
          assert full[i] == padding[i - |str|];
        }
      }
    }
    StringRoundTrip(s, mem, a, full);
    TrimEndNulExactly(str, padding);
  }

  /** After `ClearMem`, reading the same range yields zeros, whether or not the transfers succeed. */
  lemma ClearThenRead(s: Session, mem: Memory, a: Int32, len: nat)
    ensures ClearMem(s, mem, a, len).Success?
    ensures ReadBuffer(s, ClearMem(s, mem, a, len).value, a, len) == Success(Zeros(len))
  {
    if Transfers(s, mem, a, len) {
      ReadAfterWrite(s, mem, a, Zeros(len), len);
      assert Zeros(len)[..len] == Zeros(len);
    }
  }

  /**
    When the session's base is the process's own base (as `LoadProcess`
    leaves it), `ReadAddress` reads the pointer at address + 2 * base: the
    base is applied twice.
   */
  lemma ReadAddressAddsBaseTwice(s: Session, mem: Memory, a: Int32, offset: Int32)
    requires s.proc.Some? && BaseConsistent(s)
    ensures ReadAddress(s, mem, a, offset)
         == Success(Wrap32(ReadInt32(s, mem, Wrap32(s.base + a)) + offset))
    ensures Absolute(s.base, Wrap32(s.base + a)) == (a + 2 * s.base) % TwoTo32
  {
    AbsoluteOfWrapped(s.base, s.base, a);
  }

  // ---------------------------------------------------------------------------
  // Discrepancies: the code as written against its evident intent
  // ---------------------------------------------------------------------------

  /** A session attached to a process loaded at 0x00400000, as in the usual Win32 layout. */
  const Game: ProcessRecord := ProcessRecord(1, "C:\\game\\game.exe", 0x0040_0000)
  const GameSession: Session := Session(Some(Game), 1, 0x0040_0000)

  /** Four accessible bytes at absolute 0x00401000 and nothing else. */
  const GameMemory: Memory := map[0x0040_1000 := 0, 0x0040_1001 := 0, 0x0040_1002 := 0, 0x0040_1003 := 0]

  /**
    `WriteByte` as evidently intended: exactly one byte, so a write that
    fits in one accessible byte succeeds and the next byte is untouched.
   */
  function WriteByteIntended(s: Session, mem: Memory, a: Int32, v: byte): (m': Memory)
    ensures Transfers(s, mem, a, 1) ==> StoredAt(mem, m', Absolute(s.base, a), [v])
    ensures !Transfers(s, mem, a, 1) ==> m' == mem
  {
    WriteBuffer(s, mem, a, [v])
  }

  /** The intended `WriteByte` reads back with `ReadByte` and leaves every other byte alone. */
  lemma WriteByteIntendedRoundTrip(s: Session, mem: Memory, a: Int32, v: byte, q: nat)
    requires Transfers(s, mem, a, 1)
    requires q in mem && q != Absolute(s.base, a)
    ensures ReadByte(s, WriteByteIntended(s, mem, a, v), a) == v
    ensures WriteByteIntended(s, mem, a, v)[q] == mem[q]
  {
    ReadAfterWrite(s, mem, a, [v], 1);
  }

  /** As written, `WriteByte(0x1000, 5)` also zeroes the byte at 0x1001, which held 7. */
  lemma WriteByteClobbersNextByte()
    ensures var mem := GameMemory[0x0040_1001 := 7];
      && WriteByte(GameSession, mem, 0x1000, 5)[0x0040_1001] == 0
      && WriteByteIntended(GameSession, mem, 0x1000, 5)[0x0040_1001] == 7
  {
    var mem := GameMemory[0x0040_1001 := 7];
    assert Absolute(GameSession.base, 0x1000) == 0x0040_1000;
    assert Transfers(GameSession, mem, 0x1000, 2);
  }

  /**
    `ReadAddress` as evidently intended: the pointer stored at the relative
    address (base applied once, inside the read), plus the offset.
   */
  function ReadAddressIntended(s: Session, mem: Memory, a: Int32, offset: Int32): (r: Int32)
    ensures Wrap32(r - offset)
         == (if Transfers(s, mem, a, 4) then ToInt32(Contents(mem, Absolute(s.base, a), 4)) else 0)
  {
    var pointer := ReadInt32(s, mem, a);
    ReadInt32Decodes(s, mem, a);
    Wrap32AddSub(pointer, offset);
    Wrap32(pointer + offset)
  }

  /** A pointer written with `WriteInt32` is what the intended `ReadAddress` resolves from. */
  lemma ReadAddressIntendedAfterWrite(s: Session, mem: Memory, a: Int32, v: Int32, offset: Int32)
    requires Transfers(s, mem, a, 4)
    ensures ReadAddressIntended(s, WriteInt32(s, mem, a, v), a, offset) == Wrap32(v + offset)
  {
    Int32RoundTrip(s, mem, a, v);
  }

  /**
    With base 0x00400000, a pointer 42 written at relative 0x1000 (absolute
    0x00401000) is not what `ReadAddress(0x1000, 0)` returns: it reads at
    absolute 0x00801000, which is inaccessible here, and so yields 0.
   */
  lemma ReadAddressMissesWrittenPointer()
    ensures var mem := WriteInt32(GameSession, GameMemory, 0x1000, 42);
      && ReadInt32(GameSession, mem, 0x1000) == 42
      && ReadAddressIntended(GameSession, mem, 0x1000, 0) == 42
      && ReadAddress(GameSession, mem, 0x1000, 0) == Success(0)
  {
    GameMemoryLayout();
    Int32RoundTrip(GameSession, GameMemory, 0x1000, 42);
    ReadAddressIntendedAfterWrite(GameSession, GameMemory, 0x1000, 42, 0);
    WriteKeepsTransfers(GameSession, GameMemory, 0x1000, GetBytesInt32(42), 0x0040_1000, 4);
  }

  /** In GameSession, relative 0x1000 is readable, but relative 0x00401000 (absolute 0x00801000) is not. */
  lemma GameMemoryLayout()
    ensures Transfers(GameSession, GameMemory, 0x1000, 4)
    ensures !Transfers(GameSession, GameMemory, 0x0040_1000, 4)
    ensures Wrap32(Game.base + 0x1000) == 0x0040_1000
  {
    assert Absolute(GameSession.base, 0x1000) == 0x0040_1000;
    assert Absolute(GameSession.base, 0x0040_1000) == 0x0080_1000;
    assert 0x0080_1000 !in GameMemory;
  }
}
