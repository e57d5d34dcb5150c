/**
  `ReadBuffer` and `WriteBuffer`, the single point where the layer touches
  the target's memory. The target's address space is a map from absolute
  address to byte; an address absent from the map is not accessible.
  `ReadProcessMemory` and `WriteProcessMemory` move the whole range or
  nothing: they fail when the handle is zero or any byte of the range is
  inaccessible, and the layer ignores that failure.
 */
module MemoryIO {
  import opened Words
  import opened Wrappers
  import opened Attachment

  type Memory = map<nat, byte>

  /**
    The absolute address of relative address a: the unchecked `Int32` sum
    `address + BaseAddress`, whose bit pattern is passed to the OS as the
    pointer.
   */
  function Absolute(base: Int32, a: Int32): (p: nat)
    ensures p < TwoTo32
    ensures p == (a + base) % TwoTo32
  {
    var w := Wrap32(a + base);
    assert (w - (a + base)) % TwoTo32 == 0;
    if w >= 0 then w else w + TwoTo32
  }

  /** The n bytes from absolute address p on all exist, without running past the top of the address space. */
  predicate Accessible(mem: Memory, p: nat, n: nat) {
    && p + n <= TwoTo32
    && forall q :: p <= q < p + n ==> q in mem
  }

  /** The OS call on n bytes at relative address a moves data: the handle is open and the range accessible. */
  predicate Transfers(s: Session, mem: Memory, a: Int32, n: nat) {
    s.handle != 0 && Accessible(mem, Absolute(s.base, a), n)
  }

  /** The n bytes stored from absolute address p on. */
  function Contents(mem: Memory, p: nat, n: nat): (bs: seq<byte>)
    requires Accessible(mem, p, n)
    ensures |bs| == n
    ensures forall k :: 0 <= k < n ==> bs[k] == mem[p + k]
  {
    seq(n, k requires 0 <= k < n => mem[p + k])
  }

  /**
    m' is mem with bs stored from absolute address p on: same addresses,
    the range holds bs, every other address keeps its byte.
   */
  ghost predicate StoredAt(mem: Memory, m': Memory, p: nat, bs: seq<byte>) {
    && m'.Keys == mem.Keys
    && (forall q :: q in mem && p <= q < p + |bs| ==> m'[q] == bs[q - p])
    && (forall q :: q in mem && !(p <= q < p + |bs|) ==> m'[q] == mem[q])
  }

  /**
    The buffer `ReadBuffer` leaves behind for a non-negative length: a
    fresh zeroed array of n bytes, filled from the target only when the
    transfer succeeds.
   */
  function ReadBytes(s: Session, mem: Memory, a: Int32, n: nat): (bs: seq<byte>)
    ensures |bs| == n
    ensures Transfers(s, mem, a, n) ==> forall k :: 0 <= k < n ==> bs[k] == mem[Absolute(s.base, a) + k]
    ensures !Transfers(s, mem, a, n) ==> bs == Zeros(n)
  {
    if Transfers(s, mem, a, n) then Contents(mem, Absolute(s.base, a), n) else Zeros(n)
  }

  /**
    `ReadBuffer(address, ref buffer, len)`, and the exported `ReadBuf` that
    forwards to it: `new byte[len]` throws for a negative length; otherwise
    the buffer has exactly len bytes.
   */
  function ReadBuffer(s: Session, mem: Memory, a: Int32, len: int): (r: Result<seq<byte>, Exception>)
    ensures r.Failure? <==> len < 0
    ensures r.Failure? ==> r.error == Overflow
    ensures r.Success? ==> |r.value| == len && r.value == ReadBytes(s, mem, a, len)
  {
    if len < 0 then Failure(Overflow) else Success(ReadBytes(s, mem, a, len))
  }

  /**
    `WriteBuffer(address, buffer)`, and the exported `WriteBuf` that
    forwards to it: on success the target holds buf from the absolute
    address on and nothing else changes; on failure nothing changes.
   */
  function WriteBuffer(s: Session, mem: Memory, a: Int32, buf: seq<byte>): (m': Memory)
    ensures Transfers(s, mem, a, |buf|) ==> StoredAt(mem, m', Absolute(s.base, a), buf)
    ensures !Transfers(s, mem, a, |buf|) ==> m' == mem
  {
    if Transfers(s, mem, a, |buf|) then
      var p := Absolute(s.base, a);
      map q | q in mem :: if p <= q < p + |buf| then buf[q - p] else mem[q]
    else mem
  }

  /** A write keeps the set of accessible addresses, so whether a later transfer succeeds is unchanged. */
  lemma WriteKeepsTransfers(s: Session, mem: Memory, a: Int32, buf: seq<byte>, b: Int32, n: nat)
    ensures Transfers(s, WriteBuffer(s, mem, a, buf), b, n) == Transfers(s, mem, b, n)
  {
    assert WriteBuffer(s, mem, a, buf).Keys == mem.Keys;
  }

  /** Reading back any prefix of a successfully written buffer yields that prefix. */
  lemma ReadAfterWrite(s: Session, mem: Memory, a: Int32, buf: seq<byte>, n: nat)
    requires n <= |buf|
    requires Transfers(s, mem, a, |buf|)
    ensures ReadBytes(s, WriteBuffer(s, mem, a, buf), a, n) == buf[..n]
  {
    var m' := WriteBuffer(s, mem, a, buf);
    var p := Absolute(s.base, a);
    assert Transfers(s, m', a, n);
    var r := ReadBytes(s, m', a, n);
    forall k | 0 <= k < n
      ensures r[k] == buf[k]
    {
      assert p + k in mem;
    }
  }

  /** A read of a range the write does not overlap sees the old bytes (or zeros, if it fails either way). */
  lemma ReadDisjointFromWrite(s: Session, mem: Memory, a: Int32, buf: seq<byte>, b: Int32, n: nat)
    requires var p := Absolute(s.base, a); var q := Absolute(s.base, b);
      p + |buf| <= q || q + n <= p
    ensures ReadBytes(s, WriteBuffer(s, mem, a, buf), b, n) == ReadBytes(s, mem, b, n)
  {
    var m' := WriteBuffer(s, mem, a, buf);
    WriteKeepsTransfers(s, mem, a, buf, b, n);
    if Transfers(s, mem, b, n) {
      var q := Absolute(s.base, b);
      forall i | q <= i < q + n
        ensures m'[i] == mem[i]
      {
        assert i in mem;
      }
    }
  }

  /** Two writes of the same length to the same place: the second one is all that remains. */
  lemma LastWriteWins(s: Session, mem: Memory, a: Int32, first: seq<byte>, second: seq<byte>)
    requires |first| == |second|
    ensures WriteBuffer(s, WriteBuffer(s, mem, a, first), a, second) == WriteBuffer(s, mem, a, second)
  {
    WriteKeepsTransfers(s, mem, a, first, a, |second|);
    var m1 := WriteBuffer(s, mem, a, first);
    var m2 := WriteBuffer(s, m1, a, second);
    var m3 := WriteBuffer(s, mem, a, second);
    if Transfers(s, mem, a, |second|) {
      assert m2.Keys == m3.Keys;
      forall q | q in m2
        ensures m2[q] == m3[q]
      {
      }
    }
  }

  /** Without a handle (as after `CloseProcess`) every read yields zeros and every write is lost. */
  lemma DetachedIsInert(s: Session, mem: Memory, a: Int32, n: nat, buf: seq<byte>)
    requires s.handle == 0
    ensures ReadBytes(s, mem, a, n) == Zeros(n)
    ensures WriteBuffer(s, mem, a, buf) == mem
  {
  }
}
