# MemoryAccess: a verified model of a remote-memory access layer

`MemoryAccess` is a static C# class. It attaches to another running Windows
process by executable path and then reads and writes that process's memory,
using addresses relative to the main module's base address. This project
models its logic in Dafny:

- **Attachment.** The static fields `proc`, `procHwnd` and `BaseAddress`
  become an immutable `Session` record. `LoadProcess` and `CloseProcess`
  are pure functions on it. The OS process list is a given sequence of
  `ProcessRecord(id, fileName, base)`. `OpenProcess` is an oracle: the
  handle value it returns is a parameter, 0 when it refuses.
- **Raw I/O.** The target's address space is a `map<nat, byte>`; an absent
  address is inaccessible. `ReadBuffer` and `WriteBuffer` add `BaseAddress`
  to the address with unchecked 32-bit wrap-around. The OS transfer moves
  the whole range or nothing. It fails when the handle is zero, when a byte
  of the range is inaccessible, or when the range runs past 2^32. The layer
  ignores every failure: a failed read returns the zero-filled buffer, and a
  failed write changes nothing.
- **Typed marshaling.** Integers use `BitConverter`'s little-endian two's
  complement (the Windows/x86 host order). Text uses `Encoding.ASCII`, in
  which a byte above 0x7F becomes `?`, and a character above U+007F becomes
  one `?` per UTF-16 code unit: two for a character beyond U+FFFF, which
  .NET stores as a surrogate pair.
  `TrimEnd((char)0)` drops trailing NULs.
- **Pointer resolution.** `ReadAddress` is modelled exactly as the code is
  written.

Some of the code's behaviour is easy to get wrong, and the model keeps it as written:

- A failed `LoadProcess` does not leave the prior state untouched. Once a
  process is selected, the base address is overwritten and the handle is
  replaced, even when `OpenProcess` refuses.
- A call that finds no match reopens the process that an earlier call
  selected, unless `CloseProcess` ran since.
- Reads and writes made while detached do not crash, because the handle is
  then zero. They yield zeros or do nothing. `ReadAddress` throws when it
  dereferences the null process, and `ReadBuffer`, `ReadString` and
  `ClearMem` throw an overflow exception for a negative length, attached or
  not.
- `WriteByte` writes two bytes.
- `ReadAddress` applies the base twice.

Modules: `Wrappers` (Option, Result, the exceptions), `Words` (fixed-width
integers, `BitConverter`), `Ascii`, `Attachment`, `MemoryIO` (`ReadBuffer`,
`WriteBuffer`) and `MemoryAccess` (typed accessors, `ClearMem`,
`ReadAddress`). The exported `ReadBuf` and `WriteBuf` only forward to
`ReadBuffer` and `WriteBuffer`, so the same members model them.

## Model

| member | source | states |
|---|---|---|
| Attachment.Select | GamespyHostnameChanger/MemoryAccess.cs:28-40 | The process loop has no break, so the last process whose path matches is selected. With no match, the process selected earlier is kept. The result is always either that earlier choice or a listed process whose path matches. |
| Attachment.LoadProcess | GamespyHostnameChanger/MemoryAccess.cs:25-47 | The process is the last listed match (or the earlier `proc` when none matches), a selected process sets the handle to the `OpenProcess` result and the base to its own base, no selection leaves the session unchanged, and the call returns true exactly when a process is selected and the handle is nonzero. |
| Attachment.LoadSelectsLastMatch | GamespyHostnameChanger/MemoryAccess.cs:28-46 | If process i is the last match, the session becomes (process i, the opened handle, process i's base). The call succeeds exactly when the handle is nonzero. |
| Attachment.LoadNoMatchDetached | GamespyHostnameChanger/MemoryAccess.cs:42 | With no match and no earlier process, the call returns false and the session is unchanged. |
| Attachment.LoadNoMatchReusesPrevious | GamespyHostnameChanger/MemoryAccess.cs:42-46 | With no match but an earlier process, that process is opened again. Its base overwrites `BaseAddress`, and the call succeeds exactly when the new handle is nonzero. |
| Attachment.LoadDeniedOverwritesBase | GamespyHostnameChanger/MemoryAccess.cs:43-45 | When `OpenProcess` returns zero, the call fails and the handle is zero, but the base has already been overwritten with the selected process's base. |
| Attachment.LoadExactPath | GamespyHostnameChanger/MemoryAccess.cs:36-38 | From a detached session, a case-sensitive attach only ever selects a listed process whose path equals the requested path. |
| Attachment.CloseProcess | GamespyHostnameChanger/MemoryAccess.cs:50-56 | Afterwards there is no process and no handle, and the base is unchanged. `CloseHandle` is called with the old handle exactly when that handle was nonzero. |
| Attachment.CloseIdempotent | GamespyHostnameChanger/MemoryAccess.cs:50-56 | A second `CloseProcess` changes nothing and releases no handle. |
| Attachment.RunKeepsValid | GamespyHostnameChanger/MemoryAccess.cs:21-56 | Any sequence of `LoadProcess` and `CloseProcess` calls starting from a valid session keeps "no process implies a zero handle". |
| Attachment.RunKeepsBaseConsistent | GamespyHostnameChanger/MemoryAccess.cs:42-55 | Any sequence of `LoadProcess` and `CloseProcess` calls keeps `BaseAddress` equal to the selected process's base whenever a process is selected. |
| Attachment.RunFromInitial | GamespyHostnameChanger/MemoryAccess.cs:19-22 | From the initial values of `BaseAddress`, `proc` and `procHwnd`, every call sequence leaves no handle without a process and a base equal to the selected process's base. |
| Attachment.RunEndingInCloseIsDetached | GamespyHostnameChanger/MemoryAccess.cs:50-56 | Whatever came before, a call sequence that ends with `CloseProcess` leaves no process and no handle. |
| MemoryIO.Absolute | GamespyHostnameChanger/MemoryAccess.cs:197 | The absolute address of `address + BaseAddress` under unchecked Int32 arithmetic is the sum taken modulo 2^32. |
| MemoryIO.ReadBuffer | GamespyHostnameChanger/MemoryAccess.cs:188-198 | A negative length throws an overflow exception. Otherwise the buffer has exactly len bytes. Each byte k is the target's byte at (address + base) mod 2^32 + k when the transfer succeeds. When it fails, the buffer is all zeros. |
| MemoryIO.WriteBuffer | GamespyHostnameChanger/MemoryAccess.cs:176-185 | On success, the bytes from (address + base) mod 2^32 onward hold buf, and every other address keeps its byte. The set of addresses is unchanged. On failure, memory is unchanged. |
| MemoryIO.ReadAfterWrite | GamespyHostnameChanger/MemoryAccess.cs:181-198 | After a successful `WriteBuffer`, reading any prefix of that range yields that prefix of the buffer. |
| MemoryIO.ReadDisjointFromWrite | GamespyHostnameChanger/MemoryAccess.cs:181-185 | A read of a range that the write does not overlap returns the same bytes as before the write. |
| MemoryIO.LastWriteWins | GamespyHostnameChanger/MemoryAccess.cs:181-185 | Two writes of the same length to the same address leave the same memory as the second write alone. |
| MemoryIO.WriteKeepsTransfers | GamespyHostnameChanger/MemoryAccess.cs:181-185 | A write never changes whether a later transfer succeeds. |
| MemoryIO.DetachedIsInert | GamespyHostnameChanger/MemoryAccess.cs:181-198 | With a zero handle (detached, or refused by the OS), every read yields zeros and every write leaves memory unchanged. |
| Words.Wrap32 | GamespyHostnameChanger/MemoryAccess.cs:162-164 | Unchecked Int32 arithmetic: the result is the unique Int32 congruent to the exact sum modulo 2^32, and sums already in range are unchanged; `ReadAddress` applies it at lines 162 and 164, and `Absolute` builds on it for the `address + BaseAddress` of lines 184 and 197. |
| Words.Wrap32AddSub | GamespyHostnameChanger/MemoryAccess.cs:164 | Adding an offset with wrap-around and then subtracting it gives back the original Int32. |
| Words.DecodeEncode | GamespyHostnameChanger/MemoryAccess.cs:123-138 | Decoding the n-byte little-endian encoding of a number below 256^n gives the number back. |
| Words.EncodeDecode | GamespyHostnameChanger/MemoryAccess.cs:67-88 | Re-encoding a decoded byte sequence at its own length gives the sequence back. |
| Words.Int16Codec | GamespyHostnameChanger/MemoryAccess.cs:123-126 | `ToInt16` inverts `GetBytes(Int16)` on every value, and `GetBytes` inverts `ToInt16` on every 2-byte buffer. |
| Words.Int32Codec | GamespyHostnameChanger/MemoryAccess.cs:129-132 | Same for Int32 and 4-byte buffers. |
| Words.Int64Codec | GamespyHostnameChanger/MemoryAccess.cs:135-138 | Same for Int64 and 8-byte buffers. |
| Words.ByteAsInt16 | GamespyHostnameChanger/MemoryAccess.cs:119 | `GetBytes` of a byte binds to the Int16 overload and yields the value followed by a zero byte. |
| Words.DecodeIntZeros | GamespyHostnameChanger/MemoryAccess.cs:193-198 | The zero-filled buffer that a failed read leaves decodes as 0. |
| Ascii.Utf16Count | GamespyHostnameChanger/MemoryAccess.cs:155 | The .NET length of a string is at least its number of characters, and equals it exactly when every character lies within U+FFFF. |
| Ascii.GetBytes | GamespyHostnameChanger/MemoryAccess.cs:155 | `Encoding.ASCII.GetBytes` yields one 7-bit byte per UTF-16 code unit, and for 7-bit text exactly the characters' own codes. |
| Ascii.SupplementaryCharIsTwoBytes | GamespyHostnameChanger/MemoryAccess.cs:155 | A character beyond U+FFFF encodes as two '?' bytes, one per half of its surrogate pair. |
| Ascii.GetStringGetBytes | GamespyHostnameChanger/MemoryAccess.cs:155 | 7-bit text survives `GetBytes` followed by `GetString`. |
| Ascii.GetBytesGetString | GamespyHostnameChanger/MemoryAccess.cs:111 | 7-bit bytes survive `GetString` followed by `GetBytes`. |
| Ascii.HighByteBecomesReplacement | GamespyHostnameChanger/MemoryAccess.cs:111 | A byte above 0x7F decodes as '?', so bytes that contain one cannot be recovered from the text. |
| Ascii.TrimEndNul | GamespyHostnameChanger/MemoryAccess.cs:112 | The result is a prefix of the text, everything after it is NUL, and it does not itself end in NUL. It therefore drops exactly the maximal trailing NUL run and keeps leading and embedded NULs. |
| Ascii.TrimEndNulExactly | GamespyHostnameChanger/MemoryAccess.cs:112 | Text that does not end in NUL, followed by any run of NULs, trims to exactly that text. |
| MemoryAccess.ReadByte | GamespyHostnameChanger/MemoryAccess.cs:58-64 | One byte: the target's byte at the absolute address, or 0 when the read fails. |
| MemoryAccess.ReadInt16 | GamespyHostnameChanger/MemoryAccess.cs:66-72 | The Int16 whose little-endian encoding is stored at the absolute address, or 0 when the read fails. |
| MemoryAccess.ReadInt32 | GamespyHostnameChanger/MemoryAccess.cs:74-80 | The Int32 whose little-endian encoding is stored at the absolute address, or 0 when the read fails. |
| MemoryAccess.ReadInt64 | GamespyHostnameChanger/MemoryAccess.cs:82-88 | The Int64 whose little-endian encoding is stored at the absolute address, or 0 when the read fails. |
| MemoryAccess.ReadString | GamespyHostnameChanger/MemoryAccess.cs:106-114 | A negative len throws. Otherwise the result is a prefix of the decoded len bytes. Without autoTrim it has exactly len characters. With autoTrim it does not end in NUL and only NULs were dropped. |
| MemoryAccess.WriteByte | GamespyHostnameChanger/MemoryAccess.cs:116-120 | As written: when the two bytes are transferable (the handle is nonzero and the bytes are accessible) they become [v, 0] and nothing else changes. Otherwise nothing is written. |
| MemoryAccess.WriteInt16 | GamespyHostnameChanger/MemoryAccess.cs:122-126 | On success, the 2 bytes at the absolute address hold v's little-endian encoding and nothing else changes. On failure, nothing changes. |
| MemoryAccess.WriteInt32 | GamespyHostnameChanger/MemoryAccess.cs:128-132 | Same with 4 bytes. |
| MemoryAccess.WriteInt64 | GamespyHostnameChanger/MemoryAccess.cs:134-138 | Same with 8 bytes. |
| MemoryAccess.WriteString | GamespyHostnameChanger/MemoryAccess.cs:152-157 | When the text's UTF-16 length in bytes is transferable, its ASCII encoding (one byte per UTF-16 code unit) is stored and nothing else changes. No terminator is written: the byte just past the encoded text keeps its value. Otherwise nothing changes. |
| MemoryAccess.ClearMem | GamespyHostnameChanger/MemoryAccess.cs:168-173 | A negative len throws before anything is written. Otherwise, on success, exactly len bytes from the absolute address become 0 and nothing else changes. |
| MemoryAccess.ReadAddress | GamespyHostnameChanger/MemoryAccess.cs:159-166 | Throws a null-reference exception exactly when no process is selected. Otherwise the result minus offset (with wrap-around) is the Int32 stored at absolute address + process base + `BaseAddress` (mod 2^32), or 0 when that read fails. |
| MemoryAccess.AbsoluteOfWrapped | GamespyHostnameChanger/MemoryAccess.cs:162-163 | Wrapping the explicit base addition first does not change the absolute address finally read. |
| MemoryAccess.ReadAddressAddsBaseTwice | GamespyHostnameChanger/MemoryAccess.cs:160-166 | With the base that `LoadProcess` leaves, `ReadAddress(a, off)` is `ReadInt32(BaseAddress + a) + off`, and the pointer read sits at absolute (a + 2 * base) mod 2^32. |
| MemoryAccess.Int16RoundTrip | GamespyHostnameChanger/MemoryAccess.cs:122-126 | `WriteInt16(a, v)` and then `ReadInt16(a)` (lines 66-72) gives v whenever the 2 bytes are transferable (the handle is nonzero and the bytes are accessible). |
| MemoryAccess.Int32RoundTrip | GamespyHostnameChanger/MemoryAccess.cs:128-132 | `WriteInt32(a, v)` and then `ReadInt32(a)` (lines 74-80) gives v whenever the 4 bytes are transferable (the handle is nonzero and the bytes are accessible). |
| MemoryAccess.Int64RoundTrip | GamespyHostnameChanger/MemoryAccess.cs:134-138 | `WriteInt64(a, v)` and then `ReadInt64(a)` (lines 82-88) gives v whenever the 8 bytes are transferable (the handle is nonzero and the bytes are accessible). |
| MemoryAccess.ByteRoundTrip | GamespyHostnameChanger/MemoryAccess.cs:116-120 | When the two bytes are transferable (the handle is nonzero and the bytes are accessible), `WriteByte(a, v)` and then `ReadByte(a)` gives v, because only one byte is read back, and the byte after it is now 0. |
| MemoryAccess.WriteByteAtEdgeIsLost | GamespyHostnameChanger/MemoryAccess.cs:119 | When the addressed byte is transferable but the two-byte range is not, `WriteByte` writes nothing. |
| MemoryAccess.StringRoundTrip | GamespyHostnameChanger/MemoryAccess.cs:152-157 | For 7-bit text whose bytes are transferable (the handle is nonzero and the bytes are accessible), `WriteString` and then `ReadString` of the same length gives the text. With autoTrim it gives the text less its trailing NULs. |
| MemoryAccess.ReadStringTrimsOnlyPadding | GamespyHostnameChanger/MemoryAccess.cs:112 | Text without a trailing NUL, stored with NUL padding, reads back exactly with autoTrim. |
| MemoryAccess.ClearThenRead | GamespyHostnameChanger/MemoryAccess.cs:168-173 | `ClearMem(a, len)` and then `ReadBuffer(a, len)` yields len zeros, whether or not either transfer succeeds. |
| MemoryAccess.WriteByteIntended | GamespyHostnameChanger/MemoryAccess.cs:116-120 | Corrected `WriteByte`: when the byte is transferable (the handle is nonzero and the bytes are accessible) it becomes v and nothing else changes. Otherwise nothing is written. |
| MemoryAccess.WriteByteIntendedRoundTrip | GamespyHostnameChanger/MemoryAccess.cs:116-120 | When the byte is transferable (the handle is nonzero and the bytes are accessible), the corrected `WriteByte` reads back with `ReadByte` and leaves every other byte alone. |
| MemoryAccess.WriteByteClobbersNextByte | GamespyHostnameChanger/MemoryAccess.cs:119 | With base 0x00400000, `WriteByte(0x1000, 5)` turns the 7 at absolute 0x00401001 into 0. The corrected version leaves the 7. |
| MemoryAccess.ReadAddressIntended | GamespyHostnameChanger/MemoryAccess.cs:160-166 | Corrected `ReadAddress`: the result minus offset is the Int32 stored at (address + base) mod 2^32, or 0 when the read fails. |
| MemoryAccess.ReadAddressIntendedAfterWrite | GamespyHostnameChanger/MemoryAccess.cs:160-166 | When the 4 bytes are transferable (the handle is nonzero and the bytes are accessible), a pointer v written with `WriteInt32(a, v)` resolves through the corrected `ReadAddress(a, off)` to v + off, wrapped to Int32. |
| MemoryAccess.ReadAddressMissesWrittenPointer | GamespyHostnameChanger/MemoryAccess.cs:162 | With base 0x00400000, 42 is written at relative 0x1000 and read back by `ReadInt32`. The corrected version resolves 42, but `ReadAddress(0x1000, 0)` reads absolute 0x00801000 and returns 0. |

## Left out

- `ReadFloat`, `ReadDouble`, `WriteFloat`, `WriteDouble`: IEEE floating-point encoding is not modelled.
- The P/Invoke declarations, the export attributes and the `PROC_RW` access mask are foreign calls. `OpenProcess` is a parameter (the returned handle), `CloseHandle` appears only as the handle that `CloseProcess` reports releasing, and the two memory calls are the all-or-nothing transfer described above.
- `Path.GetFileNameWithoutExtension`, `Process.GetProcessesByName` and `MainModule` are OS enumeration and path parsing. The process list is given, and each record already carries its main module's path and base. Reading `MainModule` can itself throw (access denied, or a 32/64-bit mismatch), which aborts `LoadProcess` partway through the loop with `proc` possibly already set to an earlier match of the same call; the model does not include that exception.
- The culture-sensitive `ToLower` is an abstract `fold` function passed to `LoadProcess`.
- ReadBuffer, ReadString and ClearMem: `new byte[len]` can also throw `OutOfMemoryException` for a large non-negative len (always above 0x7FFFFFC7, and earlier on a 32-bit host depending on free address space). The model does not include allocation failure, so for every non-negative len it returns a buffer.
- Partial copies (`ERROR_PARTIAL_COPY`) and write-protected but readable pages are not distinguished: an address is either readable and writable or absent.
- The cast of the module base to Int32 throws on a 64-bit target. The model assumes a 32-bit target, where every base fits.
- The public setter of `BaseAddress` is not an operation of the model. Every read and write takes the session's base as it is, so `ReadAddress` is stated for a base that need not equal the process's base.
- Null arguments (a null path, string or buffer) cannot occur, because Dafny values are never null.
- Concurrency on the static fields (there is no synchronisation) is not modelled, and neither is a target process exiting while attached.
- Handle leaks are not modelled: a second `LoadProcess` without `CloseProcess` overwrites the old handle without closing it, and the model does not track that handle.

## Findings

| source | as written | input that shows it | evidently intended | confidence | as-written member | corrected member |
|---|---|---|---|---|---|---|
| GamespyHostnameChanger/MemoryAccess.cs:119 | `BitConverter.GetBytes(value)` with a byte binds to the Int16 overload, so `WriteByte` writes two bytes. | Base 0x00400000, 7 stored at absolute 0x00401001: `WriteByte(0x1000, 5)` sets 0x00401001 to 0. At the last transferable byte, the write fails entirely. | Write exactly the one byte. | high; not executed | MemoryAccess.WriteByteClobbersNextByte | MemoryAccess.WriteByteIntended |
| GamespyHostnameChanger/MemoryAccess.cs:162 | `ReadAddress` adds the module base to the address and passes the sum to `ReadInt32`, which adds `BaseAddress` again. | Base 0x00400000, pointer 42 written at relative 0x1000: `ReadAddress(0x1000, 0)` reads absolute 0x00801000 and returns 0, not 42. | Read the pointer at relative address + offset, with the base applied once. | medium (a caller could compensate); not executed | MemoryAccess.ReadAddressMissesWrittenPointer | MemoryAccess.ReadAddressIntended |
