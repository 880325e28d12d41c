/** Turning the kernel command line into UCS-2 load options. */
module Cmdline {
  import opened Wrappers
  import opened Bytes

  /** NUL, or ASCII whitespace: tab, line feed, form feed, carriage return, space. */
  predicate IsTerminator(b: u8) {
    b == 0 || b == 0x09 || b == 0x0A || b == 0x0C || b == 0x0D || b == 0x20
  }

  /** One past the last byte that is no terminator, or 0. */
  function StrippedLength(data: seq<u8>): (n: nat)
    ensures n <= |data|
    ensures n > 0 ==> !IsTerminator(data[n - 1])
    ensures forall i :: n <= i < |data| ==> IsTerminator(data[i])
  {
    if data == [] then 0
    else if !IsTerminator(data[|data| - 1]) then |data|
    else StrippedLength(data[..|data| - 1])
  }

  function Strip(data: seq<u8>): seq<u8> {
    data[..StrippedLength(data)]
  }

  /** Stripping keeps the longest prefix that ends in a non-terminator. */
  lemma StripIsLongest(data: seq<u8>, prefix: seq<u8>)
    requires prefix <= data && prefix != [] && !IsTerminator(prefix[|prefix| - 1])
    ensures prefix <= Strip(data)
  {
  }

  /** Nothing is stripped from what already ends in a non-terminator, in particular not twice. */
  lemma StripKeeps(data: seq<u8>)
    ensures Strip(Strip(data)) == Strip(data)
    ensures data != [] && !IsTerminator(data[|data| - 1]) ==> Strip(data) == data
  {
  }

  /** Stripping, byte by byte: NUL, tab, line feed, form feed, carriage return and space vanish at the
      end, and any other byte protects itself and what precedes it. */
  lemma StripOneMore(data: seq<u8>, b: u8)
    ensures Strip([]) == []
    ensures b in [0, 0x09, 0x0A, 0x0C, 0x0D, 0x20] ==> Strip(data + [b]) == Strip(data)
    ensures b !in [0, 0x09, 0x0A, 0x0C, 0x0D, 0x20] ==> Strip(data + [b]) == data + [b]
  {
    assert (data + [b])[..|data|] == data;
  }

  // ---------- Encoding ----------

  datatype EncodeError = LengthOverflow | ByteLengthOverflow | TooLarge | AllocationFailed

  /** The load options for a command line: each byte as a UTF-16LE unit, then a NUL unit. */
  function LoadOptions(cmd: seq<u8>): (r: seq<u8>)
    ensures |r| == 2 * (|cmd| + 1)
  {
    seq(2 * (|cmd| + 1), k requires 0 <= k < 2 * (|cmd| + 1) => if k % 2 == 0 && k / 2 < |cmd| then cmd[k / 2] else 0)
  }

  /** A pool buffer, or the null pointer when there is nothing to pass on. */
  datatype Buffer = Null | Pool(bytes: array<u8>, size: u32)

  /** Why a command line cannot be encoded, if it cannot; `poolGrants` is the pool allocator's answer. */
  function EncodeFault(cmdline: seq<u8>, poolGrants: bool): Option<EncodeError> {
    var n := |Strip(cmdline)|;
    if n == 0 then None
    else if n + 1 >= USIZE_LIMIT then Some(LengthOverflow)
    else if (n + 1) * 2 >= USIZE_LIMIT then Some(ByteLengthOverflow)
    else if (n + 1) * 2 >= U32_LIMIT then Some(TooLarge)
    else if !poolGrants then Some(AllocationFailed)
    else None
  }

  method EncodeUcs2(cmdline: seq<u8>, poolGrants: bool) returns (r: Result<Buffer, EncodeError>)
    ensures r.Failure? <==> EncodeFault(cmdline, poolGrants).Some?
    ensures r.Failure? ==> Some(r.error) == EncodeFault(cmdline, poolGrants)
    ensures r.Success? && Strip(cmdline) == [] ==> r.value == Null
    ensures r.Success? && Strip(cmdline) != [] ==>
              && r.value.Pool?
              && fresh(r.value.bytes)
              && r.value.size == r.value.bytes.Length
              && r.value.bytes[..] == LoadOptions(Strip(cmdline))
  {
    var cmd := Strip(cmdline);
    if |cmd| == 0 {
      return Success(Null);
    }
    var units := |cmd| + 1;
    if units >= USIZE_LIMIT {
      return Failure(LengthOverflow);
    }
    var byteSize := units * 2;
    if byteSize >= USIZE_LIMIT {
      return Failure(ByteLengthOverflow);
    }
    if byteSize >= U32_LIMIT {
      return Failure(TooLarge);
    }
    if !poolGrants {
      return Failure(AllocationFailed);
    }
    var bytes := new u8[byteSize];
    for i := 0 to |cmd|
      invariant forall k :: 0 <= k < i ==> bytes[2 * k] == cmd[k] && bytes[2 * k + 1] == 0
    {
      bytes[2 * i], bytes[2 * i + 1] := cmd[i], 0;
    }
    bytes[byteSize - 2], bytes[byteSize - 1] := 0, 0;
    FilledOptions(bytes[..], cmd);
    return Success(Pool(bytes, byteSize));
  }

  lemma FilledOptions(bytes: seq<u8>, cmd: seq<u8>)
    requires |bytes| == 2 * (|cmd| + 1)
    requires forall k :: 0 <= k < |cmd| ==> bytes[2 * k] == cmd[k] && bytes[2 * k + 1] == 0
    requires bytes[2 * |cmd|] == 0 && bytes[2 * |cmd| + 1] == 0
    ensures bytes == LoadOptions(cmd)
  {
  }

  /** Encoding fails, given an allocation, exactly when its size does not fit in 32 bits. */
  lemma FailsIffTooLong(cmdline: seq<u8>)
    ensures EncodeFault(cmdline, true).Some? <==>
            Strip(cmdline) != [] && 2 * (|Strip(cmdline)| + 1) > 0xFFFF_FFFF
  {
  }

  /** And which error there is: a size above 32 bits comes before a refused allocation. */
  lemma EncodeFaultCases(cmdline: seq<u8>, poolGrants: bool)
    ensures var n, fault := |Strip(cmdline)|, EncodeFault(cmdline, poolGrants);
            && (fault == None <==> n == 0 || (2 * n + 2 <= 0xFFFF_FFFF && poolGrants))
            && (fault == Some(AllocationFailed) <==> 0 < 2 * n <= 0xFFFF_FFFF - 2 && !poolGrants)
            && (fault == Some(TooLarge) <==> 0xFFFF_FFFF < 2 * n + 2 <= 0xFFFF_FFFF_FFFF_FFFF)
            && (fault == Some(LengthOverflow) <==> n + 1 > 0xFFFF_FFFF_FFFF_FFFF)
  {
  }

  // ---------- Decoding ----------

  /** The 16-bit little-endian units of a buffer. */
  function Units(bytes: seq<u8>): (r: seq<u16>)
    ensures |r| == |bytes| / 2
  {
    if |bytes| < 2 then [] else [U16At(bytes, 0)] + Units(bytes[2..])
  }

  function Widen(cmd: seq<u8>): (r: seq<u16>)
    ensures |r| == |cmd| && forall i :: 0 <= i < |cmd| ==> r[i] == cmd[i]
  {
    seq(|cmd|, i requires 0 <= i < |cmd| => cmd[i])
  }

  /** What the kernel reads back: every byte of the stripped command line, NULs inside it included,
      and one NUL unit at the end. */
  lemma {:induction false} DecodesToCommandLine(cmd: seq<u8>)
    ensures Units(LoadOptions(cmd)) == Widen(cmd) + [0]
  {
    if cmd == [] {
      assert LoadOptions(cmd) == [0, 0];
      assert Units([0, 0]) == [0] + Units([0, 0][2..]);
    } else {
      var o := LoadOptions(cmd);
      forall k | 0 <= k < |o| - 2
        ensures o[2..][k] == LoadOptions(cmd[1..])[k]
      {
        assert o[2..][k] == o[k + 2] && (k + 2) % 2 == k % 2 && (k + 2) / 2 == k / 2 + 1;
      }
      assert o[2..] == LoadOptions(cmd[1..]);
      DecodesToCommandLine(cmd[1..]);
      assert U16At(o, 0) == cmd[0];
      assert Widen(cmd) == [cmd[0]] + Widen(cmd[1..]);
    }
  }
}
