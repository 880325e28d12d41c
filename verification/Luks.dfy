/** Injecting the LUKS key into the command line, and getting it back out on the kernel's side. */
module Luks {
  import opened Wrappers
  import opened Bytes
  import opened Base64
  import opened Cmdline

  /** The ASCII bytes of " luks.key=". */
  const PREFIX: seq<u8> := [0x20, 0x6C, 0x75, 0x6B, 0x73, 0x2E, 0x6B, 0x65, 0x79, 0x3D]

  /** What reading the key file gives. */
  datatype KeyFile = Missing | Unreadable | Contents(bytes: seq<u8>)

  datatype InjectError = KeyUnreadable | CombinedTooLong | EncodingFailed

  function Injected(base: seq<u8>, key: seq<u8>): seq<u8> {
    Strip(base) + PREFIX + Encode(key)
  }

  method ReadKey(file: KeyFile) returns (r: Result<Option<seq<u8>>, InjectError>)
    ensures forall key :: r == Success(Some(key)) <==> file == Contents(key) && key != []
    ensures r == Failure(KeyUnreadable) <==> file == Unreadable
    ensures r.Success? || r == Failure(KeyUnreadable)
  {
    match file
    case Contents(bytes) =>
      if bytes != [] {
        r := Success(Some(bytes));
      } else {
        r := Success(None);
      }
    case Missing => r := Success(None);
    case Unreadable => r := Failure(KeyUnreadable);
  }

  /** The command line with the key appended, or why there is none. */
  function Injection(file: KeyFile, base: seq<u8>): Result<Option<seq<u8>>, InjectError> {
    match file
    case Missing => Success(None)
    case Unreadable => Failure(KeyUnreadable)
    case Contents(key) =>
      if key == [] then Success(None)
      else if |Strip(base)| + 10 + EncodedLen(|key|) >= USIZE_LIMIT then Failure(CombinedTooLong)
      else if 4 * |key| >= USIZE_LIMIT then Failure(EncodingFailed)
      else Success(Some(Injected(base, key)))
  }

  /** When there is a key to inject, and what goes wrong otherwise: no key for a missing or empty key
      file, an error for an unreadable one, and for lengths that do not fit in 64 bits. */
  lemma InjectionCases(file: KeyFile, base: seq<u8>)
    ensures Injection(file, base) == Success(None) <==> file == Missing || file == Contents([])
    ensures Injection(file, base) == Failure(KeyUnreadable) <==> file == Unreadable
    ensures file.Contents? && file.bytes != [] && 4 * |file.bytes| <= 0xFFFF_FFFF_FFFF_FFFF ==>
              if |Strip(base)| + 10 + (4 * |file.bytes| + 2) / 3 <= 0xFFFF_FFFF_FFFF_FFFF then
                Injection(file, base).Success? && Injection(file, base).value.Some?
              else Injection(file, base) == Failure(CombinedTooLong)
    ensures file.Contents? && 4 * |file.bytes| > 0xFFFF_FFFF_FFFF_FFFF ==>
              Injection(file, base).Failure?
  {
    if file.Contents? {
      EncodeLength(file.bytes);
    }
  }

  /** What is injected: the stripped base, the ten characters of the option's name, and the key in
      Base64. */
  lemma InjectedText(base: seq<u8>, key: seq<u8>)
    ensures var c, n := Injected(base, key), |Strip(base)|;
            && n + 10 <= |c|
            && c[..n] == Strip(base)
            && (forall i :: 0 <= i < 10 ==> c[n + i] == " luks.key="[i] as int)
            && c[n + 10..] == Encode(key) && Decode(c[n + 10..]) == Some(key)
  {
    var c, n := Injected(base, key), |Strip(base)|;
    assert forall i :: 0 <= i < 10 ==> PREFIX[i] == " luks.key="[i] as int;
    assert c[n + 10..] == Encode(key);
    DecodesIffEncodes(Encode(key), key);
  }

  method TryInject(file: KeyFile, cmdline: Option<seq<u8>>) returns (r: Result<Option<seq<u8>>, InjectError>)
    ensures r == Injection(file, if cmdline.Some? then cmdline.value else [])
    ensures r.Success? && r.value.Some? ==>
              && file.Contents? && file.bytes != []
              && var c, base := r.value.value, Strip(if cmdline.Some? then cmdline.value else []);
              && |base| + 10 <= |c| && c[..|base|] == base
              && (forall i :: 0 <= i < 10 ==> c[|base| + i] == " luks.key="[i] as int)
              && Decode(c[|base| + 10..]) == Some(file.bytes)
  {
    var keyRead := ReadKey(file);
    if keyRead.Failure? {
      return Failure(keyRead.error);
    }
    if keyRead.value.None? {
      return Success(None);
    }
    var key := keyRead.value.value;
    var baseCmd := Strip(if cmdline.Some? then cmdline.value else []);
    var totalLen := |baseCmd| + |PREFIX| + EncodedLen(|key|);
    if totalLen >= USIZE_LIMIT {
      return Failure(CombinedTooLong);
    }
    var start := |baseCmd| + |PREFIX|;
    var combined := Combined(baseCmd, totalLen);
    ghost var before := combined[..];
    var ok := EncodeInto(key, combined, start);
    if !ok {
      return Failure(EncodingFailed);
    }
    EncodeLength(key);
    FilledExactly(before, start, baseCmd + PREFIX, key);
    InjectedText(if cmdline.Some? then cmdline.value else [], key);
    return Success(Some(combined[..]));
  }

  /** The base command line and the prefix, resized with zeros to `totalLen`. */
  method Combined(baseCmd: seq<u8>, totalLen: nat) returns (combined: array<u8>)
    requires |baseCmd| + 10 <= totalLen
    ensures fresh(combined) && combined.Length == totalLen
    ensures combined[..] == baseCmd + PREFIX + Zeros(totalLen - |baseCmd| - 10)
    ensures combined[..|baseCmd| + 10] == baseCmd + PREFIX
  {
    combined := new u8[totalLen];
    forall i | 0 <= i < |baseCmd| {
      combined[i] := baseCmd[i];
    }
    forall i | 0 <= i < |PREFIX| {
      combined[|baseCmd| + i] := PREFIX[i];
    }
    var start := |baseCmd| + |PREFIX|;
    forall i | start <= i < totalLen {
      combined[i] := 0;
    }
  }

  /** The fill is exact: no byte of the resized part is left over and none is missing. */
  lemma FilledExactly(buffer: seq<u8>, start: nat, head: seq<u8>, key: seq<u8>)
    requires 4 * |key| < USIZE_LIMIT && |buffer| == start + EncodedLen(|key|)
    requires buffer[..start] == head
    ensures start + |Encode(key)| == |buffer|
    ensures Overwrite(buffer, start, Encode(key)) == head + Encode(key)
  {
    EncodeLength(key);
    assert forall i :: 0 <= i < start ==> buffer[i] == buffer[..start][i];
  }

  // ---------- Policy ----------

  /** The command line to boot with: the TPM takes precedence over a key file. */
  method ChooseCmdline(tpmAvailable: bool, file: KeyFile, base: Option<seq<u8>>)
    returns (r: Result<Option<seq<u8>>, InjectError>)
    ensures tpmAvailable ==> r == Success(base)
    ensures !tpmAvailable ==>
              var injected := Injection(file, if base.Some? then base.value else []);
              r == if injected == Success(None) then Success(base) else injected
  {
    if !tpmAvailable {
      var injected := TryInject(file, base);
      if injected.Failure? || injected.value.Some? {
        return injected;
      }
    }
    return Success(base);
  }

  // ---------- Reading the key back ----------

  predicate OccursAt(s: seq<u8>, k: nat) {
    k + 10 <= |s| && s[k..k + 10] == PREFIX
  }

  /** What precedes and what follows the last occurrence of the prefix. */
  function SplitAtLast(s: seq<u8>, bound: nat): (r: Option<(seq<u8>, seq<u8>)>)
    requires bound <= |s| && forall k :: bound <= k <= |s| ==> !OccursAt(s, k)
    ensures r.Some? ==> s == r.value.0 + PREFIX + r.value.1
    ensures r.Some? ==> forall k :: |r.value.0| < k <= |s| ==> !OccursAt(s, k)
    ensures r.None? ==> forall k :: 0 <= k <= |s| ==> !OccursAt(s, k)
  {
    if bound == 0 then None
    else if OccursAt(s, bound - 1) then Some((s[..bound - 1], s[bound + 9..]))
    else SplitAtLast(s, bound - 1)
  }

  predicate IsByteString(units: seq<u16>) {
    forall i :: 0 <= i < |units| ==> units[i] < 0x100
  }

  function Narrow(units: seq<u16>): (r: seq<u8>)
    requires IsByteString(units)
    ensures |r| == |units| && forall i :: 0 <= i < |units| ==> r[i] == units[i]
  {
    seq(|units|, i requires 0 <= i < |units| => units[i])
  }

  /** The command line a kernel reads from its load options: all units before the final NUL. */
  function ReadOptions(options: seq<u8>): Option<seq<u8>> {
    var units := Units(options);
    if units == [] || units[|units| - 1] != 0 || !IsByteString(units) then None
    else Some(Narrow(units[..|units| - 1]))
  }

  /** The base command line and the key, as a reader of the load options recovers them. */
  function RecoverKey(options: seq<u8>): Option<(seq<u8>, seq<u8>)> {
    var cmd := ReadOptions(options);
    if cmd.None? then None
    else
      var split := SplitAtLast(cmd.value, |cmd.value|);
      if split.None? then None
      else
        var key := Decode(split.value.1);
        if key.None? then None else Some((split.value.0, key.value))
  }

  lemma ReadsWhatWasEncoded(cmd: seq<u8>)
    ensures ReadOptions(LoadOptions(cmd)) == Some(cmd)
  {
    DecodesToCommandLine(cmd);
    var units := Widen(cmd) + [0];
    assert units[..|units| - 1] == Widen(cmd);
    assert Narrow(Widen(cmd)) == cmd;
  }

  /** A Base64 tail holds no prefix, so the last prefix is the injected one. */
  lemma InjectedPrefixIsLast(head: seq<u8>, tail: seq<u8>)
    requires InAlphabet(tail)
    ensures var s := head + PREFIX + tail; SplitAtLast(s, |s|) == Some((head, tail))
  {
    var s := head + PREFIX + tail;
    assert s[|head|..|head| + 10] == PREFIX;
    assert OccursAt(s, |head|);
    forall k | |head| < k <= |s|
      ensures !OccursAt(s, k)
    {
      if k + 10 <= |s| {
        assert s[k] == if k < |head| + 10 then PREFIX[k - |head|] else tail[k - |head| - 10];
        assert s[k..k + 10][0] == s[k] != 0x20;
      }
    }
    var r := SplitAtLast(s, |s|);
    assert r.Some?;
    var k := |r.value.0|;
    assert s[k..k + 10] == PREFIX;
    assert OccursAt(s, k);
    assert !(k < |head|) && !(|head| < k);
    assert r.value.0 == s[..k] == head;
    assert r.value.1 == s[k + 10..] == tail;
  }

  /** The second strip, before encoding, removes nothing from a command line with a key. */
  lemma SecondStripKeeps(base: seq<u8>, key: seq<u8>)
    requires key != []
    ensures Strip(Injected(base, key)) == Injected(base, key)
  {
  }

  /** The whole way there and back: whatever the base command line, even one that already mentions a
      key, and whatever the key, the load options give back exactly the stripped base and the key. */
  lemma KeyComesBack(base: seq<u8>, key: seq<u8>)
    requires key != []
    ensures RecoverKey(LoadOptions(Strip(Injected(base, key)))) == Some((Strip(base), key))
  {
    SecondStripKeeps(base, key);
    ReadsWhatWasEncoded(Injected(base, key));
    EncodeInAlphabet(key);
    InjectedPrefixIsLast(Strip(base), Encode(key));
    DecodesIffEncodes(Encode(key), key);
  }

  /** Hence different keys, or different stripped bases, never give the same load options. */
  lemma InjectionIsInjective(base: seq<u8>, key: seq<u8>, base': seq<u8>, key': seq<u8>)
    requires key != [] && key' != []
    requires LoadOptions(Strip(Injected(base, key))) == LoadOptions(Strip(Injected(base', key')))
    ensures Strip(base) == Strip(base') && key == key'
  {
    KeyComesBack(base, key);
    KeyComesBack(base', key');
  }
}
