/** Base64 without padding: sections 3.2 and 4 of RFC 4648, written into a slice. */
module Base64 {
  import opened Wrappers
  import opened Bytes

  type u6 = x: int | 0 <= x < 64

  /** Table 1 of RFC 4648, as ASCII. */
  function Symbol(v: u6): u8 {
    if v < 26 then v + 65
    else if v < 52 then v + 71
    else if v < 62 then v - 4
    else if v == 62 then 43
    else 47
  }

  function Value(c: u8): Option<u6> {
    if 65 <= c < 91 then Some(c - 65)
    else if 97 <= c < 123 then Some(c - 71)
    else if 48 <= c < 58 then Some(c + 4)
    else if c == 43 then Some(62)
    else if c == 47 then Some(63)
    else None
  }

  lemma SymbolValue()
    ensures forall v: u6 :: Value(Symbol(v)) == Some(v)
    ensures forall c: u8 :: Value(c).Some? ==> Symbol(Value(c).value) == c
  {
  }

  /** The 6-bit groups of a byte string: four for every three bytes, and at the end two for one
      byte or three for two, the missing bits zero. */
  function Sextets(s: seq<u8>): seq<u6> {
    if |s| == 0 then []
    else if |s| == 1 then [s[0] / 4, s[0] % 4 * 16]
    else if |s| == 2 then [s[0] / 4, s[0] % 4 * 16 + s[1] / 16, s[1] % 16 * 4]
    else [s[0] / 4, s[0] % 4 * 16 + s[1] / 16, s[1] % 16 * 4 + s[2] / 64, s[2] % 64] + Sextets(s[3..])
  }

  // The three bytes that four 6-bit groups make up.
  function ByteA(v0: u6, v1: u6): u8 {
    4 * (v0 as int) + v1 as int / 16
  }

  function ByteB(v1: u6, v2: u6): u8 {
    16 * (v1 as int % 16) + v2 as int / 4
  }

  function ByteC(v2: u6, v3: u6): u8 {
    64 * (v2 as int % 4) + v3 as int
  }

  /** The bytes of 6-bit groups, if there are as many groups as some byte string has and the unused
      bits of the last one are zero. */
  function Join(v: seq<u6>): Option<seq<u8>> {
    if |v| == 0 then Some([])
    else if |v| == 1 then None
    else if |v| == 2 then
      if v[1] % 16 == 0 then Some([ByteA(v[0], v[1])]) else None
    else if |v| == 3 then
      if v[2] % 4 == 0 then Some([ByteA(v[0], v[1]), ByteB(v[1], v[2])]) else None
    else
      var rest := Join(v[4..]);
      if rest.None? then None
      else Some([ByteA(v[0], v[1]), ByteB(v[1], v[2]), ByteC(v[2], v[3])] + rest.value)
  }

  function Symbols(v: seq<u6>): (t: seq<u8>)
    ensures |t| == |v| && forall i :: 0 <= i < |v| ==> t[i] == Symbol(v[i])
  {
    seq(|v|, i requires 0 <= i < |v| => Symbol(v[i]))
  }

  predicate InAlphabet(t: seq<u8>) {
    forall i :: 0 <= i < |t| ==> Value(t[i]).Some?
  }

  function Values(t: seq<u8>): (v: seq<u6>)
    requires InAlphabet(t)
    ensures |v| == |t| && forall i :: 0 <= i < |t| ==> v[i] == Value(t[i]).value
  {
    seq(|t|, i requires 0 <= i < |t| => Value(t[i]).value)
  }

  function Encode(s: seq<u8>): seq<u8> {
    Symbols(Sextets(s))
  }

  function Decode(t: seq<u8>): Option<seq<u8>> {
    if InAlphabet(t) then Join(Values(t)) else None
  }

  /** Three bytes cut into four groups and joined again. */
  lemma Regroup(a: u8, b: u8, c: u8)
    ensures ByteA(a / 4, a % 4 * 16 + b / 16) == a
    ensures ByteB(a % 4 * 16 + b / 16, b % 16 * 4 + c / 64) == b
    ensures ByteC(b % 16 * 4 + c / 64, c % 64) == c
  {
  }

  /** Four groups joined into three bytes and cut again. */
  lemma RegroupBack(v0: u6, v1: u6, v2: u6, v3: u6)
    ensures var a, b, c := ByteA(v0, v1), ByteB(v1, v2), ByteC(v2, v3);
            && a / 4 == v0
            && a % 4 * 16 + b / 16 == v1
            && b % 16 * 4 + c / 64 == v2
            && c % 64 == v3
  {
  }

  lemma {:induction false} JoinSextets(s: seq<u8>)
    ensures Join(Sextets(s)) == Some(s)
  {
    var v := Sextets(s);
    if |s| == 1 {
      Regroup(s[0], 0, 0);
      assert Join(v).value == s;
    } else if |s| == 2 {
      Regroup(s[0], s[1], 0);
      assert Join(v).value == s;
    } else if |s| >= 3 {
      Regroup(s[0], s[1], s[2]);
      assert v[4..] == Sextets(s[3..]);
      JoinSextets(s[3..]);
      assert s == [s[0], s[1], s[2]] + s[3..];
    }
  }

  lemma {:induction false} SextetsJoin(v: seq<u6>)
    requires Join(v).Some?
    ensures Sextets(Join(v).value) == v
  {
    var s := Join(v).value;
    if |v| == 2 {
      RegroupBack(v[0], v[1], 0, 0);
    } else if |v| == 3 {
      RegroupBack(v[0], v[1], v[2], 0);
    } else if |v| >= 4 {
      RegroupBack(v[0], v[1], v[2], v[3]);
      assert s[3..] == Join(v[4..]).value;
      SextetsJoin(v[4..]);
      assert v == [v[0], v[1], v[2], v[3]] + v[4..];
    }
  }

  /** The decoder accepts exactly what the encoder writes, so no two keys share an encoding. */
  lemma DecodesIffEncodes(t: seq<u8>, s: seq<u8>)
    ensures Decode(t) == Some(s) <==> Encode(s) == t
  {
    SymbolValue();
    JoinSextets(s);
    assert Values(Encode(s)) == Sextets(s);
    if Decode(t) == Some(s) {
      SextetsJoin(Values(t));
      assert Symbols(Values(t)) == t;
    }
  }

  // ---------- Writing into a slice ----------

  /** `encoded_len`: four thirds, rounded up; zero if computing it would overflow. */
  function EncodedLen(n: nat): nat {
    if 4 * n >= USIZE_LIMIT then 0 else 4 * n / 3 + if 4 * n % 3 != 0 then 1 else 0
  }

  lemma {:induction false} EncodeLength(s: seq<u8>)
    ensures |Encode(s)| == (4 * |s| + 2) / 3
    ensures 4 * |s| < USIZE_LIMIT ==> |Encode(s)| == EncodedLen(|s|)
  {
    if |s| >= 3 {
      EncodeLength(s[3..]);
    }
  }

  lemma EncodeInAlphabet(s: seq<u8>)
    ensures InAlphabet(Encode(s))
  {
  }

  /** Three bytes to four symbols; the loop fills missing bytes with zero. */
  function Quad(a: u8, b: u8, c: u8): (r: seq<u8>)
    ensures |r| == 4
  {
    [Symbol(a / 4), Symbol(a % 4 * 16 + b / 16), Symbol(b % 16 * 4 + c / 64), Symbol(c % 64)]
  }

  /** The `m`-th full chunk of the encoding. */
  lemma {:induction false} ChunkAt(src: seq<u8>, m: nat)
    requires 3 * m + 3 <= |src|
    ensures 4 * m + 4 <= |Encode(src)|
    ensures Encode(src)[4 * m..4 * m + 4] == Quad(src[3 * m], src[3 * m + 1], src[3 * m + 2])
  {
    if m > 0 {
      ChunkAt(src[3..], m - 1);
      assert Encode(src)[4 * m..4 * m + 4] == Encode(src[3..])[4 * (m - 1)..4 * (m - 1) + 4];
    }
  }

  /** The rest of the encoding: the zero-filled last chunk, cut to the symbols still missing. */
  lemma {:induction false} RemainderAt(src: seq<u8>, m: nat)
    requires m == |src| / 3
    ensures 4 * m <= |Encode(src)| <= 4 * m + 3
    ensures Encode(src)[4 * m..] == LastQuad(src[3 * m..])[..|Encode(src)| - 4 * m]
  {
    if m > 0 {
      RemainderAt(src[3..], m - 1);
      assert src[3..][3 * (m - 1)..] == src[3 * m..];
      assert Encode(src)[4 * m..] == Encode(src[3..])[4 * (m - 1)..];
    } else {
      assert src[0..] == src;
    }
  }

  function LastQuad(rest: seq<u8>): (r: seq<u8>)
    ensures |r| == 4
  {
    Quad(if |rest| > 0 then rest[0] else 0, if |rest| > 1 then rest[1] else 0, 0)
  }

  /** The alphabet of RFC 4648, in its order. */
  lemma SymbolInAlphabet(v: u6)
    ensures v < 26 ==> Symbol(v) == 'A' as int + v
    ensures 26 <= v < 52 ==> Symbol(v) == 'a' as int + (v - 26)
    ensures 52 <= v < 62 ==> Symbol(v) == '0' as int + (v - 52)
    ensures v == 62 ==> Symbol(v) == '+' as int
    ensures v == 63 ==> Symbol(v) == '/' as int
  {
  }

  function ByteOrZero(s: seq<u8>, k: nat): u8 {
    if k < |s| then s[k] else 0
  }

  lemma GroupAt(s: seq<u8>, m: nat)
    requires 3 * m < |s|
    ensures |Encode(s)| == (4 * |s| + 2) / 3
    ensures var t, q := Encode(s), Quad(s[3 * m], ByteOrZero(s, 3 * m + 1), ByteOrZero(s, 3 * m + 2));
            && 4 * m + 1 < |t| && t[4 * m] == q[0] && t[4 * m + 1] == q[1]
            && (4 * m + 2 < |t| ==> t[4 * m + 2] == q[2])
            && (4 * m + 3 < |t| ==> t[4 * m + 3] == q[3])
  {
    var t := Encode(s);
    EncodeLength(s);
    if 3 * m + 3 <= |s| {
      ChunkAt(s, m);
      var chunk := t[4 * m..4 * m + 4];
      assert chunk[0] == t[4 * m] && chunk[1] == t[4 * m + 1] && chunk[2] == t[4 * m + 2] && chunk[3] == t[4 * m + 3];
    } else {
      RemainderAt(s, m);
      var rest := t[4 * m..];
      assert rest[0] == t[4 * m] && rest[1] == t[4 * m + 1];
      assert |rest| > 2 ==> rest[2] == t[4 * m + 2];
    }
  }

  /** And the bit order: bytes `3m` to `3m + 2`, zeros standing in for missing ones, make a 24-bit
      number, most significant byte first; its four base-64 digits, most significant first, are symbols
      `4m` to `4m + 3`, as far as the encoding goes. */
  lemma EncodesInWords(s: seq<u8>, m: nat) returns (v0: u6, v1: u6, v2: u6, v3: u6)
    requires 3 * m < |s|
    ensures |Encode(s)| == (4 * |s| + 2) / 3
    ensures 0x1_0000 * (s[3 * m] as int) + (if 3 * m + 1 < |s| then 0x100 * (s[3 * m + 1] as int) else 0)
              + (if 3 * m + 2 < |s| then s[3 * m + 2] as int else 0)
         == 0x4_0000 * (v0 as int) + 0x1000 * (v1 as int) + 0x40 * (v2 as int) + v3
    ensures var t := Encode(s);
            && 4 * m + 1 < |t| && t[4 * m] == Symbol(v0) && t[4 * m + 1] == Symbol(v1)
            && (4 * m + 2 < |t| ==> t[4 * m + 2] == Symbol(v2))
            && (4 * m + 3 < |t| ==> t[4 * m + 3] == Symbol(v3))
  {
    var a, b, c := s[3 * m], ByteOrZero(s, 3 * m + 1), ByteOrZero(s, 3 * m + 2);
    v0, v1, v2, v3 := a / 4, a % 4 * 16 + b / 16, b % 16 * 4 + c / 64, c % 64;
    GroupAt(s, m);
  }

  /** The encoder's loop: four symbols for every whole group of three bytes. */
  method EncodeChunks(src: seq<u8>, dst: array<u8>, start: nat)
    requires start + |Encode(src)| <= dst.Length && |src| / 3 * 4 <= |Encode(src)|
    modifies dst
    ensures dst[..] == Overwrite(old(dst[..]), start, Encode(src)[..|src| / 3 * 4])
  {
    ghost var t := Encode(src);
    for m := 0 to |src| / 3
      invariant forall k :: 0 <= k < dst.Length ==>
                  dst[k] == if start <= k < start + 4 * m then t[k - start] else old(dst[k])
    {
      ChunkAt(src, m);
      var quad := Quad(src[3 * m], src[3 * m + 1], src[3 * m + 2]);
      forall k | 0 <= k < 4 {
        dst[start + 4 * m + k] := quad[k];
      }
      assert forall k :: 0 <= k < 4 ==> quad[k] == t[4 * m..4 * m + 4][k] == t[4 * m + k];
    }
  }

  /** The last chunk, cut to `left` symbols. */
  method EncodeRemainder(rest: seq<u8>, dst: array<u8>, at: nat, left: nat)
    requires left <= 3 && at + left <= dst.Length
    modifies dst
    ensures dst[..] == Overwrite(old(dst[..]), at, LastQuad(rest)[..left])
  {
    var quad := LastQuad(rest);
    forall k | 0 <= k < left {
      dst[at + k] := quad[k];
    }
  }

  /** Writing the full chunks and then the last one is writing the encoding. */
  lemma OverwriteInTwo(d: seq<u8>, start: nat, src: seq<u8>)
    requires start + |Encode(src)| <= |d|
    ensures var t, cut := Encode(src), |src| / 3 * 4;
            && cut <= |t| <= cut + 3
            && Overwrite(Overwrite(d, start, t[..cut]), start + cut, LastQuad(src[|src| / 3 * 3..])[..|t| - cut])
            == Overwrite(d, start, t)
  {
    RemainderAt(src, |src| / 3);
    var t, cut := Encode(src), |src| / 3 * 4;
    assert LastQuad(src[|src| / 3 * 3..])[..|t| - cut] == t[cut..];
  }

  /** The slice of `dst` from `start` on receives the encoding, and nothing else changes; it fails
      only if the slice is too short or the length overflows. */
  method EncodeInto(src: seq<u8>, dst: array<u8>, start: nat) returns (ok: bool)
    requires start <= dst.Length
    modifies dst
    ensures ok <==> 4 * |src| < USIZE_LIMIT && EncodedLen(|src|) <= dst.Length - start
    ensures !ok ==> dst[..] == old(dst[..])
    ensures ok ==> |Encode(src)| <= dst.Length - start
    ensures ok ==> dst[..] == Overwrite(old(dst[..]), start, Encode(src))
  {
    if 4 * |src| >= USIZE_LIMIT {
      return false;
    }
    var elen := EncodedLen(|src|);
    if elen > dst.Length - start {
      return false;
    }
    EncodeLength(src);
    OverwriteInTwo(dst[..], start, src);
    EncodeChunks(src, dst, start);
    EncodeRemainder(src[|src| / 3 * 3..], dst, start + |src| / 3 * 4, elen - |src| / 3 * 4);
    return true;
  }
}
