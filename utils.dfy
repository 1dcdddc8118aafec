/** utils.go: the ZigZag transform, the string/bytes classifier, and base-128
    varints. */
module Utils {
  import opened Numerics
  import opened Wrappers
  import opened Structs
  import opened ByteBuffer
  import Utf8

  // ---------------------------------------------------------------- ZigZag

  /** `ZigZag.EncodeInt32(n int)`: `uint64((uint32(n) << 1) ^ uint32(n >> 31))`. The
      shift of a `uint32` drops bit 31, and `n >> 31` is an arithmetic shift of a
      64-bit `int`, that is, a floor division. */
  function EncodeInt32(n: int): uint64
    requires IsInt64(n)
  {
    var shifted := (2 * (n % 0x1_0000_0000)) % 0x1_0000_0000;
    var sign := (n / 0x8000_0000) % 0x1_0000_0000;
    PowersOfTwo();
    Xor(shifted, sign, 32)
  }

  /** `ZigZag.DecodeSint32(n uint64)`: `int((n >> 1) ^ -(n & 1))`, computed on
      `uint64` and read back as a 64-bit `int` (no truncation to 32 bits). */
  function DecodeSint32(n: uint64): int
  {
    PowersOfTwo();
    Signed64(Xor(n / 2, Uint64Of(-(n % 2)), 64))
  }

  /** On the `int32` range, ZigZag maps `n >= 0` to `2n` and `n < 0` to `-2n - 1`. */
  lemma EncodeInt32Values(n: int)
    requires IsInt32(n)
    ensures EncodeInt32(n) == if n >= 0 then 2 * n else -2 * n - 1
  {
    PowersOfTwo();
    var shifted := (2 * (n % 0x1_0000_0000)) % 0x1_0000_0000;
    if n >= 0 {
      assert n % 0x1_0000_0000 == n;
      assert shifted == 2 * n;
      assert n / 0x8000_0000 == 0;
      XorZero(shifted, 32);
    } else {
      assert n % 0x1_0000_0000 == n + 0x1_0000_0000;
      assert shifted == 2 * n + 0x1_0000_0000;
      assert n / 0x8000_0000 == -1;
      assert (n / 0x8000_0000) % 0x1_0000_0000 == Pow(2, 32) - 1;
      XorOnes(shifted, 32);
    }
  }

  /** Decoding halves even values and maps odd `2k + 1` to `-k - 1`. */
  lemma DecodeSint32Values(n: uint64)
    ensures DecodeSint32(n) == if n % 2 == 0 then n / 2 else -(n / 2) - 1
  {
    PowersOfTwo();
    if n % 2 == 0 {
      XorZero(n / 2, 64);
    } else {
      XorOnes(n / 2, 64);
    }
  }

  /** ZigZag round trip on the `int32` range. */
  lemma ZigZagRoundTrip(n: int)
    requires IsInt32(n)
    ensures DecodeSint32(EncodeInt32(n)) == n
  {
    var e := EncodeInt32(n);
    EncodeInt32Values(n);
    DecodeSint32Values(e);
    if n >= 0 {
      assert e == 2 * n;
      assert e % 2 == 0 && e / 2 == n;
    } else {
      assert e == -2 * n - 1;
      assert e % 2 == 1 && e / 2 == -n - 1;
    }
  }

  // ---------------------------------------------------------- stringOrBytes

  /** `stringOrBytes`: empty or well-formed UTF-8 input becomes a string with the
      same bytes; anything else is returned as the byte slice itself. */
  function StringOrBytes(data: seq<byte>): (r: Item)
    ensures r == StringItem(data) <==> |data| == 0 || Utf8.ValidUtf8(data)
    ensures r != StringItem(data) ==> r == BytesItem(data)
  {
    if |data| == 0 then StringItem(data)
    else if Utf8.ValidUtf8(data) then StringItem(data)
    else BytesItem(data)
  }

  // --------------------------------------------------------- encodeVarint

  /** The bytes `encodeVarint` writes for `v`: seven bits per byte, least significant
      group first, bit 0x80 set on every byte that is followed by another. */
  function VarintBytes(v: nat): seq<byte>
    decreases v
  {
    if v == 0 then []
    else [v % 128 + (if v / 128 > 0 then 0x80 else 0)] + VarintBytes(v / 128)
  }

  /** `encodeVarint(value uint64)`. */
  method EncodeVarint(value: uint64) returns (out: seq<byte>)
    ensures out == VarintBytes(value)
    ensures out == [] <==> value == 0
  {
    var v: nat := value;
    var buffer: seq<byte> := [];
    while v > 0
      invariant buffer + VarintBytes(v) == VarintBytes(value)
      invariant buffer == [] <==> v == value
      invariant v <= value
    {
      var sevenBits := v % 128;  // value & 0x7f
      v := v / 128;              // value >>= 7
      if v > 0 {
        sevenBits := sevenBits + 0x80;  // sevenBits |= 0x80
      }
      buffer := buffer + [sevenBits];
    }
    out := buffer;
  }

  /** Every byte but the last carries the continuation bit; the last does not. */
  lemma {:induction false} VarintContinuation(v: nat)
    requires v > 0
    ensures |VarintBytes(v)| >= 1
    ensures forall i :: 0 <= i < |VarintBytes(v)| - 1 ==> VarintBytes(v)[i] >= 0x80
    ensures VarintBytes(v)[|VarintBytes(v)| - 1] < 0x80
  {
    if v / 128 > 0 {
      VarintContinuation(v / 128);
    }
  }

  /** A value below `128^k` takes at most `k` bytes. */
  lemma {:induction false} VarintLengthBound(v: nat, k: nat)
    requires v < Pow(128, k)
    ensures |VarintBytes(v)| <= k
  {
    if v > 0 {
      VarintLengthBound(v / 128, k - 1);
    }
  }

  /** A `uint64` takes at most ten bytes. */
  lemma VarintAtMostTenBytes(v: uint64)
    ensures |VarintBytes(v)| <= 10
  {
    PowersOfTwo();
    PowAdd(2, 64, 6);
    PowPow(7, 10);
    VarintLengthBound(v, 10);
  }

  lemma {:induction false} PowPow(m: nat, k: nat)
    ensures Pow(2, m * k) == Pow(Pow(2, m), k)
  {
    if k > 0 {
      calc {
        Pow(2, m * k);
        { assert m * k == m + m * (k - 1); }
        Pow(2, m + m * (k - 1));
        { PowAdd(2, m, m * (k - 1)); }
        Pow(2, m) * Pow(2, m * (k - 1));
        { PowPow(m, k - 1); }
        Pow(2, m) * Pow(Pow(2, m), k - 1);
      }
    }
  }

  // --------------------------------------------------------- decodeVarint

  /** Σ (s[i] & 0x7f) · 128^i, the value `decodeVarint` accumulates over `s`. */
  function Groups(s: seq<byte>): nat
  {
    if s == [] then 0
    else Groups(s[..|s| - 1]) + (s[|s| - 1] % 128) * Pow(128, |s| - 1)
  }

  /** The index of the first byte below 0x80, or `|s|` when there is none. */
  function TerminatorIndex(s: seq<byte>): (k: nat)
    ensures k <= |s|
    ensures k < |s| ==> s[k] < 0x80
    ensures forall i :: 0 <= i < k ==> s[i] >= 0x80
  {
    if s == [] then 0
    else if s[0] < 0x80 then 0
    else 1 + TerminatorIndex(s[1..])
  }

  /** What `decodeVarint` returns on a buffer holding `s`: `None` for the EOF error,
      otherwise the value and `bytesRead`. */
  function ReadVarint(s: seq<byte>): (r: Option<(nat, nat)>)
    ensures r.Some? ==> 1 <= r.value.1 <= |s|
  {
    var k := TerminatorIndex(s);
    if k == |s| then None else Some((Groups(s[..k + 1]), k + 1))
  }

  /** A varint fails to read exactly when no byte is below 0x80. Otherwise it ends
      at the first such byte, and its value is the sum of the groups up to there,
      with no 64-bit clamp. */
  lemma ReadVarintMeaning(s: seq<byte>)
    ensures var r := ReadVarint(s);
      (r.None? <==> forall i :: 0 <= i < |s| ==> s[i] >= 0x80) &&
      (r.Some? ==> 1 <= r.value.1 <= |s| && s[r.value.1 - 1] < 0x80) &&
      (r.Some? ==> forall i :: 0 <= i < r.value.1 - 1 ==> s[i] >= 0x80) &&
      (r.Some? ==> r.value.0 == Groups(s[..r.value.1]))
  {
  }

  lemma {:induction false} GroupsSnoc(s: seq<byte>, b: byte)
    ensures Groups(s + [b]) == Groups(s) + (b % 128) * Pow(128, |s|)
  {
    assert (s + [b])[..|s|] == s;
  }

  /** Groups read from the front: the first byte is the least significant group. */
  lemma {:induction false} GroupsCons(b: byte, t: seq<byte>)
    ensures Groups([b] + t) == b % 128 + 128 * Groups(t)
    decreases |t|
  {
    if t == [] {
      assert [b] + t == [b];
      assert [b][..0] == [];
    } else {
      var n := |t|;
      var u, last := t[..n - 1], t[n - 1];
      assert t == u + [last];
      assert [b] + t == ([b] + u) + [last];
      calc {
        Groups([b] + t);
        { GroupsSnoc([b] + u, last); }
        Groups([b] + u) + (last % 128) * Pow(128, n);
        { GroupsCons(b, u); }
        b % 128 + 128 * Groups(u) + (last % 128) * Pow(128, n);
        { assert Pow(128, n) == 128 * Pow(128, n - 1); }
        b % 128 + 128 * (Groups(u) + (last % 128) * Pow(128, n - 1));
        { GroupsSnoc(u, last); }
        b % 128 + 128 * Groups(t);
      }
    }
  }

  /** The groups of `encodeVarint(v)` add up to `v`. */
  lemma {:induction false} GroupsOfVarint(v: nat)
    ensures Groups(VarintBytes(v)) == v
  {
    if v > 0 {
      var b: byte := v % 128 + (if v / 128 > 0 then 0x80 else 0);
      GroupsCons(b, VarintBytes(v / 128));
      GroupsOfVarint(v / 128);
    }
  }

  /** Varint round trip: `decodeVarint` on `encodeVarint(v)` followed by anything
      returns `v`, reads exactly the encoding, and leaves `rest` unread. */
  lemma VarintRoundTrip(v: nat, rest: seq<byte>)
    requires v > 0
    ensures ReadVarint(VarintBytes(v) + rest) == Some((v, |VarintBytes(v)|))
  {
    var e := VarintBytes(v);
    VarintContinuation(v);
    var s := e + rest;
    var k := TerminatorIndex(s);
    assert s[|e| - 1] < 0x80;
    assert k == |e| - 1;
    assert s[..k + 1] == e;
    GroupsOfVarint(v);
  }

  /** `decodeVarint(buffer)`: reads bytes until one below 0x80, adding each byte's
      low seven bits times `2^shift`. At EOF it fails, having drained the buffer. */
  method DecodeVarint(buffer: Buffer) returns (r: Option<(nat, nat)>)
    requires buffer.Valid()
    modifies buffer
    ensures buffer.Valid()
    ensures r == ReadVarint(old(buffer.Bytes()))
    ensures r.Some? ==> buffer.Bytes() == old(buffer.Bytes())[r.value.1..]
    ensures r.None? ==> buffer.Bytes() == []
  {
    ghost var input := buffer.Bytes();
    var res: nat := 0;
    var shift: nat := 0;
    var bytesRead: nat := 0;
    while true
      invariant buffer.Valid()
      invariant bytesRead <= |input| && buffer.Bytes() == input[bytesRead..]
      invariant shift == 7 * bytesRead
      invariant res == Groups(input[..bytesRead])
      invariant forall i :: 0 <= i < bytesRead ==> input[i] >= 0x80
      decreases |input| - bytesRead
    {
      var byteRead, ok := buffer.ReadByte();
      if !ok {
        return None;
      }
      assert byteRead == input[bytesRead];
      assert input[..bytesRead + 1] == input[..bytesRead] + [byteRead];
      GroupsSnoc(input[..bytesRead], byteRead);
      bytesRead := bytesRead + 1;
      var multiplier := Pow(2, shift);
      PowPow(7, bytesRead - 1);
      var thisByteValue := (byteRead % 128) * multiplier;
      res := res + thisByteValue;
      shift := shift + 7;
      if byteRead < 0x80 {
        assert TerminatorIndex(input) == bytesRead - 1;
        return Some((res, bytesRead));
      }
    }
  }
}
