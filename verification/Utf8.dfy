/** UTF-8 (section 3 of RFC 3629): the textpad's indexing loops and the text runtime's strict decoder. */
module Utf8 {
  import opened Wrappers
  import opened Bytes

  predicate IsScalar(n: int) {
    0 <= n < 0xD800 || 0xE000 <= n <= 0x10FFFF
  }

  type Codepoint = n: U32 | IsScalar(n)

  type Text = seq<Codepoint>

  // ---------------------------------------------------------------- encoding

  /** The bytes for any 32-bit number: above 0x1FFFFF the leading byte loses bits. */
  function EncodeOne(n: U32): (b: seq<Byte>)
    ensures 1 <= |b| <= 4
  {
    if n <= 0x7F then
      [n]
    else if n <= 0x7FF then
      [0xC0 + n / 0x40, 0x80 + n % 0x40]
    else if n <= 0xFFFF then
      [0xE0 + n / 0x1000, 0x80 + n / 0x40 % 0x40, 0x80 + n % 0x40]
    else
      [0xF0 + n / 0x4_0000 % 0x10, 0x80 + n / 0x1000 % 0x40, 0x80 + n / 0x40 % 0x40, 0x80 + n % 0x40]
  }

  function Encode(t: Text): seq<Byte> {
    if t == [] then [] else EncodeOne(t[0]) + Encode(t[1..])
  }

  predicate IsTrail(b: Byte) {
    b / 0x40 == 2
  }

  lemma EncodeOneShape(n: U32)
    ensures !IsTrail(EncodeOne(n)[0])
    ensures forall i :: 0 < i < |EncodeOne(n)| ==> IsTrail(EncodeOne(n)[i])
  {
  }

  lemma {:induction false} EncodeConcat(s: Text, t: Text)
    ensures Encode(s + t) == Encode(s) + Encode(t)
  {
    if s == [] {
      assert s + t == t;
    } else {
      assert (s + t)[1..] == s[1..] + t;
      EncodeConcat(s[1..], t);
    }
  }

  lemma EncodeSplit(t: Text, k: nat)
    requires k <= |t|
    ensures Encode(t) == Encode(t[..k]) + Encode(t[k..])
  {
    assert t == t[..k] + t[k..];
    EncodeConcat(t[..k], t[k..]);
  }

  // ---------------------------------------------------------------- strict decoding

  datatype Decoded = Decoded(codepoint: Codepoint, width: nat)

  function Two(b0: int, b1: int): U32 {
    b0 % 0x20 * 0x40 + b1 % 0x40
  }

  function Three(b0: int, b1: int, b2: int): U32 {
    b0 % 0x10 * 0x1000 + b1 % 0x40 * 0x40 + b2 % 0x40
  }

  function Four(b0: int, b1: int, b2: int, b3: int): U32 {
    b0 % 8 * 0x4_0000 + b1 % 0x40 * 0x1000 + b2 % 0x40 * 0x40 + b3 % 0x40
  }

  /** The runtime's decoder: short, overlong, surrogate and out-of-range forms are refused. */
  function DecodeOne(b: seq<Byte>): (r: Option<Decoded>)
    ensures r.Some? ==> 0 < r.value.width <= |b|
  {
    if b == [] then None
    else if b[0] < 0x80 then Some(Decoded(b[0], 1))
    else if b[0] / 0x20 == 6 then
      if |b| < 2 || !IsTrail(b[1]) then None
      else
        var n := Two(b[0], b[1]);
        if n < 0x80 then None else Some(Decoded(n, 2))
    else if b[0] / 0x10 == 14 then
      if |b| < 3 || !IsTrail(b[1]) || !IsTrail(b[2]) then None
      else
        var n := Three(b[0], b[1], b[2]);
        if n < 0x800 || 0xD800 <= n <= 0xDFFF then None else Some(Decoded(n, 3))
    else if b[0] / 8 == 30 then
      if |b| < 4 || !IsTrail(b[1]) || !IsTrail(b[2]) || !IsTrail(b[3]) then None
      else
        var n := Four(b[0], b[1], b[2], b[3]);
        if n < 0x1_0000 || n > 0x10_FFFF then None else Some(Decoded(n, 4))
    else None
  }

  function Decode(b: seq<Byte>): Option<Text>
    decreases |b|
  {
    if b == [] then Some([])
    else
      match DecodeOne(b)
      case None => None
      case Some(d) =>
        After([d.codepoint], Decode(b[d.width..]))
  }

  function After(front: Text, rest: Option<Text>): Option<Text> {
    match rest
    case None => None
    case Some(t) => Some(front + t)
  }

  lemma AfterConcat(s: Text, t: Text, rest: Option<Text>)
    ensures After([], rest) == rest
    ensures After(s, Some([])) == Some(s)
    ensures After(s, After(t, rest)) == After(s + t, rest)
  {
    match rest
    case None =>
    case Some(u) => assert [] + u == u && s + [] == s && s + (t + u) == s + t + u;
  }

  method DecodeCodepoints(utf8: seq<Byte>) returns (r: Option<Text>)
    ensures r == Decode(utf8)
  {
    var codepoints: Text, offset := [], 0;
    assert utf8[0..] == utf8;
    AfterConcat([], [], Decode(utf8));
    while offset < |utf8|
      invariant offset <= |utf8|
      invariant Decode(utf8) == After(codepoints, Decode(utf8[offset..]))
    {
      ghost var left := utf8[offset..];
      var one := DecodeOne(utf8[offset..]);
      if one.None? {
        return None;
      }
      AfterConcat(codepoints, [one.value.codepoint], Decode(left[one.value.width..]));
      assert left[one.value.width..] == utf8[offset + one.value.width..];
      codepoints, offset := codepoints + [one.value.codepoint], offset + one.value.width;
    }
    AfterConcat(codepoints, [], Some([]));
    return Some(codepoints);
  }

  /** A number is determined by its top part and its three lowest base-64 digits. */
  lemma Digits(n: nat, h: nat, x: nat, y: nat, z: nat)
    requires x < 0x40 && y < 0x40 && z < 0x40
    ensures n == h * 0x4_0000 + x * 0x1000 + y * 0x40 + z <==>
            n / 0x4_0000 == h && n / 0x1000 % 0x40 == x && n / 0x40 % 0x40 == y && n % 0x40 == z
  {
    var p := n / 0x40;
    var q := p / 0x40;
    assert n / 0x1000 == q;
    assert n / 0x4_0000 == q / 0x40;
    assert q == h * 0x40 + x <==> q / 0x40 == h && q % 0x40 == x;
    assert p == q * 0x40 + p % 0x40;
    assert n == p * 0x40 + n % 0x40;
  }

  lemma DigitsOf(n: nat)
    ensures n == n / 0x4_0000 * 0x4_0000 + n / 0x1000 % 0x40 * 0x1000 + n / 0x40 % 0x40 * 0x40 + n % 0x40
  {
    Digits(n, n / 0x4_0000, n / 0x1000 % 0x40, n / 0x40 % 0x40, n % 0x40);
  }

  /** What an encoding of `n` tells a decoder, whether or not `n` is a code point. */
  predicate HasFields(n: U32, e: seq<Byte>) {
    && |e| == (if n <= 0x7F then 1 else if n <= 0x7FF then 2 else if n <= 0xFFFF then 3 else 4)
    && !IsTrail(e[0]) && (forall i :: 0 < i < |e| ==> IsTrail(e[i]))
    && (|e| == 1 ==> e[0] == n)
    && (|e| == 2 ==> e[0] / 0x20 == 6 && Two(e[0], e[1]) == n)
    && (|e| == 3 ==> e[0] / 0x10 == 14 && Three(e[0], e[1], e[2]) == n)
    && (|e| == 4 ==> e[0] / 0x10 == 15 && Four(e[0], e[1], e[2], e[3]) == n % 0x20_0000)
    && (|e| == 4 ==> (e[0] / 8 == 30 <==> n % 0x40_0000 < 0x20_0000))
  }

  lemma TopBits(n: nat, h: nat, r: nat)
    requires n == h * 0x4_0000 + r && r < 0x4_0000
    ensures n % 0x40_0000 == h % 0x10 * 0x4_0000 + r && n % 0x20_0000 == h % 8 * 0x4_0000 + r
  {
    Below22(n, h / 0x10, h % 0x10 * 0x4_0000 + r);
    Below21(n, h / 8, h % 8 * 0x4_0000 + r);
  }

  lemma Below22(n: nat, q: nat, r: nat)
    requires n == q * 0x40_0000 + r && r < 0x40_0000
    ensures n % 0x40_0000 == r
  {
  }

  lemma Below21(n: nat, q: nat, r: nat)
    requires n == q * 0x20_0000 + r && r < 0x20_0000
    ensures n % 0x20_0000 == r
  {
  }

  lemma FourFields(n: U32, e0: Byte, h: nat, x: nat, y: nat, z: nat)
    requires e0 == 0xF0 + h % 0x10
    requires x < 0x40 && y < 0x40 && z < 0x40 && n == h * 0x4_0000 + x * 0x1000 + y * 0x40 + z
    ensures e0 / 0x10 == 15 && (e0 / 8 == 30 <==> n % 0x40_0000 < 0x20_0000)
    ensures Four(e0, 0x80 + x, 0x80 + y, 0x80 + z) == n % 0x20_0000
  {
    var h16 := h % 0x10;
    assert h16 % 8 == h % 8;
    TopBits(n, h, x * 0x1000 + y * 0x40 + z);
    FieldValues(e0, h16, x, y, z);
  }

  lemma FieldValues(e0: Byte, h: nat, x: nat, y: nat, z: nat)
    requires e0 == 0xF0 + h && h < 0x10 && x < 0x40 && y < 0x40 && z < 0x40
    ensures e0 / 0x10 == 15 && (e0 / 8 == 30 <==> h < 8)
    ensures Four(e0, 0x80 + x, 0x80 + y, 0x80 + z) == h % 8 * 0x4_0000 + x * 0x1000 + y * 0x40 + z
  {
  }

  lemma EncodeOneHasFields(n: U32)
    ensures HasFields(n, EncodeOne(n))
  {
    EncodeOneShape(n);
    if n > 0xFFFF {
      DigitsOf(n);
      FourFields(n, EncodeOne(n)[0], n / 0x4_0000, n / 0x1000 % 0x40, n / 0x40 % 0x40, n % 0x40);
    } else {
      DigitsOf(n);
    }
  }

  /** Decoding the encoding of any 32-bit number, valid or not. */
  lemma DecodeOneFromFields(n: U32, e: seq<Byte>, b: seq<Byte>)
    requires HasFields(n, e) && |e| <= |b| && e == b[..|e|]
    ensures DecodeOne(b) == if Stored(n).Some? then Some(Decoded(Stored(n).value[0], |e|)) else None
    ensures IsScalar(n) ==> Stored(n) == Some([n]) && Peek(b) == n
  {
    assert forall i :: 0 <= i < |e| ==> b[i] == e[i];
    if |e| == 2 {
      assert b[0] / 0x20 == 6;
    } else if |e| == 3 {
      assert b[0] / 0x10 == 14 && b[0] / 0x20 == 7;
    } else if |e| == 4 {
      assert b[0] / 0x10 == 15 && b[0] / 0x20 == 7;
      var four := Four(e[0], e[1], e[2], e[3]);
      LowBits(n, four);
    }
  }

  lemma LowBits(n: nat, low: nat)
    requires low == n % 0x20_0000
    ensures n % 0x40_0000 < 0x20_0000 ==> n % 0x40_0000 == low
    ensures n < 0x20_0000 ==> n % 0x40_0000 == n
  {
    var q, m := n / 0x40_0000, n % 0x40_0000;
    assert n == 2 * q * 0x20_0000 + m;
  }

  lemma DecodeOneInvertsEncodeOne(n: Codepoint, suffix: seq<Byte>)
    ensures DecodeOne(EncodeOne(n) + suffix) == Some(Decoded(n, |EncodeOne(n)|))
  {
    EncodeOneHasFields(n);
    DecodeOneFromFields(n, EncodeOne(n), EncodeOne(n) + suffix);
  }

  lemma EncodeOneInvertsDecodeOne(b: seq<Byte>)
    requires DecodeOne(b).Some?
    ensures var d := DecodeOne(b).value; 0 < d.width <= |b| && b[..d.width] == EncodeOne(d.codepoint)
  {
    var d := DecodeOne(b).value;
    if d.width == 2 {
      Digits(d.codepoint, 0, 0, b[0] % 0x20, b[1] % 0x40);
    } else if d.width == 3 {
      ThreeInvert(b);
    } else if d.width == 4 {
      FourInvert(b);
    }
  }

  lemma ThreeInvert(b: seq<Byte>)
    requires DecodeOne(b).Some? && DecodeOne(b).value.width == 3
    ensures 3 <= |b| && b[..3] == EncodeOne(DecodeOne(b).value.codepoint)
  {
    Digits(DecodeOne(b).value.codepoint, 0, b[0] % 0x10, b[1] % 0x40, b[2] % 0x40);
  }

  lemma FourInvert(b: seq<Byte>)
    requires DecodeOne(b).Some? && DecodeOne(b).value.width == 4
    ensures 4 <= |b| && b[..4] == EncodeOne(DecodeOne(b).value.codepoint)
  {
    Digits(DecodeOne(b).value.codepoint, b[0] % 8, b[1] % 0x40, b[2] % 0x40, b[3] % 0x40);
  }

  lemma {:induction false} EncodingDecodes(t: Text)
    ensures Decode(Encode(t)) == Some(t)
  {
    if t != [] {
      var rest := Encode(t[1..]);
      EncodingDecodes(t[1..]);
      DecodeOneInvertsEncodeOne(t[0], rest);
      DecodeCons(Encode(t), Decoded(t[0], |EncodeOne(t[0])|), rest);
      assert [t[0]] + t[1..] == t;
    }
  }

  lemma DecodeCons(b: seq<Byte>, d: Decoded, rest: seq<Byte>)
    requires DecodeOne(b) == Some(d) && b != [] && rest == b[d.width..]
    ensures Decode(b) == After([d.codepoint], Decode(rest))
  {
  }

  lemma {:induction false} DecodedIsEncoding(b: seq<Byte>)
    ensures Decode(b).Some? ==> b == Encode(Decode(b).value)
    decreases |b|
  {
    if b != [] && Decode(b).Some? {
      var d, tail := Unread(b);
      DecodedIsEncoding(tail);
      EncodeCons(d.codepoint, EncodeOne(d.codepoint), Decode(tail).value);
    }
  }

  /** The first code point of accepted bytes, and the bytes behind it. */
  lemma Unread(b: seq<Byte>) returns (d: Decoded, tail: seq<Byte>)
    requires b != [] && Decode(b).Some?
    ensures |tail| < |b| && b == EncodeOne(d.codepoint) + tail
    ensures Decode(tail).Some? && Decode(b) == Some([d.codepoint] + Decode(tail).value)
  {
    d := DecodeOne(b).value;
    tail := b[d.width..];
    EncodeOneInvertsDecodeOne(b);
    DecodeCons(b, d, tail);
    assert b == b[..d.width] + tail;
  }

  lemma EncodeCons(n: Codepoint, e: seq<Byte>, t: Text)
    requires e == EncodeOne(n)
    ensures Encode([n] + t) == e + Encode(t)
  {
    assert ([n] + t)[1..] == t;
  }

  /** The runtime accepts exactly the encodings of code point sequences, and each is read one way. */
  lemma DecodesExactlyEncodings(b: seq<Byte>, t: Text)
    ensures Decode(b) == Some(t) <==> b == Encode(t)
  {
    EncodingDecodes(t);
    DecodedIsEncoding(b);
  }

  /** What the runtime stores when one 32-bit number is encoded and inserted. */
  function Stored(n: U32): Option<Text> {
    if n <= 0xFFFF then (if IsScalar(n) then Some([n]) else None)
    else if 0x1_0000 <= n % 0x40_0000 <= 0x10_FFFF then Some([n % 0x40_0000])
    else None
  }

  lemma StoredIsDecoded(n: U32)
    ensures Decode(EncodeOne(n)) == Stored(n)
  {
    EncodeOneHasFields(n);
    DecodeFromFields(n, EncodeOne(n));
  }

  lemma StoredIsSame(n: U32)
    ensures Stored(n) == Some([n]) <==> IsScalar(n)
  {
  }

  lemma DecodeFromFields(n: U32, e: seq<Byte>)
    requires HasFields(n, e)
    ensures Decode(e) == Stored(n)
  {
    DecodeOneFromFields(n, e, e);
    assert e[|e|..] == [];
    assert Stored(n).Some? ==> [Stored(n).value[0]] + [] == Stored(n).value;
  }

  // ---------------------------------------------------------------- the indexing loops

  /** The number of bytes that start a code point. */
  function Starts(b: seq<Byte>): nat {
    if b == [] then 0 else (if IsTrail(b[0]) then 0 else 1) + Starts(b[1..])
  }

  /** The index of the starting byte that has `k` starting bytes before it, or the length. */
  function StartOf(b: seq<Byte>, k: nat): (i: nat)
    ensures i <= |b|
  {
    if b == [] then 0
    else if IsTrail(b[0]) then 1 + StartOf(b[1..], k)
    else if k == 0 then 0
    else 1 + StartOf(b[1..], k - 1)
  }

  function OffsetOf(b: seq<Byte>, k: nat): (i: nat)
    ensures i <= |b|
  {
    if k == 0 then 0 else StartOf(b, k)
  }

  /** The lenient reading of the bytes at a code point's start; it never fails. */
  function Peek(b: seq<Byte>): U32 {
    if b == [] then 0
    else if b[0] < 0x80 then b[0]
    else if b[0] / 0x20 == 6 && |b| > 1 then Two(b[0], b[1])
    else if b[0] / 0x10 == 14 && |b| > 2 then Three(b[0], b[1], b[2])
    else if b[0] / 8 == 30 && |b| > 3 then Four(b[0], b[1], b[2], b[3])
    else b[0]
  }

  function At(b: seq<Byte>, k: nat): U32 {
    Peek(b[OffsetOf(b, k)..])
  }

  lemma {:induction false} StartsConcat(a: seq<Byte>, b: seq<Byte>)
    ensures Starts(a + b) == Starts(a) + Starts(b)
  {
    if a == [] {
      assert a + b == b;
    } else {
      assert (a + b)[1..] == a[1..] + b;
      StartsConcat(a[1..], b);
    }
  }

  method CountCodepoints(data: seq<Byte>) returns (count: nat)
    ensures count == Starts(data)
  {
    count := 0;
    for i := 0 to |data|
      invariant Starts(data) == count + Starts(data[i..])
    {
      if !IsTrail(data[i]) {
        count := count + 1;
      }
      assert data[i..][1..] == data[i + 1..];
    }
  }

  method CodepointToByte(data: seq<Byte>, offset: nat) returns (index: nat)
    ensures index == OffsetOf(data, offset)
  {
    if offset == 0 {
      return 0;
    }
    var count := 0;
    for i := 0 to |data|
      invariant count <= offset
      invariant StartOf(data, offset) == i + StartOf(data[i..], offset - count)
    {
      assert data[i..][1..] == data[i + 1..];
      if !IsTrail(data[i]) {
        if count == offset {
          return i;
        }
        count := count + 1;
      }
    }
    return |data|;
  }

  method DecodeCodepointAt(data: seq<Byte>, offset: nat) returns (codepoint: U32)
    ensures codepoint == At(data, offset)
  {
    var i := CodepointToByte(data, offset);
    if i >= |data| {
      return 0;
    }
    var c0 := data[i];
    if c0 < 0x80 {
      return c0;
    }
    if c0 / 0x20 == 6 && i + 1 < |data| {
      return Two(c0, data[i + 1]);
    }
    if c0 / 0x10 == 14 && i + 2 < |data| {
      return Three(c0, data[i + 1], data[i + 2]);
    }
    if c0 / 8 == 30 && i + 3 < |data| {
      return Four(c0, data[i + 1], data[i + 2], data[i + 3]);
    }
    return c0;
  }

  // ---------------------------------------------------------------- indexing over valid text

  lemma {:induction false} TrailsOnly(b: seq<Byte>, rest: seq<Byte>, k: nat)
    requires forall i :: 0 <= i < |b| ==> IsTrail(b[i])
    ensures Starts(b) == 0
    ensures StartOf(b + rest, k) == |b| + StartOf(rest, k)
  {
    if b == [] {
      assert b + rest == rest;
    } else {
      assert (b + rest)[1..] == b[1..] + rest;
      TrailsOnly(b[1..], rest, k);
    }
  }

  lemma OneCodepoint(n: U32, rest: seq<Byte>)
    ensures Starts(EncodeOne(n)) == 1
    ensures StartOf(EncodeOne(n) + rest, 0) == 0
    ensures forall k: nat :: k > 0 ==> StartOf(EncodeOne(n) + rest, k) == |EncodeOne(n)| + StartOf(rest, k - 1)
  {
    EncodeOneShape(n);
    var e := EncodeOne(n);
    assert (e + rest)[1..] == e[1..] + rest;
    TrailsOnly(e[1..], rest, 0);
    forall k: nat | k > 0 ensures StartOf(e + rest, k) == |e| + StartOf(rest, k - 1) {
      TrailsOnly(e[1..], rest, k - 1);
    }
  }

  lemma {:induction false} CountsCodepoints(t: Text)
    ensures Starts(Encode(t)) == |t|
  {
    if t != [] {
      OneCodepoint(t[0], []);
      StartsConcat(EncodeOne(t[0]), Encode(t[1..]));
      CountsCodepoints(t[1..]);
    }
  }

  /** The offset loop finds the length of the first `k` code points; beyond the end, of them all. */
  lemma {:induction false} FindsOffsets(t: Text, k: nat)
    ensures k <= |t| ==> OffsetOf(Encode(t), k) == StartOf(Encode(t), k) == |Encode(t[..k])|
    ensures k >= |t| > 0 ==> OffsetOf(Encode(t), k) == |Encode(t)|
  {
    if t != [] {
      OneCodepoint(t[0], Encode(t[1..]));
      if k > 0 {
        FindsOffsets(t[1..], k - 1);
        if k <= |t| {
          assert t[1..][..k - 1] == t[..k][1..];
        }
        if |t| == 1 {
          assert Encode(t[1..]) == [];
        }
      }
    }
  }

  lemma FindsCodepoints(t: Text, k: nat)
    requires k < |t|
    ensures At(Encode(t), k) == t[k]
  {
    FindsOffsets(t, k);
    EncodeSplit(t, k);
    assert Encode(t)[OffsetOf(Encode(t), k)..] == Encode(t[k..]);
    assert t[k..][0] == t[k];
    EncodeOneHasFields(t[k]);
    DecodeOneFromFields(t[k], EncodeOne(t[k]), Encode(t[k..]));
  }

  /** Cutting the bytes at two code point offsets cuts the text at the same two code points. */
  lemma SliceIsSelection(t: Text, start: nat, end: nat)
    requires start <= end <= |t|
    ensures OffsetOf(Encode(t), start) <= OffsetOf(Encode(t), end)
    ensures Encode(t)[OffsetOf(Encode(t), start)..OffsetOf(Encode(t), end)] == Encode(t[start..end])
  {
    FindsOffsets(t, start);
    FindsOffsets(t, end);
    EncodeSplit(t, end);
    EncodeSplit(t[..end], start);
    assert t[..end][..start] == t[..start];
    assert t[..end][start..] == t[start..end];
  }
}
