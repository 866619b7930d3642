/** The padded base64 codec of go/internal/corecompat/encode.go (section 4 of RFC 4648).

    A shift by k bits is a division by 2^k, a mask with 0x3f is `% 64`, and the `|` of
    values that share no bit is their sum; all of it fits in 24 bits, so uint32 never wraps. */
module Base64 {
  import opened Wrappers

  type Sextet = v: int | 0 <= v < 64

  const UPPER := "ABCDEFGHIJKLMNOPQRSTUVWXYZ"
  const LOWER := "abcdefghijklmnopqrstuvwxyz"
  const DIGITS := "0123456789"
  const ALPHABET: string := UPPER + LOWER + DIGITS + "+/"
  const PAD: char := '='

  function Symbol(v: Sextet): char {
    if v < 26 then 'A' + v as char
    else if v < 52 then 'a' + (v - 26) as char
    else if v < 62 then '0' + (v - 52) as char
    else if v == 62 then '+'
    else '/'
  }

  /** `Symbol` is indexing into the alphabet string. */
  lemma SymbolIsAlphabet(v: Sextet)
    ensures Symbol(v) == ALPHABET[v]
  {
    if v < 26 {
      assert ALPHABET[v] == UPPER[v];
    } else if v < 52 {
      assert ALPHABET[v] == LOWER[v - 26];
    } else if v < 62 {
      assert ALPHABET[v] == DIGITS[v - 52];
    }
  }

  lemma AlphabetSpelled()
    ensures ALPHABET == "ABCDEFGHIJKLMNOPQRSTUVWXYZabcdefghijklmnopqrstuvwxyz0123456789+/"
  {
    assert UPPER + LOWER == "ABCDEFGHIJKLMNOPQRSTUVWXYZabcdefghijklmnopqrstuvwxyz";
  }

  function Base64Value(c: char): Option<Sextet> {
    if 'A' <= c <= 'Z' then Some(c as int - 'A' as int)
    else if 'a' <= c <= 'z' then Some(c as int - 'a' as int + 26)
    else if '0' <= c <= '9' then Some(c as int - '0' as int + 52)
    else if c == '+' then Some(62)
    else if c == '/' then Some(63)
    else None
  }

  /** The lookup inverts the alphabet, and the pad character is in no alphabet position. */
  lemma SymbolValue(v: Sextet)
    ensures Base64Value(Symbol(v)) == Some(v)
    ensures Symbol(v) != PAD
  {
  }

  lemma ValueSymbol(c: char)
    requires Base64Value(c).Some?
    ensures Symbol(Base64Value(c).value) == c
  {
  }

  // ---------------------------------------------------------------- encoding

  /** The four symbols of the 24-bit group n. */
  function Symbols(n: int): (q: string)
    requires 0 <= n < 0x100_0000
    ensures |q| == 4
  {
    [Symbol(n / 0x4_0000), Symbol(n / 0x1000 % 64), Symbol(n / 64 % 64), Symbol(n % 64)]
  }

  function Group(a: Byte, b: Byte, c: Byte): (n: int)
    ensures 0 <= n < 0x100_0000
  {
    a * 0x1_0000 + b * 0x100 + c
  }

  function Encoded(x: Bytes): string {
    if |x| == 0 then ""
    else if |x| == 1 then Symbols(Group(x[0], 0, 0))[..2] + [PAD, PAD]
    else if |x| == 2 then Symbols(Group(x[0], x[1], 0))[..3] + [PAD]
    else Symbols(Group(x[0], x[1], x[2])) + Encoded(x[3..])
  }

  function Blocks(n: nat): nat {
    if n == 0 then 0 else if n <= 3 then 1 else 1 + Blocks(n - 3)
  }

  lemma {:induction false} BlocksIsCeiling(n: nat)
    ensures Blocks(n) == (n + 2) / 3
  {
    if n > 3 {
      BlocksIsCeiling(n - 3);
    }
  }

  lemma {:induction false} EncodedLength(x: Bytes)
    ensures |Encoded(x)| == 4 * Blocks(|x|)
  {
    if |x| > 2 {
      EncodedLength(x[3..]);
    }
  }

  lemma BlocksStep(n: nat)
    ensures n >= 3 ==> Blocks(n) == 1 + Blocks(n - 3)
    ensures Blocks(0) == 0 && Blocks(1) == 1 && Blocks(2) == 1
  {
  }

  lemma EncodedFrom(src: Bytes, si: nat)
    requires si <= |src|
    ensures |src| - si >= 3 ==>
      Encoded(src[si..]) == Symbols(Group(src[si], src[si + 1], src[si + 2])) + Encoded(src[si + 3..])
    ensures |src| - si == 2 ==> Encoded(src[si..]) == Symbols(Group(src[si], src[si + 1], 0))[..3] + [PAD]
    ensures |src| - si == 1 ==> Encoded(src[si..]) == Symbols(Group(src[si], 0, 0))[..2] + [PAD, PAD]
    ensures |src| == si ==> Encoded(src[si..]) == ""
  {
    if |src| - si >= 3 {
      assert src[si..][3..] == src[si + 3..];
    }
  }

  lemma Regroup<T>(a: seq<T>, b: seq<T>, c: seq<T>)
    ensures a + (b + c) == (a + b) + c
  {
  }

  /** Four consecutive stores into the output buffer. */
  method StoreFour(dst: array<char>, di: nat, q: string)
    requires di + 4 <= dst.Length && |q| == 4
    modifies dst
    ensures dst[..di + 4] == old(dst[..di]) + q
  {
    ghost var before := dst[..];
    dst[di] := q[0];
    dst[di + 1] := q[1];
    dst[di + 2] := q[2];
    dst[di + 3] := q[3];
    assert dst[..] == before[di := q[0]][di + 1 := q[1]][di + 2 := q[2]][di + 3 := q[3]];
    assert dst[..di + 4] == dst[..][..di + 4];
    assert dst[..di + 4] == before[..di] + q;
  }

  /** What the loop keeps: the output so far is the encoding of the input so far, and there is room
      for exactly the rest. */
  ghost predicate EncodedSoFar(src: Bytes, si: nat, text: string, room: int) {
    && si <= |src| && room == 4 * Blocks(|src| - si)
    && Encoded(src) == text + Encoded(src[si..])
  }

  /** The one or two bytes that the loop leaves, with their padding. */
  method EncodeTail(src: Bytes, si: nat, dst: array<char>, di: nat)
    requires si <= |src| < si + 3 && di <= dst.Length && EncodedSoFar(src, si, dst[..di], dst.Length - di)
    modifies dst
    ensures dst[..] == Encoded(src)
  {
    BlocksStep(|src| - si);
    EncodedFrom(src, si);
    hide Encoded, Symbols, Group, Blocks;
    if |src| - si == 1 {
      StoreFour(dst, di, Symbols(Group(src[si], 0, 0))[..2] + [PAD, PAD]);
    } else if |src| - si == 2 {
      StoreFour(dst, di, Symbols(Group(src[si], src[si + 1], 0))[..3] + [PAD]);
    } else {
      assert dst[..] == dst[..di] + "";
    }
    assert dst[..] == dst[..dst.Length];
  }

  /** One turn of the loop. */
  method EncodeThree(src: Bytes, si: nat, dst: array<char>, di: nat)
    requires si + 3 <= |src| && di <= dst.Length && EncodedSoFar(src, si, dst[..di], dst.Length - di)
    modifies dst
    ensures di + 4 <= dst.Length && EncodedSoFar(src, si + 3, dst[..di + 4], dst.Length - (di + 4))
  {
    BlocksStep(|src| - si);
    EncodedFrom(src, si);
    hide Encoded, Symbols, Group, Blocks;
    var q := Symbols(Group(src[si], src[si + 1], src[si + 2]));
    Regroup(dst[..di], q, Encoded(src[si + 3..]));
    StoreFour(dst, di, q);
  }

  method Base64Encode(src: Bytes) returns (text: string)
    ensures text == Encoded(src)
  {
    if |src| == 0 {
      return "";
    }
    var dst := new char[(|src| + 2) / 3 * 4];
    var si, di := 0, 0;
    NothingEncodedYet(src);
    hide EncodedSoFar;
    assert dst[..di] == "";
    while |src| - si >= 3
      invariant 0 <= si <= |src| && 0 <= di <= dst.Length
      invariant EncodedSoFar(src, si, dst[..di], dst.Length - di)
    {
      EncodeThree(src, si, dst, di);
      si, di := si + 3, di + 4;
    }
    EncodeTail(src, si, dst, di);
    text := dst[..];
  }

  lemma NothingEncodedYet(src: Bytes)
    ensures EncodedSoFar(src, 0, "", (|src| + 2) / 3 * 4)
  {
    BlocksIsCeiling(|src|);
    assert src[0..] == src;
  }

  // ---------------------------------------------------------------- the law of the encoding

  /** The octet at i, or the zero bits that stand for it. */
  function ByteAt(x: Bytes, i: nat): Byte {
    if i < |x| then x[i] else 0
  }

  /** The value of the symbol at i; padding counts as zero. */
  function ValueAt(s: string, i: nat): Sextet
    requires i < |s|
  {
    if Base64Value(s[i]).Some? then Base64Value(s[i]).value else 0
  }

  lemma Digits64(n: int)
    requires 0 <= n < 0x100_0000
    ensures n == n / 0x4_0000 * 0x4_0000 + n / 0x1000 % 64 * 0x1000 + n / 64 % 64 * 64 + n % 64
  {
    assert n / 64 / 64 == n / 0x1000;
    assert n / 0x1000 / 64 == n / 0x4_0000;
  }

  lemma MultipleOf64(q: int)
    ensures q * 64 % 64 == 0 && q * 64 / 64 == q
  {
  }

  lemma TrailingZeroDigits(n: int)
    requires 0 <= n < 0x100_0000
    ensures n % 0x100 == 0 ==> n % 64 == 0
    ensures n % 0x1_0000 == 0 ==> n / 64 % 64 == 0
  {
    if n % 0x100 == 0 {
      MultipleOf64(n / 0x100 * 4);
    }
    if n % 0x1_0000 == 0 {
      MultipleOf64(n / 0x1_0000 * 0x400);
      MultipleOf64(n / 0x1_0000 * 16);
    }
  }

  lemma QuadValues(v0: Sextet, v1: Sextet, v2: Sextet, v3: Sextet)
    ensures var q := [Symbol(v0), Symbol(v1), Symbol(v2), Symbol(v3)];
      ValueAt(q, 0) == v0 && ValueAt(q, 1) == v1 && ValueAt(q, 2) == v2 && ValueAt(q, 3) == v3
  {
    hide Symbol, Base64Value;
    SymbolValue(v0);
    SymbolValue(v1);
    SymbolValue(v2);
    SymbolValue(v3);
  }

  /** The symbols of a group spell it, and none is padding. */
  lemma SymbolsRejoin(n: int)
    requires 0 <= n < 0x100_0000
    ensures var q := Symbols(n);
      n == ValueAt(q, 0) * 0x4_0000 + ValueAt(q, 1) * 0x1000 + ValueAt(q, 2) * 64 + ValueAt(q, 3)
    ensures var q := Symbols(n); q[0] != PAD && q[1] != PAD && q[2] != PAD && q[3] != PAD
    ensures n % 0x100 == 0 ==> ValueAt(Symbols(n), 3) == 0
    ensures n % 0x1_0000 == 0 ==> ValueAt(Symbols(n), 2) == 0
  {
    hide Symbol, Base64Value, ValueAt;
    QuadValues(n / 0x4_0000, n / 0x1000 % 64, n / 64 % 64, n % 64);
    SymbolValue(n / 0x4_0000);
    SymbolValue(n / 0x1000 % 64);
    SymbolValue(n / 64 % 64);
    SymbolValue(n % 64);
    Digits64(n);
    TrailingZeroDigits(n);
  }

  lemma GroupTail(a: Byte, b: Byte)
    ensures Group(a, b, 0) % 0x100 == 0
    ensures Group(a, 0, 0) % 0x1_0000 == 0
  {
  }

  lemma PadValue()
    ensures Base64Value(PAD).None?
  {
  }

  lemma FirstGroup(x: Bytes)
    requires x != []
    ensures |Encoded(x)| >= 4
    ensures Group(x[0], ByteAt(x, 1), ByteAt(x, 2)) ==
            ValueAt(Encoded(x), 0) * 0x4_0000 + ValueAt(Encoded(x), 1) * 0x1000 +
            ValueAt(Encoded(x), 2) * 64 + ValueAt(Encoded(x), 3)
    ensures Encoded(x)[0] != PAD && Encoded(x)[1] != PAD
    ensures Encoded(x)[2] == PAD <==> |x| <= 1
    ensures Encoded(x)[3] == PAD <==> |x| <= 2
  {
    hide Symbol, Base64Value, Symbols, Group;
    var n := Group(x[0], ByteAt(x, 1), ByteAt(x, 2));
    SymbolsRejoin(n);
    GroupTail(x[0], ByteAt(x, 1));
    var e, q := Encoded(x), Symbols(n);
    assert e[0] == q[0] && e[1] == q[1];
    assert e[2] == if |x| <= 1 then PAD else q[2];
    assert e[3] == if |x| <= 2 then PAD else q[3];
    PadValue();
  }

  lemma EncodedRest(x: Bytes)
    requires |x| >= 3
    ensures |Encoded(x)| >= 4 && Encoded(x)[4..] == Encoded(x[3..])
  {
    hide Symbols, Group;
  }

  /** RFC 4648, section 4: each 24-bit input group, zero bits standing for missing octets, is
      the concatenation of the four 6-bit groups of its symbols, and `=` stands exactly where
      no input octet reaches. */
  lemma {:induction false} EncodedGroup(x: Bytes, g: nat)
    requires 3 * g < |x|
    ensures |Encoded(x)| >= 4 * g + 4
    ensures Group(x[3 * g], ByteAt(x, 3 * g + 1), ByteAt(x, 3 * g + 2)) ==
            ValueAt(Encoded(x), 4 * g) * 0x4_0000 + ValueAt(Encoded(x), 4 * g + 1) * 0x1000 +
            ValueAt(Encoded(x), 4 * g + 2) * 64 + ValueAt(Encoded(x), 4 * g + 3)
    ensures Encoded(x)[4 * g] != '=' && Encoded(x)[4 * g + 1] != '='
    ensures Encoded(x)[4 * g + 2] == '=' <==> |x| <= 3 * g + 1
    ensures Encoded(x)[4 * g + 3] == '=' <==> |x| <= 3 * g + 2
  {
    hide Symbol, Base64Value, Symbols, Group, Encoded;
    if g > 0 {
      var y, e := x[3..], Encoded(x);
      EncodedGroup(y, g - 1);
      var h := 4 * (g - 1);
      EncodedRest(x);
      assert e[h + 4] == Encoded(y)[h] && e[h + 5] == Encoded(y)[h + 1];
      assert e[h + 6] == Encoded(y)[h + 2] && e[h + 7] == Encoded(y)[h + 3];
    } else {
      FirstGroup(x);
    }
  }

  // ---------------------------------------------------------------- decoding

  /** The bytes of one four-character block; padding is allowed in the last block only. */
  function DecodedBlock(q: string, last: bool): Option<Bytes>
    requires |q| == 4
  {
    var c0, c1 := Base64Value(q[0]), Base64Value(q[1]);
    var c2, c3 := Base64Value(q[2]), Base64Value(q[3]);
    if c0.None? || c1.None? then None
    else if q[2] == PAD then
      if last && q[3] == PAD then Some(BlockBytes(c0.value, c1.value, 0, 0)[..1]) else None
    else if c2.None? then None
    else if q[3] == PAD then
      if last then Some(BlockBytes(c0.value, c1.value, c2.value, 0)[..2]) else None
    else if c3.None? then None
    else Some(BlockBytes(c0.value, c1.value, c2.value, c3.value))
  }

  function BlockBytes(c0: Sextet, c1: Sextet, c2: Sextet, c3: Sextet): (b: Bytes)
    ensures |b| == 3
  {
    var n := c0 * 0x4_0000 + c1 * 0x1000 + c2 * 64 + c3;
    [n / 0x1_0000, n / 0x100 % 256, n % 256]
  }

  function Prepend(b: Option<Bytes>, rest: Option<Bytes>): Option<Bytes> {
    if b.Some? && rest.Some? then Some(b.value + rest.value) else None
  }

  lemma PrependLaws(a: Bytes, b: Bytes, rest: Option<Bytes>)
    ensures Prepend(Some([]), rest) == rest
    ensures Prepend(Some(a), Some([])) == Some(a)
    ensures Prepend(Some(a), None) == None == Prepend(None, rest)
    ensures Prepend(Some(a), Prepend(Some(b), rest)) == Prepend(Some(a + b), rest)
  {
    if rest.Some? {
      assert [] + rest.value == rest.value;
      Regroup(a, b, rest.value);
    }
    assert a + [] == a;
  }

  function Decoded(s: string): Option<Bytes> {
    if |s| == 0 then Some([])
    else if |s| < 4 then None
    else Prepend(DecodedBlock(s[..4], |s| == 4), Decoded(s[4..]))
  }

  /** The three guarded stores of the decoding loop: a byte is written only while it fits. */
  method StoreWhileRoom(dst: array<Byte>, at: nat, b: Bytes) returns (di: nat)
    requires at <= dst.Length && |b| == 3
    modifies dst
    ensures di == if at + 3 <= dst.Length then at + 3 else dst.Length
    ensures dst[..di] == old(dst[..at]) + b[..di - at]
  {
    di := at;
    if di < dst.Length {
      dst[di] := b[0];
      di := di + 1;
    }
    if di < dst.Length {
      dst[di] := b[1];
      di := di + 1;
    }
    if di < dst.Length {
      dst[di] := b[2];
      di := di + 1;
    }
    assert dst[..at] == old(dst[..at]);
    assert dst[at..di] == b[..di - at];
  }

  /** How many bytes a block yields, by its padding. */
  function Padding(s: string): nat {
    if |s| >= 2 && s[|s| - 1] == PAD then (if s[|s| - 2] == PAD then 2 else 1) else 0
  }

  lemma DecodedFrom(s: string, si: nat)
    requires si <= |s|
    ensures si == |s| ==> Decoded(s[si..]) == Some([])
    ensures si + 4 <= |s| ==>
      Decoded(s[si..]) == Prepend(DecodedBlock(s[si..si + 4], si + 4 == |s|), Decoded(s[si + 4..]))
  {
    if si + 4 <= |s| {
      assert s[si..][..4] == s[si..si + 4] && s[si..][4..] == s[si + 4..];
    }
  }

  /** The loop's local view of one block: the four values, and the three bytes they carry. */
  lemma BlockByPadding(q: string, last: bool)
    requires |q| == 4
    ensures DecodedBlock(q, last).Some? <==>
      && Base64Value(q[0]).Some? && Base64Value(q[1]).Some?
      && (if q[2] == PAD then last && q[3] == PAD else Base64Value(q[2]).Some?)
      && (if q[3] == PAD then last else Base64Value(q[3]).Some?)
    ensures DecodedBlock(q, last).Some? ==>
      DecodedBlock(q, last).value ==
        BlockBytes(ValueAt(q, 0), ValueAt(q, 1), ValueAt(q, 2), ValueAt(q, 3))[..3 - Padding(q)]
    ensures DecodedBlock(q, last).Some? && !last ==> Padding(q) == 0
  {
    hide BlockBytes;
    PadValue();
  }

  /** One turn of the decoding loop up to its stores: the three bytes of the block, if legal. */
  method ReadBlock(q: string, last: bool) returns (r: Option<Bytes>)
    requires |q| == 4
    ensures r.Some? <==> DecodedBlock(q, last).Some?
    ensures r.Some? ==> |r.value| == 3 && DecodedBlock(q, last).value == r.value[..3 - Padding(q)]
  {
    hide BlockBytes;
    BlockByPadding(q, last);
    PadValue();
    var c0, c1 := Base64Value(q[0]), Base64Value(q[1]);
    if c0.None? || c1.None? {
      return None;
    }
    var c2, c3 := Some(0), Some(0);
    if q[2] == PAD {
      if !last || q[3] != PAD {
        return None;
      }
    } else {
      c2 := Base64Value(q[2]);
      if c2.None? {
        return None;
      }
    }
    if q[3] == PAD {
      if !last {
        return None;
      }
    } else {
      c3 := Base64Value(q[3]);
      if c3.None? {
        return None;
      }
    }
    r := Some(BlockBytes(c0.value, c1.value, c2.value, c3.value));
  }

  /** What the decoding loop keeps: the output so far with the decoding of the rest is the decoding of
      the whole, and there is room for exactly the rest. */
  ghost predicate DecodedSoFar(s: string, si: nat, out: Bytes, room: int) {
    && si <= |s| && si % 4 == 0
    && room == (if si < |s| then (|s| - si) / 4 * 3 - Padding(s) else 0)
    && Decoded(s) == Prepend(Some(out), Decoded(s[si..]))
  }

  /** One turn of the decoding loop. */
  method DecodeFour(s: string, si: nat, dst: array<Byte>, at: nat) returns (ok: bool, di: nat)
    requires |s| % 4 == 0 && si + 4 <= |s| && at <= dst.Length
    requires DecodedSoFar(s, si, dst[..at], dst.Length - at)
    modifies dst
    ensures ok ==> di <= dst.Length && DecodedSoFar(s, si + 4, dst[..di], dst.Length - di)
    ensures !ok ==> Decoded(s).None?
  {
    RoomLeft(s, si, dst[..at], dst.Length - at);
    hide *;
    ghost var out := dst[..at];
    DecodedFrom(s, si);
    PrependLaws(out, [], Decoded(s[si + 4..]));
    var b := ReadBlock(s[si..si + 4], si + 4 == |s|);
    if b.None? {
      assert DecodedBlock(s[si..si + 4], si + 4 == |s|) == None;
      return false, at;
    }
    BlockPadding(s, si, b.value);
    di := StoreWhileRoom(dst, at, b.value);
    DecodedOn(s, si, out, b.value[..di - at], dst.Length - at);
    assert dst[..di] == out + b.value[..di - at];
    ok := true;
  }

  lemma RoomLeft(s: string, si: nat, out: Bytes, room: int)
    requires |s| % 4 == 0 && si + 4 <= |s| && DecodedSoFar(s, si, out, room)
    ensures room == if si + 4 == |s| then 3 - Padding(s) else (|s| - si - 4) / 4 * 3 - Padding(s) + 3
    ensures room >= 3 || si + 4 == |s|
    ensures Decoded(s) == Prepend(Some(out), Decoded(s[si..]))
  {
    hide Decoded, Prepend;
    if si + 4 < |s| {
      assert (|s| - si) / 4 >= 2;
    }
  }

  lemma DecodedOn(s: string, si: nat, out: Bytes, b: Bytes, room: int)
    requires |s| % 4 == 0 && si + 4 <= |s| && DecodedSoFar(s, si, out, room)
    requires |b| == (if si + 4 == |s| then 3 - Padding(s) else 3)
    requires Decoded(s[si..]) == Prepend(Some(b), Decoded(s[si + 4..]))
    ensures DecodedSoFar(s, si + 4, out + b, room - |b|)
  {
    hide Decoded, Padding;
    PrependLaws(out, b, Decoded(s[si + 4..]));
  }

  method Base64Decode(s: string) returns (r: Option<Bytes>)
    ensures r == Decoded(s)
  {
    if |s| == 0 {
      return Some([]);
    }
    if |s| % 4 != 0 {
      OddLengthRejected(s);
      return None;
    }
    var padding := 0;
    if s[|s| - 1] == PAD {
      padding := padding + 1;
      if s[|s| - 2] == PAD {
        padding := padding + 1;
      }
    }
    assert padding == Padding(s);
    var dst := new Byte[|s| / 4 * 3 - padding](i => 0);
    var di, si := 0, 0;
    NothingDecodedYet(s);
    assert dst[..di] == [];
    hide *;
    while si < |s|
      invariant 0 <= si <= |s| && si % 4 == 0 && 0 <= di <= dst.Length
      invariant DecodedSoFar(s, si, dst[..di], dst.Length - di)
    {
      var ok;
      ok, di := DecodeFour(s, si, dst, di);
      if !ok {
        return None;
      }
      si := si + 4;
    }
    AllDecoded(s, dst[..di], dst.Length - di);
    assert dst[..] == dst[..di];
    r := Some(dst[..]);
  }

  lemma NothingDecodedYet(s: string)
    requires |s| % 4 == 0 && s != ""
    ensures DecodedSoFar(s, 0, [], |s| / 4 * 3 - Padding(s))
  {
    hide Decoded, Prepend, Padding;
    assert s[0..] == s;
    PrependLaws([], [], Decoded(s));
  }

  lemma AllDecoded(s: string, out: Bytes, room: int)
    requires DecodedSoFar(s, |s|, out, room)
    ensures room == 0 && Decoded(s) == Some(out)
  {
    hide Decoded;
    DecodedFrom(s, |s|);
    PrependLaws(out, [], None);
  }

  /** Only the last block may be short, and it is short by the padding of the whole string. */
  lemma BlockPadding(s: string, si: nat, b: Bytes)
    requires si + 4 <= |s| && |b| == 3
    requires var d := DecodedBlock(s[si..si + 4], si + 4 == |s|);
      d.Some? && d.value == b[..3 - Padding(s[si..si + 4])]
    ensures DecodedBlock(s[si..si + 4], si + 4 == |s|) ==
      Some(b[..if si + 4 == |s| then 3 - Padding(s) else 3])
  {
    BlockByPadding(s[si..si + 4], si + 4 == |s|);
  }

  lemma {:induction false} OddLengthRejected(s: string)
    requires |s| % 4 != 0
    ensures Decoded(s).None?
  {
    hide DecodedBlock;
    if |s| > 4 {
      OddLengthRejected(s[4..]);
    }
  }

  // ---------------------------------------------------------------- what the codec promises

  /** Euclid's quotient and remainder, for the two byte positions. */
  lemma QuotientRemainder(q: int, r: int)
    ensures 0 <= r < 256 ==> (q * 256 + r) / 256 == q && (q * 256 + r) % 256 == r
    ensures 0 <= r < 0x1_0000 ==> (q * 0x1_0000 + r) / 0x1_0000 == q && (q * 0x1_0000 + r) % 0x1_0000 == r
  {
  }

  lemma GroupBytes(a: Byte, b: Byte, c: Byte)
    ensures var n := Group(a, b, c); n / 0x1_0000 == a && n / 0x100 % 256 == b && n % 256 == c
  {
    QuotientRemainder(a, b * 256 + c);
    QuotientRemainder(a * 256 + b, c);
    QuotientRemainder(a, b);
  }

  lemma BytesOfDigits(n: int)
    requires 0 <= n < 0x100_0000
    ensures BlockBytes(n / 0x4_0000, n / 0x1000 % 64, n / 64 % 64, n % 64) ==
      [n / 0x1_0000, n / 0x100 % 256, n % 256]
  {
    Digits64(n);
  }

  lemma BlockFromValues(q: string, last: bool, v0: Sextet, v1: Sextet, v2: Sextet, v3: Sextet)
    requires |q| == 4
    requires Base64Value(q[0]) == Some(v0) && Base64Value(q[1]) == Some(v1)
    requires Base64Value(q[2]) == Some(v2) && Base64Value(q[3]) == Some(v3)
    ensures DecodedBlock(q, last) == Some(BlockBytes(v0, v1, v2, v3))
    ensures DecodedBlock(q[..3] + [PAD], true) == Some(BlockBytes(v0, v1, v2, 0)[..2])
    ensures DecodedBlock(q[..2] + [PAD, PAD], true) == Some(BlockBytes(v0, v1, 0, 0)[..1])
  {
    hide Base64Value, BlockBytes;
    PadValue();
  }

  lemma {:induction false} BlockRoundTrip(a: Byte, b: Byte, c: Byte, last: bool)
    ensures DecodedBlock(Symbols(Group(a, b, c)), last) == Some([a, b, c])
    ensures c == 0 ==> DecodedBlock(Symbols(Group(a, b, c))[..3] + [PAD], true) == Some([a, b])
    ensures b == c == 0 ==> DecodedBlock(Symbols(Group(a, b, c))[..2] + [PAD, PAD], true) == Some([a])
  {
    hide *;
    var n := Group(a, b, c);
    SymbolsValues(n);
    BlockFromValues(Symbols(n), last, n / 0x4_0000, n / 0x1000 % 64, n / 64 % 64, n % 64);
    BytesOfDigits(n);
    GroupBytes(a, b, c);
    GroupTail(a, b);
    TrailingZeroDigits(n);
    assert [a, b, c][..2] == [a, b] && [a, b, c][..1] == [a];
  }

  lemma SymbolsValues(n: int)
    requires 0 <= n < 0x100_0000
    ensures var q := Symbols(n);
      && Base64Value(q[0]) == Some(n / 0x4_0000) && Base64Value(q[1]) == Some(n / 0x1000 % 64)
      && Base64Value(q[2]) == Some(n / 64 % 64) && Base64Value(q[3]) == Some(n % 64)
  {
    hide Symbol, Base64Value;
    SymbolValue(n / 0x4_0000);
    SymbolValue(n / 0x1000 % 64);
    SymbolValue(n / 64 % 64);
    SymbolValue(n % 64);
  }

  /** Decoding what was encoded gives it back, for every byte string. */
  lemma {:induction false} RoundTrip(x: Bytes)
    ensures Decoded(Encoded(x)) == Some(x)
  {
    hide Symbols, Group, DecodedBlock;
    var e := Encoded(x);
    if |x| >= 3 {
      BlockRoundTrip(x[0], x[1], x[2], |x| == 3);
      RoundTrip(x[3..]);
      EncodedLength(x[3..]);
      assert e[..4] == Symbols(Group(x[0], x[1], x[2])) && e[4..] == Encoded(x[3..]);
      assert [x[0], x[1], x[2]] + x[3..] == x;
    } else if |x| == 2 {
      BlockRoundTrip(x[0], x[1], 0, true);
      PrependLaws([x[0], x[1]], [], None);
      assert e[..4] == e && e[4..] == "" && [x[0], x[1]] == x;
    } else if |x| == 1 {
      BlockRoundTrip(x[0], 0, 0, true);
      assert e[..4] == e && e[4..] == "" && [x[0]] == x;
      PrependLaws(x, [], None);
    }
  }

  /** A multiple of four characters, all in the alphabet but for one or two final `=`. */
  predicate WellPadded(s: string) {
    |s| % 4 == 0 && forall i :: 0 <= i < |s| - Padding(s) ==> Base64Value(s[i]).Some?
  }

  lemma WellPaddedStep(s: string)
    requires |s| >= 4 && |s| % 4 == 0
    ensures WellPadded(s) <==> DecodedBlock(s[..4], |s| == 4).Some? && WellPadded(s[4..])
    ensures WellPadded(s) ==> Padding(s) == Padding(s[4..]) + Padding(s[..4])
  {
    var q, rest := s[..4], s[4..];
    BlockByPadding(q, |s| == 4);
    PadValue();
    hide DecodedBlock, Base64Value;
    assert forall i :: 0 <= i < |rest| ==> rest[i] == s[i + 4];
    assert forall i :: 4 <= i < |s| ==> s[i] == rest[i - 4];
  }

  lemma {:induction false} AcceptsExactly(s: string)
    ensures Decoded(s).Some? <==> WellPadded(s)
    ensures Decoded(s).Some? ==> 4 * (|Decoded(s).value| + Padding(s)) == 3 * |s|
  {
    if |s| % 4 != 0 {
      OddLengthRejected(s);
    } else if |s| >= 4 {
      hide DecodedBlock, Padding, WellPadded;
      WellPaddedStep(s);
      AcceptsExactly(s[4..]);
      BlockByPadding(s[..4], |s| == 4);
    }
  }

  /** The 64 characters of the alphabet. */
  predicate IsLetter(c: char) {
    'A' <= c <= 'Z' || 'a' <= c <= 'z' || '0' <= c <= '9' || c == '+' || c == '/'
  }

  /** Letters, but for n final `=`. */
  predicate EndsPadded(s: string, n: nat) {
    && n <= |s|
    && (forall i :: 0 <= i < |s| - n ==> IsLetter(s[i]))
    && (forall i :: |s| - n <= i < |s| ==> s[i] == '=')
  }

  /** Spelled out: whole blocks of letters, but for at most two final `=`. */
  lemma AcceptsSpelled(s: string)
    ensures Decoded(s).Some? <==> |s| % 4 == 0 && (EndsPadded(s, 0) || EndsPadded(s, 1) || EndsPadded(s, 2))
    ensures forall n :: n <= 2 && EndsPadded(s, n) && |s| % 4 == 0 ==>
      Decoded(s).Some? && 4 * (|Decoded(s).value| + n) == 3 * |s|
  {
    AcceptsExactly(s);
    hide Decoded;
    if |s| % 4 == 0 {
      assert EndsPadded(s, Padding(s)) <==> WellPadded(s);
      forall n | 0 <= n <= 2 && EndsPadded(s, n)
        ensures n == Padding(s)
      {
        if s != "" {
          assert IsLetter(s[|s| - n - 1]);
        }
      }
    }
  }

  /** The input with the bits that the last block does not use set to zero. */
  function Canonical(s: string): string {
    if |s| < 4 then s
    else if Padding(s) == 1 then s[|s| - 2 := Symbol(ValueAt(s, |s| - 2) / 4 * 4)]
    else if Padding(s) == 2 then s[|s| - 3 := Symbol(ValueAt(s, |s| - 3) / 16 * 16)]
    else s
  }

  function Join(v0: Sextet, v1: Sextet, v2: Sextet, v3: Sextet): (n: int)
    ensures 0 <= n < 0x100_0000
  {
    v0 * 0x4_0000 + v1 * 0x1000 + v2 * 64 + v3
  }

  lemma JoinDigits(v0: Sextet, v1: Sextet, v2: Sextet, v3: Sextet)
    ensures var n := Join(v0, v1, v2, v3);
      n / 0x4_0000 == v0 && n / 0x1000 % 64 == v1 && n / 64 % 64 == v2 && n % 64 == v3
  {
    var n := Join(v0, v1, v2, v3);
    assert n / 64 == v0 * 0x1000 + v1 * 64 + v2;
    assert n / 0x1000 == v0 * 64 + v1;
  }

  lemma GroupOfBytes(n: int)
    requires 0 <= n < 0x100_0000
    ensures Group(n / 0x1_0000, n / 0x100 % 256, n % 256) == n
  {
    assert n / 0x100 / 256 == n / 0x1_0000;
  }

  lemma BytesCut(n: int)
    requires 0 <= n < 0x100_0000
    ensures Group(n / 0x1_0000, n / 0x100 % 256, n % 256) == n
    ensures Group(n / 0x1_0000, n / 0x100 % 256, 0) == n - n % 256
    ensures Group(n / 0x1_0000, 0, 0) == n - n % 0x1_0000
  {
    GroupOfBytes(n);
  }

  /** The group of a block's bytes; of its first two bytes; of its first byte. */
  lemma GroupOfBlock(v0: Sextet, v1: Sextet, v2: Sextet, v3: Sextet)
    ensures var b := BlockBytes(v0, v1, v2, v3); Group(b[0], b[1], b[2]) == Join(v0, v1, v2, v3)
  {
    hide Group, Join, BlockBytes;
    BytesOfBlock(v0, v1, v2, v3);
    BytesCut(Join(v0, v1, v2, v3));
  }

  lemma CutTwo(v0: Sextet, v1: Sextet, v2: Sextet)
    ensures Join(v0, v1, v2, 0) - Join(v0, v1, v2, 0) % 256 == Join(v0, v1, v2 / 4 * 4, 0)
  {
    var u, r := v2 / 4, v2 % 4;
    assert v2 == 4 * u + r;
    QuotientRemainder(v0 * 0x400 + v1 * 16 + u, r * 64);
  }

  lemma CutOne(v0: Sextet, v1: Sextet)
    ensures Join(v0, v1, 0, 0) - Join(v0, v1, 0, 0) % 0x1_0000 == Join(v0, v1 / 16 * 16, 0, 0)
  {
    var u, r := v1 / 16, v1 % 16;
    assert v1 == 16 * u + r;
    QuotientRemainder(v0 * 4 + u, r * 0x1000);
  }

  lemma BytesOfBlock(v0: Sextet, v1: Sextet, v2: Sextet, v3: Sextet)
    ensures var n := Join(v0, v1, v2, v3);
      BlockBytes(v0, v1, v2, v3) == [n / 0x1_0000, n / 0x100 % 256, n % 256]
  {
  }

  lemma GroupOfTwo(v0: Sextet, v1: Sextet, v2: Sextet)
    ensures var b := BlockBytes(v0, v1, v2, 0); Group(b[0], b[1], 0) == Join(v0, v1, v2 / 4 * 4, 0)
  {
    hide Group, Join, BlockBytes;
    BytesOfBlock(v0, v1, v2, 0);
    BytesCut(Join(v0, v1, v2, 0));
    CutTwo(v0, v1, v2);
  }

  lemma GroupOfOne(v0: Sextet, v1: Sextet)
    ensures var b := BlockBytes(v0, v1, 0, 0); Group(b[0], 0, 0) == Join(v0, v1 / 16 * 16, 0, 0)
  {
    hide Group, Join, BlockBytes;
    BytesOfBlock(v0, v1, 0, 0);
    BytesCut(Join(v0, v1, 0, 0));
    CutOne(v0, v1);
  }

  lemma SymbolsOfJoin(v0: Sextet, v1: Sextet, v2: Sextet, v3: Sextet)
    ensures Symbols(Join(v0, v1, v2, v3)) == [Symbol(v0), Symbol(v1), Symbol(v2), Symbol(v3)]
  {
    JoinDigits(v0, v1, v2, v3);
  }

  lemma BlockReencodes(q: string, last: bool)
    requires |q| == 4 && DecodedBlock(q, last).Some?
    ensures Encoded(DecodedBlock(q, last).value) == Canonical(q)
  {
    hide BlockBytes, Symbol, Symbols, Base64Value, Group, Join, DecodedBlock;
    BlockByPadding(q, last);
    PadValue();
    var v0, v1, v2, v3 := ValueAt(q, 0), ValueAt(q, 1), ValueAt(q, 2), ValueAt(q, 3);
    var b := BlockBytes(v0, v1, v2, v3);
    ValueSymbol(q[0]);
    ValueSymbol(q[1]);
    if Padding(q) == 0 {
      ValueSymbol(q[2]);
      ValueSymbol(q[3]);
      GroupOfBlock(v0, v1, v2, v3);
      SymbolsOfJoin(v0, v1, v2, v3);
      assert b[..3] == [b[0], b[1], b[2]];
      assert Encoded(b) == Symbols(Group(b[0], b[1], b[2])) + Encoded(b[3..]);
      assert Encoded(b) == q;
    } else if Padding(q) == 1 {
      ValueSymbol(q[2]);
      GroupOfTwo(v0, v1, v2);
      SymbolsOfJoin(v0, v1, v2 / 4 * 4, 0);
      assert b[..2] == [b[0], b[1]];
    } else {
      GroupOfOne(v0, v1);
      SymbolsOfJoin(v0, v1 / 16 * 16, 0, 0);
      assert b[..1] == [b[0]];
    }
  }

  lemma CanonicalStep(s: string)
    requires |s| > 4 && |s| % 4 == 0 && Padding(s[..4]) == 0
    ensures Canonical(s) == s[..4] + Canonical(s[4..])
  {
    hide Symbol, Base64Value;
    var rest := s[4..];
    assert s == s[..4] + rest;
    assert Padding(s) == Padding(rest);
  }

  /** Re-encoding an accepted string returns it with the unused trailing bits cleared. */
  lemma {:induction false} ReencodesCanonically(s: string)
    requires Decoded(s).Some?
    ensures Encoded(Decoded(s).value) == Canonical(s)
  {
    hide Symbols, Group, DecodedBlock, Canonical, Padding;
    if |s| % 4 != 0 {
      OddLengthRejected(s);
    } else if |s| >= 4 {
      var q := DecodedBlock(s[..4], |s| == 4);
      BlockReencodes(s[..4], |s| == 4);
      BlockByPadding(s[..4], |s| == 4);
      if |s| == 4 {
        assert s[..4] == s && s[4..] == "";
        PrependLaws(q.value, [], None);
      } else {
        var rest := Decoded(s[4..]).value;
        ReencodesCanonically(s[4..]);
        CanonicalStep(s);
        PaddingZeroIsCanonical(s[..4]);
        assert |q.value| == 3 && Decoded(s).value == q.value + rest;
        EncodedAfterBlock(q.value, rest);
      }
    } else {
      EmptyIsCanonical();
    }
  }

  lemma EmptyIsCanonical()
    ensures Canonical("") == ""
  {
  }

  lemma PaddingZeroIsCanonical(q: string)
    requires Padding(q) == 0
    ensures Canonical(q) == q
  {
  }

  lemma EncodedAfterBlock(b: Bytes, rest: Bytes)
    requires |b| == 3
    ensures Encoded(b + rest) == Encoded(b) + Encoded(rest)
  {
    hide Symbols, Group;
    assert (b + rest)[3..] == rest && b[3..] == [];
    assert Symbols(Group(b[0], b[1], b[2])) + "" == Symbols(Group(b[0], b[1], b[2]));
  }

  lemma ClearedSymbol(c: char)
    requires Base64Value(c).Some?
    ensures Symbol(Base64Value(c).value / 4 * 4) == c <==> Base64Value(c).value % 4 == 0
    ensures Symbol(Base64Value(c).value / 16 * 16) == c <==> Base64Value(c).value % 16 == 0
  {
    hide Symbol, Base64Value;
    var v := Base64Value(c).value;
    ValueSymbol(c);
    SymbolValue(v / 4 * 4);
    SymbolValue(v / 16 * 16);
  }

  /** The bits that the last block does not use are zero. */
  predicate NoStrayBits(s: string) {
    && (Padding(s) == 1 ==> ValueAt(s, |s| - 2) % 4 == 0)
    && (Padding(s) == 2 ==> |s| >= 4 && ValueAt(s, |s| - 3) % 16 == 0)
  }

  /** So decoding then encoding is the identity exactly on the strings without stray bits. */
  lemma ReencodesItself(s: string)
    requires Decoded(s).Some?
    ensures Encoded(Decoded(s).value) == s <==> NoStrayBits(s)
  {
    hide Symbol, Base64Value, Encoded, Decoded;
    ReencodesCanonically(s);
    AcceptsExactly(s);
    if Padding(s) == 1 {
      ClearedSymbol(s[|s| - 2]);
      assert Canonical(s)[|s| - 2] == Symbol(ValueAt(s, |s| - 2) / 4 * 4);
    } else if Padding(s) == 2 {
      ClearedSymbol(s[|s| - 3]);
      assert Canonical(s)[|s| - 3] == Symbol(ValueAt(s, |s| - 3) / 16 * 16);
    }
  }
}
