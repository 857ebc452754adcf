/**
 The compact argument codec: one tag byte per argument, minimal little-endian integers behind a
 length byte, and length-prefixed blobs.
 */
module PackedArgs {
  import opened Common

  const U32_LIMIT: nat := 0x1_0000_0000
  const U64_LIMIT: nat := 0x1_0000_0000_0000_0000
  const U128_LIMIT: nat := 0x1_0000_0000_0000_0000_0000_0000_0000_0000
  const I128_LIMIT: nat := 0x8000_0000_0000_0000_0000_0000_0000_0000
  const I128_MIN: int := -0x8000_0000_0000_0000_0000_0000_0000_0000

  type U64 = x: nat | x < 0x1_0000_0000_0000_0000
  type I128 = x: int | -0x8000_0000_0000_0000_0000_0000_0000_0000 <= x < 0x8000_0000_0000_0000_0000_0000_0000_0000

  const TAG_BOOL_FALSE: Byte := 0
  const TAG_BOOL_TRUE: Byte := 1
  const TAG_U64: Byte := 2
  const TAG_I128: Byte := 3
  const TAG_ADDRESS: Byte := 4
  const TAG_SYMBOL: Byte := 5
  const TAG_BYTES: Byte := 6
  const TAG_STRING: Byte := 7

  /** One argument; addresses, symbols and strings are values of foreign types. */
  datatype Arg<A, S, T> =
    | Bool(b: bool)
    | U64Arg(u: U64)
    | I128Arg(i: I128)
    | AddressArg(address: A)
    | SymbolArg(symbol: S)
    | BytesArg(bytes: Bytes)
    | StringArg(str: T)

  /** The XDR serialisation of a foreign type. */
  datatype Xdr<!V> = Xdr(encode: V -> Bytes, decode: Bytes -> Option<V>)

  datatype Codecs<!A, !S, !T> = Codecs(address: Xdr<A>, symbol: Xdr<S>, str: Xdr<T>)

  /** Decoding undoes encoding, and encodings have 32-bit lengths. */
  ghost predicate Invertible<V(!new)>(x: Xdr<V>) {
    forall v :: x.decode(x.encode(v)) == Some(v) && |x.encode(v)| < U32_LIMIT
  }

  ghost predicate AllInvertible<A(!new), S(!new), T(!new)>(c: Codecs<A, S, T>) {
    Invertible(c.address) && Invertible(c.symbol) && Invertible(c.str)
  }

  // ----- little-endian integers

  function Pow256(n: nat): (p: nat)
    ensures p >= 1
  {
    if n == 0 then 1 else 256 * Pow256(n - 1)
  }

  /** The position of the highest set bit, counted from one. */
  function BitLength(v: nat): nat {
    if v == 0 then 0 else 1 + BitLength(v / 2)
  }

  /** `min_len_u64` and `min_len_u128`: whole bytes covering the significant bits, one for zero. */
  function MinLen(v: nat): nat {
    if v == 0 then 1 else (BitLength(v) + 7) / 8
  }

  /** The n lowest bytes of v. */
  function LeBytes(v: nat, n: nat): (b: Bytes)
    ensures |b| == n
  {
    if n == 0 then [] else [v % 256] + LeBytes(v / 256, n - 1)
  }

  function LeValue(b: Bytes): (v: nat) {
    if b == [] then 0 else b[0] + 256 * LeValue(b[1..])
  }

  lemma MinLenOfByte(v: nat)
    requires v < 256
    ensures MinLen(v) == 1
  {
    BitLengthBound(v, 8);
  }

  lemma {:induction false} BitLengthBound(v: nat, k: nat)
    requires v < PowTwo(k)
    ensures BitLength(v) <= k
  {
    if v > 0 {
      assert k > 0;
      BitLengthBound(v / 2, k - 1);
    }
  }

  function PowTwo(k: nat): nat {
    if k == 0 then 1 else 2 * PowTwo(k - 1)
  }

  lemma MinLenStep(v: nat)
    requires v >= 256
    ensures MinLen(v) == 1 + MinLen(v / 256)
  {
    TwoBits(v);
    TwoBits(v / 4);
    TwoBits(v / 16);
    TwoBits(v / 64);
    assert v / 4 / 4 == v / 16 && v / 16 / 4 == v / 64 && v / 64 / 4 == v / 256;
  }

  lemma TwoBits(v: nat)
    requires v >= 4
    ensures BitLength(v) == 2 + BitLength(v / 4)
  {
    assert BitLength(v) == 1 + BitLength(v / 2);
    assert v / 2 / 2 == v / 4;
  }

  /** The length is minimal: v fits, and does not fit in fewer bytes. */
  lemma {:induction false} MinLenIsMinimal(v: nat)
    ensures MinLen(v) >= 1 && v < Pow256(MinLen(v))
    ensures forall k :: 1 <= k < MinLen(v) ==> Pow256(k) <= v
    decreases v
  {
    assert Pow256(1) == 256 * Pow256(0);
    if v < 256 {
      MinLenOfByte(v);
    } else {
      var w := v / 256;
      MinLenStep(v);
      MinLenIsMinimal(w);
      forall k | 1 <= k < MinLen(v) ensures Pow256(k) <= v {
        if k > 1 { assert Pow256(k - 1) <= w; }
      }
    }
  }

  lemma {:induction false} MinLenAtMost(v: nat, k: nat)
    requires k >= 1 && v < Pow256(k)
    ensures MinLen(v) <= k
  {
    MinLenIsMinimal(v);
  }

  lemma Pow256Sizes()
    ensures Pow256(4) == U32_LIMIT && Pow256(8) == U64_LIMIT && Pow256(16) == U128_LIMIT
  {
    assert Pow256(2) == 0x1_0000;
    assert Pow256(4) == 256 * (256 * Pow256(2));
    assert Pow256(6) == 256 * (256 * Pow256(4));
    assert Pow256(8) == 256 * (256 * Pow256(6));
    assert Pow256(10) == 256 * (256 * Pow256(8));
    assert Pow256(12) == 256 * (256 * Pow256(10));
    assert Pow256(14) == 256 * (256 * Pow256(12));
    assert Pow256(16) == 256 * (256 * Pow256(14));
  }

  lemma {:induction false} LeInverse(v: nat, n: nat)
    requires v < Pow256(n)
    ensures LeValue(LeBytes(v, n)) == v
  {
    if n > 0 {
      LeInverse(v / 256, n - 1);
      assert LeBytes(v, n)[1..] == LeBytes(v / 256, n - 1);
    }
  }

  lemma {:induction false} LeValueBound(b: Bytes)
    ensures LeValue(b) < Pow256(|b|)
  {
    if b != [] { LeValueBound(b[1..]); }
  }

  lemma {:induction false} LeBytesPrefix(v: nat, k: nat, n: nat)
    requires k <= n
    ensures LeBytes(v, n)[..k] == LeBytes(v, k)
  {
    if k > 0 {
      LeBytesPrefix(v / 256, k - 1, n - 1);
      assert LeBytes(v, n)[..k] == [v % 256] + LeBytes(v / 256, n - 1)[..k - 1];
    }
  }

  // ----- encoding

  function VarintU64(v: nat): Bytes
    requires v < U64_LIMIT
  {
    LengthFits(v, 8);
    [MinLen(v)] + LeBytes(v, MinLen(v))
  }

  function Magnitude(v: int): nat { if v < 0 then -v else v }

  function VarintI128(v: I128): Bytes {
    LengthFits(Magnitude(v), 16);
    [(if v < 0 then 128 else 0) + MinLen(Magnitude(v))] + LeBytes(Magnitude(v), MinLen(Magnitude(v)))
  }

  lemma LengthFits(v: nat, k: nat)
    requires (k == 8 && v < U64_LIMIT) || (k == 16 && v < U128_LIMIT)
    ensures 1 <= MinLen(v) <= k
  {
    Pow256Sizes();
    MinLenIsMinimal(v);
    MinLenAtMost(v, k);
  }

  function Blob(b: Bytes): Bytes
    requires |b| < U32_LIMIT
  {
    VarintU64(|b|) + b
  }

  /** Blobs have 32-bit lengths, as every host byte string does. */
  predicate Fits<A, S, T>(c: Codecs<A, S, T>, arg: Arg<A, S, T>) {
    match arg
    case AddressArg(a) => |c.address.encode(a)| < U32_LIMIT
    case SymbolArg(s) => |c.symbol.encode(s)| < U32_LIMIT
    case BytesArg(b) => |b| < U32_LIMIT
    case StringArg(s) => |c.str.encode(s)| < U32_LIMIT
    case _ => true
  }

  predicate AllFit<A, S, T>(c: Codecs<A, S, T>, args: seq<Arg<A, S, T>>) {
    forall i :: 0 <= i < |args| ==> Fits(c, args[i])
  }

  function PackArg<A, S, T>(c: Codecs<A, S, T>, arg: Arg<A, S, T>): (r: Bytes)
    requires Fits(c, arg)
    ensures |r| >= 1
  {
    match arg
    case Bool(b) => [if b then TAG_BOOL_TRUE else TAG_BOOL_FALSE]
    case U64Arg(v) => [TAG_U64] + VarintU64(v)
    case I128Arg(v) => [TAG_I128] + VarintI128(v)
    case AddressArg(a) => [TAG_ADDRESS] + Blob(c.address.encode(a))
    case SymbolArg(s) => [TAG_SYMBOL] + Blob(c.symbol.encode(s))
    case BytesArg(b) => [TAG_BYTES] + Blob(b)
    case StringArg(s) => [TAG_STRING] + Blob(c.str.encode(s))
  }

  function Pack<A, S, T>(c: Codecs<A, S, T>, args: seq<Arg<A, S, T>>): Bytes
    requires AllFit(c, args)
  {
    if args == [] then [] else Pack(c, args[..|args| - 1]) + PackArg(c, args[|args| - 1])
  }

  // ----- decoding

  /** A read that panics has no result. */
  function ReadU64(buf: Bytes, offset: nat): (r: Option<(nat, nat)>)
    ensures r.Some? ==> offset < r.value.1 <= |buf| && r.value.0 < U64_LIMIT
  {
    if offset >= |buf| then None
    else
      var len := buf[offset];
      if len > 8 || offset + 1 + len > |buf| then None
      else
        var body := buf[offset + 1..offset + 1 + len];
        WordBound(body, 8);
        Some((LeValue(body), offset + 1 + len))
  }

  lemma WordBound(b: Bytes, k: nat)
    requires |b| <= k && (k == 8 || k == 16)
    ensures LeValue(b) < if k == 8 then U64_LIMIT else U128_LIMIT
  {
    Pow256Sizes();
    LeValueBound(b);
    Pow256Monotone(|b|, k);
  }

  lemma {:induction false} Pow256Monotone(m: nat, n: nat)
    requires m <= n
    ensures Pow256(m) <= Pow256(n)
  {
    if m < n { Pow256Monotone(m, n - 1); }
  }

  /** A 128-bit word reinterpreted as signed. */
  function AsI128(m: nat): I128
    requires m < U128_LIMIT
  {
    if m < I128_LIMIT then m else m - U128_LIMIT
  }

  /** Negating the least value panics with overflow checks, and wraps to itself without. */
  function NegateI128(v: I128, checked: bool): Option<I128> {
    if v == I128_MIN then (if checked then None else Some(v)) else Some(-v)
  }

  function ReadI128(buf: Bytes, offset: nat, checked: bool): (r: Option<(I128, nat)>)
    ensures r.Some? ==> offset < r.value.1 <= |buf|
  {
    if offset >= |buf| then None
    else
      var len := buf[offset] % 128;
      if len > 16 || offset + 1 + len > |buf| then None
      else
        var body := buf[offset + 1..offset + 1 + len];
        WordBound(body, 16);
        var word := AsI128(LeValue(body));
        var value := if buf[offset] >= 128 then NegateI128(word, checked) else Some(word);
        if value.None? then None else Some((value.value, offset + 1 + len))
  }

  /** The blob's length is truncated to 32 bits before slicing. */
  function ReadBlob(buf: Bytes, offset: nat): (r: Option<(Bytes, nat)>)
    ensures r.Some? ==> offset < r.value.1 <= |buf|
  {
    match ReadU64(buf, offset)
    case None => None
    case Some((len, next)) =>
      var end := next + len % U32_LIMIT;
      if end > |buf| then None else Some((buf[next..end], end))
  }

  datatype Step<A> = Stop | Panics | Got(arg: A, next: nat)

  function DecodedBlob<V, R>(r: Option<(Bytes, nat)>, decode: Bytes -> Option<V>, wrap: V -> R): Step<R> {
    match r
    case None => Panics
    case Some((blob, next)) =>
      match decode(blob)
      case None => Panics
      case Some(v) => Got(wrap(v), next)
  }

  function ReadArg<A, S, T>(c: Codecs<A, S, T>, buf: Bytes, offset: nat, checked: bool): (r: Step<Arg<A, S, T>>)
    requires offset < |buf|
    ensures r.Got? ==> offset < r.next <= |buf|
  {
    var tag, at := buf[offset], offset + 1;
    if tag == TAG_BOOL_FALSE then Got(Bool(false), at)
    else if tag == TAG_BOOL_TRUE then Got(Bool(true), at)
    else if tag == TAG_U64 then
      match ReadU64(buf, at) case None => Panics case Some((v, next)) => Got(U64Arg(v), next)
    else if tag == TAG_I128 then
      match ReadI128(buf, at, checked) case None => Panics case Some((v, next)) => Got(I128Arg(v), next)
    else if tag == TAG_ADDRESS then DecodedBlob(ReadBlob(buf, at), c.address.decode, (a: A) => AddressArg(a))
    else if tag == TAG_SYMBOL then DecodedBlob(ReadBlob(buf, at), c.symbol.decode, (s: S) => SymbolArg(s))
    else if tag == TAG_BYTES then
      match ReadBlob(buf, at) case None => Panics case Some((b, next)) => Got(BytesArg(b), next)
    else if tag == TAG_STRING then DecodedBlob(ReadBlob(buf, at), c.str.decode, (s: T) => StringArg(s))
    else Stop
  }

  /** The arguments from `offset` on; none when decoding panics. An unknown tag ends the list. */
  function UnpackFrom<A, S, T>(c: Codecs<A, S, T>, buf: Bytes, offset: nat, checked: bool): Option<seq<Arg<A, S, T>>>
    decreases |buf| - offset
  {
    if offset >= |buf| then Some([])
    else
      match ReadArg(c, buf, offset, checked)
      case Stop => Some([])
      case Panics => None
      case Got(arg, next) =>
        match UnpackFrom(c, buf, next, checked)
        case None => None
        case Some(rest) => Some([arg] + rest)
  }

  // ----- reading back what was written

  lemma TagFirst(pre: Bytes, tag: Byte, body: Bytes, post: Bytes)
    ensures pre + ([tag] + body) + post == (pre + [tag]) + body + post
    ensures |pre + [tag]| == |pre| + 1
  {
  }

  lemma Regroup(pre: Bytes, a: Bytes, b: Bytes, post: Bytes)
    ensures pre + (a + b) + post == pre + a + (b + post)
    ensures (pre + (a + b) + post)[|pre| + |a|..|pre| + |a| + |b|] == b
  {
  }

  lemma ReadU64Back(pre: Bytes, v: nat, post: Bytes)
    requires v < U64_LIMIT
    ensures ReadU64(pre + VarintU64(v) + post, |pre|) == Some((v, |pre| + |VarintU64(v)|))
  {
    var len := MinLen(v);
    LengthFits(v, 8);
    MinLenIsMinimal(v);
    LeInverse(v, len);
    Framed(pre, len, LeBytes(v, len), post);
    ReadU64Word(pre + VarintU64(v) + post, |pre|, len, v);
  }

  /** A length byte and as many bytes behind it decode to their value. */
  lemma ReadU64Word(buf: Bytes, offset: nat, len: nat, v: nat)
    requires len <= 8 && offset + 1 + len <= |buf| && buf[offset] == len
    requires LeValue(buf[offset + 1..offset + 1 + len]) == v
    ensures ReadU64(buf, offset) == Some((v, offset + 1 + len))
  {
  }

  /** Exactly when a number can be read: the length byte is there, is not too large, and is followed by enough bytes. */
  lemma NumberReadableIff(buf: Bytes, offset: nat, checked: bool)
    ensures ReadU64(buf, offset).Some? <==>
            offset < |buf| && buf[offset] <= 8 && offset + 1 + buf[offset] <= |buf|
    ensures !checked ==> (ReadI128(buf, offset, checked).Some? <==>
                          offset < |buf| && buf[offset] % 128 <= 16 && offset + 1 + buf[offset] % 128 <= |buf|)
  {
  }

  /** Where a head byte and a body lie in a buffer. */
  lemma Framed(pre: Bytes, head: Byte, body: Bytes, post: Bytes)
    ensures var buf, end := pre + ([head] + body) + post, |pre| + 1 + |body|;
            end <= |buf| && buf[|pre|] == head && buf[|pre| + 1..end] == body
  {
  }

  lemma ReadI128Back(pre: Bytes, v: I128, post: Bytes, checked: bool)
    ensures var end: nat := |pre| + |VarintI128(v)|;
            ReadI128(pre + VarintI128(v) + post, |pre|, checked)
            == if checked && v == I128_MIN then None else Some((v, end))
  {
    var m := Magnitude(v);
    var len := MinLen(m);
    LengthFits(m, 16);
    MinLenIsMinimal(m);
    LeInverse(m, len);
    var header: Byte := (if v < 0 then 128 else 0) + len;
    Framed(pre, header, LeBytes(m, len), post);
    ReadI128Word(pre + VarintI128(v) + post, |pre|, header, len, m, v, checked);
  }

  /** A header byte and the magnitude behind it decode to the signed value. */
  lemma ReadI128Word(buf: Bytes, offset: nat, header: Byte, len: nat, m: nat, v: I128, checked: bool)
    requires len <= 16 && offset + 1 + len <= |buf| && buf[offset] == header && m == Magnitude(v)
    requires header == (if v < 0 then 128 else 0) + len
    requires LeValue(buf[offset + 1..offset + 1 + len]) == m
    ensures var end: nat := offset + 1 + len;
            ReadI128(buf, offset, checked) == if checked && v == I128_MIN then None else Some((v, end))
  {
    assert header % 128 == len && (header >= 128 <==> v < 0);
    SignBack(v, checked);
  }

  lemma SignBack(v: I128, checked: bool)
    ensures Magnitude(v) < U128_LIMIT
    ensures var word := AsI128(Magnitude(v));
            (if v < 0 then NegateI128(word, checked) else Some(word))
            == if checked && v == I128_MIN then None else Some(v)
  {
  }

  lemma ReadBlobBack(pre: Bytes, b: Bytes, post: Bytes)
    requires |b| < U32_LIMIT
    ensures ReadBlob(pre + Blob(b) + post, |pre|) == Some((b, |pre| + |Blob(b)|))
  {
    var head := VarintU64(|b|);
    Regroup(pre, head, b, post);
    ReadU64Back(pre, |b|, b + post);
    ReadBlobAt(pre + Blob(b) + post, |pre|, |b|, |pre| + |head|, b);
  }

  /** A length, of which 32 bits count, and as many bytes behind it decode to those bytes. */
  lemma ReadBlobAt(buf: Bytes, offset: nat, len: nat, next: nat, b: Bytes)
    requires ReadU64(buf, offset) == Some((len, next)) && len % U32_LIMIT == |b|
    requires next + |b| <= |buf| && buf[next..next + |b|] == b
    ensures ReadBlob(buf, offset) == Some((b, next + |b|))
  {
  }

  /** The least 128-bit value, which overflow checks refuse to negate. */
  predicate Unreadable<A, S, T>(arg: Arg<A, S, T>, checked: bool) {
    checked && arg.I128Arg? && arg.i == I128_MIN
  }

  lemma ReadAddressBack<A(!new), S(!new), T(!new)>(c: Codecs<A, S, T>, pre: Bytes, a: A, post: Bytes, checked: bool)
    requires Invertible(c.address) && Fits(c, AddressArg(a))
    ensures ReadArg(c, pre + PackArg(c, AddressArg(a)) + post, |pre|, checked)
            == Got(AddressArg(a), |pre| + |PackArg(c, AddressArg(a))|)
  {
    var blob := c.address.encode(a);
    TagFirst(pre, TAG_ADDRESS, Blob(blob), post);
    ReadBlobBack(pre + [TAG_ADDRESS], blob, post);
  }

  lemma ReadSymbolBack<A(!new), S(!new), T(!new)>(c: Codecs<A, S, T>, pre: Bytes, s: S, post: Bytes, checked: bool)
    requires Invertible(c.symbol) && Fits(c, SymbolArg(s))
    ensures ReadArg(c, pre + PackArg(c, SymbolArg(s)) + post, |pre|, checked)
            == Got(SymbolArg(s), |pre| + |PackArg(c, SymbolArg(s))|)
  {
    var blob := c.symbol.encode(s);
    TagFirst(pre, TAG_SYMBOL, Blob(blob), post);
    ReadBlobBack(pre + [TAG_SYMBOL], blob, post);
  }

  lemma ReadStringBack<A(!new), S(!new), T(!new)>(c: Codecs<A, S, T>, pre: Bytes, s: T, post: Bytes, checked: bool)
    requires Invertible(c.str) && Fits(c, StringArg(s))
    ensures ReadArg(c, pre + PackArg(c, StringArg(s)) + post, |pre|, checked)
            == Got(StringArg(s), |pre| + |PackArg(c, StringArg(s))|)
  {
    var blob := c.str.encode(s);
    TagFirst(pre, TAG_STRING, Blob(blob), post);
    ReadBlobBack(pre + [TAG_STRING], blob, post);
  }

  lemma ReadBytesBack<A, S, T>(c: Codecs<A, S, T>, pre: Bytes, b: Bytes, post: Bytes, checked: bool)
    requires |b| < U32_LIMIT
    ensures ReadArg(c, pre + PackArg(c, BytesArg(b)) + post, |pre|, checked)
            == Got(BytesArg(b), |pre| + |PackArg(c, BytesArg(b))|)
  {
    TagFirst(pre, TAG_BYTES, Blob(b), post);
    ReadBlobBack(pre + [TAG_BYTES], b, post);
  }

  lemma ReadU64ArgBack<A, S, T>(c: Codecs<A, S, T>, pre: Bytes, v: U64, post: Bytes, checked: bool)
    ensures ReadArg(c, pre + PackArg(c, U64Arg(v)) + post, |pre|, checked)
            == Got(U64Arg(v), |pre| + |PackArg(c, U64Arg(v))|)
  {
    TagFirst(pre, TAG_U64, VarintU64(v), post);
    ReadU64Back(pre + [TAG_U64], v, post);
  }

  lemma ReadI128ArgBack<A, S, T>(c: Codecs<A, S, T>, pre: Bytes, v: I128, post: Bytes, checked: bool)
    ensures ReadArg(c, pre + PackArg(c, I128Arg(v)) + post, |pre|, checked)
            == if checked && v == I128_MIN then Panics else Got(I128Arg(v), |pre| + |PackArg(c, I128Arg(v))|)
  {
    TagFirst(pre, TAG_I128, VarintI128(v), post);
    ReadI128Back(pre + [TAG_I128], v, post, checked);
  }

  lemma ReadArgBack<A(!new), S(!new), T(!new)>(c: Codecs<A, S, T>, pre: Bytes, arg: Arg<A, S, T>, post: Bytes, checked: bool)
    requires AllInvertible(c) && Fits(c, arg)
    ensures ReadArg(c, pre + PackArg(c, arg) + post, |pre|, checked)
            == if Unreadable(arg, checked) then Panics else Got(arg, |pre| + |PackArg(c, arg)|)
  {
    match arg
    case Bool(b) =>
    case U64Arg(v) => ReadU64ArgBack(c, pre, v, post, checked);
    case I128Arg(v) => ReadI128ArgBack(c, pre, v, post, checked);
    case AddressArg(a) => ReadAddressBack(c, pre, a, post, checked);
    case SymbolArg(s) => ReadSymbolBack(c, pre, s, post, checked);
    case BytesArg(b) => ReadBytesBack(c, pre, b, post, checked);
    case StringArg(s) => ReadStringBack(c, pre, s, post, checked);
  }

  function Concat(parts: seq<Bytes>): Bytes {
    if parts == [] then [] else Concat(parts[..|parts| - 1]) + parts[|parts| - 1]
  }

  lemma {:induction false} ConcatFirst(first: Bytes, rest: seq<Bytes>)
    ensures Concat([first] + rest) == first + Concat(rest)
    decreases |rest|
  {
    var n, parts := |rest| - 1, [first] + rest;
    if rest == [] {
      assert parts[..0] == [];
    } else {
      ConcatFirst(first, rest[..n]);
      assert parts[..n + 1] == [first] + rest[..n];
    }
  }

  /** The encodings of the arguments, one by one. */
  ghost function Parts<A, S, T>(c: Codecs<A, S, T>, args: seq<Arg<A, S, T>>): (r: seq<Bytes>)
    requires AllFit(c, args)
    ensures |r| == |args| && forall i :: 0 <= i < |args| ==> r[i] == PackArg(c, args[i])
  {
    seq(|args|, i requires 0 <= i < |args| => PackArg(c, args[i]))
  }

  lemma {:induction false} PackIsConcat<A, S, T>(c: Codecs<A, S, T>, args: seq<Arg<A, S, T>>)
    requires AllFit(c, args)
    ensures Pack(c, args) == Concat(Parts(c, args))
    decreases |args|
  {
    if args != [] {
      var n := |args| - 1;
      PackIsConcat(c, args[..n]);
      assert Parts(c, args)[..n] == Parts(c, args[..n]);
    }
  }

  lemma PackFirst<A, S, T>(c: Codecs<A, S, T>, args: seq<Arg<A, S, T>>)
    requires args != [] && AllFit(c, args)
    ensures AllFit(c, args[1..]) && Pack(c, args) == PackArg(c, args[0]) + Pack(c, args[1..])
  {
    PackIsConcat(c, args);
    PartsFirst(c, args);
    PackIsConcat(c, args[1..]);
    ConcatFirst(PackArg(c, args[0]), Parts(c, args[1..]));
  }

  lemma PartsFirst<A, S, T>(c: Codecs<A, S, T>, args: seq<Arg<A, S, T>>)
    requires args != [] && AllFit(c, args)
    ensures AllFit(c, args[1..]) && Parts(c, args) == [PackArg(c, args[0])] + Parts(c, args[1..])
  {
    var parts, rest := Parts(c, args), Parts(c, args[1..]);
    forall i | 0 <= i < |args| ensures parts[i] == ([PackArg(c, args[0])] + rest)[i] {
      if i > 0 { assert args[1..][i - 1] == args[i]; }
    }
  }

  ghost predicate AllReadable<A, S, T>(args: seq<Arg<A, S, T>>, checked: bool) {
    forall i :: 0 <= i < |args| ==> !Unreadable(args[i], checked)
  }

  /** The first argument reads back, and what follows it is left. */
  lemma ReadFirst<A(!new), S(!new), T(!new)>(
    c: Codecs<A, S, T>, buf: Bytes, offset: nat, args: seq<Arg<A, S, T>>, rest: Bytes, checked: bool)
    returns (next: nat)
    requires AllInvertible(c) && AllFit(c, args) && args != []
    requires offset <= |buf| && buf[offset..] == Pack(c, args) + rest
    ensures AllFit(c, args[1..]) && offset < next <= |buf| && buf[next..] == Pack(c, args[1..]) + rest
    ensures next + |Pack(c, args[1..])| == offset + |Pack(c, args)|
    ensures ReadArg(c, buf, offset, checked) == if Unreadable(args[0], checked) then Panics else Got(args[0], next)
  {
    PackFirst(c, args);
    var pre, first, tail := buf[..offset], PackArg(c, args[0]), Pack(c, args[1..]) + rest;
    next := offset + |first|;
    Associative(first, Pack(c, args[1..]), rest);
    Slices(buf, offset, first, tail);
    ReadArgBack(c, pre, args[0], tail, checked);
  }

  lemma Associative(a: Bytes, b: Bytes, d: Bytes)
    ensures (a + b) + d == a + (b + d)
  {
  }

  lemma Slices(buf: Bytes, offset: nat, first: Bytes, tail: Bytes)
    requires offset <= |buf| && buf[offset..] == first + tail
    ensures buf == buf[..offset] + first + tail && offset + |first| <= |buf| && buf[offset + |first|..] == tail
  {
    assert buf == buf[..offset] + buf[offset..];
    assert buf[offset + |first|..] == buf[offset..][|first|..];
  }

  /** What decoding gives once a list of arguments has been read and the rest gave `after`. */
  function Following<A>(args: seq<A>, after: Option<seq<A>>): Option<seq<A>> {
    if after.None? then None else Some(args + after.value)
  }

  /** Decoding reads every argument back and goes on behind them. */
  lemma {:induction false} UnpackThrough<A(!new), S(!new), T(!new)>(
    c: Codecs<A, S, T>, buf: Bytes, offset: nat, args: seq<Arg<A, S, T>>, rest: Bytes, end: nat, checked: bool)
    requires AllInvertible(c) && AllFit(c, args) && end == offset + |Pack(c, args)|
    requires offset <= |buf| && buf[offset..] == Pack(c, args) + rest
    ensures UnpackFrom(c, buf, offset, checked) ==
            if AllReadable(args, checked) then Following(args, UnpackFrom(c, buf, end, checked)) else None
    decreases |args|
  {
    if args == [] {
      FollowingNothing(args, UnpackFrom(c, buf, end, checked));
    } else {
      var next := ReadFirst(c, buf, offset, args, rest, checked);
      UnpackThrough(c, buf, next, args[1..], rest, end, checked);
      UnpackOne(c, buf, offset, checked, args, next, UnpackFrom(c, buf, end, checked));
    }
  }

  lemma FollowingNothing<A>(args: seq<A>, after: Option<seq<A>>)
    requires args == []
    ensures Following(args, after) == after
  {
    if after.Some? { assert args + after.value == after.value; }
  }

  /** One argument read, and the rest already known. */
  lemma UnpackOne<A, S, T>(c: Codecs<A, S, T>, buf: Bytes, offset: nat, checked: bool, args: seq<Arg<A, S, T>>, next: nat,
                           after: Option<seq<Arg<A, S, T>>>)
    requires args != [] && offset < |buf|
    requires ReadArg(c, buf, offset, checked) == if Unreadable(args[0], checked) then Panics else Got(args[0], next)
    requires UnpackFrom(c, buf, next, checked) == if AllReadable(args[1..], checked) then Following(args[1..], after) else None
    ensures UnpackFrom(c, buf, offset, checked) == if AllReadable(args, checked) then Following(args, after) else None
  {
    ReadableSplit(args, checked);
    FollowingFirst(args, after);
  }

  lemma FollowingFirst<A>(args: seq<A>, after: Option<seq<A>>)
    requires args != []
    ensures Following(args, after) == Following([args[0]], Following(args[1..], after))
  {
    if after.Some? { assert args + after.value == [args[0]] + (args[1..] + after.value); }
  }

  lemma ReadableSplit<A, S, T>(args: seq<Arg<A, S, T>>, checked: bool)
    requires args != []
    ensures AllReadable(args, checked) <==> !Unreadable(args[0], checked) && AllReadable(args[1..], checked)
  {
    if !Unreadable(args[0], checked) && AllReadable(args[1..], checked) {
      forall i | 0 <= i < |args| ensures !Unreadable(args[i], checked) {
        if i > 0 { assert args[i] == args[1..][i - 1]; }
      }
    }
  }

  /**
   Unpacking inverts packing if and only if the build wraps on overflow or no argument is the least
   128-bit integer; otherwise it panics.
   */
  lemma RoundTrip<A(!new), S(!new), T(!new)>(c: Codecs<A, S, T>, args: seq<Arg<A, S, T>>, checked: bool)
    requires AllInvertible(c) && AllFit(c, args)
    ensures UnpackFrom(c, Pack(c, args), 0, checked) == Some(args) <==> AllReadable(args, checked)
    ensures !AllReadable(args, checked) ==> UnpackFrom(c, Pack(c, args), 0, checked) == None
  {
    assert Pack(c, args)[0..] == Pack(c, args) + [];
    UnpackThrough(c, Pack(c, args), 0, args, [], |Pack(c, args)|, checked);
    assert args + [] == args;
  }

  // ----- buffers that packing does not produce

  /** An unknown tag ends the list: what was read before it is returned, whatever follows. */
  lemma UnknownTagEndsList<A(!new), S(!new), T(!new)>(
    c: Codecs<A, S, T>, args: seq<Arg<A, S, T>>, tag: Byte, junk: Bytes, checked: bool)
    requires AllInvertible(c) && AllFit(c, args) && AllReadable(args, checked) && tag >= 8
    ensures UnpackFrom(c, Pack(c, args) + ([tag] + junk), 0, checked) == Some(args)
  {
    var packed, rest := Pack(c, args), [tag] + junk;
    var buf := packed + rest;
    assert buf[0..] == buf && buf[|packed|] == tag;
    UnpackThrough(c, buf, 0, args, rest, |packed|, checked);
    assert UnpackFrom(c, buf, |packed|, checked) == Some([]);
    assert args + [] == args;
  }

  /** A varint cut short cannot be read. */
  lemma TruncatedU64(pre: Bytes, v: nat, k: nat)
    requires v < U64_LIMIT && k < |VarintU64(v)|
    ensures ReadU64(pre + VarintU64(v)[..k], |pre|) == None
  {
    LengthFits(v, 8);
    var buf := pre + VarintU64(v)[..k];
    assert k > 0 ==> buf[|pre|] == MinLen(v);
  }

  lemma TruncatedI128(pre: Bytes, v: I128, k: nat, checked: bool)
    requires k < |VarintI128(v)|
    ensures ReadI128(pre + VarintI128(v)[..k], |pre|, checked) == None
  {
    LengthFits(Magnitude(v), 16);
    var buf, len := pre + VarintI128(v)[..k], MinLen(Magnitude(v));
    assert k > 0 ==> buf[|pre|] == (if v < 0 then 128 else 0) + len;
    assert ((if v < 0 then 128 else 0) + len) % 128 == len;
  }

  lemma TruncatedBlob(pre: Bytes, b: Bytes, k: nat)
    requires |b| < U32_LIMIT && k < |Blob(b)|
    ensures ReadBlob(pre + Blob(b)[..k], |pre|) == None
  {
    var head := VarintU64(|b|);
    if k < |head| {
      assert Blob(b)[..k] == head[..k];
      TruncatedU64(pre, |b|, k);
    } else {
      var part := b[..k - |head|];
      assert Blob(b)[..k] == head + part;
      Associative(pre, head, part);
      ReadU64Back(pre, |b|, part);
    }
  }

  /** Where the tag and the rest of a truncated encoding lie. */
  lemma TruncatedTag(pre: Bytes, tag: Byte, body: Bytes, k: nat)
    requires 1 <= k <= |body|
    ensures pre + ([tag] + body)[..k] == (pre + [tag]) + body[..k - 1] && |pre + [tag]| == |pre| + 1
    ensures (pre + ([tag] + body)[..k])[|pre|] == tag
  {
    assert ([tag] + body)[..k] == [tag] + body[..k - 1];
  }

  lemma TruncatedTaggedBlob(pre: Bytes, tag: Byte, b: Bytes, k: nat)
    requires |b| < U32_LIMIT && 1 <= k < |[tag] + Blob(b)|
    ensures var buf := pre + ([tag] + Blob(b))[..k];
            |buf| == |pre| + k && buf[|pre|] == tag && ReadBlob(buf, |pre| + 1) == None
  {
    TruncatedTag(pre, tag, Blob(b), k);
    TruncatedBlob(pre + [tag], b, k - 1);
  }

  lemma TruncatedNumber<A, S, T>(c: Codecs<A, S, T>, pre: Bytes, arg: Arg<A, S, T>, k: nat, checked: bool)
    requires (arg.U64Arg? || arg.I128Arg?) && Fits(c, arg) && 1 <= k < |PackArg(c, arg)|
    ensures ReadArg(c, pre + PackArg(c, arg)[..k], |pre|, checked) == Panics
  {
    if arg.U64Arg? {
      TruncatedTag(pre, TAG_U64, VarintU64(arg.u), k);
      TruncatedU64(pre + [TAG_U64], arg.u, k - 1);
    } else {
      TruncatedTag(pre, TAG_I128, VarintI128(arg.i), k);
      TruncatedI128(pre + [TAG_I128], arg.i, k - 1, checked);
    }
  }

  /** An argument cut short anywhere after its tag panics. */
  lemma TruncatedArgPanics<A, S, T>(c: Codecs<A, S, T>, pre: Bytes, arg: Arg<A, S, T>, k: nat, checked: bool)
    requires Fits(c, arg) && 1 <= k < |PackArg(c, arg)|
    ensures ReadArg(c, pre + PackArg(c, arg)[..k], |pre|, checked) == Panics
  {
    match arg
    case Bool(_) =>
    case U64Arg(_) => TruncatedNumber(c, pre, arg, k, checked);
    case I128Arg(_) => TruncatedNumber(c, pre, arg, k, checked);
    case AddressArg(a) => TruncatedTaggedBlob(pre, TAG_ADDRESS, c.address.encode(a), k);
    case SymbolArg(s) => TruncatedTaggedBlob(pre, TAG_SYMBOL, c.symbol.encode(s), k);
    case BytesArg(b) => TruncatedTaggedBlob(pre, TAG_BYTES, b, k);
    case StringArg(s) => TruncatedTaggedBlob(pre, TAG_STRING, c.str.encode(s), k);
  }

  /** A buffer that ends inside an argument panics, whatever could be read before it. */
  lemma TruncatedBufferPanics<A(!new), S(!new), T(!new)>(
    c: Codecs<A, S, T>, args: seq<Arg<A, S, T>>, last: Arg<A, S, T>, k: nat, checked: bool)
    requires AllInvertible(c) && AllFit(c, args) && Fits(c, last) && 1 <= k < |PackArg(c, last)|
    ensures UnpackFrom(c, Pack(c, args) + PackArg(c, last)[..k], 0, checked) == None
  {
    var packed, rest := Pack(c, args), PackArg(c, last)[..k];
    var buf := packed + rest;
    assert buf[0..] == buf;
    UnpackThrough(c, buf, 0, args, rest, |packed|, checked);
    TruncatedArgPanics(c, packed, last, k, checked);
    assert UnpackFrom(c, buf, |packed|, checked) == None;
  }

  /** Bytes that are no XDR of the type their tag announces make decoding panic. */
  lemma UndecodableBlobPanics<A, S, T>(c: Codecs<A, S, T>, buf: Bytes, offset: nat, checked: bool)
    requires offset < |buf| && ReadBlob(buf, offset + 1).Some?
    ensures var blob := ReadBlob(buf, offset + 1).value.0;
            || (buf[offset] == 4 && c.address.decode(blob).None?)
            || (buf[offset] == 5 && c.symbol.decode(blob).None?)
            || (buf[offset] == 7 && c.str.decode(blob).None?)
            ==> ReadArg(c, buf, offset, checked) == Panics && UnpackFrom(c, buf, offset, checked) == None
  {
  }

  // ----- the wire format

  /** A length byte from 1 to 8 and the value in that many little-endian bytes, the fewest that hold it. */
  ghost predicate IsVarint(b: Bytes, v: nat) {
    && 2 <= |b| <= 9 && b[0] == |b| - 1 && LeValue(b[1..]) == v
    && (|b| > 2 ==> v >= Pow256(|b| - 2))
  }

  /** The same with up to 16 bytes of magnitude, and the sign as 128 on the length byte. */
  ghost predicate IsSignedVarint(b: Bytes, v: int) {
    && 2 <= |b| <= 17 && b[0] == (if v < 0 then 128 else 0) + |b| - 1 && LeValue(b[1..]) == Magnitude(v)
    && (|b| > 2 ==> Magnitude(v) >= Pow256(|b| - 2))
  }

  /** A varint of the length, and the bytes. */
  ghost predicate IsBlob(b: Bytes, blob: Bytes) {
    |b| >= |blob| && b[|b| - |blob|..] == blob && IsVarint(b[..|b| - |blob|], |blob|)
  }

  lemma VarintFormat(v: nat)
    requires v < U64_LIMIT
    ensures IsVarint(VarintU64(v), v)
  {
    LengthFits(v, 8);
    MinLenIsMinimal(v);
    LeInverse(v, MinLen(v));
    assert VarintU64(v)[1..] == LeBytes(v, MinLen(v));
  }

  lemma SignedVarintFormat(v: I128)
    ensures IsSignedVarint(VarintI128(v), v)
  {
    var m := Magnitude(v);
    LengthFits(m, 16);
    MinLenIsMinimal(m);
    LeInverse(m, MinLen(m));
    assert VarintI128(v)[1..] == LeBytes(m, MinLen(m));
  }

  lemma BlobFormat(b: Bytes)
    requires |b| < U32_LIMIT
    ensures IsBlob(Blob(b), b)
  {
    VarintFormat(|b|);
    var head := VarintU64(|b|);
    assert Blob(b)[..|head|] == head && Blob(b)[|head|..] == b;
  }

  /** The bytes of every argument: its tag, then its value. */
  lemma WireFormat<A, S, T>(c: Codecs<A, S, T>, arg: Arg<A, S, T>)
    requires Fits(c, arg)
    ensures var b := PackArg(c, arg);
            match arg
            case Bool(x) => b == [if x then 1 else 0]
            case U64Arg(v) => b[0] == 2 && IsVarint(b[1..], v)
            case I128Arg(v) => b[0] == 3 && IsSignedVarint(b[1..], v)
            case AddressArg(a) => b[0] == 4 && IsBlob(b[1..], c.address.encode(a))
            case SymbolArg(s) => b[0] == 5 && IsBlob(b[1..], c.symbol.encode(s))
            case BytesArg(x) => b[0] == 6 && IsBlob(b[1..], x)
            case StringArg(s) => b[0] == 7 && IsBlob(b[1..], c.str.encode(s))
  {
    match arg
    case Bool(_) =>
    case U64Arg(v) =>
      VarintFormat(v);
      assert ([TAG_U64] + VarintU64(v))[1..] == VarintU64(v);
    case I128Arg(v) =>
      SignedVarintFormat(v);
      assert ([TAG_I128] + VarintI128(v))[1..] == VarintI128(v);
    case AddressArg(a) =>
      BlobFormat(c.address.encode(a));
      assert ([TAG_ADDRESS] + Blob(c.address.encode(a)))[1..] == Blob(c.address.encode(a));
    case SymbolArg(s) =>
      BlobFormat(c.symbol.encode(s));
      assert ([TAG_SYMBOL] + Blob(c.symbol.encode(s)))[1..] == Blob(c.symbol.encode(s));
    case BytesArg(x) =>
      BlobFormat(x);
      assert ([TAG_BYTES] + Blob(x))[1..] == Blob(x);
    case StringArg(s) =>
      BlobFormat(c.str.encode(s));
      assert ([TAG_STRING] + Blob(c.str.encode(s)))[1..] == Blob(c.str.encode(s));
  }

  /** Different argument lists, the least integer included, pack to different buffers. */
  lemma PackInjective<A(!new), S(!new), T(!new)>(c: Codecs<A, S, T>, a: seq<Arg<A, S, T>>, b: seq<Arg<A, S, T>>)
    requires AllInvertible(c) && AllFit(c, a) && AllFit(c, b) && Pack(c, a) == Pack(c, b)
    ensures a == b
  {
    RoundTrip(c, a, false);
    RoundTrip(c, b, false);
  }

  // ----- sizes

  function BlobSize(n: nat): nat { 1 + MinLen(n) + n }

  /** The size an argument occupies, from its value alone. */
  function ArgSize<A, S, T>(c: Codecs<A, S, T>, arg: Arg<A, S, T>): nat {
    match arg
    case Bool(_) => 1
    case U64Arg(v) => 2 + MinLen(v)
    case I128Arg(v) => 2 + MinLen(Magnitude(v))
    case AddressArg(a) => 1 + BlobSize(|c.address.encode(a)|)
    case SymbolArg(s) => 1 + BlobSize(|c.symbol.encode(s)|)
    case BytesArg(b) => 1 + BlobSize(|b|)
    case StringArg(s) => 1 + BlobSize(|c.str.encode(s)|)
  }

  function TotalSize<A, S, T>(c: Codecs<A, S, T>, args: seq<Arg<A, S, T>>): nat {
    if args == [] then 0 else TotalSize(c, args[..|args| - 1]) + ArgSize(c, args[|args| - 1])
  }

  lemma {:induction false} PackedSizeIsSum<A, S, T>(c: Codecs<A, S, T>, args: seq<Arg<A, S, T>>)
    requires AllFit(c, args)
    ensures |Pack(c, args)| == TotalSize(c, args)
  {
    if args != [] {
      PackedSizeIsSum(c, args[..|args| - 1]);
    }
  }

  // ----- the loops

  lemma HeaderFirst(buf: Bytes, h: Byte, body: Bytes)
    ensures buf + [h] + body == buf + ([h] + body)
  {
  }

  lemma PushOne(base: Bytes, le: Bytes, i: nat)
    requires i < |le|
    ensures base + le[..i] + [le[i]] == base + le[..i + 1]
  {
    assert le[..i + 1] == le[..i] + [le[i]];
  }

  /** Append the length byte, then the low bytes of v one by one. */
  method PushVarintU64(buf: Bytes, v: U64) returns (out: Bytes)
    ensures out == buf + VarintU64(v)
  {
    LengthFits(v, 8);
    var len := MinLen(v);
    out := buf + [len];
    var le := LeBytes(v, 8);
    LeBytesPrefix(v, len, 8);
    var i := 0;
    while i < len
      invariant 0 <= i <= len && out == buf + [len] + le[..i]
    {
      PushOne(buf + [len], le, i);
      out := out + [le[i]];
      i := i + 1;
    }
    HeaderFirst(buf, len, LeBytes(v, len));
  }

  method PushVarintI128(buf: Bytes, v: I128) returns (out: Bytes)
    ensures out == buf + VarintI128(v)
  {
    var isNegative := v < 0;
    var magnitude := Magnitude(v);
    LengthFits(magnitude, 16);
    var len := MinLen(magnitude);
    var header: Byte := (if isNegative then 128 else 0) + len;
    out := buf + [header];
    var le := LeBytes(magnitude, 16);
    LeBytesPrefix(magnitude, len, 16);
    var i := 0;
    while i < len
      invariant 0 <= i <= len && out == buf + [header] + le[..i]
    {
      PushOne(buf + [header], le, i);
      out := out + [le[i]];
      i := i + 1;
    }
    HeaderFirst(buf, header, LeBytes(magnitude, len));
  }

  method PushBlob(buf: Bytes, b: Bytes) returns (out: Bytes)
    requires |b| < U32_LIMIT
    ensures out == buf + Blob(b)
  {
    out := PushVarintU64(buf, |b|);
    out := out + b;
  }

  method PackArgs<A, S, T>(c: Codecs<A, S, T>, args: seq<Arg<A, S, T>>) returns (buf: Bytes)
    requires AllFit(c, args)
    ensures buf == Pack(c, args)
  {
    buf := [];
    assert args[..0] == [];
    for k := 0 to |args|
      invariant AllFit(c, args[..k]) && buf == Pack(c, args[..k])
    {
      assert args[..k + 1][..k] == args[..k];
      assert Fits(c, args[k]);
      buf := PushArg(c, buf, args[k]);
    }
    assert args[..|args|] == args;
  }

  method PushArg<A, S, T>(c: Codecs<A, S, T>, buf: Bytes, arg: Arg<A, S, T>) returns (out: Bytes)
    requires Fits(c, arg)
    ensures out == buf + PackArg(c, arg)
  {
    match arg {
      case Bool(b) => out := buf + [if b then TAG_BOOL_TRUE else TAG_BOOL_FALSE];
      case U64Arg(v) => out := PushVarintU64(buf + [TAG_U64], v);
      case I128Arg(v) => out := PushVarintI128(buf + [TAG_I128], v);
      case AddressArg(a) => out := PushBlob(buf + [TAG_ADDRESS], c.address.encode(a));
      case SymbolArg(s) => out := PushBlob(buf + [TAG_SYMBOL], c.symbol.encode(s));
      case BytesArg(b) => out := PushBlob(buf + [TAG_BYTES], b);
      case StringArg(s) => out := PushBlob(buf + [TAG_STRING], c.str.encode(s));
    }
  }

  method PackedSize<A, S, T>(c: Codecs<A, S, T>, args: seq<Arg<A, S, T>>) returns (size: nat)
    requires AllFit(c, args)
    ensures size == TotalSize(c, args)
  {
    var buf := PackArgs(c, args);
    PackedSizeIsSum(c, args);
    size := |buf|;
  }

  /** Copy `len` bytes into a zeroed word of `width` bytes; none when an index is out of range. */
  method ReadWord(buf: Bytes, start: nat, len: nat, width: nat) returns (r: Option<nat>)
    requires start <= |buf|
    ensures r.Some? <==> len <= width && start + len <= |buf|
    ensures r.Some? ==> r.value == LeValue(buf[start..start + len])
  {
    var le := new Byte[width](_ => 0);
    var i := 0;
    while i < len
      invariant 0 <= i <= len && i <= width && start + i <= |buf|
      invariant le[..i] == buf[start..start + i]
      invariant forall k :: i <= k < width ==> le[k] == 0
    {
      if i >= width || start + i >= |buf| {
        return None;
      }
      le[i] := buf[start + i];
      assert le[..i + 1] == le[..i] + [buf[start + i]];
      i := i + 1;
    }
    assert le[..][..len] == le[..len];
    LeValueTrailingZeros(le[..], len);
    return Some(LeValue(le[..]));
  }

  lemma {:induction false} LeValueTrailingZeros(b: Bytes, n: nat)
    requires n <= |b| && forall k :: n <= k < |b| ==> b[k] == 0
    ensures LeValue(b) == LeValue(b[..n])
  {
    if n > 0 {
      LeValueTrailingZeros(b[1..], n - 1);
      assert b[..n][1..] == b[1..][..n - 1];
    } else if b != [] {
      LeValueTrailingZeros(b[1..], 0);
      assert b[1..][..0] == b[..0];
    }
  }

  method ReadVarintU64(buf: Bytes, offset: nat) returns (r: Option<(nat, nat)>)
    ensures r == ReadU64(buf, offset)
  {
    if offset >= |buf| {
      return None;
    }
    var len := buf[offset];
    var word := ReadWord(buf, offset + 1, len, 8);
    if word.None? {
      return None;
    }
    return Some((word.value, offset + 1 + len));
  }

  method ReadVarintI128(buf: Bytes, offset: nat, checked: bool) returns (r: Option<(I128, nat)>)
    ensures r == ReadI128(buf, offset, checked)
  {
    if offset >= |buf| {
      return None;
    }
    var header := buf[offset];
    var len := header % 128;
    var word := ReadWord(buf, offset + 1, len, 16);
    if word.None? {
      return None;
    }
    if len <= 16 && offset + 1 + len <= |buf| { WordBound(buf[offset + 1..offset + 1 + len], 16); }
    var value: I128 := AsI128(word.value);
    if header >= 128 {
      var negated := NegateI128(value, checked);
      if negated.None? {
        return None;
      }
      value := negated.value;
    }
    return Some((value, offset + 1 + len));
  }

  method SliceBlob(buf: Bytes, offset: nat) returns (r: Option<(Bytes, nat)>)
    ensures r == ReadBlob(buf, offset)
  {
    var header := ReadVarintU64(buf, offset);
    if header.None? {
      return None;
    }
    var (blobLen, next) := header.value;
    var end := next + blobLen % U32_LIMIT;
    if end > |buf| {
      return None;
    }
    return Some((buf[next..end], end));
  }

  /** The body of the decoding loop: one tag and the value behind it. */
  method DecodeArg<A, S, T>(c: Codecs<A, S, T>, buf: Bytes, offset: nat, checked: bool) returns (r: Step<Arg<A, S, T>>)
    requires offset < |buf|
    ensures r == ReadArg(c, buf, offset, checked)
  {
    var tag, at := buf[offset], offset + 1;
    if tag == TAG_BOOL_FALSE {
      return Got(Bool(false), at);
    } else if tag == TAG_BOOL_TRUE {
      return Got(Bool(true), at);
    } else if tag == TAG_U64 {
      var v := ReadVarintU64(buf, at);
      return if v.None? then Panics else Got(U64Arg(v.value.0), v.value.1);
    } else if tag == TAG_I128 {
      var v := ReadVarintI128(buf, at, checked);
      return if v.None? then Panics else Got(I128Arg(v.value.0), v.value.1);
    } else if tag > TAG_STRING {
      return Stop;
    }
    var blob := SliceBlob(buf, at);
    if tag == TAG_ADDRESS {
      return DecodedBlob(blob, c.address.decode, (a: A) => AddressArg(a));
    } else if tag == TAG_SYMBOL {
      return DecodedBlob(blob, c.symbol.decode, (s: S) => SymbolArg(s));
    } else if tag == TAG_BYTES {
      return if blob.None? then Panics else Got(BytesArg(blob.value.0), blob.value.1);
    }
    return DecodedBlob(blob, c.str.decode, (s: T) => StringArg(s));
  }

  method UnpackArgs<A, S, T>(c: Codecs<A, S, T>, buf: Bytes, checked: bool) returns (r: Option<seq<Arg<A, S, T>>>)
    ensures r == UnpackFrom(c, buf, 0, checked)
  {
    var out: seq<Arg<A, S, T>> := [];
    var offset := 0;
    PrependedNothing(UnpackFrom(c, buf, 0, checked));
    while offset < |buf|
      invariant 0 <= offset <= |buf|
      invariant UnpackFrom(c, buf, 0, checked) == Prepended(out, UnpackFrom(c, buf, offset, checked))
    {
      var step := DecodeArg(c, buf, offset, checked);
      match step {
        case Stop =>
          assert out + [] == out;
          return Some(out);
        case Panics => return None;
        case Got(arg, next) =>
          PrependedAgain(out, arg, UnpackFrom(c, buf, next, checked));
          out := out + [arg];
          offset := next;
      }
    }
    assert out + [] == out;
    return Some(out);
  }

  lemma PrependedNothing<X>(rest: Option<seq<X>>)
    ensures Prepended([], rest) == rest
  {
    if rest.Some? { assert [] + rest.value == rest.value; }
  }

  function Prepended<X>(done: seq<X>, rest: Option<seq<X>>): Option<seq<X>> {
    match rest case None => None case Some(xs) => Some(done + xs)
  }

  lemma PrependedAgain<X>(done: seq<X>, x: X, rest: Option<seq<X>>)
    ensures rest.Some? ==> Prepended(done, Some([x] + rest.value)) == Prepended(done + [x], rest)
  {
    if rest.Some? { assert done + ([x] + rest.value) == (done + [x]) + rest.value; }
  }
}
