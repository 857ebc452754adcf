/**
 The contract-binary validator: unsigned LEB128 lengths read in double precision, and the walk over
 the sections of a WebAssembly module (sections 5.2.2 and 5.5.2 of the WebAssembly Core Specification).
 */
module WasmSections {
  import opened Common

  const WASM_MAGIC: Bytes := [0x00, 0x61, 0x73, 0x6d]
  /** The bytes of "contractspecv0". */
  const CONTRACT_SPEC: Bytes := [99, 111, 110, 116, 114, 97, 99, 116, 115, 112, 101, 99, 118, 48]

  // ----- double precision

  const EXACT_LIMIT: nat := 0x20_0000_0000_0000 // 2^53

  /** The spacing of doubles around x. */
  function Ulp(x: nat): (u: nat)
    ensures u >= 1
  {
    if x < EXACT_LIMIT then 1 else 2 * Ulp(x / 2)
  }

  /** The nearest double to a natural number, ties to even. */
  function ToDouble(x: nat): nat {
    var u := Ulp(x);
    var q, r := x / u, x % u;
    if 2 * r < u || (2 * r == u && q % 2 == 0) then q * u else (q + 1) * u
  }

  lemma {:induction false} UlpRange(x: nat)
    ensures x >= EXACT_LIMIT ==> Ulp(x) >= 2 && x >= (EXACT_LIMIT / 2) * Ulp(x)
  {
    if x >= EXACT_LIMIT {
      UlpRange(x / 2);
      var u := Ulp(x / 2);
      if x / 2 >= EXACT_LIMIT {
        assert x >= 2 * (x / 2) >= 2 * ((EXACT_LIMIT / 2) * u) == (EXACT_LIMIT / 2) * (2 * u);
      }
    }
  }

  /** The spacing is the power of two that leaves x at most 53 bits. */
  lemma {:induction false} UlpIsTight(x: nat) returns (k: nat)
    ensures Ulp(x) == PowTwo(k) && x < EXACT_LIMIT * Ulp(x)
    ensures k > 0 ==> x >= (EXACT_LIMIT / 2) * Ulp(x)
  {
    UlpRange(x);
    k := 0;
    if x >= EXACT_LIMIT {
      var j := UlpIsTight(x / 2);
      k := j + 1;
      assert EXACT_LIMIT * (2 * Ulp(x / 2)) == 2 * (EXACT_LIMIT * Ulp(x / 2));
    }
  }

  function PowTwo(k: nat): nat {
    if k == 0 then 1 else 2 * PowTwo(k - 1)
  }

  /** Rounding gives a multiple of the spacing at most half a spacing away, the even one at a tie. */
  lemma RoundingIsNearest(x: nat) returns (m: nat)
    ensures var u, d := Ulp(x), ToDouble(x);
            && d == m * u && 2 * (d - x) <= u && 2 * (x - d) <= u
            && (2 * (d - x) == u || 2 * (x - d) == u ==> m % 2 == 0)
  {
    var u := Ulp(x);
    var q, r := x / u, x % u;
    DivMod(x, u, q, r);
    m := if 2 * r < u || (2 * r == u && q % 2 == 0) then q else q + 1;
    var low, d := q * u, m * u;
    assert ToDouble(x) == d && x == low + r && d == if m == q then low else low + u;
    NearestOf(x, u, q, r, low, m, d);
  }

  lemma NearestOf(x: int, u: int, q: int, r: int, low: int, m: int, d: int)
    requires x == low + r && 0 <= r < u && d == (if m == q then low else low + u)
    requires m == if 2 * r < u || (2 * r == u && q % 2 == 0) then q else q + 1
    ensures 2 * (d - x) <= u && 2 * (x - d) <= u && (2 * (d - x) == u || 2 * (x - d) == u ==> m % 2 == 0)
  {
  }

  lemma DivMod(x: nat, u: nat, q: nat, r: nat)
    requires u >= 1 && q == x / u && r == x % u
    ensures x == q * u + r && r < u && (q + 1) * u == q * u + u
  {
  }

  lemma ExactBelowLimit(x: nat)
    requires x < EXACT_LIMIT
    ensures ToDouble(x) == x
  {
  }

  lemma LargeStaysLarge(x: nat)
    requires x >= EXACT_LIMIT
    ensures ToDouble(x) >= EXACT_LIMIT
  {
    UlpRange(x);
    WholeMultiples(x, Ulp(x));
  }

  lemma WholeMultiples(x: nat, u: nat)
    requires u >= 2 && x >= (EXACT_LIMIT / 2) * u
    ensures (x / u) * u >= EXACT_LIMIT && (x / u + 1) * u >= EXACT_LIMIT
  {
    var q, half := x / u, EXACT_LIMIT / 2;
    assert x == q * u + x % u;
    assert q < half ==> q * u <= (half - 1) * u;
    assert q * u >= half * u >= half * 2;
    assert (q + 1) * u == q * u + u;
  }

  /** Adding a rounded length to an offset and comparing with a buffer length gives the exact answer. */
  lemma RoundedEndCompares(offset: nat, v: nat, limit: nat)
    requires offset <= limit < EXACT_LIMIT
    ensures ToDouble(offset + ToDouble(v)) > limit <==> offset + v > limit
    ensures offset + v <= limit ==> ToDouble(offset + ToDouble(v)) == offset + v
  {
    if v < EXACT_LIMIT {
      ExactBelowLimit(v);
    } else {
      LargeStaysLarge(v);
    }
    var e := offset + ToDouble(v);
    if e < EXACT_LIMIT {
      ExactBelowLimit(e);
    } else {
      LargeStaysLarge(e);
    }
  }

  // ----- LEB128

  const MAX_CODE: nat := 8

  function LebValue(code: Bytes): nat {
    if code == [] then 0 else code[0] % 128 + 128 * LebValue(code[1..])
  }

  /** One to eight bytes, the continuation bit set on all but the last. */
  predicate IsLeb(code: Bytes) {
    && 1 <= |code| <= MAX_CODE
    && (forall i :: 0 <= i < |code| - 1 ==> code[i] >= 128)
    && code[|code| - 1] < 128
  }

  /** The length of the code at `offset`, of which k bytes are known to continue. */
  function LebLength(buf: Bytes, offset: nat, k: nat): (r: Option<nat>)
    ensures r.Some? ==> k < r.value <= MAX_CODE && offset + r.value <= |buf|
    decreases |buf| - (offset + k)
  {
    if k >= MAX_CODE || offset + k >= |buf| then None
    else if buf[offset + k] < 128 then Some(k + 1)
    else LebLength(buf, offset, k + 1)
  }

  lemma {:induction false} LebLengthSound(buf: Bytes, offset: nat, k: nat)
    requires offset + k <= |buf| && forall j :: offset <= j < offset + k ==> buf[j] >= 128
    ensures LebLength(buf, offset, k).Some? ==> IsLeb(buf[offset..offset + LebLength(buf, offset, k).value])
    decreases |buf| - (offset + k)
  {
    if k < MAX_CODE && offset + k < |buf| {
      if buf[offset + k] >= 128 {
        LebLengthSound(buf, offset, k + 1);
      } else {
        var code := buf[offset..offset + k + 1];
        assert forall i :: 0 <= i < k ==> code[i] == buf[offset + i];
      }
    }
  }

  lemma {:induction false} LebLengthComplete(buf: Bytes, offset: nat, code: Bytes, k: nat)
    requires IsLeb(code) && offset + |code| <= |buf| && buf[offset..offset + |code|] == code && k < |code|
    ensures LebLength(buf, offset, k) == Some(|code|)
    decreases |code| - k
  {
    assert buf[offset + k] == code[k];
    if k < |code| - 1 {
      LebLengthComplete(buf, offset, code, k + 1);
    }
  }

  /** A code starting at an offset is found exactly where it is. */
  lemma LebLengthIff(buf: Bytes, offset: nat, n: nat)
    requires offset <= |buf|
    ensures LebLength(buf, offset, 0) == Some(n) <==> offset + n <= |buf| && IsLeb(buf[offset..offset + n])
  {
    LebLengthSound(buf, offset, 0);
    if offset + n <= |buf| && IsLeb(buf[offset..offset + n]) {
      LebLengthComplete(buf, offset, buf[offset..offset + n], 0);
    }
  }

  function Pow128(k: nat): nat {
    if k == 0 then 1 else 128 * Pow128(k - 1)
  }

  lemma {:induction false} LebValueSnoc(code: Bytes, b: Byte)
    ensures LebValue(code + [b]) == LebValue(code) + (b % 128) * Pow128(|code|)
  {
    if code == [] {
      assert LebValue([b]) == b % 128 + 128 * LebValue([]);
    } else {
      LebValueSnoc(code[1..], b);
      assert (code + [b])[1..] == code[1..] + [b];
      var p, d := Pow128(|code| - 1), b % 128;
      assert 128 * (d * p) == d * (128 * p);
    }
  }

  lemma {:induction false} LebValueBound(code: Bytes)
    ensures LebValue(code) < Pow128(|code|)
  {
    if code != [] { LebValueBound(code[1..]); }
  }

  lemma SevenGroupsExact(code: Bytes)
    requires |code| <= 7
    ensures LebValue(code) < EXACT_LIMIT
  {
    LebValueBound(code);
    Pow128Monotone(|code|, 7);
    assert Pow128(3) == 128 * (128 * Pow128(1));
    assert Pow128(5) == 128 * (128 * Pow128(3));
    assert Pow128(7) == 128 * (128 * Pow128(5));
  }

  lemma {:induction false} Pow128Monotone(m: nat, n: nat)
    requires m <= n
    ensures Pow128(m) <= Pow128(n)
  {
    if m < n { Pow128Monotone(m, n - 1); }
  }

  /** Up to seven groups the running value is exact, and the next group adds its weight to it. */
  lemma LebStep(buf: Bytes, offset: nat, at: nat)
    requires offset <= at < |buf|
    ensures LebValue(buf[offset..at + 1]) == LebValue(buf[offset..at]) + (buf[at] % 128) * Pow128(at - offset)
    ensures at + 1 - offset <= 7 ==> ToDouble(LebValue(buf[offset..at + 1])) == LebValue(buf[offset..at + 1])
  {
    var code := buf[offset..at];
    assert buf[offset..at + 1] == code + [buf[at]];
    LebValueSnoc(code, buf[at]);
    if at + 1 - offset <= 7 {
      SevenGroupsExact(buf[offset..at + 1]);
      ExactBelowLimit(LebValue(buf[offset..at + 1]));
    }
  }

  method ReadUnsignedLeb128(buf: Bytes, offset: nat) returns (r: Option<(nat, nat)>)
    ensures r.Some? <==> LebLength(buf, offset, 0).Some?
    ensures r.Some? ==>
              var n := LebLength(buf, offset, 0).value;
              r.value == (ToDouble(LebValue(buf[offset..offset + n])), offset + n)
  {
    var value, shift, at := 0, 0, offset;
    ghost var k := 0;
    while at < |buf| && shift <= 49
      invariant 0 <= k <= MAX_CODE && shift == 7 * k && at == offset + k
      invariant k > 0 ==> at <= |buf|
      invariant 0 < k <= 7 ==> value == LebValue(buf[offset..at])
      invariant k == 0 ==> value == 0
      invariant LebLength(buf, offset, 0) == LebLength(buf, offset, k)
      decreases |buf| - at
    {
      var byte := buf[at];
      LebStep(buf, offset, at);
      // a power-of-two multiple of seven bits is exact; only the sum can round
      value := ToDouble(value + (byte % 128) * Pow128(shift / 7));
      at := at + 1;
      k := k + 1;
      if byte < 128 {
        return Some((value, at));
      }
      shift := shift + 7;
    }
    return None;
  }

  // ----- reading back an encoded length

  /** The minimal encoding. */
  function LebEncode(v: nat): (code: Bytes)
    ensures |code| >= 1
  {
    if v < 128 then [v] else [128 + v % 128] + LebEncode(v / 128)
  }

  lemma {:induction false} LebEncodeValue(v: nat)
    ensures LebValue(LebEncode(v)) == v
  {
    if v < 128 {
      assert LebEncode(v)[1..] == [];
    } else {
      LebEncodeValue(v / 128);
      assert LebEncode(v)[1..] == LebEncode(v / 128);
    }
  }

  lemma {:induction false} LebEncodeBits(v: nat)
    ensures LebEncode(v)[|LebEncode(v)| - 1] < 128
    ensures forall i :: 0 <= i < |LebEncode(v)| - 1 ==> LebEncode(v)[i] >= 128
  {
    if v >= 128 {
      var code, rest := LebEncode(v), LebEncode(v / 128);
      LebEncodeBits(v / 128);
      forall i | 0 <= i < |code| - 1 ensures code[i] >= 128 {
        if i > 0 { assert code[i] == rest[i - 1]; }
      }
    }
  }

  lemma {:induction false} LebEncodeLength(v: nat, k: nat)
    requires k >= 1 && v < Pow128(k)
    ensures |LebEncode(v)| <= k
    decreases k
  {
    if v >= 128 {
      assert Pow128(k) == 128 * Pow128(k - 1);
      if k > 1 { LebEncodeLength(v / 128, k - 1); }
    }
  }

  /**
   Every length below 2^56 is read back as the nearest double, hence exactly if and only if it is a
   multiple of the spacing of doubles around it; in particular every length below 2^53.
   */
  lemma LebRoundTrip(pre: Bytes, v: nat, post: Bytes)
    requires v < Pow128(MAX_CODE)
    ensures var buf, code := pre + LebEncode(v) + post, LebEncode(v);
            && LebLength(buf, |pre|, 0) == Some(|code|)
            && LebValue(buf[|pre|..|pre| + |code|]) == v
    ensures ToDouble(v) == v <==> v % Ulp(v) == 0
    ensures v < EXACT_LIMIT ==> ToDouble(v) == v
  {
    ExactIffMultiple(v, Ulp(v));
    var buf, code := pre + LebEncode(v) + post, LebEncode(v);
    LebEncodeLength(v, MAX_CODE);
    LebEncodeValue(v);
    LebEncodeBits(v);
    assert buf[|pre|..|pre| + |code|] == code;
    LebLengthComplete(buf, |pre|, code, 0);
  }

  lemma ExactIffMultiple(x: nat, u: nat)
    requires u >= 1
    ensures (x / u) * u == x <==> x % u == 0
    ensures (x / u + 1) * u != x
  {
    assert x == (x / u) * u + x % u;
    assert (x / u + 1) * u == (x / u) * u + u;
  }

  /** 2^53 + 1 is below 2^56 and is not read back exactly. */
  lemma LebRoundsAboveLimit()
    ensures EXACT_LIMIT + 1 < Pow128(MAX_CODE) && ToDouble(EXACT_LIMIT + 1) == EXACT_LIMIT
  {
    assert Pow128(2) == 128 * Pow128(1) == 128 * (128 * Pow128(0));
    assert Pow128(4) == 128 * (128 * Pow128(2));
    assert Pow128(6) == 128 * (128 * Pow128(4));
    assert Pow128(8) == 128 * (128 * Pow128(6));
    assert Ulp(EXACT_LIMIT + 1) == 2 * Ulp(EXACT_LIMIT / 2);
  }

  // ----- sections

  /** A section of the module grammar; a custom section opens with a length-prefixed name. */
  datatype Section =
    | Plain(id: Byte, size: Bytes, payload: Bytes)
    | Custom(size: Bytes, nameLength: Bytes, name: Bytes, content: Bytes)
  {
    function Payload(): Bytes {
      match this
      case Plain(_, _, p) => p
      case Custom(_, l, n, c) => l + n + c
    }

    function Tag(): Byte {
      if Plain? then id else 0
    }

    function Encode(): (e: Bytes)
      ensures |e| == 1 + |size| + |Payload()|
    {
      [Tag()] + size + Payload()
    }

    predicate WellFormed(spec: Bytes) {
      && IsLeb(size) && LebValue(size) == |Payload()|
      && match this
         case Plain(id, _, _) => id != 0
         case Custom(_, l, n, c) =>
           IsLeb(l) && LebValue(l) == |n| && !(n == spec && c == [])
    }
  }

  function Flatten(sections: seq<Section>): Bytes {
    if sections == [] then [] else sections[0].Encode() + Flatten(sections[1..])
  }

  predicate AllWellFormed(spec: Bytes, sections: seq<Section>) {
    forall i :: 0 <= i < |sections| ==> sections[i].WellFormed(spec)
  }

  predicate HasHeader(wasm: Bytes) {
    |wasm| >= 8 && wasm[..4] == WASM_MAGIC
  }

  /** A concatenation of well-formed sections, where a custom section named `spec` must not be empty. */
  ghost predicate IsFlat(spec: Bytes, b: Bytes) {
    exists sections :: AllWellFormed(spec, sections) && Flatten(sections) == b
  }

  ghost predicate IsModule(spec: Bytes, wasm: Bytes) {
    HasHeader(wasm) && IsFlat(spec, wasm[8..])
  }

  datatype Verdict =
    | Accepted
    | InvalidWasm
    | BadSectionSize
    | SectionOutOfBounds
    | BadNameLength
    | NameOutOfBounds
    | EmptyContractSpec

  datatype SectionScan = Next(offset: nat) | Reject(verdict: Verdict)

  /** One round of the walk, over exact numbers. */
  function ScanCustom(spec: Bytes, wasm: Bytes, start: nat, end: nat): SectionScan
    requires start <= end <= |wasm|
  {
    match LebLength(wasm, start, 0)
    case None => Reject(BadNameLength)
    case Some(n) =>
      var nameStart := start + n;
      var nameEnd := nameStart + LebValue(wasm[start..nameStart]);
      if nameEnd > end then Reject(NameOutOfBounds)
      else if wasm[nameStart..nameEnd] == spec && nameEnd == end then Reject(EmptyContractSpec)
      else Next(end)
  }

  function ScanSection(spec: Bytes, wasm: Bytes, offset: nat): (r: SectionScan)
    requires offset < |wasm|
    ensures r.Next? ==> offset < r.offset <= |wasm|
    ensures r.Reject? ==> !r.verdict.Accepted? && !r.verdict.InvalidWasm?
  {
    match LebLength(wasm, offset + 1, 0)
    case None => Reject(BadSectionSize)
    case Some(n) =>
      ScanSized(spec, wasm, offset, offset + 1 + n, LebValue(wasm[offset + 1..offset + 1 + n]))
  }

  function ScanSized(spec: Bytes, wasm: Bytes, offset: nat, start: nat, size: nat): (r: SectionScan)
    requires offset < start <= |wasm|
    ensures r.Next? ==> offset < r.offset <= |wasm|
    ensures r.Reject? ==> !r.verdict.Accepted? && !r.verdict.InvalidWasm?
  {
    if start + size > |wasm| then Reject(SectionOutOfBounds)
    else if wasm[offset] == 0 then ScanCustom(spec, wasm, start, start + size)
    else Next(start + size)
  }

  lemma JoinParts(wasm: Bytes, offset: nat, start: nat, end: nat)
    requires offset < start <= end <= |wasm|
    ensures wasm[offset..end] == [wasm[offset]] + wasm[offset + 1..start] + wasm[start..end]
  {
  }

  /** A section that scans is a well-formed section of the grammar. */
  lemma ScannedSection(spec: Bytes, wasm: Bytes, offset: nat) returns (s: Section)
    requires offset < |wasm| && ScanSection(spec, wasm, offset).Next?
    ensures s.WellFormed(spec) && s.Encode() == wasm[offset..ScanSection(spec, wasm, offset).offset]
  {
    var start, end := ScannedParts(spec, wasm, offset);
    if wasm[offset] == 0 {
      s := ScannedCustom(spec, wasm, start, end, wasm[offset + 1..start]);
    } else {
      s := ScannedPlain(spec, wasm, offset, start, end);
    }
    JoinParts(wasm, offset, start, end);
  }

  /** Where the payload of a section that scans starts and ends. */
  lemma ScannedParts(spec: Bytes, wasm: Bytes, offset: nat) returns (start: nat, end: nat)
    requires offset < |wasm| && ScanSection(spec, wasm, offset).Next?
    ensures offset < start <= end <= |wasm| && end == ScanSection(spec, wasm, offset).offset
    ensures IsLeb(wasm[offset + 1..start]) && LebValue(wasm[offset + 1..start]) == end - start
    ensures wasm[offset] == 0 ==> ScanCustom(spec, wasm, start, end).Next?
  {
    var n := LebLength(wasm, offset + 1, 0).value;
    LebLengthIff(wasm, offset + 1, n);
    start := offset + 1 + n;
    end := start + LebValue(wasm[offset + 1..start]);
  }

  lemma ScannedPlain(spec: Bytes, wasm: Bytes, offset: nat, start: nat, end: nat) returns (s: Section)
    requires offset < start <= end <= |wasm| && wasm[offset] != 0
    requires IsLeb(wasm[offset + 1..start]) && LebValue(wasm[offset + 1..start]) == end - start
    ensures s.WellFormed(spec) && s.Encode() == [wasm[offset]] + wasm[offset + 1..start] + wasm[start..end]
  {
    s := Plain(wasm[offset], wasm[offset + 1..start], wasm[start..end]);
  }

  lemma ScannedCustom(spec: Bytes, wasm: Bytes, start: nat, end: nat, size: Bytes) returns (s: Section)
    requires start <= end <= |wasm| && ScanCustom(spec, wasm, start, end).Next?
    requires IsLeb(size) && LebValue(size) == end - start
    ensures s.Custom? && s.size == size && s.WellFormed(spec) && s.Payload() == wasm[start..end]
  {
    var m := LebLength(wasm, start, 0).value;
    var nameStart := start + m;
    var code := wasm[start..nameStart];
    var nameEnd := nameStart + LebValue(code);
    LebLengthIff(wasm, start, m);
    s := Custom(size, code, wasm[nameStart..nameEnd], wasm[nameEnd..end]);
    ThreeSlices(wasm, start, nameStart, nameEnd, end);
  }

  lemma ThreeSlices(wasm: Bytes, a: nat, b: nat, c: nat, d: nat)
    requires a <= b <= c <= d <= |wasm|
    ensures wasm[a..d] == wasm[a..b] + wasm[b..c] + wasm[c..d]
  {
  }

  /** A well-formed section at an offset scans, and the walk goes on right behind it. */
  lemma SectionScans(spec: Bytes, wasm: Bytes, offset: nat, s: Section)
    requires s.WellFormed(spec) && offset + |s.Encode()| <= |wasm|
    requires wasm[offset..offset + |s.Encode()|] == s.Encode()
    ensures offset < |wasm| && ScanSection(spec, wasm, offset) == Next(offset + |s.Encode()|)
  {
    SectionParts(wasm, offset, s.Tag(), s.size, s.Payload());
    LebLengthComplete(wasm, offset + 1, s.size, 0);
    var start := offset + 1 + |s.size|;
    if s.Custom? {
      CustomScans(spec, wasm, start, start + |s.Payload()|, s);
    }
    assert ScanSized(spec, wasm, offset, start, |s.Payload()|) == Next(start + |s.Payload()|);
  }

  lemma SectionParts(wasm: Bytes, offset: nat, tag: Byte, size: Bytes, payload: Bytes)
    requires offset + 1 + |size| + |payload| <= |wasm|
    requires wasm[offset..offset + 1 + |size| + |payload|] == [tag] + size + payload
    ensures wasm[offset] == tag
    ensures wasm[offset + 1..offset + 1 + |size|] == size
    ensures wasm[offset + 1 + |size|..offset + 1 + |size| + |payload|] == payload
  {
    var e := [tag] + size + payload;
    SubSlice(wasm, offset, e, 0, 1);
    SubSlice(wasm, offset, e, 1, 1 + |size|);
    SubSlice(wasm, offset, e, 1 + |size|, |e|);
    assert wasm[offset..offset + 1][0] == wasm[offset];
  }

  lemma SubSlice(wasm: Bytes, offset: nat, e: Bytes, i: nat, j: nat)
    requires offset + |e| <= |wasm| && wasm[offset..offset + |e|] == e && i <= j <= |e|
    ensures wasm[offset + i..offset + j] == e[i..j]
  {
    forall k | 0 <= k < j - i ensures wasm[offset + i..offset + j][k] == e[i..j][k] {
      assert e[i + k] == wasm[offset..offset + |e|][i + k] == wasm[offset + i + k];
    }
  }

  lemma CustomScans(spec: Bytes, wasm: Bytes, start: nat, end: nat, s: Section)
    requires s.Custom? && s.WellFormed(spec) && start <= end <= |wasm| && wasm[start..end] == s.Payload()
    ensures ScanCustom(spec, wasm, start, end) == Next(end)
  {
    var p := s.Payload();
    var a, b := |s.nameLength|, |s.nameLength| + |s.name|;
    SubSlice(wasm, start, p, 0, a);
    assert p[..a] == s.nameLength;
    LebLengthComplete(wasm, start, s.nameLength, 0);
    SubSlice(wasm, start, p, a, b);
    assert p[a..b] == s.name;
  }

  lemma TailSplits(wasm: Bytes, offset: nat, next: nat)
    requires offset <= next <= |wasm|
    ensures wasm[offset..] == wasm[offset..next] + wasm[next..]
  {
  }

  lemma TailParts(wasm: Bytes, offset: nat, e: Bytes, tail: Bytes)
    requires offset <= |wasm| && wasm[offset..] == e + tail
    ensures offset + |e| <= |wasm| && wasm[offset..offset + |e|] == e && wasm[offset + |e|..] == tail
  {
    assert wasm[offset..offset + |e|] == wasm[offset..][..|e|];
    assert wasm[offset + |e|..] == wasm[offset..][|e|..];
  }

  lemma FlattenCons(spec: Bytes, s: Section, rest: seq<Section>)
    requires s.WellFormed(spec) && AllWellFormed(spec, rest)
    ensures AllWellFormed(spec, [s] + rest) && Flatten([s] + rest) == s.Encode() + Flatten(rest)
  {
    assert ([s] + rest)[1..] == rest;
  }

  lemma {:induction false} FlattenSnoc(sections: seq<Section>, s: Section)
    ensures Flatten(sections + [s]) == Flatten(sections) + s.Encode()
  {
    if sections == [] {
      assert Flatten([s]) == s.Encode() + Flatten([]);
    } else {
      FlattenSnoc(sections[1..], s);
      assert (sections + [s])[1..] == sections[1..] + [s];
      Associative(sections[0].Encode(), Flatten(sections[1..]), s.Encode());
    }
  }

  lemma Associative(a: Bytes, b: Bytes, c: Bytes)
    ensures a + (b + c) == a + b + c
  {
  }

  lemma SliceJoins(wasm: Bytes, i: nat, j: nat, k: nat)
    requires i <= j <= k <= |wasm|
    ensures wasm[i..k] == wasm[i..j] + wasm[j..k]
  {
  }

  lemma AppendWellFormed(spec: Bytes, sections: seq<Section>, s: Section)
    requires AllWellFormed(spec, sections) && s.WellFormed(spec)
    ensures AllWellFormed(spec, sections + [s])
  {
  }

  /** Sections left to walk: the first of them scans, and the others lie behind it. */
  lemma FirstOfFlat(spec: Bytes, wasm: Bytes, offset: nat)
    requires offset < |wasm| && IsFlat(spec, wasm[offset..])
    ensures ScanSection(spec, wasm, offset).Next?
    ensures IsFlat(spec, wasm[ScanSection(spec, wasm, offset).offset..])
  {
    var sections: seq<Section> :| AllWellFormed(spec, sections) && Flatten(sections) == wasm[offset..];
    assert sections != [];
    FirstScans(spec, wasm, offset, sections[0], sections[1..]);
  }

  lemma FirstScans(spec: Bytes, wasm: Bytes, offset: nat, s: Section, rest: seq<Section>)
    requires offset < |wasm| && s.WellFormed(spec) && AllWellFormed(spec, rest)
    requires wasm[offset..] == s.Encode() + Flatten(rest)
    ensures ScanSection(spec, wasm, offset).Next?
    ensures IsFlat(spec, wasm[ScanSection(spec, wasm, offset).offset..])
  {
    TailParts(wasm, offset, s.Encode(), Flatten(rest));
    SectionScans(spec, wasm, offset, s);
  }

  /** Walking past a section does not change whether the remainder is made of sections. */
  lemma WalkKeepsFlat(spec: Bytes, wasm: Bytes, offset: nat)
    requires offset < |wasm| && ScanSection(spec, wasm, offset).Next?
    ensures IsFlat(spec, wasm[offset..]) <==> IsFlat(spec, wasm[ScanSection(spec, wasm, offset).offset..])
  {
    var next := ScanSection(spec, wasm, offset).offset;
    if IsFlat(spec, wasm[next..]) {
      var rest :| AllWellFormed(spec, rest) && Flatten(rest) == wasm[next..];
      var s := ScannedSection(spec, wasm, offset);
      FlattenCons(spec, s, rest);
      TailSplits(wasm, offset, next);
    }
    if IsFlat(spec, wasm[offset..]) { FirstOfFlat(spec, wasm, offset); }
  }

  /** A length code lies at the offset. */
  ghost predicate CodeAt(wasm: Bytes, offset: nat, code: Bytes) {
    offset + |code| <= |wasm| && wasm[offset..offset + |code|] == code && IsLeb(code)
  }

  /** The section at the offset has this size code. */
  ghost predicate SizeCodeAt(wasm: Bytes, offset: nat, size: Bytes) {
    CodeAt(wasm, offset + 1, size)
  }

  /** Where the payload of a section with this size code ends. */
  function SectionEnd(offset: nat, size: Bytes): nat {
    offset + 1 + |size| + LebValue(size)
  }

  /** The payload starts with this name length code. */
  ghost predicate NameCodeAt(wasm: Bytes, offset: nat, size: Bytes, code: Bytes) {
    CodeAt(wasm, offset + 1 + |size|, code)
  }

  /** The payload is the code and the name, and nothing else. */
  ghost predicate NameFills(wasm: Bytes, offset: nat, size: Bytes, code: Bytes, name: Bytes) {
    SectionEnd(offset, size) <= |wasm| && wasm[offset + 1 + |size|..SectionEnd(offset, size)] == code + name
  }

  /** What is wrong with the name of a custom section whose payload lies within the module. */
  ghost predicate NameFault(spec: Bytes, wasm: Bytes, offset: nat, size: Bytes, verdict: Verdict) {
    match verdict
    case BadNameLength => forall code :: !NameCodeAt(wasm, offset, size, code)
    case NameOutOfBounds =>
      exists code :: NameCodeAt(wasm, offset, size, code) && |code| + LebValue(code) > LebValue(size)
    case EmptyContractSpec =>
      exists code :: NameCodeAt(wasm, offset, size, code) && LebValue(code) == |spec| && NameFills(wasm, offset, size, code, spec)
    case _ => false
  }

  /** What is wrong with the section at an offset, told from its bytes. */
  ghost predicate Fault(spec: Bytes, wasm: Bytes, offset: nat, verdict: Verdict)
    requires offset < |wasm|
  {
    match verdict
    case BadSectionSize => forall size :: !SizeCodeAt(wasm, offset, size)
    case SectionOutOfBounds => exists size :: SizeCodeAt(wasm, offset, size) && SectionEnd(offset, size) > |wasm|
    case _ =>
      && wasm[offset] == 0
      && exists size :: SizeCodeAt(wasm, offset, size) && SectionEnd(offset, size) <= |wasm|
                        && NameFault(spec, wasm, offset, size, verdict)
  }

  /** A code at an offset is the one that the reader finds there. */
  lemma CodeAtIff(wasm: Bytes, offset: nat, code: Bytes)
    requires offset <= |wasm|
    ensures CodeAt(wasm, offset, code) <==>
            LebLength(wasm, offset, 0) == Some(|code|) && code == wasm[offset..offset + |code|]
  {
    LebLengthIff(wasm, offset, |code|);
  }

  /** The reader finds no code exactly where there is none, and the only one where there is one. */
  lemma CodeFound(wasm: Bytes, offset: nat)
    requires offset <= |wasm|
    ensures LebLength(wasm, offset, 0).None? <==> forall code :: !CodeAt(wasm, offset, code)
    ensures var n := LebLength(wasm, offset, 0);
            n.Some? ==> forall code :: CodeAt(wasm, offset, code) <==> code == wasm[offset..offset + n.value]
  {
    var n := LebLength(wasm, offset, 0);
    forall code ensures CodeAt(wasm, offset, code) <==>
                        n == Some(|code|) && code == wasm[offset..offset + |code|] {
      CodeAtIff(wasm, offset, code);
    }
    if n.Some? {
      var code := wasm[offset..offset + n.value];
      assert |code| == n.value;
      assert CodeAt(wasm, offset, code);
    }
  }

  /** The walk rejects a section with a verdict exactly if that is its fault. */
  lemma FaultIff(spec: Bytes, wasm: Bytes, offset: nat, verdict: Verdict)
    requires offset < |wasm|
    ensures ScanSection(spec, wasm, offset) == Reject(verdict) <==> Fault(spec, wasm, offset, verdict)
  {
    CodeFound(wasm, offset + 1);
    var n := LebLength(wasm, offset + 1, 0);
    if n.Some? {
      var size := wasm[offset + 1..offset + 1 + n.value];
      assert |size| == n.value && SizeCodeAt(wasm, offset, size);
      assert forall code :: SizeCodeAt(wasm, offset, code) ==> code == size;
      FaultOfSized(spec, wasm, offset, size, verdict);
    } else {
      assert forall code :: !SizeCodeAt(wasm, offset, code);
    }
  }

  lemma FaultOfSized(spec: Bytes, wasm: Bytes, offset: nat, size: Bytes, verdict: Verdict)
    requires offset < |wasm| && SizeCodeAt(wasm, offset, size)
    requires forall code :: SizeCodeAt(wasm, offset, code) ==> code == size
    ensures ScanSized(spec, wasm, offset, offset + 1 + |size|, LebValue(size)) == Reject(verdict) <==>
            Fault(spec, wasm, offset, verdict)
  {
    if wasm[offset] == 0 && SectionEnd(offset, size) <= |wasm| {
      NameFaultIff(spec, wasm, offset, size, verdict);
    }
  }

  lemma NameFaultIff(spec: Bytes, wasm: Bytes, offset: nat, size: Bytes, verdict: Verdict)
    requires SizeCodeAt(wasm, offset, size) && SectionEnd(offset, size) <= |wasm|
    ensures ScanCustom(spec, wasm, offset + 1 + |size|, SectionEnd(offset, size)) == Reject(verdict) <==>
            NameFault(spec, wasm, offset, size, verdict)
  {
    var start := offset + 1 + |size|;
    CodeFound(wasm, start);
    var m := LebLength(wasm, start, 0);
    if m.None? {
      forall code ensures !NameCodeAt(wasm, offset, size, code) { assert !CodeAt(wasm, start, code); }
    } else {
      var code := wasm[start..start + m.value];
      assert |code| == m.value && CodeAt(wasm, start, code);
      forall x | NameCodeAt(wasm, offset, size, x) ensures x == code { assert CodeAt(wasm, start, x); }
      NameFaultOfCode(spec, wasm, offset, size, code, verdict);
    }
  }

  lemma NameFaultOfCode(spec: Bytes, wasm: Bytes, offset: nat, size: Bytes, code: Bytes, verdict: Verdict)
    requires SectionEnd(offset, size) <= |wasm| && NameCodeAt(wasm, offset, size, code)
    requires LebLength(wasm, offset + 1 + |size|, 0) == Some(|code|)
    requires forall x :: NameCodeAt(wasm, offset, size, x) ==> x == code
    ensures ScanCustom(spec, wasm, offset + 1 + |size|, SectionEnd(offset, size)) == Reject(verdict) <==>
            NameFault(spec, wasm, offset, size, verdict)
  {
    NameFillsIff(spec, wasm, offset, size, code);
    OnlyNameCode(spec, wasm, offset, size, code, verdict);
    ScanOfCode(spec, wasm, offset + 1 + |size|, SectionEnd(offset, size), code);
  }

  /** With a single name code the fault is decided by that code. */
  lemma OnlyNameCode(spec: Bytes, wasm: Bytes, offset: nat, size: Bytes, code: Bytes, verdict: Verdict)
    requires NameCodeAt(wasm, offset, size, code) && forall x :: NameCodeAt(wasm, offset, size, x) ==> x == code
    ensures NameFault(spec, wasm, offset, size, verdict) <==>
            match verdict
            case NameOutOfBounds => |code| + LebValue(code) > LebValue(size)
            case EmptyContractSpec => LebValue(code) == |spec| && NameFills(wasm, offset, size, code, spec)
            case _ => false
  {
  }

  /** What the scan of a custom section does once the name code is known. */
  lemma ScanOfCode(spec: Bytes, wasm: Bytes, start: nat, end: nat, code: Bytes)
    requires start <= end <= |wasm| && LebLength(wasm, start, 0) == Some(|code|) && CodeAt(wasm, start, code)
    ensures var nameStart := start + |code|;
            var nameEnd := nameStart + LebValue(code);
            ScanCustom(spec, wasm, start, end) ==
            if nameEnd > end then Reject(NameOutOfBounds)
            else if wasm[nameStart..nameEnd] == spec && nameEnd == end then Reject(EmptyContractSpec)
            else Next(end)
  {
  }

  lemma NameFillsIff(spec: Bytes, wasm: Bytes, offset: nat, size: Bytes, code: Bytes)
    requires SectionEnd(offset, size) <= |wasm| && NameCodeAt(wasm, offset, size, code)
    ensures var nameStart, end := offset + 1 + |size| + |code|, SectionEnd(offset, size);
            var nameEnd := nameStart + LebValue(code);
            LebValue(code) == |spec| && NameFills(wasm, offset, size, code, spec) <==>
            nameEnd == end && wasm[nameStart..nameEnd] == spec
  {
    var start, nameStart, end := offset + 1 + |size|, offset + 1 + |size| + |code|, SectionEnd(offset, size);
    if nameStart <= end { BehindCode(wasm, start, nameStart, end, code, spec); }
  }

  lemma BehindCode(wasm: Bytes, a: nat, b: nat, c: nat, code: Bytes, name: Bytes)
    requires a <= b <= c <= |wasm| && wasm[a..b] == code
    ensures wasm[a..c] == code + name <==> wasm[b..c] == name
  {
    SliceJoins(wasm, a, b, c);
    if wasm[a..c] == code + name {
      assert wasm[b..c] == (code + wasm[b..c])[|code|..] == (code + name)[|code|..] == name;
    }
  }

  /** The well-formed sections before `offset` have been walked, and the one there has this fault. */
  ghost predicate RejectedAt(spec: Bytes, wasm: Bytes, walked: seq<Section>, verdict: Verdict) {
    && AllWellFormed(spec, walked) && 8 + |Flatten(walked)| < |wasm|
    && wasm[8..8 + |Flatten(walked)|] == Flatten(walked)
    && Fault(spec, wasm, 8 + |Flatten(walked)|, verdict)
  }

  method WalkModule(spec: Bytes, wasm: Bytes) returns (r: Verdict)
    requires |wasm| < EXACT_LIMIT
    ensures r.Accepted? <==> IsModule(spec, wasm)
    ensures r.InvalidWasm? <==> !HasHeader(wasm)
    ensures !r.Accepted? && !r.InvalidWasm? ==> exists walked :: RejectedAt(spec, wasm, walked, r)
  {
    if |wasm| < 8 || wasm[..4] != WASM_MAGIC {
      return InvalidWasm;
    }
    var offset := 8;
    ghost var walked: seq<Section> := [];
    while offset < |wasm|
      invariant 8 <= offset <= |wasm|
      invariant IsFlat(spec, wasm[offset..]) <==> IsFlat(spec, wasm[8..])
      invariant AllWellFormed(spec, walked) && wasm[8..offset] == Flatten(walked)
      decreases |wasm| - offset
    {
      var step := WalkSection(spec, wasm, offset);
      if step.Reject? {
        if IsFlat(spec, wasm[offset..]) { FirstOfFlat(spec, wasm, offset); }
        FaultIff(spec, wasm, offset, step.verdict);
        assert RejectedAt(spec, wasm, walked, step.verdict);
        return step.verdict;
      }
      WalkKeepsFlat(spec, wasm, offset);
      walked := WalkedFurther(spec, wasm, offset, walked);
      offset := step.offset;
    }
    NothingIsFlat(spec);
    assert wasm[offset..] == [];
    return Accepted;
  }

  lemma NothingIsFlat(spec: Bytes)
    ensures IsFlat(spec, [])
  {
    assert AllWellFormed(spec, []) && Flatten([]) == [];
  }

  lemma WalkedFurther(spec: Bytes, wasm: Bytes, offset: nat, walked: seq<Section>) returns (more: seq<Section>)
    requires 8 <= offset < |wasm| && ScanSection(spec, wasm, offset).Next?
    requires AllWellFormed(spec, walked) && wasm[8..offset] == Flatten(walked)
    ensures AllWellFormed(spec, more) && wasm[8..ScanSection(spec, wasm, offset).offset] == Flatten(more)
  {
    var next := ScanSection(spec, wasm, offset).offset;
    var s := ScannedSection(spec, wasm, offset);
    FlattenSnoc(walked, s);
    AppendWellFormed(spec, walked, s);
    SliceJoins(wasm, 8, offset, next);
    more := walked + [s];
  }

  /** Accepts exactly the modules of the grammar whose contractspecv0 sections are not empty. */
  method ValidateWasm(wasm: Bytes) returns (r: Verdict)
    requires |wasm| < EXACT_LIMIT
    ensures r.Accepted? <==> IsModule(CONTRACT_SPEC, wasm)
    ensures r.InvalidWasm? <==> !HasHeader(wasm)
    ensures !r.Accepted? && !r.InvalidWasm? ==> exists walked :: RejectedAt(CONTRACT_SPEC, wasm, walked, r)
  {
    r := WalkModule(CONTRACT_SPEC, wasm);
  }

  /** The loop body: a section id, its size and, for a custom section, its name. */
  method WalkSection(spec: Bytes, wasm: Bytes, offset: nat) returns (r: SectionScan)
    requires offset < |wasm| < EXACT_LIMIT
    ensures r == ScanSection(spec, wasm, offset)
  {
    var sectionId := wasm[offset];
    var size := ReadUnsignedLeb128(wasm, offset + 1);
    if size.None? {
      return Reject(BadSectionSize);
    }
    var start := size.value.1;
    var sectionEnd := ToDouble(start + size.value.0);
    RoundedEndCompares(start, LebValue(wasm[offset + 1..start]), |wasm|);
    if sectionEnd > |wasm| {
      return Reject(SectionOutOfBounds);
    }
    if sectionId == 0 {
      r := WalkCustom(spec, wasm, start, sectionEnd);
      return;
    }
    return Next(sectionEnd);
  }

  method WalkCustom(spec: Bytes, wasm: Bytes, start: nat, sectionEnd: nat) returns (r: SectionScan)
    requires start <= sectionEnd <= |wasm| < EXACT_LIMIT
    ensures r == ScanCustom(spec, wasm, start, sectionEnd)
  {
    var nameLength := ReadUnsignedLeb128(wasm, start);
    if nameLength.None? {
      return Reject(BadNameLength);
    }
    var nameStart := nameLength.value.1;
    var nameEnd := ToDouble(nameStart + nameLength.value.0);
    RoundedEndCompares(nameStart, LebValue(wasm[start..nameStart]), |wasm|);
    if nameEnd > sectionEnd {
      return Reject(NameOutOfBounds);
    }
    if wasm[nameStart..nameEnd] == spec && nameEnd == sectionEnd {
      return Reject(EmptyContractSpec);
    }
    return Next(sectionEnd);
  }
}
