/**
 The threshold-decryption context: a key buffer is read as a hexadecimal number, split into node
 shares, and rebuilt as a 32-byte buffer from the shares of the participating nodes.
 */
module ThresholdContext {
  import opened Common
  import opened PrimeField
  import opened Polynomial
  import opened Shamir

  const SHAMIR_PRIME: int :=
    115792089237316195423570985008687907853269984665640564039457584007913129639747

  const KEY_DIGITS: nat := 64

  // ----- positional notation

  /** Big-endian value of a digit string. */
  function Value(base: nat, digits: seq<int>): int {
    if digits == [] then 0
    else Value(base, digits[..|digits| - 1]) * base + digits[|digits| - 1]
  }

  ghost predicate IsDigits(base: int, digits: seq<int>) {
    forall i :: 0 <= i < |digits| ==> 0 <= digits[i] < base
  }

  /** Minimal hexadecimal digits of n, as `toString(16)` prints them. */
  function ToHex(n: nat): (d: seq<int>)
    ensures d != [] && IsDigits(16, d)
  {
    if n < 16 then [n] else ToHex(n / 16) + [n % 16]
  }

  function PadStart(d: seq<int>, width: nat): (r: seq<int>)
    ensures |r| == if |d| < width then width else |d|
  {
    if |d| < width then seq(width - |d|, i => 0) + d else d
  }

  /** Two digits per byte; a trailing odd digit is dropped. */
  function HexToBytes(d: seq<int>): (b: seq<Byte>)
    requires IsDigits(16, d)
    ensures |b| == |d| / 2
  {
    if |d| < 2 then [] else [16 * d[0] + d[1]] + HexToBytes(d[2..])
  }

  function BytesToHex(b: seq<Byte>): (d: seq<int>)
    ensures |d| == 2 * |b| && IsDigits(16, d)
  {
    if b == [] then [] else [b[0] / 16, b[0] % 16] + BytesToHex(b[1..])
  }

  /** The number a key buffer stands for. */
  function KeyNumber(key: seq<Byte>): int {
    Value(16, BytesToHex(key))
  }

  /** The buffer is read big-endian. */
  lemma KeyNumberBigEndian(key: seq<Byte>, b: Byte)
    ensures KeyNumber([]) == 0 && KeyNumber(key + [b]) == 256 * KeyNumber(key) + b
  {
    HexOfLast(key, b);
    var d, e := BytesToHex(key), BytesToHex(key) + [b / 16];
    assert e[..|d|] == d && (e + [b % 16])[..|e|] == e;
    assert Value(16, e + [b % 16]) == Value(16, e) * 16 + b % 16 && Value(16, e) == Value(16, d) * 16 + b / 16;
  }

  lemma {:induction false} HexOfLast(key: seq<Byte>, b: Byte)
    ensures BytesToHex(key + [b]) == BytesToHex(key) + [b / 16] + [b % 16]
  {
    if key != [] {
      HexOfLast(key[1..], b);
      assert (key + [b])[1..] == key[1..] + [b];
    }
  }

  /** The buffer rebuilt from a number. */
  function NumberKey(n: nat): (b: seq<Byte>)
  {
    var d := PadStart(ToHex(n), KEY_DIGITS);
    PadIsDigits(ToHex(n), KEY_DIGITS);
    HexToBytes(d)
  }

  lemma PadIsDigits(d: seq<int>, width: nat)
    requires IsDigits(16, d)
    ensures IsDigits(16, PadStart(d, width))
  {
  }

  lemma {:induction false} ToHexValue(n: nat)
    ensures Value(16, ToHex(n)) == n
  {
    if n < 16 {
      assert ToHex(n)[..0] == [];
    } else {
      ToHexValue(n / 16);
      assert ToHex(n)[..|ToHex(n)| - 1] == ToHex(n / 16);
    }
  }

  lemma {:induction false} ToHexLength(n: nat, k: nat)
    requires k >= 1 && n < Pow(16, k)
    ensures |ToHex(n)| <= k
  {
    if n >= 16 {
      assert Pow(16, k) == 16 * Pow(16, k - 1);
      if k > 1 {
        ToHexLength(n / 16, k - 1);
      }
    }
  }

  lemma {:induction false} ValueLeadingZeros(k: nat, d: seq<int>)
    ensures Value(16, seq(k, i => 0) + d) == Value(16, d)
  {
    var s := seq(k, i => 0) + d;
    if d != [] {
      ValueLeadingZeros(k, d[..|d| - 1]);
      assert s[..|s| - 1] == seq(k, i => 0) + d[..|d| - 1];
    } else if k > 0 {
      ValueLeadingZeros(k - 1, []);
      assert s[..|s| - 1] == seq(k - 1, i => 0) + [];
    }
  }

  lemma {:induction false} ValueNonNegative(d: seq<int>)
    requires IsDigits(16, d)
    ensures Value(16, d) >= 0
  {
    if d != [] {
      ValueNonNegative(d[..|d| - 1]);
    }
  }

  /** Fixed-width digit strings are determined by their value. */
  lemma {:induction false} ValueInjective(d: seq<int>, e: seq<int>)
    requires |d| == |e| && IsDigits(16, d) && IsDigits(16, e)
    requires Value(16, d) == Value(16, e)
    ensures d == e
  {
    if d != [] {
      var n := |d| - 1;
      assert 0 <= d[n] < 16 && 0 <= e[n] < 16;
      ValueInjective(d[..n], e[..n]);
      assert d == d[..n] + [d[n]] && e == e[..n] + [e[n]];
    }
  }

  lemma {:induction false} HexBytesInverse(d: seq<int>)
    requires IsDigits(16, d) && |d| % 2 == 0
    ensures BytesToHex(HexToBytes(d)) == d
  {
    if d != [] {
      HexBytesInverse(d[2..]);
      var b := HexToBytes(d);
      assert b[1..] == HexToBytes(d[2..]);
      assert b[0] / 16 == d[0] && b[0] % 16 == d[1];
      assert d == [d[0], d[1]] + d[2..];
    }
  }

  lemma {:induction false} BytesHexInverse(b: seq<Byte>)
    ensures HexToBytes(BytesToHex(b)) == b
  {
    if b != [] {
      BytesHexInverse(b[1..]);
      assert BytesToHex(b)[2..] == BytesToHex(b[1..]);
      assert 16 * (b[0] / 16) + b[0] % 16 == b[0];
    }
  }

  /** A number below 16^64 becomes exactly 32 bytes, and those bytes stand for it. */
  lemma NumberKeyValue(n: nat)
    requires n < Pow(16, KEY_DIGITS)
    ensures |NumberKey(n)| == 32 && KeyNumber(NumberKey(n)) == n
  {
    var d := PadStart(ToHex(n), KEY_DIGITS);
    ToHexLength(n, KEY_DIGITS);
    PadIsDigits(ToHex(n), KEY_DIGITS);
    ToHexValue(n);
    ValueLeadingZeros(KEY_DIGITS - |ToHex(n)|, ToHex(n));
    assert d == seq(KEY_DIGITS - |ToHex(n)|, i => 0) + ToHex(n);
    HexBytesInverse(d);
  }

  lemma KeyNumberInjective(a: seq<Byte>, b: seq<Byte>)
    requires |a| == |b| && KeyNumber(a) == KeyNumber(b)
    ensures a == b
  {
    ValueInjective(BytesToHex(a), BytesToHex(b));
    BytesHexInverse(a);
    BytesHexInverse(b);
  }

  lemma NumberKeyMatches(n: nat, key: seq<Byte>)
    requires n < Pow(16, KEY_DIGITS)
    ensures NumberKey(n) == key <==> |key| == 32 && KeyNumber(key) == n
  {
    NumberKeyValue(n);
    if |key| == 32 && KeyNumber(key) == n {
      KeyNumberInjective(NumberKey(n), key);
    }
  }

  lemma SmallResidue(n: nat, p: int)
    requires p > 0
    ensures 0 <= n % p < p && (n % p == n <==> n < p)
  {
  }

  /** The code's modulus leaves every residue within 64 hexadecimal digits. */
  lemma ModulusFits()
    ensures SHAMIR_PRIME < Pow(16, KEY_DIGITS)
  {
    PowSquare(16, 32);
    PowSquare(0x100, 16);
    PowSquare(0x1_0000, 8);
    PowSquare(0x1_0000_0000, 4);
    PowSquare(0x1_0000_0000_0000_0000, 2);
    var b := 0x1_0000_0000_0000_0000_0000_0000_0000_0000;
    PowSquare(b, 1);
    assert Pow(b * b, 1) == (b * b) * Pow(b * b, 0);
  }

  /** Splitting and rebuilding a key returns it if and only if it has 32 bytes and lies below the modulus. */
  lemma KeyRoundTrip(p: int, key: seq<Byte>)
    requires 0 < p <= Pow(16, KEY_DIGITS)
    ensures NumberKey(KeyNumber(key) % p) == key <==> |key| == 32 && KeyNumber(key) < p
  {
    var n := KeyNumber(key);
    ValueNonNegative(BytesToHex(key));
    SmallResidue(n, p);
    NumberKeyMatches(n % p, key);
  }

  // ----- the context

  datatype KeyResult =
    | Key(bytes: seq<Byte>)
    | NotInitialised
    | InsufficientShares
    | NoShareFor(node: int)

  /** The first `threshold` nodes, or none when the threshold is not positive. */
  function DefaultNodes(threshold: int): (nodes: seq<int>)
    ensures |nodes| == if threshold > 0 then threshold else 0
  {
    seq(if threshold > 0 then threshold else 0, i => i + 1)
  }

  /** Distinct participants over a prime modulus, or any whose moments match. */
  ghost predicate Recovering(p: int, threshold: int, nodes: seq<int>)
    requires p >= 2
  {
    || (Prime(p) && Injective(nodes) && nodes != [])
    || MomentsMatch(p, if threshold >= 1 then threshold else 1, nodes)
  }

  lemma RecoveringNodesRecover(p: int, threshold: int, coeffs: Poly, nodes: seq<int>)
    requires p >= 2 && |coeffs| == (if threshold >= 1 then threshold else 1) && 0 <= coeffs[0] < p
    requires |nodes| >= threshold && NodesInField(p, nodes) && Recovering(p, threshold, nodes)
    ensures Reconstructed(p, Contributed(p, coeffs, nodes)) == coeffs[0]
  {
    if MomentsMatch(p, |coeffs|, nodes) {
      MatchingMomentsRecover(p, |coeffs|, coeffs, nodes);
    } else {
      ReconstructionTheorem(p, coeffs, nodes);
    }
  }

  /** The first of the participants that is not one of the nodes. */
  ghost predicate FirstWithoutShare(nodes: seq<int>, totalNodes: nat, node: int) {
    exists i :: 0 <= i < |nodes| && nodes[i] == node && !(1 <= node <= totalNodes)
                && forall j :: 0 <= j < i ==> 1 <= nodes[j] <= totalNodes
  }

  lemma DefaultNodesRecover(p: int, threshold: int)
    requires Prime(p) && threshold >= 1
    ensures Recovering(p, threshold, DefaultNodes(threshold))
    ensures forall i :: 0 <= i < threshold ==> 1 <= DefaultNodes(threshold)[i] <= threshold
  {
  }

  class Context {
    const threshold: int
    const totalNodes: nat
    const modulus: int
    var nodeShares: Option<seq<Share>>
    ghost var key: seq<Byte>
    ghost var coeffs: Poly

    ghost predicate Valid()
      reads this
    {
      && 2 <= modulus <= Pow(16, KEY_DIGITS) && totalNodes < modulus
      && (nodeShares.Some? ==>
            && |coeffs| == (if threshold >= 1 then threshold else 1)
            && coeffs[0] == KeyNumber(key) % modulus
            && nodeShares.value == SharesOf(modulus, coeffs, totalNodes))
    }

    constructor (threshold: int, totalNodes: nat, modulus: int)
      requires 2 <= modulus <= Pow(16, KEY_DIGITS) && totalNodes < modulus
      ensures Valid() && nodeShares == None
      ensures this.threshold == threshold && this.totalNodes == totalNodes && this.modulus == modulus
    {
      this.threshold, this.totalNodes, this.modulus := threshold, totalNodes, modulus;
      nodeShares := None;
    }

    /** An empty buffer is not a hexadecimal number and leaves the context as it was. */
    method InitKey(keyBuffer: seq<Byte>, rand: seq<nat>) returns (ok: bool)
      requires Valid() && threshold - 1 <= |rand|
      modifies this
      ensures Valid()
      ensures ok <==> keyBuffer != []
      ensures ok ==> key == keyBuffer && nodeShares.Some?
      ensures ok ==> coeffs == Coefficients(modulus, KeyNumber(keyBuffer) % modulus, threshold, rand)
      ensures !ok ==> nodeShares == old(nodeShares) && key == old(key) && coeffs == old(coeffs)
    {
      if keyBuffer == [] {
        return false;
      }
      ValueNonNegative(BytesToHex(keyBuffer));
      var secret := JsRem(KeyNumber(keyBuffer), modulus);
      var r := ShamirSplit(secret, threshold, totalNodes, rand, modulus);
      nodeShares := Some(r.shares);
      key, coeffs := keyBuffer, Coefficients(modulus, secret, threshold, rand);
      return true;
    }

    /** The key half of `decryptWithThreshold`: gather the shares, reconstruct, rebuild the buffer. */
    method RecoverKey(participating: Option<seq<int>>) returns (r: KeyResult)
      requires Valid()
      ensures r.NotInitialised? <==> nodeShares.None?
      ensures nodeShares.Some? ==>
                var nodes := if participating.Some? then participating.value else DefaultNodes(threshold);
                && (r.InsufficientShares? <==> |nodes| < threshold)
                && (r.NoShareFor? ==> FirstWithoutShare(nodes, totalNodes, r.node))
                && (r.Key? ==> forall i :: 0 <= i < |nodes| ==> 1 <= nodes[i] <= totalNodes)
                && (r.Key? ==> r.bytes == NumberKey(Reconstructed(modulus, Contributed(modulus, coeffs, nodes))))
                && (r.Key? && Recovering(modulus, threshold, nodes) ==> r.bytes == NumberKey(KeyNumber(key) % modulus))
      // the documented promise, for a key the context can represent
      ensures (&& r.Key? && participating.Some? && Recovering(modulus, threshold, participating.value)
               && |key| == 32 && KeyNumber(key) < modulus)
              ==> r.bytes == key
      ensures (&& nodeShares.Some? && participating.None? && Prime(modulus) && 1 <= threshold <= totalNodes
               && |key| == 32 && KeyNumber(key) < modulus)
              ==> r == Key(key)
    {
      if nodeShares.None? {
        return NotInitialised;
      }
      var nodes := if participating.Some? then participating.value else DefaultNodes(threshold);
      if |nodes| < threshold {
        return InsufficientShares;
      }
      if Prime(modulus) && participating.None? && threshold >= 1 { DefaultNodesRecover(modulus, threshold); }
      var selected, missing := GatherShares(nodes);
      if missing.Some? {
        return NoShareFor(missing.value);
      }
      var secret := ShamirReconstruct(selected, modulus);
      assert InField(modulus, selected);
      if Recovering(modulus, threshold, nodes) {
        RecoveringNodesRecover(modulus, threshold, coeffs, nodes);
      }
      KeyRoundTrip(modulus, key);
      return Key(NumberKey(secret));
    }

    /** The shares of the participants in their order, or the first participant that has none. */
    method GatherShares(nodes: seq<int>) returns (selected: seq<Share>, missing: Option<int>)
      requires Valid() && nodeShares.Some?
      ensures missing.Some? ==> FirstWithoutShare(nodes, totalNodes, missing.value)
      ensures missing.None? ==> forall i :: 0 <= i < |nodes| ==> 1 <= nodes[i] <= totalNodes
      ensures missing.None? ==> selected == Contributed(modulus, coeffs, nodes)
    {
      selected, missing := [], None;
      for i := 0 to |nodes|
        invariant forall j :: 0 <= j < i ==> 1 <= nodes[j] <= totalNodes
        invariant selected == Contributed(modulus, coeffs, nodes[..i])
      {
        var share := FindShare(nodes[i]);
        if share.None? {
          assert FirstWithoutShare(nodes, totalNodes, nodes[i]);
          return selected, Some(nodes[i]);
        }
        assert nodes[..i + 1] == nodes[..i] + [nodes[i]];
        selected := selected + [share.value];
      }
      assert nodes[..|nodes|] == nodes;
    }

    method FindShare(index: int) returns (share: Option<Share>)
      requires Valid() && nodeShares.Some?
      ensures share.Some? <==> 1 <= index <= totalNodes
      ensures share.Some? ==> share.value == ShareAt(modulus, coeffs, index)
    {
      var shares := nodeShares.value;
      assert 1 <= index <= totalNodes ==> shares[index - 1].shareIndex == index;
      for i := 0 to |shares|
        invariant forall j :: 0 <= j < i ==> shares[j].shareIndex != index
      {
        if shares[i].shareIndex == index {
          return Some(shares[i]);
        }
      }
      return None;
    }
  }
}
