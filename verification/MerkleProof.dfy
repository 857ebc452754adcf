/**
 Membership proofs over a hash tree whose inner nodes hash their children in sorted order, so that a
 proof carries no left/right information. The digests are hexadecimal strings; what is hashed is the
 hexadecimal decoding of two of them joined together, and that decoding stops silently at the first
 pair of characters that is not a byte.
 */
module MerkleProof {
  import opened Common

  /** JavaScript's `<=` on strings. */
  predicate LexLe(a: string, b: string) {
    if a == [] then true
    else if b == [] then false
    else a[0] < b[0] || (a[0] == b[0] && LexLe(a[1..], b[1..]))
  }

  lemma {:induction false} LexLeTotal(a: string, b: string)
    ensures LexLe(a, b) || LexLe(b, a)
    ensures LexLe(a, b) && LexLe(b, a) ==> a == b
  {
    if a != [] && b != [] && a[0] == b[0] {
      LexLeTotal(a[1..], b[1..]);
      assert a == [a[0]] + a[1..] && b == [b[0]] + b[1..];
    }
  }

  /** Strings are ordered by their first difference; a proper prefix comes first. */
  lemma {:induction false} LexLeIff(a: string, b: string)
    ensures LexLe(a, b) <==>
            a <= b || exists i :: 0 <= i < |a| && i < |b| && a[..i] == b[..i] && a[i] < b[i]
  {
    if a != [] && b != [] && a[0] == b[0] {
      LexLeIff(a[1..], b[1..]);
      assert a == [a[0]] + a[1..] && b == [b[0]] + b[1..];
      if i :| 0 <= i < |a[1..]| && i < |b[1..]| && a[1..][..i] == b[1..][..i] && a[1..][i] < b[1..][i] {
        assert a[..i + 1] == [a[0]] + a[1..][..i] && b[..i + 1] == [b[0]] + b[1..][..i] && a[i + 1] < b[i + 1];
      }
      if i :| 0 <= i < |a| && i < |b| && a[..i] == b[..i] && a[i] < b[i] {
        assert a[1..][..i - 1] == a[..i][1..] && b[1..][..i - 1] == b[..i][1..] && a[1..][i - 1] < b[1..][i - 1];
      }
    } else if a != [] && b != [] {
      assert a[..0] == b[..0];
    }
  }

  // ----- hexadecimal

  predicate IsLowerHex(c: char) {
    '0' <= c <= '9' || 'a' <= c <= 'f'
  }

  predicate IsHex(c: char) {
    IsLowerHex(c) || 'A' <= c <= 'F'
  }

  function Nibble(c: char): (n: nat)
    requires IsHex(c)
    ensures n < 16
  {
    if c <= '9' then c as int - '0' as int
    else if c <= 'F' then c as int - 'A' as int + 10
    else c as int - 'a' as int + 10
  }

  /** The sixteen digits and their values, in either case; no other character is a digit. */
  lemma NibbleValues(c: char)
    ensures IsHex(c) <==> c in "0123456789abcdefABCDEF"
    ensures forall i :: 0 <= i < 16 ==> IsHex("0123456789abcdef"[i]) && Nibble("0123456789abcdef"[i]) == i
    ensures forall i :: 0 <= i < 16 ==> IsHex("0123456789ABCDEF"[i]) && Nibble("0123456789ABCDEF"[i]) == i
  {
  }

  /** `Buffer.from(s, 'hex')`: either case, up to the first pair that is not a byte. */
  function HexDecode(s: string): Bytes {
    if |s| < 2 || !IsHex(s[0]) || !IsHex(s[1]) then []
    else [16 * Nibble(s[0]) + Nibble(s[1])] + HexDecode(s[2..])
  }

  /** The decoded characters are digits, and they are the digits of the bytes. */
  lemma {:induction false} DecodedDigit(s: string, i: nat)
    requires i < 2 * |HexDecode(s)|
    ensures i < |s| && IsHex(s[i])
    ensures Nibble(s[i]) == if i % 2 == 0 then HexDecode(s)[i / 2] / 16 else HexDecode(s)[i / 2] % 16
  {
    if i >= 2 {
      DecodedDigit(s[2..], i - 2);
      assert s[2..][i - 2] == s[i] && HexDecode(s)[i / 2] == HexDecode(s[2..])[i / 2 - 1];
      assert (i - 2) / 2 == i / 2 - 1 && (i - 2) % 2 == i % 2;
    }
  }

  /** Decoding stops only before something that is not a byte. */
  lemma {:induction false} DecodingStops(s: string)
    ensures var k := 2 * |HexDecode(s)|; k + 1 < |s| ==> !IsHex(s[k]) || !IsHex(s[k + 1])
  {
    if |s| >= 2 && IsHex(s[0]) && IsHex(s[1]) {
      DecodingStops(s[2..]);
      var k := 2 * |HexDecode(s[2..])|;
      assert 2 * |HexDecode(s)| == k + 2;
      assert k + 3 < |s| ==> s[2..][k] == s[k + 2] && s[2..][k + 1] == s[k + 3];
    }
  }

  // ----- digests

  const DIGEST_DIGITS: nat := 64

  predicate IsDigest(s: string) {
    |s| == DIGEST_DIGITS && forall i :: 0 <= i < |s| ==> IsLowerHex(s[i])
  }

  /** The hash of a byte string, written in hexadecimal. */
  type Hash = Bytes -> string

  ghost predicate DigestValued(hash: Hash) {
    forall b :: IsDigest(hash(b))
  }

  predicate AllDigests(siblings: seq<string>) {
    forall s :: s in siblings ==> IsDigest(s)
  }

  /** The two strings, smaller first, joined. */
  function Joined(a: string, b: string): string {
    if LexLe(a, b) then a + b else b + a
  }

  /** What is hashed for a pair of strings. */
  function Preimage(a: string, b: string): Bytes {
    HexDecode(Joined(a, b))
  }

  function Combine(hash: Hash, a: string, b: string): string {
    hash(Preimage(a, b))
  }

  lemma CombineSymmetric(hash: Hash, a: string, b: string)
    ensures Preimage(a, b) == Preimage(b, a) && Combine(hash, a, b) == Combine(hash, b, a)
  {
    LexLeTotal(a, b);
  }

  // ----- which strings may stand for a sibling

  /** Whenever a digest joined with n characters gives the bytes of a pair of digests, it is one of the pair. */
  ghost predicate LevelSound(n: nat) {
    forall current, sibling, l, r ::
      (IsDigest(current) && |sibling| == n && IsDigest(l) && IsDigest(r)
       && Preimage(current, sibling) == Preimage(l, r)) ==> current == l || current == r
  }

  predicate SafeLength(n: nat) {
    n != DIGEST_DIGITS + 1 && n <= 2 * DIGEST_DIGITS
  }

  /** Two digests decode to 64 bytes. */
  lemma PairDecodes(l: string, r: string)
    requires IsDigest(l) && IsDigest(r)
    ensures |HexDecode(l + r)| == DIGEST_DIGITS
  {
    var k := |HexDecode(l + r)|;
    DecodingStops(l + r);
    if k > 0 {
      DecodedDigit(l + r, 2 * k - 1);
    }
    assert forall i :: 0 <= i < |l + r| ==> IsHex((l + r)[i]);
  }

  /** A digit of a digest is fixed by its value. */
  lemma SameDigit(s: string, t: string, i: nat)
    requires HexDecode(s) == HexDecode(t) && i < 2 * |HexDecode(s)|
    ensures i < |s| && i < |t| && (IsLowerHex(s[i]) && IsLowerHex(t[i]) ==> s[i] == t[i])
  {
    DecodedDigit(s, i);
    DecodedDigit(t, i);
  }

  /** A digest joined in front of anything is the first of the pair. */
  lemma FrontIsFirst(current: string, tail: string, l: string, r: string)
    requires IsDigest(current) && IsDigest(l) && IsDigest(r)
    requires HexDecode(current + tail) == HexDecode(l + r)
    ensures current == l
  {
    PairDecodes(l, r);
    forall i | 0 <= i < DIGEST_DIGITS ensures current[i] == l[i] {
      SameDigit(current + tail, l + r, i);
      assert (current + tail)[i] == current[i] && (l + r)[i] == l[i];
    }
  }

  /** Only a sibling of a digest's length can be joined in front and give a pair's bytes. */
  lemma OnlyDigestLength(sibling: string, current: string)
    requires IsDigest(current) && SafeLength(|sibling|) && |HexDecode(sibling + current)| == DIGEST_DIGITS
    ensures |sibling| == DIGEST_DIGITS
  {
    var s := sibling + current;
    DecodedDigit(s, 2 * DIGEST_DIGITS - 1);
    DecodingStops(s);
    assert forall i :: |sibling| <= i < |s| ==> IsHex(s[i]);
  }

  /** A digest joined behind a string of safe length is the second of the pair. */
  lemma BackIsSecond(sibling: string, current: string, l: string, r: string)
    requires IsDigest(current) && IsDigest(l) && IsDigest(r) && SafeLength(|sibling|)
    requires HexDecode(sibling + current) == HexDecode(l + r)
    ensures current == r
  {
    PairDecodes(l, r);
    OnlyDigestLength(sibling, current);
    var s := sibling + current;
    forall i | 0 <= i < DIGEST_DIGITS ensures current[i] == r[i] {
      SameDigit(s, l + r, DIGEST_DIGITS + i);
      assert s[DIGEST_DIGITS + i] == current[i] && (l + r)[DIGEST_DIGITS + i] == r[i];
    }
  }

  /** With a sibling of safe length, equal bytes come from the same digest. */
  lemma SafeSibling(current: string, sibling: string, l: string, r: string)
    requires IsDigest(current) && IsDigest(l) && IsDigest(r) && SafeLength(|sibling|)
    requires Preimage(current, sibling) == Preimage(l, r)
    ensures current == l || current == r
  {
    var lo := if LexLe(l, r) then l else r;
    var hi := if LexLe(l, r) then r else l;
    if LexLe(current, sibling) {
      FrontIsFirst(current, sibling, lo, hi);
    } else {
      BackIsSecond(sibling, current, lo, hi);
    }
  }

  function Repeat(c: char, n: nat): (s: string)
    ensures |s| == n && forall i :: 0 <= i < n ==> s[i] == c
  {
    if n == 0 then [] else [c] + Repeat(c, n - 1)
  }

  /** Decoding reads no further than its first non-digit. */
  lemma {:induction false} DecodeTruncates(s: string, tail: string)
    requires |s| % 2 == 0 && (forall i :: 0 <= i < |s| ==> IsHex(s[i]))
    requires |tail| < 2 || !IsHex(tail[0])
    ensures HexDecode(s + tail) == HexDecode(s)
  {
    if s == [] {
      assert s + tail == tail;
    } else {
      assert (s + tail)[2..] == s[2..] + tail;
      DecodeTruncates(s[2..], tail);
    }
  }

  function Zeros(): string {
    Repeat('0', DIGEST_DIGITS)
  }

  function Ones(): string {
    Repeat('1', DIGEST_DIGITS)
  }

  /** The digest that the 65 zeros and the ones behind them are read as, once the last one is dropped. */
  function ZeroThenOnes(): string {
    ['0'] + Repeat('1', DIGEST_DIGITS - 1)
  }

  /** For every unsafe length, a sibling that lets a digest pass for one of two others. */
  lemma UnsafeSibling(n: nat) returns (d: string, sibling: string, l: string, r: string)
    requires !SafeLength(n)
    ensures IsDigest(d) && IsDigest(l) && IsDigest(r) && d != l && d != r && |sibling| == n
    ensures Preimage(d, sibling) == Preimage(l, r)
  {
    d, l := Ones(), Zeros();
    assert d[0] == '1' && l[0] == '0';
    if n == DIGEST_DIGITS + 1 {
      sibling := Zeros() + ['0'];
      r := ZeroThenOnes();
      LastDigitDropped();
    } else {
      var tail := Repeat('z', n - 2 * DIGEST_DIGITS);
      sibling := Zeros() + Zeros() + tail;
      r := Zeros();
      assert sibling + Ones() == (Zeros() + Zeros()) + (tail + Ones());
      DecodeTruncates(Zeros() + Zeros(), tail + Ones());
      assert sibling[0] == '0';
    }
  }

  lemma LastDigitDropped()
    ensures Preimage(Ones(), Zeros() + ['0']) == Preimage(Zeros(), ZeroThenOnes())
    ensures IsDigest(ZeroThenOnes())
  {
    var s, one := Zeros() + ZeroThenOnes(), Repeat('1', DIGEST_DIGITS - 1);
    ZerosFirst();
    RepeatSnoc('1', DIGEST_DIGITS - 1);
    assert (Zeros() + ['0']) + Ones() == s + ['1'];
    DecodeTruncates(s, ['1']);
  }

  lemma {:induction false} RepeatSnoc(c: char, n: nat)
    ensures Repeat(c, n + 1) == Repeat(c, n) + [c]
  {
    if n > 0 {
      RepeatSnoc(c, n - 1);
    }
  }

  lemma {:induction false} ZerosBelow(n: nat)
    ensures LexLe(Repeat('0', n + 1), ['0'] + Repeat('1', n))
  {
  }

  lemma ZerosFirst()
    ensures LexLe(Zeros(), ZeroThenOnes())
  {
    ZerosBelow(DIGEST_DIGITS - 1);
  }

  /** A sibling of n characters is harmless to the digest joined to it exactly for the safe lengths. */
  lemma LevelSoundIff(n: nat)
    ensures LevelSound(n) <==> SafeLength(n)
  {
    if SafeLength(n) {
      forall current, sibling, l, r | IsDigest(current) && |sibling| == n && IsDigest(l) && IsDigest(r)
        && Preimage(current, sibling) == Preimage(l, r) ensures current == l || current == r {
        SafeSibling(current, sibling, l, r);
      }
    } else {
      var d, sibling, l, r := UnsafeSibling(n);
    }
  }

  // ----- trees

  datatype Tree = Leaf(digest: string) | Node(left: Tree, right: Tree)

  function Root(hash: Hash, t: Tree): string {
    match t
    case Leaf(d) => d
    case Node(l, r) => Combine(hash, Root(hash, l), Root(hash, r))
  }

  /** Every leaf lies at the same depth. */
  predicate Perfect(t: Tree, depth: nat) {
    match t
    case Leaf(_) => depth == 0
    case Node(l, r) => depth > 0 && Perfect(l, depth - 1) && Perfect(r, depth - 1)
  }

  predicate HasLeaf(t: Tree, d: string) {
    match t
    case Leaf(x) => x == d
    case Node(l, r) => HasLeaf(l, d) || HasLeaf(r, d)
  }

  predicate DigestLeaves(t: Tree) {
    match t
    case Leaf(d) => IsDigest(d)
    case Node(l, r) => DigestLeaves(l) && DigestLeaves(r)
  }

  /** The byte strings hashed to build the tree. */
  function TreeInputs(hash: Hash, t: Tree): set<Bytes> {
    match t
    case Leaf(_) => {}
    case Node(l, r) => TreeInputs(hash, l) + TreeInputs(hash, r) + {Preimage(Root(hash, l), Root(hash, r))}
  }

  // ----- verification

  /** The digest reached from a leaf by combining it with its siblings in turn. */
  function Climb(hash: Hash, leaf: string, siblings: seq<string>): string {
    if siblings == [] then leaf
    else Combine(hash, Climb(hash, leaf, siblings[..|siblings| - 1]), siblings[|siblings| - 1])
  }

  /** The byte strings hashed on the way. */
  function ClimbInputs(hash: Hash, leaf: string, siblings: seq<string>): set<Bytes> {
    if siblings == [] then {}
    else
      var below := siblings[..|siblings| - 1];
      ClimbInputs(hash, leaf, below) + {Preimage(Climb(hash, leaf, below), siblings[|siblings| - 1])}
  }

  method VerifyMerkleProof(hash: Hash, leafHash: string, siblings: seq<string>, pathIndices: seq<nat>,
                           expectedRoot: string)
    returns (ok: bool)
    ensures ok <==> |siblings| == |pathIndices| && Climb(hash, leafHash, siblings) == expectedRoot
  {
    if |siblings| != |pathIndices| {
      return false;
    }
    var current := leafHash;
    for i := 0 to |siblings|
      invariant current == Climb(hash, leafHash, siblings[..i])
    {
      var sibling := siblings[i];
      var left := if LexLe(current, sibling) then current else sibling;
      var right := if LexLe(current, sibling) then sibling else current;
      assert siblings[..i + 1][..i] == siblings[..i];
      current := hash(HexDecode(left + right));
    }
    assert siblings[..|siblings|] == siblings;
    return current == expectedRoot;
  }

  /** One more sibling on top of a climb. */
  lemma ClimbOne(hash: Hash, leaf: string, below: seq<string>, sibling: string)
    ensures Climb(hash, leaf, below + [sibling]) == Combine(hash, Climb(hash, leaf, below), sibling)
    ensures ClimbInputs(hash, leaf, below + [sibling])
         == ClimbInputs(hash, leaf, below) + {Preimage(Climb(hash, leaf, below), sibling)}
  {
    assert (below + [sibling])[..|below|] == below;
  }

  lemma RootIsDigest(hash: Hash, t: Tree)
    requires DigestValued(hash) && DigestLeaves(t)
    ensures IsDigest(Root(hash, t))
  {
  }

  // ----- completeness

  /** The siblings of a leaf on its way to the root; nothing is hashed that the tree did not hash. */
  lemma {:induction false} ProofExists(hash: Hash, t: Tree, depth: nat, d: string) returns (siblings: seq<string>)
    requires Perfect(t, depth) && HasLeaf(t, d)
    ensures |siblings| == depth && Climb(hash, d, siblings) == Root(hash, t)
    ensures ClimbInputs(hash, d, siblings) <= TreeInputs(hash, t)
    ensures DigestValued(hash) && DigestLeaves(t) ==> AllDigests(siblings)
  {
    match t
    case Leaf(_) => siblings := [];
    case Node(l, r) =>
      var near := if HasLeaf(l, d) then l else r;
      var far := if HasLeaf(l, d) then r else l;
      var below := ProofExists(hash, near, depth - 1, d);
      siblings := below + [Root(hash, far)];
      ClimbOne(hash, d, below, Root(hash, far));
      CombineSymmetric(hash, Root(hash, l), Root(hash, r));
      if DigestValued(hash) && DigestLeaves(t) {
        RootIsDigest(hash, far);
      }
  }

  // ----- soundness

  /** Two different byte strings, one from each set, with one hash. */
  ghost predicate Collision(hash: Hash, xs: set<Bytes>, ys: set<Bytes>) {
    exists x, y :: x in xs && y in ys && x != y && hash(x) == hash(y)
  }

  predicate SafeSiblings(siblings: seq<string>) {
    forall s :: s in siblings ==> SafeLength(|s|)
  }

  /** At the tree's depth, a digest that climbs to the root is a leaf, or the proof and the tree together exhibit a collision. */
  lemma {:induction false} ProofIsSound(hash: Hash, t: Tree, depth: nat, d: string, siblings: seq<string>)
    requires DigestValued(hash) && Perfect(t, depth) && DigestLeaves(t) && IsDigest(d)
    requires SafeSiblings(siblings) && |siblings| == depth
    requires Climb(hash, d, siblings) == Root(hash, t)
    ensures HasLeaf(t, d) || Collision(hash, ClimbInputs(hash, d, siblings), TreeInputs(hash, t))
    decreases depth
  {
    if depth > 0 {
      var below := siblings[..depth - 1];
      var current, sibling := Climb(hash, d, below), siblings[depth - 1];
      var l, r := Root(hash, t.left), Root(hash, t.right);
      var x, y := Preimage(current, sibling), Preimage(l, r);
      assert x in ClimbInputs(hash, d, siblings) && y in TreeInputs(hash, t) && hash(x) == hash(y);
      if x == y {
        RootIsDigest(hash, t.left);
        RootIsDigest(hash, t.right);
        assert IsDigest(current);
        SafeSibling(current, sibling, l, r);
        ProofIsSound(hash, if current == l then t.left else t.right, depth - 1, d, below);
      }
    }
  }

  /** No two byte strings hashed for the tree have one hash. */
  ghost predicate NoCollision(hash: Hash, t: Tree) {
    !Collision(hash, TreeInputs(hash, t), TreeInputs(hash, t))
  }

  /** A proof of the tree's depth, by siblings of safe length, that hashes only what the tree hashed. */
  ghost predicate GenuineProof(hash: Hash, t: Tree, d: string, siblings: seq<string>) {
    && SafeSiblings(siblings)
    && Climb(hash, d, siblings) == Root(hash, t)
    && ClimbInputs(hash, d, siblings) <= TreeInputs(hash, t)
  }

  /** A digest has a genuine proof if and only if it is a leaf; any other accepted proof yields a collision. */
  lemma MembershipIff(hash: Hash, t: Tree, depth: nat, d: string)
    requires DigestValued(hash) && Perfect(t, depth) && DigestLeaves(t) && IsDigest(d) && NoCollision(hash, t)
    ensures HasLeaf(t, d) <==> exists s :: |s| == depth && GenuineProof(hash, t, d, s)
  {
    if HasLeaf(t, d) {
      var s := ProofExists(hash, t, depth, d);
      assert GenuineProof(hash, t, d, s);
    }
    forall s | |s| == depth && GenuineProof(hash, t, d, s) ensures HasLeaf(t, d) {
      ProofIsSound(hash, t, depth, d, s);
    }
  }

  // ----- what unsafe siblings and wrong depths let through

  /** A digest that is no leaf passes with a first sibling of n characters, hashing only what the tree hashed. */
  ghost predicate Forges(hash: Hash, t: Tree, depth: nat, d: string, siblings: seq<string>, n: nat) {
    && Perfect(t, depth) && DigestLeaves(t) && IsDigest(d) && !HasLeaf(t, d)
    && |siblings| == depth > 0 && |siblings[0]| == n && AllDigests(siblings[1..])
    && Climb(hash, d, siblings) == Root(hash, t)
    && ClimbInputs(hash, d, siblings) <= TreeInputs(hash, t)
  }

  /** A sibling that hashes like a pair of other digests is a forged proof over that pair. */
  lemma ForgedPair(hash: Hash, l: string, r: string, d: string, sibling: string)
    requires IsDigest(l) && IsDigest(r) && IsDigest(d) && d != l && d != r
    requires Preimage(d, sibling) == Preimage(l, r)
    ensures Forges(hash, Node(Leaf(l), Leaf(r)), 1, d, [sibling], |sibling|)
    ensures NoCollision(hash, Node(Leaf(l), Leaf(r)))
  {
    var a, b := Leaf(l), Leaf(r);
    assert [] + [sibling] == [sibling];
    ClimbOne(hash, d, [], sibling);
    assert Perfect(a, 0) && Perfect(b, 0) && DigestLeaves(a) && DigestLeaves(b);
    assert TreeInputs(hash, Node(a, b)) == {Preimage(l, r)};
  }

  /** A forged proof stays one under a new root. */
  lemma ForgedAbove(hash: Hash, t: Tree, depth: nat, d: string, path: seq<string>, n: nat)
    requires DigestValued(hash) && Forges(hash, t, depth, d, path, n)
    ensures Forges(hash, Node(t, t), depth + 1, d, path + [Root(hash, t)], n)
  {
    ClimbOne(hash, d, path, Root(hash, t));
    RootIsDigest(hash, t);
    assert (path + [Root(hash, t)])[1..] == path[1..] + [Root(hash, t)];
  }

  /** For every hash, depth and unsafe length there is a forged proof, and no collision is behind it. */
  lemma {:induction false} ForgedProof(hash: Hash, depth: nat, n: nat)
    returns (d: string, t: Tree, siblings: seq<string>)
    requires DigestValued(hash) && depth > 0 && !SafeLength(n)
    ensures Forges(hash, t, depth, d, siblings, n)
  {
    if depth == 1 {
      var digest, sibling, l, r := UnsafeSibling(n);
      d, t, siblings := digest, Node(Leaf(l), Leaf(r)), [sibling];
      ForgedPair(hash, l, r, d, sibling);
    } else {
      var digest, below, path := ForgedProof(hash, depth - 1, n);
      d, t, siblings := digest, Node(below, below), path + [Root(hash, below)];
      ForgedAbove(hash, below, depth - 1, d, path, n);
    }
  }

  /** Over trees without collisions a sibling length at the lowest level is harmless exactly if it is safe. */
  lemma FirstSiblingIff(hash: Hash, n: nat)
    requires DigestValued(hash)
    ensures SafeLength(n) <==> forall t, depth, d, siblings :: NoCollision(hash, t) ==> !Forges(hash, t, depth, d, siblings, n)
  {
    if SafeLength(n) {
      forall t, depth, d, siblings | NoCollision(hash, t) && Forges(hash, t, depth, d, siblings, n) ensures false {
        FirstThenDigestsAreSafe(siblings);
        ProofIsSound(hash, t, depth, d, siblings);
      }
    } else {
      var d, sibling, l, r := UnsafeSibling(n);
      ForgedPair(hash, l, r, d, sibling);
    }
  }

  lemma FirstThenDigestsAreSafe(siblings: seq<string>)
    requires siblings != [] && SafeLength(|siblings[0]|) && AllDigests(siblings[1..])
    ensures SafeSiblings(siblings)
  {
    forall s | s in siblings ensures SafeLength(|s|) {
      var i :| 0 <= i < |siblings| && siblings[i] == s;
      assert i > 0 ==> siblings[1..][i - 1] == s && IsDigest(siblings[1..][i - 1]);
    }
  }

  /** The depth matters: an inner node's digest climbs to the root with a shorter proof. */
  lemma InnerNodePassesWithShorterProof(hash: Hash, t: Tree)
    requires t.Node?
    ensures Climb(hash, Root(hash, t.left), [Root(hash, t.right)]) == Root(hash, t)
  {
    assert [Root(hash, t.right)][..0] == [];
  }
}
