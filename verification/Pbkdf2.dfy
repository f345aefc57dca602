/** `pbkdf2SHA256` of internal/auth/password.go:42-71 against section 5.2 of RFC 8018. */
module Pbkdf2 {
  import opened Bytes

  /** The pseudorandom function, key first. HMAC-SHA-256 is left uninterpreted. */
  type Prf = (seq<byte>, seq<byte>) -> seq<byte>

  const H_LEN := 32

  ghost predicate FixedLength(prf: Prf) {
    forall key, data :: |prf(key, data)| == H_LEN
  }

  // ----- RFC 8018, section 5.2 -----

  /** INT (i): the block index in four octets, most significant first. */
  function Int4(i: nat): (s: seq<byte>)
    ensures |s| == 4
  {
    ToBigEndian(i, 4)
  }

  /** U_n of block i. */
  function U(prf: Prf, password: seq<byte>, salt: seq<byte>, i: nat, n: nat): seq<byte>
    requires n >= 1
  {
    if n == 1 then prf(password, salt + Int4(i)) else prf(password, U(prf, password, salt, i, n - 1))
  }

  function XorAll(a: seq<byte>, b: seq<byte>): (r: seq<byte>)
    requires |a| == |b|
    ensures |r| == |a| && forall j :: 0 <= j < |a| ==> r[j] == Xor(a[j], b[j])
  {
    seq(|a|, j requires 0 <= j < |a| => Xor(a[j], b[j]))
  }

  /** T_i = F (P, S, c, i) = U_1 xor ... xor U_c. */
  ghost function T(prf: Prf, password: seq<byte>, salt: seq<byte>, c: nat, i: nat): (t: seq<byte>)
    requires FixedLength(prf) && c >= 1
    ensures |t| == H_LEN
  {
    if c == 1 then U(prf, password, salt, i, 1)
    else XorAll(T(prf, password, salt, c - 1, i), U(prf, password, salt, i, c))
  }

  /** T_1 || ... || T_l. */
  ghost function Blocks(prf: Prf, password: seq<byte>, salt: seq<byte>, c: nat, l: nat): (s: seq<byte>)
    requires FixedLength(prf) && c >= 1
    ensures |s| == l * H_LEN
  {
    if l == 0 then [] else Blocks(prf, password, salt, c, l - 1) + T(prf, password, salt, c, l)
  }

  /** CEIL (dkLen / hLen). */
  function BlockCount(dkLen: nat): (l: nat)
    ensures (dkLen == 0 && l == 0) || (l - 1) * H_LEN < dkLen <= l * H_LEN
  {
    (dkLen + H_LEN - 1) / H_LEN
  }

  /** The derived key: the first dkLen octets of the blocks. */
  ghost function DerivedKey(prf: Prf, password: seq<byte>, salt: seq<byte>, c: nat, dkLen: nat): (dk: seq<byte>)
    requires FixedLength(prf) && c >= 1
    ensures |dk| == dkLen
  {
    Blocks(prf, password, salt, c, BlockCount(dkLen))[..dkLen]
  }

  // ----- The implementation -----

  /** `hash.Hash` over the pseudorandom function, keyed once. */
  class Mac {
    const prf: Prf
    const key: seq<byte>
    var written: seq<byte>

    constructor (prf: Prf, key: seq<byte>)
      ensures this.prf == prf && this.key == key && written == []
    {
      this.prf, this.key, written := prf, key, [];
    }

    method Reset()
      modifies this
      ensures written == []
    {
      written := [];
    }

    method Write(p: seq<byte>)
      modifies this
      ensures written == old(written) + p
    {
      written := written + p;
    }

    /** `Sum(u[:0])`: the buffer is overwritten. */
    method Sum(u: array<byte>)
      requires FixedLength(prf) && u.Length == H_LEN
      modifies u
      ensures u[..] == prf(key, written)
    {
      var sum := prf(key, written);
      for j := 0 to H_LEN
        invariant u[..j] == sum[..j]
      {
        u[j] := sum[j];
      }
    }
  }

  method CopyInto(t: array<byte>, u: array<byte>)
    requires t.Length == u.Length && t != u
    modifies t
    ensures t[..] == u[..]
  {
    for j := 0 to t.Length
      invariant t[..j] == u[..j]
    {
      t[j] := u[j];
    }
  }

  method XorInto(t: array<byte>, u: array<byte>)
    requires t.Length == u.Length && t != u
    modifies t
    ensures t[..] == XorAll(old(t[..]), u[..])
  {
    for j := 0 to t.Length
      invariant forall k :: 0 <= k < j ==> t[k] == Xor(old(t[k]), u[k])
      invariant forall k :: j <= k < t.Length ==> t[k] == old(t[k])
    {
      t[j] := Xor(t[j], u[j]);
    }
  }

  /** The loop's four index octets. */
  method PutIndex(block: array<byte>, i: nat)
    requires block.Length == 4
    modifies block
    ensures block[..] == Int4(i)
  {
    block[0], block[1], block[2], block[3] := i / 0x100_0000 % 256, i / 0x1_0000 % 256, i / 0x100 % 256, i % 256;
    IndexOctets(i);
  }

  lemma IndexOctets(i: nat)
    ensures Int4(i) == [i / 0x100_0000 % 256, i / 0x1_0000 % 256, i / 0x100 % 256, i % 256]
  {
    var h := i / 256 / 256;
    assert h == i / 0x1_0000 && h / 256 == i / 0x100_0000;
    assert ToBigEndian(h, 2) == ToBigEndian(h / 256, 1) + [h % 256];
    assert ToBigEndian(h / 256, 1) == ToBigEndian(h / 256 / 256, 0) + [h / 256 % 256] == [h / 256 % 256];
    assert ToBigEndian(i / 256, 3) == ToBigEndian(h, 2) + [i / 256 % 256];
  }

  lemma Starts(prf: Prf, password: seq<byte>, salt: seq<byte>, i: nat)
    requires FixedLength(prf)
    ensures U(prf, password, salt, i, 1) == T(prf, password, salt, 1, i) == prf(password, salt + Int4(i))
  {}

  lemma GoesOn(prf: Prf, password: seq<byte>, salt: seq<byte>, i: nat, n: nat)
    requires FixedLength(prf) && n >= 2
    ensures var next := U(prf, password, salt, i, n);
      && next == prf(password, U(prf, password, salt, i, n - 1))
      && |T(prf, password, salt, n - 1, i)| == |next|
      && T(prf, password, salt, n, i) == XorAll(T(prf, password, salt, n - 1, i), next)
  {}

  /** One block: U_1, then every further U_n folded in. A count below 1 does one iteration. */
  method Block(prf: Mac, salt: seq<byte>, iter: int, i: nat, block: array<byte>, u: array<byte>, t: array<byte>)
    requires FixedLength(prf.prf) && block.Length == 4 && u.Length == H_LEN && t.Length == H_LEN
    requires block != u && block != t && u != t
    modifies prf, block, u, t
    ensures t[..] == T(prf.prf, prf.key, salt, if iter < 1 then 1 else iter, i)
  {
    hide T, U, Int4, FixedLength;
    Starts(prf.prf, prf.key, salt, i);
    PutIndex(block, i);
    prf.Reset();
    prf.Write(salt);
    prf.Write(block[..]);
    assert prf.written == salt + Int4(i);
    prf.Sum(u);
    CopyInto(t, u);
    var n := 2;
    while n <= iter
      invariant 2 <= n && (n <= iter + 1 || n == 2)
      invariant u[..] == U(prf.prf, prf.key, salt, i, n - 1)
      invariant t[..] == T(prf.prf, prf.key, salt, n - 1, i)
    {
      GoesOn(prf.prf, prf.key, salt, i, n);
      prf.Reset();
      prf.Write(u[..]);
      assert prf.written == u[..];
      prf.Sum(u);
      XorInto(t, u);
      n := n + 1;
    }
  }

  /** `pbkdf2SHA256`. */
  method Pbkdf2Sha256(hmac: Prf, password: seq<byte>, salt: seq<byte>, iter: int, keyLen: nat) returns (key: seq<byte>)
    requires FixedLength(hmac)
    ensures key == DerivedKey(hmac, password, salt, if iter < 1 then 1 else iter, keyLen)
  {
    hide T, FixedLength;
    var prf := new Mac(hmac, password);
    var numBlocks := (keyLen + H_LEN - 1) / H_LEN;
    var out := [];
    var block, u, t := new byte[4], new byte[H_LEN], new byte[H_LEN];
    ghost var c := if iter < 1 then 1 else iter;
    for i := 1 to numBlocks + 1
      invariant out == Blocks(hmac, password, salt, c, i - 1)
    {
      Block(prf, salt, iter, i, block, u, t);
      out := out + t[..];
    }
    key := out[..keyLen];
  }

  // ----- What the specification gives -----

  /** Octet j of block i is the exclusive or, over the iterations, of octet j of every U_n. */
  ghost function Fold(prf: Prf, password: seq<byte>, salt: seq<byte>, i: nat, c: nat, j: nat): byte
    requires FixedLength(prf) && c >= 1 && j < H_LEN
  {
    if c == 1 then U(prf, password, salt, i, 1)[j]
    else Xor(Fold(prf, password, salt, i, c - 1, j), U(prf, password, salt, i, c)[j])
  }

  lemma {:induction false} TIsFold(prf: Prf, password: seq<byte>, salt: seq<byte>, c: nat, i: nat, j: nat)
    requires FixedLength(prf) && c >= 1 && j < H_LEN
    ensures T(prf, password, salt, c, i)[j] == Fold(prf, password, salt, i, c, j)
  {
    if c > 1 { TIsFold(prf, password, salt, c - 1, i, j); }
  }

  lemma {:induction false} BlockAt(prf: Prf, password: seq<byte>, salt: seq<byte>, c: nat, l: nat, k: nat)
    requires FixedLength(prf) && c >= 1 && k < l * H_LEN
    ensures Blocks(prf, password, salt, c, l)[k] == T(prf, password, salt, c, k / H_LEN + 1)[k % H_LEN]
  {
    hide T, FixedLength;
    if k < (l - 1) * H_LEN {
      BlockAt(prf, password, salt, c, l - 1, k);
    }
  }

  /** Octet k of the key, for every length the key may have: octet k mod hLen of block
      k div hLen + 1. In particular a shorter key is a prefix of a longer one. */
  lemma KeyOctet(prf: Prf, password: seq<byte>, salt: seq<byte>, c: nat, dkLen: nat, k: nat)
    requires FixedLength(prf) && c >= 1 && k < dkLen
    ensures DerivedKey(prf, password, salt, c, dkLen)[k] == Fold(prf, password, salt, k / H_LEN + 1, c, k % H_LEN)
  {
    hide T, FixedLength, Fold;
    BlockAt(prf, password, salt, c, BlockCount(dkLen), k);
    TIsFold(prf, password, salt, c, k / H_LEN + 1, k % H_LEN);
  }

  /** us are the successive outputs for block i: the function over the salt and the index in
      four octets, and then over its own last output. */
  ghost predicate Iterates(prf: Prf, password: seq<byte>, salt: seq<byte>, i: nat, us: seq<seq<byte>>) {
    && us != []
    && us[0] == prf(password, salt + [i / 0x100_0000 % 0x100, i / 0x1_0000 % 0x100, i / 0x100 % 0x100, i % 0x100])
    && forall n :: 0 < n < |us| ==> us[n] == prf(password, us[n - 1])
  }

  lemma {:induction false} UIsIterate(
    prf: Prf, password: seq<byte>, salt: seq<byte>, i: nat, us: seq<seq<byte>>, n: nat)
    requires Iterates(prf, password, salt, i, us) && n < |us|
    ensures U(prf, password, salt, i, n + 1) == us[n]
  {
    if n == 0 {
      IndexOctets(i);
    } else {
      UIsIterate(prf, password, salt, i, us, n - 1);
    }
  }

  /** The outputs, up to the c-th, whose octet j has bit b set. */
  ghost function Ones(us: seq<seq<byte>>, c: nat, j: nat, b: nat): set<nat>
    requires c <= |us| && forall n :: 0 <= n < |us| ==> j < |us[n]|
  {
    set n: nat | n < c && Bit(us[n][j], b) == 1
  }

  lemma OneMore(us: seq<seq<byte>>, c: nat, j: nat, b: nat)
    requires c < |us| && forall n :: 0 <= n < |us| ==> j < |us[n]|
    ensures |Ones(us, c + 1, j, b)| == |Ones(us, c, j, b)| + Bit(us[c][j], b)
  {
    var ones := Ones(us, c, j, b);
    assert Ones(us, c + 1, j, b) == if Bit(us[c][j], b) == 1 then ones + {c} else ones;
  }

  lemma {:induction false} FoldParity(prf: Prf, password: seq<byte>, salt: seq<byte>, i: nat, us: seq<seq<byte>>,
                                      c: nat, j: nat, b: nat)
    requires FixedLength(prf) && Iterates(prf, password, salt, i, us) && 1 <= c <= |us| && j < H_LEN && b < 8
    requires forall n :: 0 <= n < |us| ==> j < |us[n]|
    ensures Bit(Fold(prf, password, salt, i, c, j), b) == |Ones(us, c, j, b)| % 2
  {
    hide Bit, Iterates, Ones, U;
    UIsIterate(prf, password, salt, i, us, c - 1);
    OneMore(us, c - 1, j, b);
    if c == 1 {
      NoneYet(us, j, b);
    } else {
      FoldParity(prf, password, salt, i, us, c - 1, j, b);
      XorBit(Fold(prf, password, salt, i, c - 1, j), us[c - 1][j], b);
    }
  }

  lemma NoneYet(us: seq<seq<byte>>, j: nat, b: nat)
    requires forall n :: 0 <= n < |us| ==> j < |us[n]|
    ensures |Ones(us, 0, j, b)| == 0
  {
    assert Ones(us, 0, j, b) == {};
  }

  lemma IteratesAreLong(prf: Prf, password: seq<byte>, salt: seq<byte>, i: nat, us: seq<seq<byte>>)
    requires FixedLength(prf) && Iterates(prf, password, salt, i, us)
    ensures us != [] && forall n :: 0 <= n < |us| ==> |us[n]| == 32
  {
    forall n | 0 <= n < |us| ensures |us[n]| == 32 {
      if n > 0 { assert us[n] == prf(password, us[n - 1]); }
    }
  }

  /** The key bit by bit: bit b of octet k says whether an odd number of the block's outputs,
      one for each iteration, have that bit set. The block is number k div 32 + 1, and octet
      k mod 32 of its outputs counts. */
  lemma KeyBit(prf: Prf, password: seq<byte>, salt: seq<byte>, us: seq<seq<byte>>, dkLen: nat, k: nat, b: nat)
    requires FixedLength(prf) && k < dkLen && b < 8
    requires Iterates(prf, password, salt, k / 32 + 1, us)
    ensures forall n :: 0 <= n < |us| ==> |us[n]| == 32
    ensures Bit(DerivedKey(prf, password, salt, |us|, dkLen)[k], b)
         == |Ones(us, |us|, k % 32, b)| % 2
  {
    hide FixedLength, Iterates, Fold, Bit, DerivedKey;
    IteratesAreLong(prf, password, salt, k / 32 + 1, us);
    KeyOctet(prf, password, salt, |us|, dkLen, k);
    FoldParity(prf, password, salt, k / 32 + 1, us, |us|, k % 32, b);
  }

  lemma ShorterIsPrefix(prf: Prf, password: seq<byte>, salt: seq<byte>, c: nat, short: nat, long: nat)
    requires FixedLength(prf) && c >= 1 && short <= long
    ensures DerivedKey(prf, password, salt, c, short) == DerivedKey(prf, password, salt, c, long)[..short]
  {
    hide FixedLength, DerivedKey, Fold;
    forall k | 0 <= k < short
      ensures DerivedKey(prf, password, salt, c, short)[k] == DerivedKey(prf, password, salt, c, long)[k]
    {
      KeyOctet(prf, password, salt, c, short, k);
      KeyOctet(prf, password, salt, c, long, k);
    }
  }

  /** The block index survives its four octets exactly up to the RFC's limit of 2^32 - 1
      blocks. The code has no "derived key too long" check. */
  lemma IndexIsFaithful(i: nat)
    ensures BigEndian(Int4(i)) == i <==> i <= 0xFFFF_FFFF
  {
    assert Power256(4) == 0x1_0000_0000 by { assert Power256(2) == 0x1_0000; }
    ToBigEndianOfBigEndian(Int4(i));
    if i <= 0xFFFF_FFFF { BigEndianRoundTrip(i, 4); }
  }
}
