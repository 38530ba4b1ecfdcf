/** Blocks under the cryptography of this repository: SHA-256 and RSA with packed keys. */
module BdbSystem {
  import opened Arith
  import opened Words
  import opened RsaVerify
  import opened KeyDump
  import Sha256
  import Bdb
  import BdbCreate
  import BdbAccess

  /** RSA verification of a digest with a packed key of k words, as a predicate. */
  ghost predicate Verifies(key_data: seq<byte>, k: nat, e: nat, sig: seq<byte>, digest: seq<byte>)
  {
    && |key_data| >= 8 + 8 * k && |sig| == 4 * k && 62 <= |sig| && |digest| == DIGEST_SIZE
    && LeWord(key_data, 0) == k && UnpackKey(key_data, k).N() > 0
    && Accepts(UnpackKey(key_data, k), e, sig, digest)
  }

  ghost function System(): Bdb.Crypto
  {
    Bdb.Crypto(m => Sha256.Digest(m),
               (key, sig, digest) => Verifies(key, 128, 65537, sig, digest),
               (key, sig, digest) => false,
               (key, sig, digest) => Verifies(key, 96, 3, sig, digest))
  }

  /** The hash of the system is what the repository computes, for everything one update can take. */
  method SystemHash(m: seq<byte>) returns (digest: seq<byte>)
    requires |m| < Sha256.UPDATE_LIMIT
    ensures digest == System().hash(m)
  {
    hide Sha256.Digest;
    digest := Sha256.BdbSha256(m);
    assert m[..|m|] == m;
  }

  /** The checks of the system are what the repository computes, for every well-formed key and every wrong size. */
  method SystemRsa4096(key_data: seq<byte>, sig: seq<byte>, digest: seq<byte>) returns (rv: int)
    requires |key_data| >= 1032 && |sig| == 512 && |digest| == DIGEST_SIZE
    ensures LeWord(key_data, 0) == 128 ==> UnpackKey(key_data, 128).WellFormed() ==>
              (rv == SUCCESS <==> System().rsa4096(key_data, sig, digest))
    ensures LeWord(key_data, 0) != 128 ==> rv != SUCCESS && !System().rsa4096(key_data, sig, digest)
  {
    hide Accepts, LeWord, UnpackKey;
    rv := Rsa4096Verify(key_data, sig, digest);
  }

  method SystemRsa3072b(key_data: seq<byte>, sig: seq<byte>, digest: seq<byte>) returns (rv: int)
    requires |key_data| >= 776 && |sig| == 384 && |digest| == DIGEST_SIZE
    ensures LeWord(key_data, 0) == 96 ==> UnpackKey(key_data, 96).WellFormed() ==>
              (rv == SUCCESS <==> System().rsa3072b(key_data, sig, digest))
    ensures LeWord(key_data, 0) != 96 ==> rv != SUCCESS && !System().rsa3072b(key_data, sig, digest)
  {
    hide Accepts, LeWord, UnpackKey;
    rv := Rsa3072bVerify(key_data, sig, digest);
  }

  /** Signing with private exponent d: the encoded digest to the power of d. */
  ghost function SignWith(N: nat, d: nat, len: nat): seq<byte> -> seq<byte>
    requires N > 0 && 62 <= len
  {
    digest => if |digest| != DIGEST_SIZE then [] else BeBytes(Pow(BeVal(Encoded(digest, len)), d) % N, len)
  }

  /** A modulus of 32 * k bits on which exponent e undoes d for every encoded digest. */
  ghost predicate KeyPair(N: nat, d: nat, e: nat, k: nat)
  {
    && N > 0 && N % 2 == 1 && NumBits(N) == 32 * k && 62 <= 4 * k < 0x400_0000
    && forall digest: seq<byte> :: |digest| == DIGEST_SIZE ==>
         var m := BeVal(Encoded(digest, 4 * k)); Pow(Pow(m, d), e) % N == m
  }

  lemma SignerVerifies(N: nat, d: nat, e: nat, k: nat, digest: seq<byte>)
    requires KeyPair(N, d, e, k) && |digest| == DIGEST_SIZE
    ensures Verifies(KeyBytes(N), k, e, SignWith(N, d, 4 * k)(digest), digest)
  {
    hide Pow, BeVal, BeBytes, Encoded, Accepts, KeyBytes, NumBits;
    SignedIsAccepted(N, d, e, digest, 4 * k);
    UnpackPacked(N);
  }

  /** A key structure of either RSA algorithm around the packed modulus of a key pair. */
  ghost predicate PackedKey(key: seq<byte>, N: nat, d: nat)
  {
    && Bdb.IsKey(key) && N > 0 && NumBits(N) < 0x8000_0000 && Bdb.KeyData(key) == KeyBytes(N)
    && (|| (Bdb.U8(key, 9) == Bdb.ALG_RSA4096 && KeyPair(N, d, 65537, 128))
        || (Bdb.U8(key, 9) == Bdb.ALG_RSA3072B && KeyPair(N, d, 3, 96)))
  }

  /** The signer for such a key. */
  ghost function SignerFor(key: seq<byte>, N: nat, d: nat): seq<byte> -> seq<byte>
    requires PackedKey(key, N, d)
  {
    SignWith(N, d, if Bdb.U8(key, 9) == Bdb.ALG_RSA4096 then 512 else 384)
  }

  /** A key structure around a packed modulus and the signer with its private exponent belong together. */
  lemma PackedPair(key: seq<byte>, N: nat, d: nat)
    requires PackedKey(key, N, d)
    ensures BdbCreate.RsaKey(key) && BdbCreate.Pair(System(), key, SignerFor(key, N, d))
  {
    hide Verifies, KeyBytes, NumBits, Pow, BeVal, BeBytes, Encoded, Sha256.Digest;
    var k, e := if Bdb.U8(key, 9) == Bdb.ALG_RSA4096 then 128 else 96, if Bdb.U8(key, 9) == Bdb.ALG_RSA4096 then 65537 else 3;
    var c := System();
    forall m: seq<byte>
      ensures var s := SignWith(N, d, 4 * k)(c.hash(m));
              |s| == Bdb.SigDataSize(Bdb.U8(key, 9)) && c.Check(Bdb.U8(key, 9))(Bdb.KeyData(key), s, c.hash(m))
    {
      SignerVerifies(N, d, e, k, Sha256.Digest(m));
    }
  }

  /** What the builder makes of two packed keys and their private exponents verifies, or is refused for its sizes. */
  method CreateSystem(c: Bdb.Crypto, p: BdbCreate.Params, ghost N0: nat, ghost d0: nat, ghost N1: nat, ghost d1: nat)
    returns (r: BdbAccess.Option<seq<byte>>)
    requires c == System() && PackedKey(p.bdbkey, N0, d0) && PackedKey(p.subkey, N1, d1)
    requires p.signBdb == SignerFor(p.bdbkey, N0, d0) && p.signSub == SignerFor(p.subkey, N1, d1)
    requires |p.oem0| + |p.subkey| < Sha256.UPDATE_LIMIT
    requires Bdb.DATA_SIZE + |p.oem1| + Bdb.HASH_SIZE * |p.hashes| < Sha256.UPDATE_LIMIT
    ensures r.None? <==> || |p.oem0| % 4 != 0 || |p.oem1| % 4 != 0 || |p.hashes| > 255
                         || BdbCreate.BdbSize(p) >= BASE
    ensures r.Some? ==> Bdb.Verify(System(), r.value, Sha256.Digest(p.bdbkey)) == Bdb.SUCCESS
    ensures r.Some? ==> BdbCreate.Holds(r.value, p) && BdbCreate.Labelled(r.value, p)
  {
    hide Verifies, KeyPair, SignerFor, Bdb.KeyData, Bdb.U8, Bdb.Verify, Sha256.Digest;
    hide BdbCreate.Trusted, BdbCreate.Holds, BdbCreate.Labelled, BdbCreate.BdbSize, BdbCreate.Joined, BdbCreate.DataOf;
    PackedPair(p.bdbkey, N0, d0);
    PackedPair(p.subkey, N1, d1);
    r := BdbCreate.Create(c, p);
    if r.Some? {
      BdbCreate.PairsTrusted(c, p);
    }
  }
}
