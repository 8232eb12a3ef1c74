/**
 * The escrow program's one account type, `Escrow`, and its on-chain layout.
 * Anchor serialises an `#[account]` struct with Borsh: the fields in
 * declaration order, a public key as its 32 raw bytes and a `u64` as 8
 * little-endian bytes. `Escrow::LEN` is the size of that encoding.
 */
module EscrowAccount {
  import opened Results
  import opened Token

  /** The escrow record: who may close it, which mint it holds, the buy-in. */
  datatype Escrow = Escrow(authority: Pubkey, tokenMint: Pubkey, buyInAmount: U64)

  const U64_BYTES: nat := 8

  /** `Escrow::LEN`: two public keys and one `u64`. */
  const LEN: nat := 32 + 32 + 8

  /** Bytes allocated for the account by `initialize`: Anchor's 8-byte discriminator, then the record. */
  const SPACE: nat := 8 + LEN

  function Pow256(n: nat): (p: nat)
    ensures p >= 1
  {
    if n == 0 then 1 else 0x100 * Pow256(n - 1)
  }

  /** The `n`-byte little-endian encoding of `x`. */
  function LittleEndian(x: nat, n: nat): (r: seq<U8>)
    requires x < Pow256(n)
    ensures |r| == n
  {
    if n == 0 then [] else [x % 0x100] + LittleEndian(x / 0x100, n - 1)
  }

  /** The number whose little-endian encoding is `s`. */
  function FromLittleEndian(s: seq<U8>): (x: nat)
    ensures x < Pow256(|s|)
  {
    if s == [] then 0 else s[0] + 0x100 * FromLittleEndian(s[1..])
  }

  lemma {:induction false} FromLittleEndianInverse(x: nat, n: nat)
    requires x < Pow256(n)
    ensures FromLittleEndian(LittleEndian(x, n)) == x
  {
    if n > 0 {
      var s := LittleEndian(x, n);
      assert x / 0x100 < Pow256(n - 1);
      FromLittleEndianInverse(x / 0x100, n - 1);
      assert s[1..] == LittleEndian(x / 0x100, n - 1);
      assert s[0] == x % 0x100;
      DivMod256(x);
    }
  }

  lemma {:induction false} LittleEndianInverse(s: seq<U8>)
    ensures LittleEndian(FromLittleEndian(s), |s|) == s
  {
    if s != [] {
      var x := FromLittleEndian(s);
      var rest := FromLittleEndian(s[1..]);
      DivModUnique(x, s[0], rest);
      LittleEndianInverse(s[1..]);
    }
  }

  lemma DivMod256(x: nat)
    ensures x == x % 0x100 + 0x100 * (x / 0x100)
  {
  }

  lemma DivModUnique(x: nat, lo: nat, hi: nat)
    requires lo < 0x100 && x == lo + 0x100 * hi
    ensures x % 0x100 == lo && x / 0x100 == hi
  {
  }

  lemma U64FitsEightBytes()
    ensures Pow256(U64_BYTES) == U64_LIMIT
  {
  }

  /** Borsh encoding of the record. */
  function Encode(e: Escrow): (r: seq<U8>)
    ensures |r| == LEN
    ensures r[..32] == e.authority && r[32..64] == e.tokenMint
  {
    U64FitsEightBytes();
    e.authority + e.tokenMint + LittleEndian(e.buyInAmount, U64_BYTES)
  }

  /** Borsh decoding of the record from the front of the account data; trailing bytes are ignored. */
  function Decode(data: seq<U8>): (r: Option<Escrow>)
    ensures r.Some? <==> |data| >= LEN
  {
    if |data| < LEN then None
    else
      U64FitsEightBytes();
      var amount := FromLittleEndian(data[64..72]);
      Some(Escrow(data[..32], data[32..64], amount))
  }

  /** The account `initialize` allocates holds the discriminator and exactly one encoded record. */
  lemma SpaceHoldsRecord(e: Escrow)
    ensures SPACE == 8 + |Encode(e)|
  {
  }

  /** Decoding what was encoded gives back the record. */
  lemma DecodeEncode(e: Escrow)
    ensures Decode(Encode(e)) == Some(e)
  {
    U64FitsEightBytes();
    var data := Encode(e);
    assert data[64..72] == LittleEndian(e.buyInAmount, U64_BYTES);
    FromLittleEndianInverse(e.buyInAmount, U64_BYTES);
  }

  /** Every LEN-byte account body is the encoding of the record it decodes to. */
  lemma EncodeDecode(data: seq<U8>)
    requires |data| == LEN
    ensures Encode(Decode(data).value) == data
  {
    LittleEndianInverse(data[64..72]);
    assert data == data[..32] + data[32..64] + data[64..72];
  }
}
