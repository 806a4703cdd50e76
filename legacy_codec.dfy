/**
 * The deterministic Encode of the older fenfa/pkg/utils/utils.go: the token is the lower-case
 * hex encoding of SHA-256 over input, the decimal timestamp and the salt, concatenated with
 * no separator. SHA-256 itself is a parameter: any function from strings to 32-byte digests.
 */
module LegacyCodec {
  import opened Text

  type Digest = d: seq<Byte> | |d| == 32 witness seq(32, i => 0)

  /** The string fmt.Sprintf("%s%d%s", input, timestamp, salt) builds. */
  function Preimage(input: string, salt: string, timestamp: int): string
  {
    input + Decimal(timestamp) + salt
  }

  /** Encode: a token of 64 lower-case hex digits. */
  function Encode(sha256: string -> Digest, input: string, salt: string, timestamp: int): (token: string)
    ensures |token| == 64 && AllHex(token)
  {
    Hex(sha256(Preimage(input, salt, timestamp)))
  }

  /** The token is a function of the preimage alone: equal preimages give equal tokens. */
  lemma SamePreimageSameToken(sha256: string -> Digest, input1: string, salt1: string, timestamp1: int,
                              input2: string, salt2: string, timestamp2: int)
    requires Preimage(input1, salt1, timestamp1) == Preimage(input2, salt2, timestamp2)
    ensures Encode(sha256, input1, salt1, timestamp1) == Encode(sha256, input2, salt2, timestamp2)
  {
  }

  /** Without a separator, ("a1", 2) and ("a", 12) share a preimage, so they get the same token under any salt. */
  lemma PreimageCollision(sha256: string -> Digest, salt: string)
    ensures Preimage("a1", salt, 2) == Preimage("a", salt, 12)
    ensures Encode(sha256, "a1", salt, 2) == Encode(sha256, "a", salt, 12)
  {
    assert Decimal(2) == "2";
    assert Digits(1) == "1";
    assert Decimal(12) == "12";
  }

  /** For a fixed input and salt, distinct timestamps never share a preimage. */
  lemma TimestampsSeparate(input: string, salt: string, timestamp1: int, timestamp2: int)
    requires Preimage(input, salt, timestamp1) == Preimage(input, salt, timestamp2)
    ensures timestamp1 == timestamp2
  {
    var p := Preimage(input, salt, timestamp1);
    var d1 := Decimal(timestamp1);
    var d2 := Decimal(timestamp2);
    assert |d1| == |d2|;
    assert d1 == p[|input|..|input| + |d1|];
    assert d2 == p[|input|..|input| + |d2|];
    DecimalInjective(timestamp1, timestamp2);
  }

  /** The token gives the digest back: hex decoding it yields exactly the hashed bytes. */
  lemma TokenCarriesDigest(sha256: string -> Digest, input: string, salt: string, timestamp: int)
    ensures Unhex(Encode(sha256, input, salt, timestamp)) == sha256(Preimage(input, salt, timestamp))
  {
    HexRoundTrip(sha256(Preimage(input, salt, timestamp)));
  }

  /** Hence distinct digests always give distinct tokens. */
  lemma DistinctDigestsDistinctTokens(sha256: string -> Digest, input1: string, salt1: string, timestamp1: int,
                                      input2: string, salt2: string, timestamp2: int)
    requires sha256(Preimage(input1, salt1, timestamp1)) != sha256(Preimage(input2, salt2, timestamp2))
    ensures Encode(sha256, input1, salt1, timestamp1) != Encode(sha256, input2, salt2, timestamp2)
  {
    TokenCarriesDigest(sha256, input1, salt1, timestamp1);
    TokenCarriesDigest(sha256, input2, salt2, timestamp2);
  }
}
