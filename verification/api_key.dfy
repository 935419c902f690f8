/**
  The build-status key normaliser. The remote API accepts keys of at most 40
  characters, so the client joins its logical key and an extension with "-"
  and, when that is too long, replaces it by the lower-case hexadecimal SHA-1
  of its UTF-8 bytes. Lengths are Java `String.length()` values, that is,
  UTF-16 code units. SHA-1 itself is not modelled: it is whatever 20-byte
  function the platform supplies, or missing altogether.
*/
module ApiKey {
  import opened JavaText
  import opened Client
  import opened Wrappers
  import Utf8
  import Hex

  /** `MAX_KEY_SIZE_BB_API`. */
  const MaxKeySize: nat := 40

  /** The hyphen `COMPUTED_KEY_FORMAT` puts between the key and its extension. */
  const Dash: JString := Literal("-")

  /** A SHA-1 digest: exactly 20 bytes. */
  type Sha1Digest = d: seq<Byte> | |d| == 20 witness seq(20, _ => 0)

  /**
    The outcome of `MessageDigest.getInstance("SHA1")`: either a digest
    function, or `NoSuchAlgorithmException`. (The UTF-8 charset is always
    present, so `UnsupportedEncodingException` cannot arise.)
  */
  datatype HashProvider = Unavailable | Sha1(digest: seq<Byte> -> Sha1Digest)

  /** `String.format(COMPUTED_KEY_FORMAT, key, keyExPart)`: the key, "-", the extension. */
  function Candidate(key: JString, keyExPart: JString): (s: JString)
    ensures |s| == |key| + 1 + |keyExPart|
    ensures s[..|key|] == key && s[|key|] == '-' as int && s[|key| + 1..] == keyExPart
  {
    key + Dash + keyExPart
  }

  /** The key a hash provider yields for an over-long candidate: hex of SHA-1 of its UTF-8 bytes. */
  function HashedKey(digest: seq<Byte> -> Sha1Digest, candidate: JString): (r: JString)
    ensures |r| == MaxKeySize
    ensures forall i :: 0 <= i < |r| ==> Hex.IsLowerHexDigit(r[i])
  {
    Hex.Encode(digest(Utf8.Encode(candidate)))
  }

  /** `computeAPIKey(keyExPart)` of a client whose key is `key`. */
  function ComputeApiKey(key: JString, keyExPart: JString, provider: HashProvider): (r: JString)
    ensures |r| <= MaxKeySize
    ensures |Candidate(key, keyExPart)| <= MaxKeySize ==> r == Candidate(key, keyExPart)
    ensures |Candidate(key, keyExPart)| > MaxKeySize && provider.Sha1? ==>
              r == HashedKey(provider.digest, Candidate(key, keyExPart))
    ensures |Candidate(key, keyExPart)| > MaxKeySize && provider.Unavailable? ==>
              r == Candidate(key, keyExPart)[..MaxKeySize]
  {
    var computedKey := Candidate(key, keyExPart);
    if |computedKey| > MaxKeySize && provider.Sha1? then
      HashedKey(provider.digest, computedKey)
    else if |computedKey| <= MaxKeySize then computedKey
    else computedKey[..MaxKeySize]
  }

  /** `buildStatusKey(bsKey)`: the public name of the same normaliser. */
  function BuildStatusKey(c: ApiClient, bsKey: JString, provider: HashProvider): (r: JString)
    ensures r == ComputeApiKey(c.key, bsKey, provider)
  {
    ComputeApiKey(c.key, bsKey, provider)
  }

  /**
    The length test is inclusive: a candidate of exactly 40 code units is
    the key itself, while one of 41 never is, with or without a provider.
  */
  lemma BoundaryIsInclusive(key: JString, keyExPart: JString, provider: HashProvider)
    ensures |Candidate(key, keyExPart)| == MaxKeySize ==> ComputeApiKey(key, keyExPart, provider) == Candidate(key, keyExPart)
    ensures |Candidate(key, keyExPart)| == MaxKeySize + 1 ==> ComputeApiKey(key, keyExPart, provider) != Candidate(key, keyExPart)
  {
  }

  /** A hashed key is exactly 40 lower-case hexadecimal digits, and reading them back gives the digest. */
  lemma HashedKeyShape(key: JString, keyExPart: JString, digest: seq<Byte> -> Sha1Digest)
    requires |Candidate(key, keyExPart)| > MaxKeySize
    ensures var r := ComputeApiKey(key, keyExPart, Sha1(digest));
            && |r| == MaxKeySize
            && (forall i :: 0 <= i < |r| ==> Hex.IsLowerHexDigit(r[i]))
            && Hex.Decode(r) == Some(digest(Utf8.Encode(Candidate(key, keyExPart))))
  {
    Hex.DecodeEncode(digest(Utf8.Encode(Candidate(key, keyExPart))));
  }

  /**
    A key that passed through unchanged can never equal a hashed one: the
    pass-through key holds the "-" separator, a hashed key only hex digits.
  */
  lemma PlainNeverMeetsHashed(key: JString, shortEx: JString, longEx: JString, provider: HashProvider)
    requires |Candidate(key, shortEx)| <= MaxKeySize < |Candidate(key, longEx)|
    requires provider.Sha1?
    ensures ComputeApiKey(key, shortEx, provider) != ComputeApiKey(key, longEx, provider)
  {
  }

  /** Extensions whose candidates both pass through get distinct keys exactly when they are distinct. */
  lemma PlainKeysInjective(key: JString, ex1: JString, ex2: JString, provider: HashProvider)
    requires |Candidate(key, ex1)| <= MaxKeySize && |Candidate(key, ex2)| <= MaxKeySize
    ensures ComputeApiKey(key, ex1, provider) == ComputeApiKey(key, ex2, provider) <==> ex1 == ex2
  {
  }

  /**
    Over-long well-formed candidates reach SHA-1 as distinct messages, so with
    a provider their keys differ unless SHA-1 itself collides.
  */
  lemma HashedKeysDifferUnlessDigestsCollide(key: JString, ex1: JString, ex2: JString, digest: seq<Byte> -> Sha1Digest)
    requires |Candidate(key, ex1)| > MaxKeySize && |Candidate(key, ex2)| > MaxKeySize
    requires Utf8.WellFormed(Candidate(key, ex1)) && Utf8.WellFormed(Candidate(key, ex2))
    requires ex1 != ex2
    ensures Utf8.Encode(Candidate(key, ex1)) != Utf8.Encode(Candidate(key, ex2))
    ensures ComputeApiKey(key, ex1, Sha1(digest)) == ComputeApiKey(key, ex2, Sha1(digest)) ==>
              digest(Utf8.Encode(Candidate(key, ex1))) == digest(Utf8.Encode(Candidate(key, ex2)))
  {
    var c1, c2 := Candidate(key, ex1), Candidate(key, ex2);
    assert c1[|key| + 1..] == ex1 && c2[|key| + 1..] == ex2;
    Utf8.EncodeInjective(c1, c2);
    Hex.EncodeInjective(digest(Utf8.Encode(c1)), digest(Utf8.Encode(c2)));
  }

  /**
    Without a hash provider, over-long candidates that agree on their first
    40 code units get the same key, whatever follows.
  */
  lemma FallbackKeepsOnlyPrefix(key: JString, ex1: JString, ex2: JString)
    requires |Candidate(key, ex1)| > MaxKeySize && |Candidate(key, ex2)| > MaxKeySize
    ensures ComputeApiKey(key, ex1, Unavailable) == ComputeApiKey(key, ex2, Unavailable) <==>
              Candidate(key, ex1)[..MaxKeySize] == Candidate(key, ex2)[..MaxKeySize]
  {
  }
}
