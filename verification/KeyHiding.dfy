/** Hiding of attribute values by a chained exclusive-or with a keyed hash:
    RFC 2865 section 5.2, RFC 2868 section 3.5 and RFC 2548 sections 2.4.2 and 2.4.3. */
module KeyHiding {
  import opened Bytes
  import opened Options
  import opened Md5Spec

  /** c(1) = p(1) xor H(S + iv), c(i) = p(i) xor H(S + c(i - 1)). */
  function Hide(h: Hash, secret: seq<byte>, iv: seq<byte>, plain: seq<byte>): (c: seq<byte>)
    ensures |c| == |plain| / 16 * 16
    decreases |plain|
  {
    if |plain| < 16 then [] else
      var first := XorSeq(plain[..16], h(secret + iv));
      first + Hide(h, secret, first, plain[16..])
  }

  /** p(1) = c(1) xor H(S + iv), p(i) = c(i) xor H(S + c(i - 1)). */
  function Unhide(h: Hash, secret: seq<byte>, iv: seq<byte>, cipher: seq<byte>): (p: seq<byte>)
    ensures |p| == |cipher| / 16 * 16
    decreases |cipher|
  {
    if |cipher| < 16 then [] else
      XorSeq(cipher[..16], h(secret + iv)) + Unhide(h, secret, cipher[..16], cipher[16..])
  }

  /** Unhiding recovers every string of whole blocks, for every hash, secret and starting value. */
  lemma {:induction false} UnhideHide(h: Hash, secret: seq<byte>, iv: seq<byte>, plain: seq<byte>, n: nat)
    requires |plain| == 16 * n
    ensures Unhide(h, secret, iv, Hide(h, secret, iv, plain)) == plain
    decreases n
  {
    if n > 0 {
      var first := XorSeq(plain[..16], h(secret + iv));
      var rest := Hide(h, secret, first, plain[16..]);
      XorSeqCancel(plain[..16], h(secret + iv));
      UnhideHide(h, secret, first, plain[16..], n - 1);
    }
  }

  /** The value chained into block k. */
  function Previous(iv: seq<byte>, cipher: seq<byte>, k: nat): (r: seq<byte>)
    requires 16 * k <= |cipher|
  {
    if k == 0 then iv else cipher[16 * (k - 1)..16 * k]
  }

  /** Block k behind a first block is block k - 1 of the rest. */
  lemma BlockBehind(first: seq<byte>, rest: seq<byte>, k: nat)
    requires |first| == 16 && k > 0 && 16 * k <= |rest|
    ensures (first + rest)[16 * k..16 * k + 16] == rest[16 * (k - 1)..16 * (k - 1) + 16]
  {
    var i := 16 * (k - 1);
    assert (first + rest)[16 + i..16 + i + 16] == rest[i..i + 16];
  }

  lemma ChainBehind(iv: seq<byte>, first: seq<byte>, rest: seq<byte>, k: nat)
    requires |first| == 16 && k > 0 && 16 * (k - 1) <= |rest|
    ensures Previous(iv, first + rest, k) == Previous(first, rest, k - 1)
  {
    if k == 1 {
      assert (first + rest)[0..16] == first;
    } else {
      BlockBehind(first, rest, k - 1);
    }
  }

  /** Block k of the plain text depends on blocks k - 1 and k of the cipher text only. */
  lemma {:induction false} UnhideBlock(h: Hash, secret: seq<byte>, iv: seq<byte>, cipher: seq<byte>, k: nat)
    requires 16 * k + 16 <= |cipher|
    ensures 16 * k + 16 <= |Unhide(h, secret, iv, cipher)|
    ensures Unhide(h, secret, iv, cipher)[16 * k..16 * k + 16]
         == XorSeq(cipher[16 * k..16 * k + 16], h(secret + Previous(iv, cipher, k)))
    decreases k
  {
    if k > 0 {
      var rest := cipher[16..];
      UnhideBlock(h, secret, cipher[..16], rest, k - 1);
      assert cipher == cipher[..16] + rest;
      var first, tail := XorSeq(cipher[..16], h(secret + iv)), Unhide(h, secret, cipher[..16], rest);
      assert Unhide(h, secret, iv, cipher) == first + tail;
      hide XorSeq, Unhide;
      BlockBehind(cipher[..16], rest, k);
      BlockBehind(first, tail, k);
      ChainBehind(iv, cipher[..16], rest, k);
    }
  }

  /** Block k of the cipher text chains block k - 1 of the cipher text. */
  lemma {:induction false} HideBlock(h: Hash, secret: seq<byte>, iv: seq<byte>, plain: seq<byte>, k: nat)
    requires 16 * k + 16 <= |plain|
    ensures 16 * k + 16 <= |Hide(h, secret, iv, plain)|
    ensures Hide(h, secret, iv, plain)[16 * k..16 * k + 16]
         == XorSeq(plain[16 * k..16 * k + 16],
                   h(secret + Previous(iv, Hide(h, secret, iv, plain), k)))
    decreases k
  {
    var cipher := Hide(h, secret, iv, plain);
    if k > 0 {
      var first := XorSeq(plain[..16], h(secret + iv));
      var rest := plain[16..];
      var tail := Hide(h, secret, first, rest);
      HideBlock(h, secret, first, rest, k - 1);
      assert plain == plain[..16] + rest && cipher == first + tail;
      hide XorSeq, Hide;
      BlockBehind(plain[..16], rest, k);
      BlockBehind(first, tail, k);
      ChainBehind(iv, first, tail, k);
    }
  }

  function Be16(n: nat): (r: seq<byte>)
    ensures |r| == 2
  {
    [n / 256 % 256, n % 256]
  }

  /** The 16-octet blocks encrypt_ms_key fills; rounding up masks with 0xf0, which keeps eight bits only. */
  function PaddedBlocks(keyLength: nat): (n: nat)
    ensures n > 0 && 16 * n <= keyLength + 16
    ensures keyLength <= 255 ==> 16 * n > keyLength
  {
    var q, t := (1 + keyLength) / 16, (1 + keyLength) % 16;
    if t == 0 then q else q % 16 + 1
  }

  /** A length octet, the key and zero padding. */
  function KeyPlain(key: seq<byte>): (r: seq<byte>)
    ensures |r| == 16 * PaddedBlocks(|key|)
  {
    ([|key| % 256] + key + Zeros(15))[..16 * PaddedBlocks(|key|)]
  }

  /** encrypt_ms_key: the cipher text that follows the salt. */
  function EncryptKey(h: Hash, key: seq<byte>, salt: nat, auth: seq<byte>, secret: seq<byte>): (c: seq<byte>)
  {
    Hide(h, secret, auth + Be16(salt), KeyPlain(key))
  }

  /** The length octet says how much of the plain text is the key; zero or too much is an error. */
  function Framed(plain: seq<byte>): (r: Option<seq<byte>>)
    requires plain != []
  {
    if plain[0] == 0 || plain[0] > |plain| - 1 then None else Some(plain[1..1 + plain[0]])
  }

  /** decrypt_ms_key: `blob` is a salt followed by cipher text. */
  function DecryptKey(h: Hash, blob: seq<byte>, auth: seq<byte>, secret: seq<byte>): (r: Option<seq<byte>>)
  {
    if |blob| < 18 || (|blob| - 2) % 16 != 0 then None
    else Framed(Unhide(h, secret, auth + blob[..2], blob[2..]))
  }

  /** The plain text: the length octet, the key, zeros. */
  lemma KeyPlainIs(key: seq<byte>)
    requires |key| <= 255
    ensures var p := KeyPlain(key);
            |p| > |key| && p[0] == |key| && p[1..1 + |key|] == key && forall i :: |key| < i < |p| ==> p[i] == 0
  {
    hide PaddedBlocks;
    var n, whole := PaddedBlocks(|key|), [|key| % 256] + key + Zeros(15);
    assert whole[1..1 + |key|] == key;
  }

  /** Sections 2.4.2 and 2.4.3 of RFC 2548: the first block of the cipher text is hidden with the digest of secret,
      authenticator and salt, every other one with the digest of secret and the block before. */
  lemma EncryptedBlock(h: Hash, key: seq<byte>, salt: nat, auth: seq<byte>, secret: seq<byte>, k: nat)
    requires k < PaddedBlocks(|key|)
    ensures var c, p := EncryptKey(h, key, salt, auth, secret), KeyPlain(key);
            && |c| == |p| == 16 * PaddedBlocks(|key|)
            && c[16 * k..16 * k + 16] ==
               XorSeq(p[16 * k..16 * k + 16],
                      h(secret + if k == 0 then auth + [salt / 256 % 256, salt % 256] else c[16 * k - 16..16 * k]))
  {
    hide Hide, KeyPlain, XorSeq, PaddedBlocks;
    HideBlock(h, secret, auth + Be16(salt), KeyPlain(key), k);
  }

  lemma FramedKeyPlain(key: seq<byte>)
    ensures KeyPlain(key) != []
    ensures Framed(KeyPlain(key)) == Some(key) <==> 1 <= |key| <= 255
  {
    hide PaddedBlocks, Zeros;
    var n, whole := PaddedBlocks(|key|), [|key| % 256] + key + Zeros(15);
    var plain := whole[..16 * n];
    assert plain == KeyPlain(key) && plain[0] == whole[0] == |key| % 256;
    hide KeyPlain;
    if |key| <= 255 {
      assert plain[1..1 + |key|] == whole[1..1 + |key|];
      assert whole[1..1 + |key|] == key;
    }
  }

  /** A key survives encryption and decryption exactly when its length fits the length octet. */
  lemma DecryptEncrypt(h: Hash, key: seq<byte>, salt: nat, auth: seq<byte>, secret: seq<byte>)
    ensures DecryptKey(h, Be16(salt) + EncryptKey(h, key, salt, auth, secret), auth, secret) == Some(key)
       <==> 1 <= |key| <= 255
  {
    hide Hide, Unhide, KeyPlain, Framed, Be16, PaddedBlocks;
    var n, plain := PaddedBlocks(|key|), KeyPlain(key);
    var cipher := EncryptKey(h, key, salt, auth, secret);
    var blob := Be16(salt) + cipher;
    UnhideHide(h, secret, auth + Be16(salt), plain, n);
    FramedKeyPlain(key);
  }

  /** RFC 2868 section 3.5: tag, salt and the hidden string of a Tunnel-Password value. */
  function TunnelKey(h: Hash, value: seq<byte>, auth: seq<byte>, secret: seq<byte>): (r: Option<seq<byte>>)
    requires |value| > 3 && |value| % 16 == 3
  {
    Framed(Unhide(h, secret, auth + value[1..3], value[3..]))
  }

  /** The Tunnel-Password decryption is the MPPE decryption of the value without its tag. */
  lemma TunnelKeyIsDecryptKey(h: Hash, value: seq<byte>, auth: seq<byte>, secret: seq<byte>)
    requires |value| > 3 && |value| % 16 == 3
    ensures TunnelKey(h, value, auth, secret) == DecryptKey(h, value[1..], auth, secret)
  {
    hide Unhide, Framed;
    assert value[1..][..2] == value[1..3] && value[1..][2..] == value[3..];
  }
}
