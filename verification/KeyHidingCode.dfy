/** The in-place and out-of-place loops of radius.c that hide and unhide attribute values. */
module KeyHidingCode {
  import opened Bytes
  import opened Options
  import opened Md5Spec
  import opened Hmac
  import opened KeyHiding

  /** The digest of the secret followed by one element. */
  method ChainHash(secret: seq<byte>, p: Piece) returns (hash: Digest16)
    requires |secret| < WORD && InBounds(p)
    ensures hash == Md5(secret + Content(p))
  {
    hide Md5, Contents, Content, InBounds;
    ContentsCons(Value(secret), [p]);
    ContentsOne(p);
    SecretFirst(secret);
    hash := DigestOf([Value(secret)] + [p]);
  }

  lemma SecretFirst(secret: seq<byte>)
    requires |secret| < WORD
    ensures InBounds(Value(secret)) && Content(Value(secret)) == secret
  {
  }

  /** Exclusive-or of sixteen octets of the buffer with a digest, in place. */
  method XorInto(buf: array<byte>, pos: nat, hash: Digest16)
    requires pos + 16 <= buf.Length
    modifies buf
    ensures buf[..] == old(buf[..pos]) + XorSeq(old(buf[pos..pos + 16]), hash) + old(buf[pos + 16..])
  {
    hide Xor;
    var i := 0;
    while i < 16
      invariant 0 <= i <= 16
      invariant forall j :: 0 <= j < buf.Length && !(pos <= j < pos + i) ==> buf[j] == old(buf[j])
      invariant forall j :: 0 <= j < i ==> buf[pos + j] == Xor(old(buf[pos + j]), hash[j])
    {
      buf[pos + i] := Xor(buf[pos + i], hash[i]);
      i := i + 1;
    }
  }

  /** Cipher text in the first k blocks of the stretch at `at`, plain text after it, nothing else touched. */
  ghost predicate Partial(b: seq<byte>, was: seq<byte>, at: nat, k: nat, cipher: seq<byte>, plain: seq<byte>)
  {
    && |cipher| == |plain| && 16 * k <= |plain| && at + |plain| <= |b| == |was|
    && b == was[..at] + cipher[..16 * k] + plain[16 * k..] + was[at + |plain|..]
  }

  lemma PartialStep(b: seq<byte>, was: seq<byte>, at: nat, k: nat, cipher: seq<byte>, plain: seq<byte>)
    requires Partial(b, was, at, k, cipher, plain) && 16 * k + 16 <= |plain|
    ensures at + |plain| <= |b|
    ensures b[at + 16 * k..at + 16 * k + 16] == plain[16 * k..16 * k + 16]
    ensures k > 0 ==> b[at + 16 * k - 16..at + 16 * k] == cipher[16 * k - 16..16 * k]
    ensures Partial(b[..at + 16 * k] + cipher[16 * k..16 * k + 16] + b[at + 16 * k + 16..],
                    was, at, k + 1, cipher, plain)
  {
  }

  /** One turn of the encryption loops: block k, chained on the cipher text before it. */
  method HideStep(buf: array<byte>, at: nat, k: nat, secret: seq<byte>, iv: seq<byte>,
                  ghost plain: seq<byte>, ghost was: seq<byte>)
    requires |secret| < WORD && |iv| < WORD && 16 * k + 16 <= |plain|
    requires Partial(buf[..], was, at, k, Hide(Md5, secret, iv, plain), plain)
    modifies buf
    ensures Partial(buf[..], was, at, k + 1, Hide(Md5, secret, iv, plain), plain)
  {
    hide Md5, Hide, XorSeq, Partial;
    ghost var cipher := Hide(Md5, secret, iv, plain);
    var pos := at + 16 * k;
    var prev := if k == 0 then Value(iv) else Slice(buf, pos - 16, 16);
    HideBlock(Md5, secret, iv, plain, k);
    PartialStep(buf[..], was, at, k, cipher, plain);
    var hash := ChainHash(secret, prev);
    ghost var before := buf[..];
    XorInto(buf, pos, hash);
  }

  lemma PartialEnds(was: seq<byte>, at: nat, n: nat, cipher: seq<byte>, plain: seq<byte>)
    requires |cipher| == |plain| == 16 * n && at + |plain| <= |was|
    ensures was[at..at + |plain|] == plain ==> Partial(was, was, at, 0, cipher, plain)
    ensures was[at..at + |plain|] == cipher ==> Partial(was, was, at, n, cipher, plain)
    ensures forall b :: Partial(b, was, at, n, cipher, plain) ==> b == was[..at] + cipher + was[at + |plain|..]
    ensures forall b :: Partial(b, was, at, 0, cipher, plain) ==> b == was[..at] + plain + was[at + |plain|..]
  {
    assert was == was[..at] + was[at..at + |plain|] + was[at + |plain|..];
    assert cipher[..16 * n] == cipher && plain[16 * n..] == [] && cipher[..0] == [] && plain[0..] == plain;
    assert was[..at] + cipher + [] == was[..at] + cipher && was[..at] + [] == was[..at];
  }

  /** Blocks `from` to n of the stretch at `at`. */
  method HideRest(buf: array<byte>, at: nat, from: nat, n: nat, secret: seq<byte>, iv: seq<byte>,
                  ghost plain: seq<byte>, ghost was: seq<byte>)
    requires |secret| < WORD && |iv| < WORD && from <= n && |plain| == 16 * n && at + |plain| <= |was|
    requires Partial(buf[..], was, at, from, Hide(Md5, secret, iv, plain), plain)
    modifies buf
    ensures buf[..] == was[..at] + Hide(Md5, secret, iv, plain) + was[at + |plain|..]
  {
    hide Md5, Hide, Partial;
    var k := from;
    while k < n
      invariant from <= k <= n
      invariant Partial(buf[..], was, at, k, Hide(Md5, secret, iv, plain), plain)
    {
      HideStep(buf, at, k, secret, iv, plain, was);
      k := k + 1;
    }
    PartialEnds(was, at, n, Hide(Md5, secret, iv, plain), plain);
  }

  /** memset, the length octet and memcpy leave the padded key, whichever of key and padding is longer. */
  lemma LaidKey(b: seq<byte>, key: seq<byte>, at: nat, n: nat)
    requires n == PaddedBlocks(|key|) && at + |key| + 16 <= |b|
    ensures var zeroed := b[..at] + Zeros(16 * n) + b[at + 16 * n..];
            var laid := zeroed[..at] + ([|key| % 256] + key) + zeroed[at + 1 + |key|..];
            laid[at..at + 16 * n] == KeyPlain(key) && laid[..at] == b[..at]
  {
    hide PaddedBlocks;
    var zeroed := b[..at] + Zeros(16 * n) + b[at + 16 * n..];
    var laid := zeroed[..at] + ([|key| % 256] + key) + zeroed[at + 1 + |key|..];
    forall i | 0 <= i < 16 * n ensures laid[at..at + 16 * n][i] == KeyPlain(key)[i] {
      if i > |key| {
        assert laid[at + i] == zeroed[at + i] == 0;
      }
    }
  }

  method LayKey(key: seq<byte>, n: nat, ebuf: array<byte>, at: nat)
    requires n == PaddedBlocks(|key|) && at + |key| + 16 <= ebuf.Length
    modifies ebuf
    ensures ebuf[at..at + 16 * n] == KeyPlain(key) && ebuf[..at] == old(ebuf[..at])
  {
    hide PaddedBlocks, KeyPlain, Zeros;
    LaidKey(ebuf[..], key, at, n);
    WriteAt(ebuf, at, Zeros(16 * n));
    WriteAt(ebuf, at, [|key| % 256] + key);
  }

  /** encrypt_ms_key into ebuf[at..], a buffer of at least key_len + 16 octets from there. */
  method EncryptMsKey(key: seq<byte>, salt: nat, auth: seq<byte>, secret: seq<byte>, ebuf: array<byte>, at: nat)
    returns (elen: nat)
    requires |secret| < WORD && |auth| == 16 && at + |key| + 16 <= ebuf.Length
    modifies ebuf
    ensures elen == 16 * PaddedBlocks(|key|) <= |key| + 16
    ensures ebuf[at..at + elen] == EncryptKey(Md5, key, salt, auth, secret)
    ensures ebuf[..at] == old(ebuf[..at])
  {
    hide Md5, Hide, Be16, PaddedBlocks, KeyPlain, Partial;
    var n := PaddedBlocks(|key|);
    elen := 16 * n;
    LayKey(key, n, ebuf, at);
    ghost var plain, was := KeyPlain(key), ebuf[..];
    PartialEnds(was, at, n, Hide(Md5, secret, auth + Be16(salt), plain), plain);
    HideRest(ebuf, at, 0, n, secret, auth + Be16(salt), plain, was);
  }

  function ZeroPadded(data: seq<byte>): (r: seq<byte>)
  {
    data + Zeros((16 - |data| % 16) % 16)
  }

  /** Copy the data and pad it with zeros to whole blocks. */
  method LayPassword(data: seq<byte>, buf: array<byte>) returns (n: nat)
    requires |data| + 16 <= buf.Length
    modifies buf
    ensures 16 * n == |ZeroPadded(data)| < |data| + 16
    ensures buf[..16 * n] == ZeroPadded(data)
  {
    WriteAt(buf, 0, data);
    var padlen := |data| % 16;
    if padlen != 0 {
      padlen := 16 - padlen;
      WriteAt(buf, |data|, Zeros(padlen));
    }
    n := (|data| + padlen) / 16;
    assert |data| + padlen == 16 * n;
  }

  /** radius_user_password_hide: the buffer needs 16 octets more than the data. */
  method HidePassword(data: seq<byte>, auth: seq<byte>, secret: seq<byte>, buf: array<byte>) returns (r: int)
    requires |secret| < WORD && |auth| == 16
    modifies buf
    ensures |data| + 16 > buf.Length ==> r == -1 && buf[..] == old(buf[..])
    ensures |data| + 16 <= buf.Length ==> r == |ZeroPadded(data)| < |data| + 16
    ensures |data| + 16 <= buf.Length ==> buf[..r] == Hide(Md5, secret, auth, ZeroPadded(data))
  {
    hide Md5, Hide, Partial, ZeroPadded, XorSeq;
    if |data| + 16 > buf.Length {
      return -1;
    }
    var n := LayPassword(data, buf);
    r := 16 * n;
    ghost var plain, was := ZeroPadded(data), buf[..];
    if n == 0 {
      // the first block is hidden even when no data was copied to it
      var hash := ChainHash(secret, Value(auth));
      XorInto(buf, 0, hash);
    } else {
      PartialEnds(was, 0, n, Hide(Md5, secret, auth, plain), plain);
      HideRest(buf, 0, 0, n, secret, auth, plain, was);
    }
  }

  /** RFC 2865 section 5.2: unhiding a hidden password gives the data padded with zeros. */
  lemma HiddenPasswordUnhides(h: Hash, data: seq<byte>, auth: seq<byte>, secret: seq<byte>)
    ensures Unhide(h, secret, auth, Hide(h, secret, auth, ZeroPadded(data)))[..|data|] == data
    ensures forall i :: |data| <= i < |ZeroPadded(data)| ==>
              Unhide(h, secret, auth, Hide(h, secret, auth, ZeroPadded(data)))[i] == 0
  {
    hide Hide, Unhide;
    UnhideHide(h, secret, auth, ZeroPadded(data), (|data| + 15) / 16);
  }

  /** decrypt_ms_key: forward, into a buffer of its own. */
  method DecryptMsKey(key: seq<byte>, auth: seq<byte>, secret: seq<byte>) returns (r: Option<seq<byte>>)
    requires |secret| < WORD && |auth| == 16
    ensures r == DecryptKey(Md5, key, auth, secret)
  {
    hide Md5, Unhide, XorSeq;
    if |key| < 2 + 16 || (|key| - 2) % 16 != 0 {
      return None;
    }
    var cipher, iv := key[2..], auth + key[..2];
    var n := |cipher| / 16;
    ghost var all := Unhide(Md5, secret, iv, cipher);
    var plain: seq<byte> := [];
    var k := 0;
    while k < n
      invariant 0 <= k <= n && plain == all[..16 * k]
    {
      var hash := ChainHash(secret, Value(if k == 0 then iv else cipher[16 * (k - 1)..16 * k]));
      UnhideBlock(Md5, secret, iv, cipher, k);
      plain := plain + XorSeq(cipher[16 * k..16 * k + 16], hash);
      k := k + 1;
    }
    assert plain == all;
    if plain[0] == 0 || plain[0] > |plain| - 1 {
      return None;
    }
    r := Some(plain[1..1 + plain[0]]);
  }

  lemma PartialBack(b: seq<byte>, was: seq<byte>, at: nat, k: nat, cipher: seq<byte>, plain: seq<byte>)
    requires Partial(b, was, at, k + 1, cipher, plain)
    ensures at + |plain| <= |b| && 16 * k + 16 <= |plain|
    ensures b[at + 16 * k..at + 16 * k + 16] == cipher[16 * k..16 * k + 16]
    ensures k > 0 ==> b[at + 16 * k - 16..at + 16 * k] == cipher[16 * k - 16..16 * k]
    ensures Partial(b[..at + 16 * k] + plain[16 * k..16 * k + 16] + b[at + 16 * k + 16..],
                    was, at, k, cipher, plain)
  {
  }

  /** One turn of the backward loop: block k is decrypted while block k - 1 is still cipher text. */
  method UnhideStep(buf: array<byte>, at: nat, k: nat, secret: seq<byte>, iv: seq<byte>,
                    ghost cipher: seq<byte>, ghost was: seq<byte>)
    requires |secret| < WORD && |iv| < WORD && 16 * k + 16 <= |cipher|
    requires Partial(buf[..], was, at, k + 1, cipher, Unhide(Md5, secret, iv, cipher))
    modifies buf
    ensures Partial(buf[..], was, at, k, cipher, Unhide(Md5, secret, iv, cipher))
  {
    hide Md5, Unhide, XorSeq, Partial;
    ghost var plain := Unhide(Md5, secret, iv, cipher);
    var pos := at + 16 * k;
    var prev := if k == 0 then Value(iv) else Slice(buf, pos - 16, 16);
    UnhideBlock(Md5, secret, iv, cipher, k);
    PartialBack(buf[..], was, at, k, cipher, plain);
    var hash := ChainHash(secret, prev);
    ghost var before := buf[..];
    XorInto(buf, pos, hash);
  }

  /** The decryption in radius_msg_get_tunnel_password: backward, in place on a copy of the value. */
  method DecryptTunnelPassword(value: seq<byte>, auth: seq<byte>, secret: seq<byte>) returns (r: Option<seq<byte>>)
    requires |secret| < WORD && |auth| == 16
    requires |value| > 3 && |value| % 16 == 3
    ensures r == TunnelKey(Md5, value, auth, secret)
  {
    hide Md5, Unhide, Partial;
    var buf := new byte[|value|](i requires 0 <= i < |value| => value[i]);
    ghost var cipher := value[3..];
    var iv := auth + value[1..3];
    ghost var plain := Unhide(Md5, secret, iv, cipher);
    var n := (|value| - 3) / 16;
    assert buf[..] == value;
    PartialEnds(value, 3, n, cipher, plain);
    var k := n;
    while k > 0
      invariant 0 <= k <= n
      invariant Partial(buf[..], value, 3, k, cipher, plain)
    {
      UnhideStep(buf, 3, k - 1, secret, iv, cipher, value);
      k := k - 1;
    }
    if buf[3] == 0 || 3 + buf[3] >= buf.Length {
      return None;
    }
    assert buf[4..4 + buf[3]] == plain[1..1 + plain[0]];
    r := Some(buf[4..4 + buf[3]]);
  }
}
