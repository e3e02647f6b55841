/** MD5 and HMAC-MD5 over scattered memory, where the digest may be written into the hashed memory itself. */
module Hmac {
  import opened Bytes
  import opened Md5Spec
  import opened Md5Stream

  /** One element of an (addr, len) vector: constant octets, or a stretch of a live buffer. */
  datatype Piece = Value(bytes: seq<byte>) | Slice(arr: array<byte>, from: nat, len: nat)

  ghost predicate InBounds(p: Piece)
  {
    if p.Value? then |p.bytes| < WORD else p.from + p.len <= p.arr.Length && p.len < WORD
  }

  ghost function Content(p: Piece): (r: seq<byte>)
    requires InBounds(p)
    reads if p.Slice? then {p.arr} else {}
  {
    if p.Value? then p.bytes else p.arr[p.from..p.from + p.len]
  }

  ghost function Contents(ps: seq<Piece>): (r: seq<byte>)
    requires forall p :: p in ps ==> InBounds(p)
    reads set p | p in ps && p.Slice? :: p.arr
    decreases |ps|
  {
    if ps == [] then [] else Contents(ps[..|ps| - 1]) + Content(ps[|ps| - 1])
  }

  /** The memory as it is when the element is consumed. */
  method Read(p: Piece) returns (r: seq<byte>)
    requires InBounds(p)
    ensures r == Content(p)
  {
    match p
    case Value(b) => r := b;
    case Slice(a, from, len) => r := a[from..from + len];
  }

  /** The loop of edge_md5_vector. */
  method UpdateAll(ctx: Context, ps: seq<Piece>)
    requires ctx.Absorbed([])
    requires forall p :: p in ps ==> InBounds(p) && (p.Slice? ==> p.arr != ctx.input)
    modifies ctx, ctx.input
    ensures ctx.Absorbed(old(Contents(ps)))
  {
    hide FullBlocks, Fold, Context.Absorbed;
    var i := 0;
    while i < |ps|
      invariant 0 <= i <= |ps|
      invariant ctx.Absorbed(old(Contents(ps[..i])))
    {
      assert ps[..i + 1][..i] == ps[..i];
      var piece := Read(ps[i]);
      ctx.Update(piece, old(Contents(ps[..i])));
      i := i + 1;
    }
    assert ps[..i] == ps;
  }

  /** edge_md5_vector: all elements are consumed before the digest is written at mac[at..at + 16]. */
  method Md5Vector(ps: seq<Piece>, mac: array<byte>, at: nat)
    requires forall p :: p in ps ==> InBounds(p)
    requires at + 16 <= mac.Length
    modifies mac
    ensures mac[..] == old(mac[..at]) + Md5(old(Contents(ps))) + old(mac[at + 16..])
  {
    hide Md5, FullBlocks, Fold;
    var ctx := new Context();
    UpdateAll(ctx, ps);
    ctx.Final(mac, at, old(Contents(ps)));
  }

  /** RFC 2104, section 2: the key as used, hashed when longer than a block. */
  function BlockKey(h: Hash, key: seq<byte>): (r: Block)
  {
    var k := if |key| > 64 then h(key) else key;
    k + Zeros(64 - |k|)
  }

  function OfBlock(h: Hash, k: Block, text: seq<byte>): (r: Digest16)
  {
    h(XorSeq(k, Fill(64, 0x5c)) + h(XorSeq(k, Fill(64, 0x36)) + text))
  }

  /** RFC 2104, section 2: H(K xor opad, H(K xor ipad, text)). */
  function HmacOf(h: Hash, key: seq<byte>, text: seq<byte>): (r: Digest16)
  {
    OfBlock(h, BlockKey(h, key), text)
  }

  /** What that is: the digest of an outer block and the digest of an inner block and the text. Octet for octet the
      inner block is the key as used exclusive-or 0x36, the outer one exclusive-or 0x5c. */
  lemma HmacIs(h: Hash, key: seq<byte>, text: seq<byte>) returns (inner: Block, outer: Block)
    ensures HmacOf(h, key, text) == h(outer + h(inner + text))
    ensures var k := if |key| > 64 then h(key) else key;
            forall j :: 0 <= j < 64 ==>
              && Xor(inner[j], 0x36) == (if j < |k| then k[j] else 0)
              && Xor(outer[j], 0x5c) == (if j < |k| then k[j] else 0)
  {
    hide Xor;
    var k := BlockKey(h, key);
    inner, outer := XorSeq(k, Fill(64, 0x36)), XorSeq(k, Fill(64, 0x5c));
    forall j | 0 <= j < 64 ensures Xor(inner[j], 0x36) == k[j] && Xor(outer[j], 0x5c) == k[j] {
      XorCancel(k[j], 0x36);
      XorCancel(k[j], 0x5c);
    }
  }

  function Fill(n: nat, b: byte): (r: seq<byte>)
    ensures |r| == n && forall i :: 0 <= i < n ==> r[i] == b
  {
    seq(n, _ => b)
  }

  /** k_pad: the zero-extended key exclusive-or a repeated octet. */
  method KeyPad(key: seq<byte>, c: byte) returns (pad: array<byte>)
    requires |key| <= 64
    ensures fresh(pad) && pad.Length == 64
    ensures pad[..] == XorSeq(key + Zeros(64 - |key|), Fill(64, c))
  {
    hide Xor;
    pad := new byte[64](_ => 0);
    WriteAt(pad, 0, key);
    ghost var plain := pad[..];
    var i := 0;
    while i < 64
      invariant 0 <= i <= 64
      invariant forall j :: 0 <= j < i ==> pad[j] == Xor(plain[j], c)
      invariant forall j :: i <= j < 64 ==> pad[j] == plain[j]
    {
      pad[i] := Xor(pad[i], c);
      i := i + 1;
    }
  }

  lemma {:induction false} ContentsCons(p: Piece, ps: seq<Piece>)
    requires InBounds(p) && forall q :: q in ps ==> InBounds(q)
    ensures forall q :: q in [p] + ps ==> InBounds(q)
    ensures Contents([p] + ps) == Content(p) + Contents(ps)
    decreases |ps|
  {
    var all := [p] + ps;
    if ps != [] {
      var init := ps[..|ps| - 1];
      assert all[..|all| - 1] == [p] + init;
      ContentsCons(p, init);
    }
  }

  lemma ContentsOne(p: Piece)
    requires InBounds(p)
    ensures Contents([p]) == Content(p)
  {
  }

  lemma ContentsFour(a: Piece, b: Piece, c: Piece, d: Piece)
    requires InBounds(a) && InBounds(b) && InBounds(c) && InBounds(d)
    ensures Contents([a, b, c, d]) == Content(a) + Content(b) + Content(c) + Content(d)
  {
    hide Contents, Content, InBounds;
    var cd, bcd := [c] + [d], [b] + ([c] + [d]);
    ContentsOne(d);
    ContentsCons(c, [d]);
    ContentsCons(b, cd);
    ContentsCons(a, bcd);
    assert [a, b, c, d] == [a] + bcd;
  }

  /** One keyed pass: hash k_pad followed by the elements. */
  method Pass(k: seq<byte>, c: byte, ps: seq<Piece>, mac: array<byte>, at: nat)
    requires forall p :: p in ps ==> InBounds(p)
    requires |k| <= 64 && at + 16 <= mac.Length
    modifies mac
    ensures mac[..] == old(mac[..at]) + Md5(XorSeq(k + Zeros(64 - |k|), Fill(64, c)) + old(Contents(ps))) +
                       old(mac[at + 16..])
  {
    hide Md5, XorSeq, Zeros, Fill;
    var pad := KeyPad(k, c);
    var whole := Slice(pad, 0, 64);
    assert Content(whole) == pad[..];
    ContentsCons(whole, ps);
    Md5Vector([whole] + ps, mac, at);
  }

  /** The inner hash goes to mac[at..at + 16] first; the outer hash reads it back from there. */
  method TwoPasses(k: seq<byte>, ps: seq<Piece>, mac: array<byte>, at: nat)
    requires forall p :: p in ps ==> InBounds(p)
    requires |k| <= 64 && at + 16 <= mac.Length
    modifies mac
    ensures mac[..] == old(mac[..at]) + OfBlock(Md5, k + Zeros(64 - |k|), old(Contents(ps))) + old(mac[at + 16..])
  {
    hide Md5, XorSeq, Zeros, Fill;
    Pass(k, 0x36, ps, mac, at);
    var tail := [Slice(mac, at, 16)];
    ContentsOne(tail[0]);
    Pass(k, 0x5c, tail, mac, at);
  }

  /** MD5 of the elements, into a buffer of its own. */
  method DigestOf(ps: seq<Piece>) returns (d: Digest16)
    requires forall p :: p in ps ==> InBounds(p)
    ensures d == Md5(Contents(ps))
  {
    hide Md5, Contents;
    ghost var text := Contents(ps);
    var out := new byte[16](_ => 0);
    Md5Vector(ps, out, 0);
    d := out[..];
  }

  /** A key of more than 64 octets is replaced by its digest. */
  method ShortKey(key: seq<byte>) returns (k: seq<byte>)
    requires |key| < WORD
    ensures |k| <= 64 && BlockKey(Md5, key) == k + Zeros(64 - |k|)
  {
    hide Md5, Contents, Zeros;
    k := key;
    if |key| > 64 {
      ContentsOne(Value(key));
      k := DigestOf([Value(key)]);
    }
  }

  /** hmac_md5_vector, at most five elements. */
  method HmacMd5Vector(key: seq<byte>, ps: seq<Piece>, mac: array<byte>, at: nat) returns (res: int)
    requires forall p :: p in ps ==> InBounds(p)
    requires |key| < WORD && at + 16 <= mac.Length
    modifies mac
    ensures res == (if |ps| > 5 then -1 else 0)
    ensures res == 0 ==> mac[..] == old(mac[..at]) + HmacOf(Md5, key, old(Contents(ps))) + old(mac[at + 16..])
    ensures res != 0 ==> mac[..] == old(mac[..])
  {
    hide Md5, OfBlock, BlockKey, Contents, Zeros;
    if |ps| > 5 {
      return -1;
    }
    var k := ShortKey(key);
    TwoPasses(k, ps, mac, at);
    res := 0;
  }
}
