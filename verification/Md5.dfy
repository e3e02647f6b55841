/** The streaming MD5 implementation of md5_internal.c. */
module Md5Stream {
  import opened Bytes
  import opened Md5Spec
  import Md5Block

  /** The two-word bit counter after `n` octets: 8n modulo 2^64, low word first. */
  ghost predicate CountsBits(lo: word, hi: word, n: nat)
  {
    lo == 8 * n % WORD && hi == 8 * n / WORD % WORD
  }

  /** The carry arithmetic of MD5Update keeps the counter exact. */
  lemma CounterAdvances(lo: word, hi: word, n: nat, len: nat)
    requires CountsBits(lo, hi, n) && len < WORD
    ensures var lo' := (lo + len * 8 % WORD) % WORD;
            var hi' := ((if lo' < lo then (hi + 1) % WORD else hi) + len / 0x2000_0000) % WORD;
            CountsBits(lo', hi', n + len)
  {
    var q := 8 * n / WORD;
    var c, d := len / 0x2000_0000, len * 8 % WORD;
    assert 8 * len == WORD * c + d;
    var carry := if lo + d >= WORD then 1 else 0;
    var lo' := (lo + d) % WORD;
    assert lo' == lo + d - WORD * carry;
    DivModUnique(8 * (n + len), q + c + carry, lo');
    WrapSum(q, hi, carry, c);
  }

  lemma DivModUnique(n: nat, q: nat, r: word)
    requires n == WORD * q + r
    ensures n / WORD == q && n % WORD == r
  {
  }

  lemma WrapSum(q: nat, hi: word, carry: nat, c: nat)
    requires hi == q % WORD && carry <= 1
    ensures ((if carry == 1 then (hi + 1) % WORD else hi) + c) % WORD == (q + c + carry) % WORD
  {
  }

  /** The octets waiting in the block buffer, from the low word of the bit counter. */
  function InBuffer(lo: word): (r: nat)
    ensures r < 64
  {
    lo / 8 % 64
  }

  /** The octets buffered so far, read off the bit counter. */
  lemma BufferedOctets(lo: word, hi: word, n: nat)
    requires CountsBits(lo, hi, n)
    ensures InBuffer(lo) == n - 64 * FullBlocks(n)
  {
    var q := 8 * n / WORD;
    var m := n - 0x2000_0000 * q;
    assert 8 * n == WORD * q + lo;
    assert lo == 8 * m;
    SameRemainder(m, 0x80_0000 * q);
  }

  lemma SameRemainder(m: nat, k: nat)
    ensures (m + 64 * k) % 64 == m % 64
  {
  }

  function FullBlocks(n: nat): (r: nat)
    ensures 64 * r <= n < 64 * r + 64
  {
    n / 64
  }

  class Context {
    var buf: Chaining
    var lo: word
    var hi: word
    const input: array<byte>

    ghost predicate Valid()
      reads this
    {
      input.Length == 64
    }

    /** The chaining value covers the first q blocks of `msg`. */
    ghost predicate Folded(msg: seq<byte>, q: nat)
      requires 64 * q <= |msg|
      reads this
    {
      buf == Fold(Compress, INIT, msg[..64 * q])
    }

    /** The context holds exactly the effect of having absorbed `data`. */
    ghost predicate Absorbed(data: seq<byte>)
      reads this, input
    {
      var q := FullBlocks(|data|);
      && Valid()
      && CountsBits(lo, hi, |data|)
      && Folded(data, q)
      && input[..|data| - 64 * q] == data[64 * q..]
    }

    constructor ()
      ensures Absorbed([])
      ensures fresh(input)
    {
      buf := INIT;
      lo, hi := 0, 0;
      input := new byte[64](_ => 0);
      new;
      hide Compress;
    }

    /** Add `len` octets to the two-word bit counter. */
    method Count(len: nat, ghost n: nat)
      requires CountsBits(lo, hi, n) && len < WORD
      modifies this`lo, this`hi
      ensures CountsBits(lo, hi, n + len)
    {
      CounterAdvances(lo, hi, n, len);
      var t := lo;
      lo := (t + len * 8 % WORD) % WORD;
      if lo < t {
        hi := (hi + 1) % WORD;
      }
      hi := (hi + len / 0x2000_0000) % WORD;
    }

    /** MD5Transform on the buffered block, which is block q of `msg`. */
    method Transform(ghost msg: seq<byte>, ghost q: nat)
      requires Valid() && 64 * q + 64 <= |msg| && Folded(msg, q)
      requires input[..] == msg[64 * q..64 * q + 64]
      modifies this`buf
      ensures Folded(msg, q + 1)
    {
      hide Compress;
      FoldBlock(Compress, INIT, msg, q);
      buf := Md5Block.Transform(buf, input[..]);
    }

    /** The 64-octet chunks of `piece` from `from` on, where msg continues with that part of `piece`. */
    method Chunks(piece: seq<byte>, from: nat, ghost msg: seq<byte>, ghost q: nat) returns (off: nat)
      requires Valid() && from <= |piece| && 64 * q <= |msg|
      requires msg[64 * q..] == piece[from..] && Folded(msg, q)
      modifies this`buf, input
      ensures from <= off <= |piece| < off + 64
      ensures 64 * FullBlocks(|msg|) == 64 * q + off - from
      ensures Folded(msg, FullBlocks(|msg|))
    {
      hide Fold, Compress;
      off := from;
      ghost var r := q;
      while |piece| - off >= 64
        invariant from <= off <= |piece| && 64 * r == 64 * q + off - from
        invariant Folded(msg, r)
      {
        WriteAt(input, 0, piece[off..off + 64]);
        Transform(msg, r);
        off := off + 64;
        r := r + 1;
      }
    }

    /** Complete the partly filled block with the first octets of `piece` and transform it. */
    method Lead(t: nat, piece: seq<byte>, ghost data: seq<byte>, ghost q: nat)
      requires Valid() && |data| == 64 * q + t && t < 64 && |piece| >= 64 - t
      requires Folded(data, q) && input[..t] == data[64 * q..]
      modifies this`buf, input
      ensures Folded(data + piece, q + 1)
    {
      hide Fold, Compress;
      ghost var msg := data + piece;
      WriteAt(input, t, piece[..64 - t]);
      assert data[..64 * q] == msg[..64 * q];
      Transform(msg, q);
    }

    /** The rest of `piece` once the buffered block is empty: full chunks, then the tail. */
    method Rest(piece: seq<byte>, from: nat, ghost msg: seq<byte>, ghost q: nat)
      requires Valid() && from <= |piece| && 64 * q <= |msg|
      requires msg[64 * q..] == piece[from..] && Folded(msg, q)
      requires CountsBits(lo, hi, |msg|)
      modifies this`buf, input
      ensures Absorbed(msg)
    {
      hide Fold, Compress, CountsBits, FullBlocks;
      var off := Chunks(piece, from, msg, q);
      WriteAt(input, 0, piece[off..]);
    }

    /** A piece that does not complete the buffered block. */
    method Stash(t: nat, piece: seq<byte>, ghost data: seq<byte>)
      requires Valid() && CountsBits(lo, hi, |data + piece|)
      requires |data| == 64 * FullBlocks(|data|) + t && t + |piece| < 64
      requires Folded(data, FullBlocks(|data|)) && input[..t] == data[64 * FullBlocks(|data|)..]
      modifies input
      ensures Absorbed(data + piece)
    {
      hide Fold, Compress, CountsBits, FullBlocks;
      ghost var msg, q := data + piece, FullBlocks(|data|);
      WriteAt(input, t, piece);
      assert FullBlocks(|msg|) == q && data[..64 * q] == msg[..64 * q];
    }

    /** A piece that completes the buffered block. */
    method Resume(t: nat, piece: seq<byte>, ghost data: seq<byte>, ghost q: nat)
      requires Valid() && CountsBits(lo, hi, |data + piece|)
      requires |data| == 64 * q + t && t < 64 && |piece| >= 64 - t
      requires Folded(data, q) && input[..t] == data[64 * q..]
      modifies this`buf, input
      ensures Absorbed(data + piece)
    {
      hide Fold, CountsBits, FullBlocks, Context.Absorbed;
      ghost var msg := data + piece;
      Lead(t, piece, data, q);
      Rest(piece, 64 - t, msg, q + 1);
    }

    /** Replace `data` by `data + piece` as the absorbed message. */
    method Update(piece: seq<byte>, ghost data: seq<byte>)
      requires Absorbed(data) && |piece| < WORD
      modifies this, input
      ensures Absorbed(data + piece)
    {
      hide Fold, Compress, CountsBits, InBuffer, FullBlocks;
      ghost var msg, q := data + piece, FullBlocks(|data|);
      BufferedOctets(lo, hi, |data|);
      var t := InBuffer(lo);
      Count(|piece|, |data|);
      if t == 0 {
        assert data[..64 * q] == msg[..64 * q];
        Rest(piece, 0, msg, q);
      } else if |piece| < 64 - t {
        Stash(t, piece, data);
      } else {
        Resume(t, piece, data, q);
      }
    }

    /** Append the filler; when it leaves no room for the length, transform and start another block. */
    method FillOut(ghost data: seq<byte>) returns (ghost q: nat)
      requires Absorbed(data)
      modifies this`buf, input
      ensures |Pad(data)| == 64 * q + 64 && Folded(Pad(data), q)
      ensures input[..56] == Pad(data)[64 * q..64 * q + 56]
    {
      hide Fold, Compress, InBuffer, FullBlocks, LengthWords, CountsBits;
      BufferedOctets(lo, hi, |data|);
      var count := InBuffer(lo);
      ghost var padded := Pad(data);
      q := FullBlocks(|data|);
      PadFillsBlocks(data, q);
      assert padded[..64 * q] == data[..64 * q];
      WriteAt(input, count, [0x80]);
      count := 63 - count;
      if count < 8 {
        WriteAt(input, 64 - count, Zeros(count));
        assert input[..] == padded[64 * q..64 * q + 64];
        Transform(padded, q);
        q := q + 1;
        WriteAt(input, 0, Zeros(56));
      } else {
        WriteAt(input, 64 - count, Zeros(count - 8));
      }
    }

    /** Leave the chaining value of the padded message. */
    method FinishBlocks(ghost data: seq<byte>)
      requires Absorbed(data)
      modifies this`buf, input
      ensures buf == Fold(Compress, INIT, Pad(data))
    {
      hide Fold, Le32, FullBlocks;
      ghost var padded := Pad(data);
      ghost var q := FillOut(data);
      WriteAt(input, 56, Le32(lo));
      WriteAt(input, 60, Le32(hi));
      Transform(padded, q);
      assert padded[..64 * (q + 1)] == padded;
    }

    /** Write the digest of the absorbed message at mac[at..at + 16]. */
    method Final(mac: array<byte>, at: nat, ghost data: seq<byte>)
      requires Absorbed(data)
      requires at + 16 <= mac.Length && mac != input
      modifies this, input, mac
      ensures mac[..] == old(mac[..at]) + Md5(data) + old(mac[at + 16..])
    {
      hide Fold, Pad;
      FinishBlocks(data);
      WriteAt(mac, at, Digest(buf));
    }
  }
}
