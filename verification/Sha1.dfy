/**
 * Streaming SHA-1: bytes arrive in pieces of any size and are hashed block by block. The block
 * function stays abstract; what is proved is the buffering and the padding.
 */
module Sha1 {
  import opened Bytes

  type word = x: int | 0 <= x < 0x1_0000_0000

  datatype Words = Words(a: word, b: word, c: word, d: word, e: word)

  const INITIAL := Words(0x67452301, 0xEFCDAB89, 0x98BADCFE, 0x10325476, 0xC3D2E1F0)
  const BLOCK := 64
  const TWO_64 := 0x1_0000_0000_0000_0000

  /** The block function: a state and 64 bytes. */
  type BlockFunction = (Words, seq<byte>) -> Words

  // ---- the one-shot definition ----

  /** The state after whole blocks. */
  function Fold(f: BlockFunction, data: seq<byte>): Words
    requires |data| % BLOCK == 0
    decreases |data|
  {
    if data == [] then INITIAL
    else f(Fold(f, data[..|data| - BLOCK]), data[|data| - BLOCK..])
  }

  function Zeros(n: nat): (r: seq<byte>)
    ensures |r| == n && forall i :: 0 <= i < n ==> r[i] == 0
  {
    seq(n, _ => 0)
  }

  /** Zero bytes between the marker and the length, for a message of n bytes. */
  function PadZeros(n: nat): (k: nat)
    ensures k < BLOCK && (n + 1 + k) % BLOCK == 56
  {
    (BLOCK + 55 - n % BLOCK) % BLOCK
  }

  /** The padded message: a one bit, zeros, and the length in bits as eight bytes. */
  function Padded(m: seq<byte>): (r: seq<byte>)
    ensures |r| % BLOCK == 0
  {
    var r := m + [0x80] + Zeros(PadZeros(|m|)) + BytesOf(|m| * 8 % TWO_64, 8);
    WholeBlocks(|m|, |r|);
    r
  }

  lemma WholeBlocks(n: nat, len: nat)
    requires len == n + 1 + PadZeros(n) + 8
    ensures len % BLOCK == 0
  {
    hide PadZeros;
    var k := n + 1 + PadZeros(n);
    var q := k / BLOCK;
    assert k == q * BLOCK + 56;
    assert len == (q + 1) * BLOCK;
  }

  function StateBytes(w: Words): seq<byte> {
    BytesOf(w.a, 4) + BytesOf(w.b, 4) + BytesOf(w.c, 4) + BytesOf(w.d, 4) + BytesOf(w.e, 4)
  }

  function Digest(f: BlockFunction, m: seq<byte>): seq<byte> {
    StateBytes(Fold(f, Padded(m)))
  }

  /** The padding of FIPS 180-1: the message is a prefix, and a single one bit follows. */
  lemma PaddingShape(m: seq<byte>)
    ensures var r := Padded(m);
            |r| == |m| + 1 + PadZeros(|m|) + 8 && r[..|m|] == m && r[|m|] == 0x80 &&
            r[|m| + 1..|r| - 8] == Zeros(PadZeros(|m|)) && r[|r| - 8..] == BytesOf(|m| * 8 % TWO_64, 8)
  {
    hide BytesOf, PadZeros;
    var z, l := Zeros(PadZeros(|m|)), BytesOf(|m| * 8 % TWO_64, 8);
    var r := m + [0x80] + z + l;
    assert r[|m| + 1..|r| - 8] == z && r[|r| - 8..] == l;
  }

  /** A message that fits one block: the block function on the initial state of FIPS 180-1 and the padded message. */
  lemma OneBlock(f: BlockFunction, m: seq<byte>)
    requires |m| <= 55
    ensures var block := m + [0x80] + Zeros(55 - |m|) + [0, 0, 0, 0, 0, 0, |m| * 8 / 256, |m| * 8 % 256];
            var w := f(Words(0x67452301, 0xEFCDAB89, 0x98BADCFE, 0x10325476, 0xC3D2E1F0), block);
            |block| == 64 && Padded(m) == block &&
            Digest(f, m) == BytesOf(w.a, 4) + BytesOf(w.b, 4) + BytesOf(w.c, 4) + BytesOf(w.d, 4) + BytesOf(w.e, 4)
  {
    var n := |m| * 8;
    var block := m + [0x80] + Zeros(55 - |m|) + [0, 0, 0, 0, 0, 0, n / 256, n % 256];
    SmallLength(n);
    assert PadZeros(|m|) == 55 - |m|;
    hide BytesOf, PadZeros;
    assert Padded(m) == block;
    assert block[..|block| - BLOCK] == [] && block[|block| - BLOCK..] == block;
    assert Fold(f, []) == INITIAL;
  }

  lemma SmallLength(n: nat)
    requires n < 0x1_0000
    ensures BytesOf(n % TWO_64, 8) == [0, 0, 0, 0, 0, 0, n / 256, n % 256]
  {
    assert n % TWO_64 == n && n / 256 < 256;
    assert BytesOf(0, 6) == [0, 0, 0, 0, 0, 0] by { assert BytesOf(0, 3) == [0, 0, 0]; }
    assert BytesOf(n / 256, 7) == BytesOf(0, 6) + [n / 256];
    assert BytesOf(n, 8) == BytesOf(n / 256, 7) + [n % 256];
  }

  /** The number of zeros is the least that leaves room for the length at the end of a block. */
  lemma PaddingIsMinimal(n: nat, k: nat)
    ensures (n + 1 + k + 8) % BLOCK == 0 ==> PadZeros(n) <= k
  {
  }

  /** Up to 2^61 - 1 bytes the last eight bytes are the length in bits. */
  lemma PaddingHoldsLength(m: seq<byte>)
    requires |m| * 8 < TWO_64
    ensures BigEndian(Padded(m)[|Padded(m)| - 8..]) == |m| * 8
  {
    hide Padded, PadZeros, BytesOf, BigEndian;
    PaddingShape(m);
    Pow256Of8();
    BytesOfValue(|m| * 8, 8);
  }

  lemma Pow256Of8()
    ensures Pow256(8) == TWO_64
  {
    assert Pow256(4) == 0x1_0000_0000;
  }

  // ---- the streaming form ----

  class Stream {
    const block: BlockFunction
    var state: Words
    var total: nat              // of 64 bits
    const buf: array<byte>
    var bufLen: nat
    ghost var fed: seq<byte>    // everything fed in so far

    ghost predicate Valid()
      reads this, buf
    {
      buf.Length == BLOCK && bufLen < BLOCK && bufLen <= |fed| && (|fed| - bufLen) % BLOCK == 0 &&
      state == Fold(block, fed[..|fed| - bufLen]) && buf[..bufLen] == fed[|fed| - bufLen..] && total == |fed| % TWO_64
    }

    constructor (f: BlockFunction)
      ensures Valid() && block == f && fed == [] && fresh(buf)
    {
      block := f;
      state, total, bufLen, fed := INITIAL, 0, 0, [];
      buf := new byte[BLOCK](_ => 0);
    }

    /** Feeds data of any length. */
    method Update(data: seq<byte>)
      requires Valid()
      modifies this, buf
      ensures Valid() && fed == old(fed) + data
      ensures bufLen == (old(bufLen) + |data|) % BLOCK
    {
      hide Fold, Consumed;
      ghost var before := fed;
      AsConsumed();
      total := (total + |data|) % TWO_64;
      fed := fed + data;
      var p: nat := 0;
      assert before + data[..0] == before;
      TotalAdds(|before|, |data|);
      while p < |data|
        invariant p <= |data| && fed == before + data && total == |fed| % TWO_64
        invariant bufLen == (old(bufLen) + p) % BLOCK && Consumed(block, state, buf, bufLen, before + data[..p])
        decreases |data| - p
      {
        var take := if BLOCK - bufLen > |data| - p then |data| - p else BLOCK - bufLen;
        Extend(before, data, p, p + take);
        ModStep(old(bufLen) + p, take);
        if bufLen == 0 && |data| - p >= BLOCK {
          TakeBlock(before + data[..p], data[p..p + BLOCK]);
        } else {
          TakeSome(before + data[..p], data[p..p + take]);
        }
        p := p + take;
      }
      assert data[..p] == data;
      AsValid();
    }

    lemma AsConsumed()
      requires Valid()
      ensures Consumed(block, state, buf, bufLen, fed) && bufLen == |fed| % BLOCK
    {
      hide Fold;
    }

    lemma AsValid()
      requires Consumed(block, state, buf, bufLen, fed) && total == |fed| % TWO_64
      ensures Valid()
    {
      hide Fold;
    }

    /** Hashes a block straight from the input. */
    method TakeBlock(ghost done: seq<byte>, chunk: seq<byte>)
      requires Consumed(block, state, buf, bufLen, done) && bufLen == 0 && |chunk| == BLOCK
      modifies this`state
      ensures Consumed(block, state, buf, bufLen, done + chunk) && bufLen == (old(bufLen) + |chunk|) % BLOCK
    {
      hide Fold;
      state := block(state, chunk);
      BlockDone(block, done, chunk);
      assert (done + chunk)[|done + chunk|..] == [];
    }

    /** Buffers at most what fits, and hashes the buffer when it is full. */
    method TakeSome(ghost done: seq<byte>, chunk: seq<byte>)
      requires Consumed(block, state, buf, bufLen, done) && bufLen + |chunk| <= BLOCK
      modifies this`state, this`bufLen, buf
      ensures bufLen == (old(bufLen) + |chunk|) % BLOCK && Consumed(block, state, buf, bufLen, done + chunk)
    {
      hide Fold;
      Tail(done, chunk, bufLen);
      Copy(chunk);
      if bufLen == BLOCK {
        Flush(done + chunk);
      }
    }

    /** Hashes the full buffer. */
    method Flush(ghost all: seq<byte>)
      requires buf.Length == BLOCK && bufLen == BLOCK <= |all| && |all| % BLOCK == 0
      requires state == Fold(block, all[..|all| - BLOCK]) && buf[..] == all[|all| - BLOCK..]
      modifies this`state, this`bufLen
      ensures bufLen == 0 && Consumed(block, state, buf, bufLen, all)
    {
      hide Fold;
      state := block(state, buf[..]);
      bufLen := 0;
      BufferDone(block, all, buf[..]);
      assert all[|all|..] == [];
    }

    /** Appends to the buffer. */
    method Copy(chunk: seq<byte>)
      requires buf.Length == BLOCK && bufLen + |chunk| <= BLOCK
      modifies this`bufLen, buf
      ensures bufLen == old(bufLen) + |chunk| && buf[..bufLen] == old(buf[..bufLen]) + chunk
    {
      for i := 0 to |chunk|
        invariant bufLen == old(bufLen) && buf[..bufLen + i] == old(buf[..bufLen]) + chunk[..i]
      {
        buf[bufLen + i] := chunk[i];
        assert buf[..bufLen + i + 1] == buf[..bufLen + i] + [chunk[i]];
        assert chunk[..i + 1] == chunk[..i] + [chunk[i]];
      }
      assert chunk[..|chunk|] == chunk;
      bufLen := bufLen + |chunk|;
    }

    /**
     * Pads, and writes the digest of everything fed in. The loop over zero bytes ends although the
     * buffer length starts again at 0 when it reaches 64.
     */
    method Final(out: array<byte>)
      requires Valid() && out.Length == 20 && out != buf
      modifies this, buf, out
      ensures Valid() && out[..] == Digest(block, old(fed))
    {
      hide Fold, Valid, BytesOf, StateBytes, Zeros, PadZeros, Padded;
      ghost var m := fed;
      var bits := BitCount();
      Update([0x80]);
      ghost var zeros: nat := 0;
      Marked(m);
      while bufLen != 56
        invariant Valid() && fed == WithZeros(m, zeros)
        invariant bufLen == (|m| + 1 + zeros) % BLOCK && zeros <= PadZeros(|m|)
        decreases PadZeros(|m|) - zeros
      {
        NotYet(|m|, zeros);
        Update([0]);
        OneMoreZero(m, zeros);
        zeros := zeros + 1;
        ModStep(|m| + zeros, 1);
      }
      LeastZeros(|m|, zeros);
      Update(BytesOf(bits, 8));
      PaddedIs(m);
      var w := Result(m);
      WriteState(w, out);
      assert Digest(block, m) == StateBytes(w);
    }

    /** Facts of a valid stream, without its definition. */
    method BitCount() returns (bits: nat)
      requires Valid()
      ensures bits == |fed| * 8 % TWO_64 && bufLen == |fed| % BLOCK
    {
      hide Fold, Consumed;
      AsConsumed();
      var n := total;
      bits := n * 8 % TWO_64;
      BitsWrap(|fed|);
      hide *;
    }

    method Result(ghost m: seq<byte>) returns (w: Words)
      requires Valid() && fed == Padded(m)
      ensures w == Fold(block, Padded(m))
    {
      hide Fold, Padded;
      AsConsumed();
      w := state;
      assert fed[..|fed|] == fed;
    }
  }

  /** The message with its marker and some zeros. */
  function WithZeros(m: seq<byte>, n: nat): seq<byte> {
    m + [0x80] + Zeros(n)
  }

  lemma Marked(m: seq<byte>)
    ensures WithZeros(m, 0) == m + [0x80]
    ensures (|m| % BLOCK + 1) % BLOCK == (|m| + 1 + 0) % BLOCK
  {
  }

  lemma OneMoreZero(m: seq<byte>, n: nat)
    ensures WithZeros(m, n + 1) == WithZeros(m, n) + [0]
  {
    assert Zeros(n + 1) == Zeros(n) + [0];
  }

  lemma PaddedIs(m: seq<byte>)
    ensures Padded(m) == WithZeros(m, PadZeros(|m|)) + BytesOf(|m| * 8 % TWO_64, 8)
  {
    hide BytesOf, PadZeros, Zeros;
  }

  /** Consumed so far: whole blocks in the state, the rest in the buffer. */
  ghost predicate Consumed(f: BlockFunction, state: Words, buf: array<byte>, bufLen: nat, done: seq<byte>)
    reads buf
  {
    buf.Length == BLOCK && bufLen < BLOCK && bufLen <= |done| && (|done| - bufLen) % BLOCK == 0 &&
    state == Fold(f, done[..|done| - bufLen]) && buf[..bufLen] == done[|done| - bufLen..]
  }

  lemma Tail(done: seq<byte>, chunk: seq<byte>, n: nat)
    requires n <= |done|
    ensures (done + chunk)[..|done| - n] == done[..|done| - n]
    ensures (done + chunk)[|done| - n..] == done[|done| - n..] + chunk
  {
  }

  lemma ModStep(n: nat, m: nat)
    ensures (n % BLOCK + m) % BLOCK == (n + m) % BLOCK
  {
  }

  lemma Extend(before: seq<byte>, data: seq<byte>, p: nat, q: nat)
    requires p <= q <= |data|
    ensures before + data[..q] == before + data[..p] + data[p..q]
  {
  }

  lemma TotalAdds(n: nat, m: nat)
    ensures (n % TWO_64 + m) % TWO_64 == (n + m) % TWO_64
  {
  }

  lemma BitsWrap(n: nat)
    ensures (n % TWO_64) * 8 % TWO_64 == n * 8 % TWO_64
  {
    var q := n / TWO_64;
    assert n * 8 == (n % TWO_64) * 8 + TWO_64 * (8 * q);
  }

  lemma BlockDone(f: BlockFunction, done: seq<byte>, chunk: seq<byte>)
    requires |done| % BLOCK == 0 && |chunk| == BLOCK
    ensures Fold(f, done + chunk) == f(Fold(f, done), chunk) && |done + chunk| % BLOCK == 0
    ensures (done + chunk)[..|done + chunk|] == done + chunk && done[..|done|] == done
  {
    var all := done + chunk;
    assert all[..|all| - BLOCK] == done && all[|all| - BLOCK..] == chunk;
  }

  lemma BufferDone(f: BlockFunction, done: seq<byte>, chunk: seq<byte>)
    requires |done| % BLOCK == 0 && |done| >= BLOCK && |chunk| == BLOCK && chunk == done[|done| - BLOCK..]
    ensures Fold(f, done) == f(Fold(f, done[..|done| - BLOCK]), chunk) && done[..|done|] == done
  {
  }

  /** Before the buffer holds 56 bytes fewer zeros have been fed than the padding has. */
  lemma NotYet(n: nat, zeros: nat)
    requires zeros <= PadZeros(n) && (n + 1 + zeros) % BLOCK != 56
    ensures zeros < PadZeros(n)
  {
  }

  lemma LeastZeros(n: nat, zeros: nat)
    requires zeros <= PadZeros(n) && (n + 1 + zeros) % BLOCK == 56
    ensures zeros == PadZeros(n)
  {
  }

  method WriteState(w: Words, out: array<byte>)
    requires out.Length == 20
    modifies out
    ensures out[..] == StateBytes(w)
  {
    WriteWord(w.a, out, 0);
    WriteWord(w.b, out, 4);
    WriteWord(w.c, out, 8);
    WriteWord(w.d, out, 12);
    WriteWord(w.e, out, 16);
    assert out[..] == out[..16] + out[16..20];
  }

  method WriteWord(v: word, out: array<byte>, at: nat)
    requires at + 4 <= out.Length
    modifies out
    ensures out[..at + 4] == old(out[..at]) + BytesOf(v, 4)
  {
    out[at] := v / 0x100_0000 % 256;
    out[at + 1] := v / 0x1_0000 % 256;
    out[at + 2] := v / 0x100 % 256;
    out[at + 3] := v % 256;
    WordBytes(v);
    assert out[..at + 4] == out[..at] + [out[at], out[at + 1], out[at + 2], out[at + 3]];
  }

  lemma WordBytes(v: word)
    ensures BytesOf(v, 4) == [v / 0x100_0000 % 256, v / 0x1_0000 % 256, v / 0x100 % 256, v % 256]
  {
    assert BytesOf(v / 256 / 256 / 256, 1) == [v / 256 / 256 / 256 % 256];
    assert BytesOf(v / 256 / 256, 2) == BytesOf(v / 256 / 256 / 256, 1) + [v / 256 / 256 % 256];
    assert BytesOf(v / 256, 3) == BytesOf(v / 256 / 256, 2) + [v / 256 % 256];
  }

  // ---- any split gives the same digest ----

  function Concat(chunks: seq<seq<byte>>): seq<byte> {
    if chunks == [] then [] else Concat(chunks[..|chunks| - 1]) + chunks[|chunks| - 1]
  }

  /** However a message is cut into updates, the digest is that of the whole message. */
  method DigestOfChunks(f: BlockFunction, chunks: seq<seq<byte>>) returns (out: array<byte>)
    ensures out.Length == 20 && out[..] == Digest(f, Concat(chunks))
  {
    hide Digest;
    var s := new Stream(f);
    out := new byte[20](_ => 0);
    for i := 0 to |chunks|
      invariant s.Valid() && fresh(s) && fresh(s.buf) && s.block == f && s.fed == Concat(chunks[..i]) && out != s.buf
      invariant fresh(out) && out.Length == 20
    {
      assert chunks[..i + 1][..i] == chunks[..i];
      s.Update(chunks[i]);
    }
    assert chunks[..|chunks|] == chunks;
    s.Final(out);
  }
}
