/** In-place operations on byte buffers. */
module Buffers {
  import opened Bytes

  method Fill(a: array<byte>, lo: nat, hi: nat, b: byte)
    requires lo <= hi <= a.Length
    modifies a
    ensures a[..] == old(a[..lo]) + Repeat(b, hi - lo) + old(a[hi..])
  {
    forall i | lo <= i < hi { a[i] := b; }
  }

  method Zeroize(a: array<byte>)
    modifies a
    ensures a[..] == Zeros(a.Length)
  {
    Fill(a, 0, a.Length, 0);
  }

  method ZeroizePrefix(a: array<byte>, n: nat)
    requires n <= a.Length
    modifies a
    ensures a[..] == Zeros(n) + old(a[n..])
  {
    Fill(a, 0, n, 0);
    assert a[..] == Zeros(n) + old(a[n..]);
  }

  method CopyInto(a: array<byte>, at: nat, s: seq<byte>)
    requires at + |s| <= a.Length
    modifies a
    ensures a[..] == old(a[..at]) + s + old(a[at + |s|..])
    ensures a[..at + |s|] == old(a[..at]) + s && a[at + |s|..] == old(a[at + |s|..])
  {
    forall i | at <= i < at + |s| { a[i] := s[i - at]; }
  }

  /** Extends the first `written` output bytes by as much of `block` as fits. */
  method Append(output: array<byte>, written: nat, block: seq<byte>, ghost stream: seq<byte>) returns (total: nat)
    requires written <= output.Length && written <= |stream| && output[..written] == stream[..written]
    requires written == |stream| || written == output.Length
    modifies output
    ensures total <= output.Length && total <= |stream + block|
    ensures output[..total] == (stream + block)[..total]
    ensures total == |stream + block| || total == output.Length
  {
    var room := output.Length - written;
    var copied := if |block| <= room then |block| else room;
    CopyInto(output, written, block[..copied]);
    total := written + copied;
  }
}

/** Streaming SHA-2 whose owned state is erased when the digest is taken. */
module SecretHash {
  import opened Bytes
  import opened Buffers
  import opened Sha2

  const MAX_BLOCK_BYTES: nat := 128
  const MAX_DIGEST_BYTES: nat := 64

  /** `SecureSha256` and `SecureSha512`, which differ only in the sizes the algorithm fixes. */
  class SecureSha {
    const hash: Hash
    const buffer: array<byte>
    var state: Chain
    var bufferLen: nat
    var messageLen: nat
    ghost var message: seq<byte>  // everything absorbed so far
    ghost var folded: nat         // how much of it the state already covers

    /** The first `done` bytes of `all` are folded into the state; the buffer holds what follows. */
    ghost predicate Holds(all: seq<byte>, done: nat)
      reads this`state, this`bufferLen, buffer
    {
      && buffer.Length == hash.alg.BlockLen()
      && done + bufferLen <= |all| && bufferLen < hash.alg.BlockLen()
      && Whole(hash.alg, done)
      && buffer[..bufferLen] == all[done..done + bufferLen]
      && state == Fold(hash, all[..done])
    }

    /** Everything absorbed is folded or buffered, and less than one block is buffered. */
    ghost predicate Valid()
      reads this, buffer
    {
      && messageLen == |message| < hash.alg.CounterLimit()
      && Holds(message, folded) && folded + bufferLen == |message|
    }

    ghost predicate Erased()
      reads this, buffer
    {
      state == seq(8, _ => 0) && buffer[..] == Zeros(buffer.Length) && bufferLen == 0 && messageLen == 0
    }

    constructor (hash: Hash)
      ensures this.hash == hash && message == [] && fresh(buffer) && Valid()
    {
      this.hash := hash;
      buffer := new byte[hash.alg.BlockLen()](_ => 0);
      state := InitialState(hash.alg);
      bufferLen, messageLen := 0, 0;
      message, folded := [], 0;
    }

    method CompressBuffer()
      requires buffer.Length == hash.alg.BlockLen()
      modifies this`state, this`bufferLen, buffer
      ensures state == hash.compress(old(state), old(buffer[..]))
      ensures buffer[..] == Zeros(buffer.Length) && bufferLen == 0
    {
      state := hash.compress(state, buffer[..]);
      Zeroize(buffer);
      bufferLen := 0;
    }

    /** Completes a partly filled buffer and compresses it once it is full. */
    method TopUp(data: seq<byte>, ghost all: seq<byte>, ghost start: nat)
      returns (rest: seq<byte>, ghost done: nat)
      requires Holds(all, start) && bufferLen != 0 && data == all[start + bufferLen..]
      modifies this`state, this`bufferLen, buffer
      ensures Holds(all, done) && rest == all[done + bufferLen..]
      ensures bufferLen == 0 || rest == []
    {
      var size := hash.alg.BlockLen();
      var room := size - bufferLen;
      var copied := if room <= |data| then room else |data|;
      CopyInto(buffer, bufferLen, data[..copied]);
      bufferLen := bufferLen + copied;
      assert buffer[..bufferLen] == all[start..start + bufferLen];
      rest, done := data[copied..], start;
      if bufferLen == size {
        assert buffer[..] == all[start..start + size];
        FoldAppend(hash, all[..start], all[start..start + size]);
        assert all[..start] + all[start..start + size] == all[..start + size];
        CompressBuffer();
        done := start + size;
      }
    }

    /** Compresses whole blocks straight from the input. */
    method AbsorbBlocks(data: seq<byte>, ghost all: seq<byte>, ghost start: nat)
      returns (rest: seq<byte>, ghost done: nat)
      requires Holds(all, start) && data == all[start + bufferLen..]
      requires bufferLen == 0 || data == []
      modifies this`state
      ensures Holds(all, done) && rest == all[done + bufferLen..] && |rest| < hash.alg.BlockLen()
      ensures bufferLen == 0 || rest == []
    {
      var size := hash.alg.BlockLen();
      rest, done := data, start;
      while |rest| >= size
        invariant Holds(all, done) && rest == all[done + bufferLen..]
        invariant bufferLen == 0 || rest == []
      {
        FoldAppend(hash, all[..done], rest[..size]);
        assert all[..done] + rest[..size] == all[..done + size];
        state := hash.compress(state, rest[..size]);
        rest, done := rest[size..], done + size;
      }
    }

    /** Buffers what is left of the input. */
    method Keep(data: seq<byte>, ghost all: seq<byte>, ghost done: nat)
      requires Holds(all, done) && bufferLen == 0
      requires data == all[done..] && |data| < hash.alg.BlockLen()
      modifies this`bufferLen, buffer
      ensures Holds(all, done) && done + bufferLen == |all|
    {
      CopyInto(buffer, 0, data);
      bufferLen := |data|;
      assert buffer[..bufferLen] == data;
    }

    /** Absorbs `input`; the source panics when the length counter would overflow. */
    method Update(input: seq<byte>)
      requires Valid()
      requires |message| + |input| < hash.alg.CounterLimit()
      modifies this, buffer
      ensures Valid() && message == old(message) + input
    {
      messageLen := messageLen + |input|;
      var data := input;
      ghost var all, done := message + input, folded;
      assert all[..done] == message[..done];
      assert data == all[done + bufferLen..];
      if bufferLen != 0 {
        data, done := TopUp(data, all, done);
      }
      data, done := AbsorbBlocks(data, all, done);
      if data != [] {
        Keep(data, all, done);
      }
      message, folded := all, done;
    }

    /** Zero-fills the buffer behind `tail` and compresses it. */
    method Spill(ghost whole: seq<byte>, ghost tail: seq<byte>)
      requires buffer.Length == hash.alg.BlockLen() && bufferLen == |tail| <= buffer.Length
      requires Whole(hash.alg, |whole|) && state == Fold(hash, whole) && buffer[..bufferLen] == tail
      modifies this`state, this`bufferLen, buffer
      ensures bufferLen == 0
      ensures var block := tail + Zeros(buffer.Length - |tail|);
              Whole(hash.alg, |whole + block|) && state == Fold(hash, whole + block)
    {
      ghost var block := tail + Zeros(buffer.Length - bufferLen);
      Fill(buffer, bufferLen, buffer.Length, 0);
      assert buffer[..] == block;
      FoldAppend(hash, whole, block);
      CompressBuffer();
    }

    /** Writes the 0x80 marker and, when the length field no longer fits, spends a block on it. */
    method MarkEnd() returns (ghost whole: seq<byte>, ghost tail: seq<byte>, ghost k: nat)
      requires Valid()
      modifies this`state, this`bufferLen, buffer
      ensures bufferLen == |tail| <= hash.alg.BlockLen() - hash.alg.LengthLen()
      ensures Whole(hash.alg, |whole|) && state == Fold(hash, whole) && buffer[..bufferLen] == tail
      ensures whole + tail == message + [0x80] + Zeros(k) && k < hash.alg.LengthLen()
    {
      hide Fold, Whole;
      whole, tail, k := message[..folded], buffer[..bufferLen] + [0x80], 0;
      MarkerFollows(message, folded, whole, tail, 0);
      buffer[bufferLen] := 0x80;
      bufferLen := bufferLen + 1;
      assert buffer[..bufferLen] == tail;
      if bufferLen > hash.alg.BlockLen() - hash.alg.LengthLen() {
        k := hash.alg.BlockLen() - bufferLen;
        Spill(whole, tail);
        MarkerFollows(message, folded, whole, tail, k);
        whole, tail := whole + (tail + Zeros(k)), [];
      }
    }

    /** Completes the padding and compresses the final block. */
    method Seal()
      requires Valid() && Hashable(hash.alg, |message|)
      modifies this`state, this`bufferLen, buffer
      ensures state == Fold(hash, Pad(hash.alg, message))
    {
      hide Fold, Whole;
      var size, field := hash.alg.BlockLen(), hash.alg.LengthLen();
      var bitLen := messageLen * 8;
      ghost var whole, tail, k := MarkEnd();
      ghost var zeros := size - field - bufferLen;
      Fill(buffer, bufferLen, size - field, 0);
      assert buffer[..size - field] == tail + Zeros(zeros);
      CopyInto(buffer, size - field, BigEndian(bitLen, field));
      bufferLen := size;
      ghost var last := tail + Zeros(zeros) + BigEndian(bitLen, field);
      assert buffer[..] == last;
      FoldAppend(hash, whole, last);
      CompressBuffer();
      PaddingIs(hash.alg, message, whole, tail, k, zeros);
    }

    /** Ends the message, yields its digest and erases every field; SHA-384 zeroes the unused tail. */
    method Finish() returns (digest: seq<byte>)
      requires Valid() && Hashable(hash.alg, |message|)
      modifies this, buffer
      ensures digest == Digest(hash, old(message)) + Zeros(8 * hash.alg.WordLen() - hash.alg.DigestLen())
      ensures Erased()
    {
      Seal();
      var full := SerializeState(state, hash.alg.WordLen());
      assert full == FullDigest(hash, message);
      digest := full[..hash.alg.DigestLen()] + Zeros(8 * hash.alg.WordLen() - hash.alg.DigestLen());
      Clear();
    }

    method Clear()
      modifies this`state, this`bufferLen, this`messageLen, buffer
      ensures Erased()
    {
      state := seq(8, _ => 0);
      Zeroize(buffer);
      bufferLen, messageLen := 0, 0;
    }
  }

  lemma MarkerFollows(m: seq<byte>, cut: nat, whole: seq<byte>, tail: seq<byte>, k: nat)
    requires cut <= |m| && whole == m[..cut] && tail == m[cut..] + [0x80]
    ensures whole + (tail + Zeros(k)) + [] == m + [0x80] + Zeros(k)
    ensures k == 0 ==> whole + tail == m + [0x80] + Zeros(k)
  {
  }

  /** Block-aligned padding with fewer than a block of zeros is the padding of the standard. */
  lemma PaddingIs(alg: Algorithm, m: seq<byte>, whole: seq<byte>, tail: seq<byte>, k: nat, zeros: nat)
    requires Whole(alg, |whole|)
    requires |tail| + zeros + alg.LengthLen() == alg.BlockLen()
    requires whole + tail == m + [0x80] + Zeros(k) && k < alg.LengthLen()
    ensures whole + (tail + Zeros(zeros) + BigEndian(8 * |m|, alg.LengthLen())) == Pad(alg, m)
  {
    hide Whole, BigEndian, PadZeros;
    var field := BigEndian(8 * |m|, alg.LengthLen());
    assert |whole + tail| == |m + [0x80] + Zeros(k)|;
    PadZerosUnique(alg, |m|, k + zeros, |whole|);
    calc {
      whole + (tail + Zeros(zeros) + field);
      { Regroup(whole, tail, Zeros(zeros), field); }
      (whole + tail) + Zeros(zeros) + field;
      (m + [0x80] + Zeros(k)) + Zeros(zeros) + field;
      { assert m + [0x80] + Zeros(k) + Zeros(zeros) == m + [0x80] + Zeros(k + zeros); }
      m + [0x80] + Zeros(k + zeros) + field;
      Pad(alg, m);
    }
  }

  method SerializeState(state: Chain, wordLen: nat) returns (digest: seq<byte>)
    ensures digest == Serialize(state, wordLen)
  {
    digest := [];
    for i := 0 to 8
      invariant digest == Serialize(state[..i], wordLen)
    {
      assert state[..i + 1][..i] == state[..i];
      digest := digest + BigEndian(state[i], wordLen);
    }
    assert state[..8] == state;
  }
}
