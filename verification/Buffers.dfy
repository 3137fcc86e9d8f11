// Byte buffers written piece by piece.
module Buffers {
  import opened Bits

  function Overwrite(s: seq<Byte>, at: nat, b: seq<Byte>): (r: seq<Byte>)
    requires at + |b| <= |s|
    ensures |r| == |s|
  {
    s[..at] + b + s[at + |b|..]
  }

  // Consecutive writes are one write.
  lemma OverwriteTwice(s: seq<Byte>, at: nat, b: seq<Byte>, c: seq<Byte>)
    requires at + |b| + |c| <= |s|
    ensures Overwrite(Overwrite(s, at, b), at + |b|, c) == Overwrite(s, at, b + c)
  {
  }

  // A write over a write of the same length.
  lemma OverwriteAll(s: seq<Byte>, at: nat, b: seq<Byte>, c: seq<Byte>)
    requires at + |b| <= |s| && |c| == |b|
    ensures Overwrite(Overwrite(s, at, b), at, c) == Overwrite(s, at, c)
  {
  }

  method PutBytes(buf: array<Byte>, at: nat, b: seq<Byte>)
    requires at + |b| <= buf.Length
    modifies buf
    ensures buf[..] == Overwrite(old(buf[..]), at, b)
  {
    forall i | 0 <= i < |b| { buf[at + i] := b[i]; }
  }
}
