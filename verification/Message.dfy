/** The wire format of com/protocol/tcpMessage.go. */
module Messages {
  import opened Bytes
  import opened Stores

  datatype Message = Message(typ: byte, id: u32, key: bytes, value: bytes)

  const OP_SET_BUFFERED: byte := 105
  const OP_SET_NO_DELAY: byte := 106

  /** The minimum size of every message. */
  const MINIMUM_MESSAGE_SIZE := 13

  function FrameSize(m: Message): nat {
    |m.key| + |m.value| + 13
  }

  /** The size word of a frame has 32 bits. */
  predicate Sendable(m: Message) {
    FrameSize(m) < TWO_32
  }

  function Head(size: nat, id: nat, keyLen: nat, typ: byte): (h: bytes)
    ensures |h| == 13
  {
    LE(size, 4) + LE(id, 4) + LE(keyLen, 4) + [typ]
  }

  function Frame(m: Message): (f: bytes)
    ensures |f| == FrameSize(m)
  {
    Head(FrameSize(m), m.id, |m.key|, m.typ) + m.key + m.value
  }

  /** The key size of a frame must not reach past its end. */
  predicate Decodable(src: bytes) {
    |src| >= 13 && UnLE32(src[8..12]) <= |src| - 13
  }

  function Unmarshal(src: bytes): Message
    requires Decodable(src)
  {
    var keySize := UnLE32(src[8..12]);
    Message(src[12], UnLE32(src[4..8]), src[13..][..keySize], src[13..][keySize..])
  }

  lemma HeadWords(size: u32, id: u32, keyLen: u32, typ: byte)
    ensures var h := Head(size, id, keyLen, typ);
      && UnLE32(h[..4]) == size && UnLE32(h[4..8]) == id && UnLE32(h[8..12]) == keyLen && h[12] == typ
  {
    HeadSlices(LE(size, 4), LE(id, 4), LE(keyLen, 4), [typ]);
    Word32(size);
    Word32(id);
    Word32(keyLen);
  }

  lemma HeadSlices(a: bytes, b: bytes, c: bytes, d: bytes)
    requires |a| == |b| == |c| == 4 && |d| == 1
    ensures var h := a + b + c + d;
      h[..4] == a && h[4..8] == b && h[8..12] == c && h[12] == d[0]
  {
  }

  lemma BodySlices(h: bytes, k: bytes, v: bytes, src: bytes)
    requires |h| == 13 && src == h + k + v
    ensures src[..4] == h[..4] && src[4..8] == h[4..8] && src[8..12] == h[8..12] && src[12] == h[12]
    ensures src[13..] == k + v && (k + v)[..|k|] == k && (k + v)[|k|..] == v
  {
  }

  /** The places of the fields in a frame. */
  lemma FrameLayout(m: Message)
    requires Sendable(m)
    ensures var f := Frame(m);
      && UnLE32(f[0..4]) == |f| && UnLE32(f[4..8]) == m.id && UnLE32(f[8..12]) == |m.key| && f[12] == m.typ
      && f[13..13 + |m.key|] == m.key && f[13 + |m.key|..] == m.value
  {
    BodySlices(Head(FrameSize(m), m.id, |m.key|, m.typ), m.key, m.value, Frame(m));
    HeadWords(FrameSize(m), m.id, |m.key|, m.typ);
    assert Frame(m)[0..4] == Frame(m)[..4];
  }

  /** Decoding undoes encoding, and the size word is the length of the frame. */
  lemma UnmarshalInverts(m: Message)
    requires Sendable(m)
    ensures UnLE32(Frame(m)[..4]) == FrameSize(m)
    ensures Decodable(Frame(m)) && Unmarshal(Frame(m)) == m
  {
    BodySlices(Head(FrameSize(m), m.id, |m.key|, m.typ), m.key, m.value, Frame(m));
    HeadWords(FrameSize(m), m.id, |m.key|, m.typ);
  }

  /** Serialize into the part of `dest` that starts at `at`, if it is long enough. */
  method Marshal(m: Message, dest: array<byte>, at: nat) returns (msgSize: nat, tooLong: bool)
    requires at <= dest.Length
    modifies dest
    ensures msgSize == FrameSize(m) && (tooLong <==> at + msgSize > dest.Length)
    ensures tooLong ==> dest[..] == old(dest[..])
    ensures !tooLong ==> dest[..] == old(dest[..at]) + Frame(m) + old(dest[at + msgSize..])
  {
    var size := |m.key| + |m.value| + 13;
    if size > dest.Length - at {
      return size, true;
    }
    ghost var f0 := dest[..];
    var head := Head(size, m.id, |m.key|, m.typ);
    CopyTwo(dest, at, head, m.key);
    ghost var f1 := dest[..];
    CopyInto(dest, at + 13 + |m.key|, m.value);
    AdjacentWrites(f0, at, head + m.key, m.value, f1, dest[..]);
    return size, false;
  }

  // -------------------------------------------------------------- streams

  /** The byte stream of a list of messages. */
  function Frames(ms: seq<Message>): bytes {
    if ms == [] then [] else Frame(ms[0]) + Frames(ms[1..])
  }

  lemma {:induction false} FramesConcat(ms: seq<Message>, ns: seq<Message>)
    ensures Frames(ms + ns) == Frames(ms) + Frames(ns)
  {
    if ms == [] {
      assert ms + ns == ns;
    } else {
      calc {
        Frames(ms + ns);
        { assert (ms + ns)[0] == ms[0] && (ms + ns)[1..] == ms[1..] + ns; }
        Frame(ms[0]) + Frames(ms[1..] + ns);
        { FramesConcat(ms[1..], ns); }
        Frame(ms[0]) + (Frames(ms[1..]) + Frames(ns));
        Frame(ms[0]) + Frames(ms[1..]) + Frames(ns);
      }
    }
  }

  lemma FramesSnoc(ms: seq<Message>, m: Message)
    ensures Frames(ms + [m]) == Frames(ms) + Frame(m)
  {
    FramesConcat(ms, [m]);
    assert [m][1..] == [];
    assert Frames([m]) == Frame(m);
  }

  ghost predicate AllSendable(ms: seq<Message>) {
    forall i :: 0 <= i < |ms| ==> Sendable(ms[i])
  }

  /** What can be read off the front of a stream of frames. */
  lemma FirstFrame(ms: seq<Message>, s: bytes)
    requires s == Frames(ms) && ms != [] && AllSendable(ms)
    ensures FrameSize(ms[0]) <= |s|
    ensures |s[..4]| == 4 && UnLE32(s[..4]) == FrameSize(ms[0])
    ensures var f := s[..FrameSize(ms[0])]; Decodable(f) && Unmarshal(f) == ms[0]
    ensures s[FrameSize(ms[0])..] == Frames(ms[1..])
  {
    UnmarshalInverts(ms[0]);
    assert s == Frame(ms[0]) + Frames(ms[1..]);
    assert s[..FrameSize(ms[0])] == Frame(ms[0]);
    assert s[..4] == Frame(ms[0])[..4];
  }
}
