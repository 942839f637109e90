/** The memory-mapped store of core/pmap/store.go: an append-only byte array. */
module Stores {
  import opened Bytes
  import opened Records

  /** Go's `copy` into a slice that starts at `at`. */
  method CopyInto(dst: array<byte>, at: nat, src: bytes)
    requires at + |src| <= dst.Length
    modifies dst
    ensures dst[..] == old(dst[..at]) + src + old(dst[at + |src|..])
  {
    for i := 0 to |src|
      invariant dst[..] == old(dst[..at]) + src[..i] + old(dst[at + i..])
    {
      dst[at + i] := src[i];
    }
  }

  /** Two adjacent writes are one write. */
  lemma AdjacentWrites(f0: bytes, at: nat, a: bytes, b: bytes, f1: bytes, f2: bytes)
    requires at + |a| + |b| <= |f0|
    requires f1 == f0[..at] + a + f0[at + |a|..]
    requires f2 == f1[..at + |a|] + b + f1[at + |a| + |b|..]
    ensures f2 == f0[..at] + (a + b) + f0[at + |a + b|..]
  {
  }

  /** Copy `s` behind what was already copied to `at`. */
  method CopyAfter(dst: array<byte>, at: nat, ghost f0: bytes, done: nat, ghost head: bytes, s: bytes)
    requires |f0| == dst.Length && done == |head| && at + done + |s| <= dst.Length
    requires dst[..] == f0[..at] + head + f0[at + |head|..]
    modifies dst
    ensures dst[..] == f0[..at] + (head + s) + f0[at + |head + s|..]
  {
    ghost var f1 := dst[..];
    CopyInto(dst, at + done, s);
    AdjacentWrites(f0, at, head, s, f1, dst[..]);
  }

  method CopyTwo(dst: array<byte>, at: nat, a: bytes, b: bytes)
    requires at + |a| + |b| <= dst.Length
    modifies dst
    ensures dst[..] == old(dst[..at]) + (a + b) + old(dst[at + |a + b|..])
  {
    ghost var f0 := dst[..];
    CopyInto(dst, at, a);
    CopyAfter(dst, at, f0, |a|, a, b);
  }

  /** The writes of a record: two lengths, key and value, trailer. */
  method WriteParts(dst: array<byte>, at: nat, a: bytes, b: bytes, c: bytes, d: bytes, e: bytes)
    requires at + |a| + |b| + |c| + |d| + |e| <= dst.Length
    modifies dst
    ensures dst[..] == old(dst[..at]) + (a + b + c + d + e) + old(dst[at + |a + b + c + d + e|..])
  {
    ghost var f0 := dst[..];
    CopyInto(dst, at, a);
    CopyAfter(dst, at, f0, |a|, a, b);
    CopyAfter(dst, at, f0, |a| + |b|, a + b, c);
    CopyAfter(dst, at, f0, |a| + |b| + |c|, a + b + c, d);
    CopyAfter(dst, at, f0, |a| + |b| + |c| + |d|, a + b + c + d, e);
  }

  datatype PutResult = Denied | At(index: u32)

  class Store {
    const size: nat
    const file: array<byte>
    var length: nat
    var deleted: nat
    ghost var log: seq<Record>

    /** The used part of the file is the image of `log`; store indices fit 32 bits. */
    ghost predicate Valid()
      reads this, file
    {
      && file.Length == size <= TWO_32
      && length <= size
      && (length == 0 || length < size)
      && file[..length] == LogBytes(log)
    }

    /** Nothing is written after the log. */
    ghost predicate Blank()
      reads this, file
    {
      forall i :: length <= i < file.Length ==> file[i] == 0
    }

    /** A new file is all zeros. */
    constructor (size: nat)
      requires size <= TWO_32
      ensures Valid() && fresh(file)
      ensures this.size == size && length == 0 && deleted == 0 && log == []
      ensures Blank()
    {
      this.size := size;
      file := new byte[size](_ => 0);
      length, deleted := 0, 0;
      log := [];
    }

    /** Opening maps the bytes found on disk; the length is not stored there. */
    constructor FromDisk(disk: bytes)
      requires |disk| <= TWO_32
      ensures Valid() && fresh(file)
      ensures size == |disk| && file[..] == disk && length == 0 && deleted == 0 && log == []
    {
      size := |disk|;
      file := new byte[|disk|](i requires 0 <= i < |disk| => disk[i]);
      length, deleted := 0, 0;
      log := [];
    }

    /** A record of this size is accepted when the log has length `at`. */
    predicate Fits(at: nat, key: bytes, val: bytes) {
      at + 12 + |key| + |val| < size
    }

    /**
      Append a record. It is denied exactly when the record would reach the end of
      the file; otherwise the bytes after the new length are left alone.
     */
    method Put(key: bytes, val: bytes) returns (r: PutResult)
      requires Valid()
      modifies this`length, this`log, file
      ensures Valid()
      ensures r.At? <==> Fits(old(length), key, val)
      ensures r.Denied? ==> log == old(log) && length == old(length) && file[..] == old(file[..])
      ensures r.At? ==>
        && log == old(log) + [Record(key, val)]
        && r.index == old(length) == Offset(log, |old(log)|)
        && length == old(length) + 12 + |key| + |val|
        && (old(Blank()) ==> Blank())
    {
      var total := 4 + 4 + 4 + |key| + |val|;
      if length + total >= size {
        return Denied;
      }
      var index := length;
      var rec := Record(key, val);
      WriteParts(file, index, LE(|key|, 4), LE(|val|, 4), key, val, LE(|key| + |val|, 4));
      assert file[..] == old(file[..index]) + RecordBytes(rec) + old(file[index + RecordSize(rec)..]);
      length := length + total;
      LogBytesAppend(log, rec);
      OffsetAppend(log, rec, |log|);
      ImageLength(log);
      log := log + [rec];
      return At(index);
    }

    /** Count in a record that the file already has; `buried` more bytes count as deleted. */
    method CountTo(index: nat, buried: nat, ghost records: seq<Record>)
      requires file.Length == size <= TWO_32 && index < size && file[..index] == LogBytes(records)
      modifies `deleted, `length, `log
      ensures Valid() && length == index && deleted == old(deleted) + buried && log == records
    {
      deleted := deleted + buried;
      length := index;
      log := records;
    }

    /** Records of the log read back as they were put. */
    lemma Reads(i: nat)
      requires Valid() && i < |log|
      ensures var x := Offset(log, i);
        && Readable(file[..], x)
        && KeyAt(file[..], x) == log[i].key
        && ValAt(file[..], x) == log[i].val
        && KeyLenAt(file[..], x) == |log[i].key|
        && Offset(log, i + 1) == x + 12 + TotalLenAt(file[..], x) <= length
        && PrevAt(file[..], Offset(log, i + 1)) == x
    {
      assert LogBytes(log) <= file[..];
      ReadBack(file[..], log, i);
    }

    lemma Ends()
      requires Valid()
      ensures length == Offset(log, |log|)
    {
      ImageLength(log);
    }
  }
}
