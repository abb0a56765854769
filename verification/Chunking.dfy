/**
 Cutting a file into chunks through a reused read buffer.

 The chunker is fed bytes and says where to split; the reader refills one fixed buffer, so a
 chunk may span many buffers and a buffer may hold many chunks.  The chunks must not depend
 on the size of that buffer.
 */
module Chunking {

  newtype byte = x: int | 0 <= x < 256

  /** A deterministic chunker: its state after a reset, and what one more byte does to the
      state together with whether the chunk ends after that byte. */
  datatype Chunker<!S> = Chunker(initial: S, feed: (S, byte) -> (S, bool))

  /** Scans `buf`: the length up to which the current chunk extends (`-1` when no boundary
      was found) and the state after the bytes that were consumed. */
  function Scan<S>(c: Chunker<S>, s: S, buf: seq<byte>): (r: (S, int))
    ensures r.1 == -1 || 1 <= r.1 <= |buf|
  {
    if buf == [] then (s, -1)
    else
      var (s1, split) := c.feed(s, buf[0]);
      if split then (s1, 1)
      else
        var r := Scan(c, s1, buf[1..]);
        (r.0, if r.1 == -1 then -1 else r.1 + 1)
  }

  /** The reference: the chunks obtained by feeding the whole content at once. */
  function Chunks<S>(c: Chunker<S>, s: S, content: seq<byte>): seq<seq<byte>>
    decreases |content|
  {
    if content == [] then []
    else
      var (s1, split) := Scan(c, s, content);
      if split == -1 then [content]
      else [content[..split]] + Chunks(c, s1, content[split..])
  }

  function Concat(chunks: seq<seq<byte>>): seq<byte> {
    if chunks == [] then [] else chunks[0] + Concat(chunks[1..])
  }

  /** Scanning two pieces one after the other is scanning their concatenation. */
  lemma {:induction false} ScanInPieces<S>(c: Chunker<S>, s: S, a: seq<byte>, b: seq<byte>)
    ensures Scan(c, s, a).1 != -1 ==> Scan(c, s, a + b) == Scan(c, s, a)
    ensures Scan(c, s, a).1 == -1 ==>
      var (s1, split) := Scan(c, Scan(c, s, a).0, b);
      Scan(c, s, a + b) == (s1, if split == -1 then -1 else split + |a|)
  {
    if a == [] {
      assert a + b == b;
    } else {
      assert (a + b)[1..] == a[1..] + b;
      ScanInPieces(c, c.feed(s, a[0]).0, a[1..], b);
    }
  }

  /** The bytes up to a boundary are all that a scan looks at. */
  lemma {:induction false} ScanPrefix<S>(c: Chunker<S>, s: S, buf: seq<byte>)
    requires Scan(c, s, buf).1 != -1
    ensures Scan(c, s, buf[..Scan(c, s, buf).1]) == Scan(c, s, buf)
  {
    var k := Scan(c, s, buf).1;
    if !c.feed(s, buf[0]).1 {
      ScanPrefix(c, c.feed(s, buf[0]).0, buf[1..]);
      assert buf[..k][1..] == buf[1..][..k - 1];
    }
  }

  lemma Regroup<T>(a: seq<T>, b: seq<T>, c: seq<T>)
    ensures a + (b + c) == a + b + c
  {
  }

  /** A boundary at the end of `piece`, after `data` without one, ends the first chunk. */
  lemma FirstChunk<S>(c: Chunker<S>, s: S, data: seq<byte>, piece: seq<byte>, rest: seq<byte>)
    requires Scan(c, s, data).1 == -1
    requires Scan(c, Scan(c, s, data).0, piece).1 == |piece|
    ensures Chunks(c, s, data + piece + rest)
         == [data + piece] + Chunks(c, Scan(c, Scan(c, s, data).0, piece).0, rest)
  {
    var all := data + piece + rest;
    ScanInPieces(c, s, data, piece);
    ScanInPieces(c, s, data + piece, rest);
    assert all[..|data + piece|] == data + piece;
    assert all[|data + piece|..] == rest;
  }

  /** Without a boundary, the rest of the file is the last chunk. */
  lemma LastChunk<S>(c: Chunker<S>, s: S, data: seq<byte>)
    requires Scan(c, s, data).1 == -1
    ensures Chunks(c, s, data) == if data == [] then [] else [data]
    ensures forall s1 :: Chunks(c, s1, []) == []
  {
  }

  /** The reference cuts the content into non-empty pieces and loses nothing. */
  lemma {:induction false} ChunksPartition<S>(c: Chunker<S>, s: S, content: seq<byte>)
    ensures Concat(Chunks(c, s, content)) == content
    ensures forall k :: 0 <= k < |Chunks(c, s, content)| ==> Chunks(c, s, content)[k] != []
    decreases |content|
  {
    if content != [] {
      var (s1, split) := Scan(c, s, content);
      if split == -1 {
        assert [content][1..] == [];
      } else {
        ChunksPartition(c, s1, content[split..]);
        var rest := Chunks(c, s1, content[split..]);
        assert ([content[..split]] + rest)[1..] == rest;
        assert content == content[..split] + content[split..];
      }
    }
  }

  /** The file being read; `broken` says that a read may fail at any time. */
  class FileReader {
    const content: seq<byte>
    const broken: bool
    var pos: nat

    ghost predicate Valid()
      reads this
    {
      pos <= |content|
    }

    ghost function Rest(): seq<byte>
      requires Valid()
      reads this
    {
      content[pos..]
    }

    constructor (content: seq<byte>, broken: bool)
      ensures Valid() && this.content == content && this.broken == broken && pos == 0
    {
      this.content := content;
      this.broken := broken;
      pos := 0;
    }

    /** Fills the buffer as far as the file goes; a short or empty count means the end was reached. */
    method ReadFull(buf: array<byte>) returns (n: nat, failed: bool)
      requires Valid()
      modifies this`pos, buf
      ensures Valid()
      ensures failed ==> broken && pos == old(pos)
      ensures !failed ==> n == (if buf.Length <= |old(Rest())| then buf.Length else |old(Rest())|)
      ensures !failed ==> buf[..n] == old(Rest())[..n] && Rest() == old(Rest())[n..]
    {
      if broken {
        if * {
          return 0, true;
        }
      }
      failed := false;
      n := if buf.Length <= |content| - pos then buf.Length else |content| - pos;
      var i := 0;
      while i < n
        invariant 0 <= i <= n && pos == old(pos)
        invariant forall k :: 0 <= k < i ==> buf[k] == content[pos + k]
      {
        buf[i] := content[pos + i];
        i := i + 1;
      }
      pos := pos + n;
    }
  }

  /** The chunker as the stateful object that a worker keeps for all its files. */
  class ChunkerObject<S(!new)> {
    const def: Chunker<S>
    var state: S

    constructor (def: Chunker<S>, state: S)
      ensures this.def == def && this.state == state
    {
      this.def := def;
      this.state := state;
    }

    method Reset()
      modifies this
      ensures state == def.initial
    {
      state := def.initial;
    }

    method NextSplitPoint(buf: seq<byte>) returns (split: int)
      modifies this
      ensures (state, split) == Scan(def, old(state), buf)
    {
      var i := 0;
      while i < |buf|
        invariant 0 <= i <= |buf|
        invariant Scan(def, old(state), buf[..i]) == (state, -1)
      {
        var (s, stop) := def.feed(state, buf[i]);
        ScanInPieces(def, old(state), buf[..i], [buf[i]]);
        assert buf[..i + 1] == buf[..i] + [buf[i]];
        if stop {
          assert buf == buf[..i + 1] + buf[i + 1..];
          ScanInPieces(def, old(state), buf[..i + 1], buf[i + 1..]);
          state := s;
          return i + 1;
        }
        assert [buf[i]][1..] == [];
        state := s;
        i := i + 1;
      }
      assert buf[..i] == buf;
      return -1;
    }
  }

  datatype ReadResult = Chunk(data: seq<byte>) | EndOfFile | ReadError

  class FileChunkState {
    const readBuf: array<byte>
    var bpos: nat
    var bmax: nat
    var closed: bool

    ghost predicate Valid()
      reads this`bpos, this`bmax
    {
      readBuf.Length > 0 && bpos <= bmax <= readBuf.Length
    }

    /** All bytes of the file that have not been returned yet: what is left in the buffer, then
        what is left in the file. */
    ghost function Unread(reader: FileReader): seq<byte>
      requires Valid() && reader.Valid()
      reads this`bpos, this`bmax, readBuf, reader
    {
      readBuf[bpos..bmax] + reader.Rest()
    }

    /** The end of the file was reported only when it had been reached. */
    ghost predicate Consistent(reader: FileReader)
      requires Valid() && reader.Valid()
      reads this, readBuf, reader
    {
      closed ==> Unread(reader) == []
    }

    constructor (size: nat)
      requires size > 0
      ensures Valid() && fresh(readBuf) && readBuf.Length == size && bpos == bmax == 0 && !closed
    {
      readBuf := new byte[size];
      bpos, bmax, closed := 0, 0, false;
    }

    /** Forgets whatever an earlier file left behind. */
    method Reset()
      modifies this
      requires readBuf.Length > 0
      ensures Valid() && !closed
      ensures bpos == bmax == 0
    {
      bpos, bmax, closed := 0, 0, false;
    }

    /** Refills the exhausted buffer; the unread bytes stay the same. */
    method Refill(reader: FileReader) returns (n: nat, failed: bool)
      requires Valid() && reader.Valid() && bpos >= bmax
      modifies this`bpos, this`bmax, readBuf, reader`pos
      ensures Valid() && reader.Valid()
      ensures Unread(reader) == old(Unread(reader))
      ensures failed ==> reader.broken
      ensures !failed && n > 0 ==> bpos < bmax
      ensures !failed && n == 0 ==> Unread(reader) == []
    {
      n, failed := reader.ReadFull(readBuf);
      if !failed && n > 0 {
        bpos := 0;
        bmax := n;
        assert readBuf[bpos..bmax] == readBuf[..n];
      }
    }

    /** Hands out the buffered bytes up to the next boundary, or all of them. */
    method NextPiece<S(!new)>(ghost reader: FileReader, chunker: ChunkerObject<S>) returns (piece: seq<byte>, boundary: bool)
      requires Valid() && reader.Valid() && bpos < bmax
      modifies this`bpos, chunker
      ensures Valid() && piece != []
      ensures piece + Unread(reader) == old(Unread(reader))
      ensures Scan(chunker.def, old(chunker.state), piece) == (chunker.state, if boundary then |piece| else -1)
    {
      var split := chunker.NextSplitPoint(readBuf[bpos..bmax]);
      if split == -1 {
        piece, boundary := readBuf[bpos..bmax], false;
        bpos := bmax;
      } else {
        ScanPrefix(chunker.def, old(chunker.state), readBuf[bpos..bmax]);
        piece, boundary := readBuf[bpos..bpos + split], true;
        assert piece == readBuf[bpos..bmax][..split];
        assert readBuf[bpos..bmax] == piece + readBuf[bpos + split..bmax];
        bpos := bpos + split;
      }
    }

    /** Returns the first chunk of the unread bytes and leaves the rest unread. */
    method ReadNextChunk<S(!new)>(reader: FileReader, chunker: ChunkerObject<S>) returns (r: ReadResult)
      requires Valid() && reader.Valid() && Consistent(reader)
      modifies this, readBuf, reader`pos, chunker
      ensures Valid() && reader.Valid() && Consistent(reader)
      ensures r.ReadError? ==> reader.broken
      ensures r.EndOfFile? <==> !r.ReadError? && old(Unread(reader)) == []
      ensures r.EndOfFile? ==> Unread(reader) == []
      ensures r.Chunk? ==> r.data != [] && r.data + Unread(reader) == old(Unread(reader))
      ensures r.Chunk? ==> Chunks(chunker.def, old(chunker.state), old(Unread(reader)))
                           == [r.data] + Chunks(chunker.def, chunker.state, Unread(reader))
    {
      var data := [];
      ghost var all, s0 := Unread(reader), chunker.state;
      while true
        invariant Valid() && reader.Valid()
        invariant data + Unread(reader) == all
        invariant closed ==> all == []
        invariant Scan(chunker.def, s0, data) == (chunker.state, -1)
        decreases |Unread(reader)|
      {
        if bpos >= bmax {
          var n, failed := Refill(reader);
          if failed {
            return ReadError;
          }
          if n == 0 {
            LastChunk(chunker.def, s0, data);
            assert data + [] == data;
            if !closed {
              closed := true;
              if |data| > 0 {
                return Chunk(data);
              }
            }
            return EndOfFile;
          }
        }
        var piece, boundary := NextPiece(reader, chunker);
        Regroup(data, piece, Unread(reader));
        if boundary {
          FirstChunk(chunker.def, s0, data, piece, Unread(reader));
          return Chunk(data + piece);
        }
        ScanInPieces(chunker.def, s0, data, piece);
        data := data + piece;
      }
    }

    /** Reads a whole file, as `saveFile` does: whatever state an earlier and possibly aborted
        file left in the buffer and in the chunker, the chunks are those of this file alone. */
    method ReadFile<S(!new)>(content: seq<byte>, broken: bool, chunker: ChunkerObject<S>)
      returns (chunks: seq<seq<byte>>, failed: bool)
      requires readBuf.Length > 0
      modifies this, readBuf, chunker
      ensures failed ==> broken
      ensures !failed ==> chunks == Chunks(chunker.def, chunker.def.initial, content)
      ensures failed ==> chunks <= Chunks(chunker.def, chunker.def.initial, content)
    {
      var reader := new FileReader(content, broken);
      chunker.Reset();
      Reset();
      chunks := [];
      assert Unread(reader) == content;
      while true
        invariant Valid() && reader.Valid() && Consistent(reader) && fresh(reader)
        invariant reader.broken == broken
        invariant chunks + Chunks(chunker.def, chunker.state, Unread(reader))
                  == Chunks(chunker.def, chunker.def.initial, content)
        decreases |Unread(reader)|
      {
        var r := ReadNextChunk(reader, chunker);
        match r {
          case ReadError => return chunks, true;
          case EndOfFile => return chunks, false;
          case Chunk(data) =>
            Regroup(chunks, [data], Chunks(chunker.def, chunker.state, Unread(reader)));
            chunks := chunks + [data];
        }
      }
    }
  }
}
