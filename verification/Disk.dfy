/** A byte-addressed disk over blocks (kernel/src/dev/dev_sd.c). */
module Disk {
  import opened Words

  type Byte = b: nat | b < 256

  ghost predicate Blocks(blocks: seq<seq<Byte>>, size: nat) {
    forall b {:trigger blocks[b]} :: 0 <= b < |blocks| ==> |blocks[b]| == size
  }

  /** The disk as one run of bytes. */
  ghost function Flat(blocks: seq<seq<Byte>>): seq<Byte> {
    if blocks == [] then [] else Flat(blocks[..|blocks| - 1]) + blocks[|blocks| - 1]
  }

  lemma {:induction false} FlatLength(blocks: seq<seq<Byte>>, size: nat)
    requires Blocks(blocks, size)
    ensures |Flat(blocks)| == Times(|blocks|, size)
  {
    if blocks != [] {
      var n := |blocks| - 1;
      assert forall b {:trigger blocks[..n][b]} :: 0 <= b < n ==> blocks[..n][b] == blocks[b];
      FlatLength(blocks[..n], size);
      NextMultiple(n, size);
    }
  }

  lemma NextMultiple(b: nat, size: nat)
    ensures Times(b, size) + size == Times(b + 1, size)
  {
    assert (b + 1) * size == b * size + size;
  }

  /** Block b is the b-th stretch of the bytes. */
  lemma {:induction false} FlatSplit(blocks: seq<seq<Byte>>, size: nat, b: nat)
    requires Blocks(blocks, size) && b < |blocks|
    ensures |Flat(blocks[..b])| == Times(b, size)
    ensures Flat(blocks) == Flat(blocks[..b]) + blocks[b] + Tail(blocks, b)
    decreases |blocks|
  {
    var n := |blocks| - 1;
    assert forall i {:trigger blocks[..b][i]} :: 0 <= i < b ==> blocks[..b][i] == blocks[i];
    FlatLength(blocks[..b], size);
    if b < n {
      assert forall i {:trigger blocks[..n][i]} :: 0 <= i < n ==> blocks[..n][i] == blocks[i];
      FlatSplit(blocks[..n], size, b);
      assert blocks[..n][..b] == blocks[..b];
      assert Flat(blocks[..b]) + blocks[b] + Tail(blocks[..n], b) + blocks[n] ==
             Flat(blocks[..b]) + blocks[b] + (Tail(blocks[..n], b) + blocks[n]);
    } else {
      assert blocks[..b] == blocks[..n];
    }
  }

  /** What follows block b. */
  ghost function Tail(blocks: seq<seq<Byte>>, b: nat): seq<Byte>
    requires b < |blocks|
    decreases |blocks|
  {
    if b == |blocks| - 1 then [] else Tail(blocks[..|blocks| - 1], b) + blocks[|blocks| - 1]
  }

  lemma {:induction false} TailKept(blocks: seq<seq<Byte>>, b: nat, x: seq<Byte>)
    requires b < |blocks|
    ensures Tail(blocks[b := x], b) == Tail(blocks, b)
    decreases |blocks|
  {
    var n := |blocks| - 1;
    if b < n {
      assert blocks[b := x][..n] == blocks[..n][b := x];
      TailKept(blocks[..n], b, x);
    }
  }

  /** data over the bytes from at on. */
  ghost function Overwrite(bytes: seq<Byte>, at: nat, data: seq<Byte>): seq<Byte>
    requires at + |data| <= |bytes|
  {
    bytes[..at] + data + bytes[at + |data|..]
  }

  /** A read takes its bytes out of one block. */
  lemma ReadBlock(blocks: seq<seq<Byte>>, size: nat, b: nat, from: nat, n: nat)
    requires Blocks(blocks, size) && b < |blocks| && from + n <= size
    ensures |Flat(blocks)| == Times(|blocks|, size) && Times(b, size) + from + n <= |Flat(blocks)|
    ensures Flat(blocks)[Times(b, size) + from..Times(b, size) + from + n] == blocks[b][from..from + n]
  {
    FlatSplit(blocks, size, b);
    FlatLength(blocks, size);
  }

  /** A write into one block is a write at its place in the bytes. */
  lemma WriteBlock(blocks: seq<seq<Byte>>, size: nat, b: nat, from: nat, data: seq<Byte>)
    requires Blocks(blocks, size) && b < |blocks| && from + |data| <= size
    ensures |Flat(blocks)| == Times(|blocks|, size) && Times(b, size) + from + |data| <= |Flat(blocks)|
    ensures var x := Overwrite(blocks[b], from, data);
            |x| == size && Flat(blocks[b := x]) == Overwrite(Flat(blocks), Times(b, size) + from, data)
  {
    var x := Overwrite(blocks[b], from, data);
    FlatSplit(blocks, size, b);
    FlatLength(blocks, size);
    OverwriteMiddle(Flat(blocks[..b]), blocks[b], Tail(blocks, b), from, data);
    FlatSplit(blocks[b := x], size, b);
    TailKept(blocks, b, x);
    assert blocks[b := x][..b] == blocks[..b];
  }

  lemma OverwriteMiddle(left: seq<Byte>, middle: seq<Byte>, right: seq<Byte>, from: nat, data: seq<Byte>)
    requires from + |data| <= |middle|
    ensures Overwrite(left + middle + right, |left| + from, data) == left + Overwrite(middle, from, data) + right
  {
    var all, at := left + middle + right, |left| + from;
    assert all[..at] == left + middle[..from];
    assert all[at + |data|..] == middle[from + |data|..] + right;
  }

  /** Writes that follow each other make one write. */
  lemma OverwriteTwice(bytes: seq<Byte>, at: nat, data: seq<Byte>, more: seq<Byte>)
    requires at + |data| + |more| <= |bytes|
    ensures Overwrite(Overwrite(bytes, at, data), at + |data|, more) == Overwrite(bytes, at, data + more)
  {
  }

  /** Reading what was written gives it back; other bytes are as before. */
  lemma ReadAfterWrite(bytes: seq<Byte>, at: nat, data: seq<Byte>, from: nat, n: nat)
    requires at + |data| <= |bytes| && from + n <= |bytes|
    ensures from == at && n == |data| ==> Overwrite(bytes, at, data)[from..from + n] == data
    ensures from + n <= at || at + |data| <= from ==>
        Overwrite(bytes, at, data)[from..from + n] == bytes[from..from + n]
  {
  }

  class Sd {
    const blksz: nat
    const order: nat
    const buf: array<Byte>
    var blocks: seq<seq<Byte>>

    /** The block size is a power of two. */
    ghost predicate Valid()
      reads this
    {
      blksz == Pow2(order) && buf.Length == blksz && Blocks(blocks, blksz)
    }

    ghost function Bytes(): seq<Byte>
      reads this
    {
      Flat(blocks)
    }

    constructor (order: nat, blocks: seq<seq<Byte>>)
      requires Blocks(blocks, Pow2(order))
      ensures Valid() && fresh(buf) && this.blocks == blocks && this.order == order
    {
      this.order := order;
      this.blksz := Pow2(order);
      this.blocks := blocks;
      this.buf := new Byte[Pow2(order)](_ => 0);
    }

    method BlkRead(blkno: nat)
      requires Valid() && blkno < |blocks|
      modifies buf
      ensures buf[..] == blocks[blkno]
    {
      var data := blocks[blkno];
      forall i | 0 <= i < buf.Length { buf[i] := data[i]; }
    }

    method BlkWrite(blkno: nat)
      requires Valid() && blkno < |blocks|
      modifies `blocks
      ensures Valid() && blocks == old(blocks)[blkno := buf[..]]
    {
      blocks := blocks[blkno := buf[..]];
    }

    /** sd_read: exactly the bytes from offset on, whatever the blocks they lie in. */
    method SdRead(offset: nat, count: nat) returns (data: seq<Byte>)
      requires Valid() && offset + count <= |Bytes()|
      modifies buf
      ensures data == Bytes()[offset..offset + count]
    {
      data := [];
      var pos, off := 0, offset;
      var st := AlignDown(offset, order);
      while pos < count
        invariant pos <= count && data == Bytes()[offset..offset + pos]
        invariant pos < count ==> off == offset + pos && st == AlignDown(off, order)
      {
        InBlock(blocks, off, order);
        var n := blksz - (off - st);
        if n > count - pos { n := count - pos; }
        var piece := GetPiece(st / blksz, off - st, n, off);
        data := data + piece;
        Adjacent(Bytes(), offset, off, off + n);
        pos := pos + n;
        NextBlock(st, order);
        off := st + blksz;
        st := off;
      }
    }

    /** One round of the loop: n bytes out of one block. */
    method GetPiece(blkno: nat, at: nat, n: nat, ghost off: nat) returns (piece: seq<Byte>)
      requires Valid() && blkno < |blocks| && at + n <= blksz && off == Times(blkno, blksz) + at
      modifies buf
      ensures off + n <= |Bytes()| && piece == Bytes()[off..off + n]
    {
      BlkRead(blkno);
      ReadBlock(blocks, blksz, blkno, at, n);
      piece := buf[at..at + n];
    }

    /** sd_write: exactly those bytes change. A block that is replaced whole is not read first. */
    method SdWrite(offset: nat, data: seq<Byte>) returns (written: nat)
      requires Valid() && offset + |data| <= |Bytes()|
      modifies `blocks, buf
      ensures Valid() && written == |data| && Bytes() == Overwrite(old(Bytes()), offset, data)
    {
      ghost var bytes := Bytes();
      assert Overwrite(bytes, offset, data[..0]) == bytes;
      var pos, off := 0, offset;
      var st := AlignDown(offset, order);
      while pos < |data|
        invariant pos <= |data| && Valid() && |blocks| == old(|blocks|)
        invariant Bytes() == Overwrite(bytes, offset, data[..pos])
        invariant pos < |data| ==> off == offset + pos && st == AlignDown(off, order)
      {
        InBlock(blocks, off, order);
        var n := blksz - (off - st);
        if n > |data| - pos { n := |data| - pos; }
        PutPiece(st / blksz, off - st, data, pos, n, bytes, offset, off);
        pos := pos + n;
        NextBlock(st, order);
        off := st + blksz;
        st := off;
      }
      assert data[..|data|] == data;
      return pos;
    }

    /** One round of the loop: the block with the piece in it goes back to the disk. */
    method PutPiece(blkno: nat, at: nat, data: seq<Byte>, pos: nat, n: nat, ghost bytes: seq<Byte>,
            ghost offset: nat, ghost off: nat)
      requires Valid() && blkno < |blocks| && at + n <= blksz && pos + n <= |data| && (n < blksz || at == 0)
      requires offset + |data| <= |bytes| && Bytes() == Overwrite(bytes, offset, data[..pos])
      requires off == offset + pos && off == Times(blkno, blksz) + at
      modifies `blocks, buf
      ensures Valid() && |blocks| == old(|blocks|) && Bytes() == Overwrite(bytes, offset, data[..pos + n])
    {
      ghost var piece := data[pos..pos + n];
      if n < blksz {
        BlkRead(blkno);
      }
      CopyIn(at, data, pos, n);
      assert buf[..] == Overwrite(blocks[blkno], at, piece);
      WriteBlock(blocks, blksz, blkno, at, piece);
      BlkWrite(blkno);
      OverwriteTwice(bytes, offset, data[..pos], piece);
      assert data[..pos] + piece == data[..pos + n];
    }

    method CopyIn(at: nat, data: seq<Byte>, pos: nat, n: nat)
      requires at + n <= buf.Length && pos + n <= |data|
      modifies buf
      ensures buf[..] == Overwrite(old(buf[..]), at, data[pos..pos + n])
    {
      forall i | 0 <= i < n { buf[at + i] := data[pos + i]; }
    }
  }

  lemma Adjacent(bytes: seq<Byte>, a: nat, b: nat, c: nat)
    requires a <= b <= c <= |bytes|
    ensures bytes[a..b] + bytes[b..c] == bytes[a..c]
  {
  }

  /** The block an offset lies in. */
  lemma InBlock(blocks: seq<seq<Byte>>, off: nat, order: nat)
    requires Blocks(blocks, Pow2(order)) && off < |Flat(blocks)|
    ensures var st, size := AlignDown(off, order), Pow2(order);
            0 <= st / size < |blocks| && Times(st / size, size) == st && off - st < size
  {
    var size := Pow2(order);
    FlatLength(blocks, size);
    QuotientInside(off, size, |blocks|);
    DivModMul(off, size);
    MulMod(off / size, size);
  }

  lemma QuotientInside(off: nat, size: nat, n: nat)
    requires size >= 1 && off < Times(n, size)
    ensures 0 <= off / size < n
  {
    var q := off / size;
    assert off == size * q + off % size;
    if q < 0 { MulMono(q, -1, size); }
    if q >= n { MulMono(n, q, size); }
  }

  lemma NextBlock(st: nat, order: nat)
    requires st % Pow2(order) == 0
    ensures AlignDown(st + Pow2(order), order) == st + Pow2(order)
  {
    var size := Pow2(order);
    assert st == size * (st / size);
    assert (st / size + 1) * size == size * (st / size) + size;
    DivModUnique(st + size, size, st / size + 1, 0);
  }
}
