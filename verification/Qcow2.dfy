/**
 Writing a sparse disk image (c_src/qcow2.c). The image is written front to back:
 data blocks as they come, each second-level table when the next one is needed, then
 the first-level table and the header. Reading follows the section "Cluster mapping"
 of the QCOW2 image format specification (QEMU docs/interop/qcow2).

 The block size is 2^k bytes; places in the output file are counted in blocks.
 */
module Qcow2 {
  import opened Bits
  import opened Ranges

  const QCOW_MAGIC: nat := 0x5146_49FB
  const QCOW_OFLAG_COPIED: nat := 0x8000_0000_0000_0000
  /** The l1_index of an image without a pending table: -1 as 32 bits. */
  const NO_INDEX: nat := 0xFFFF_FFFF

  datatype Header = Header(magic: nat, version: nat, blockBits: nat, size: nat, l1Size: nat, l1TableOffset: nat)

  /** What a block of the output holds. */
  datatype Block =
    | HeaderBlock(hdr: Header)
    | DataBlock(src: nat)              // a copy of this block of the input
    | L2Block(table: seq<nat>)
    | L1Block(table: seq<nat>)         // where the first-level table starts
    | L1Rest                           // further blocks of it

  /** A table entry for a block of the output; 0 stands for none. */
  function Entry(o: nat, k: nat): nat { Lsh(o, k) + QCOW_OFLAG_COPIED }

  /** The place an entry leads to. */
  function Place(e: nat, k: nat): nat
  {
    if e >= QCOW_OFLAG_COPIED then Shr(e - QCOW_OFLAG_COPIED, k) else 0
  }

  lemma EntryPlace(o: nat, k: nat)
    ensures Entry(o, k) != 0 && Place(Entry(o, k), k) == o
  {
    hide Lsh, Shr;
    ShrLsh(o, k, k);
    ShiftByZero(o);
  }

  datatype Found = Unallocated | Source(block: nat)

  /** What a second-level table says about block b. */
  function InTable(file: map<nat, Block>, table: seq<nat>, k: nat, b: nat): Found
    requires k >= 3
  {
    var i := Low(b, k - 3);
    if i < |table| && table[i] != 0 then
      var o := Place(table[i], k);
      if o in file && file[o].DataBlock? then Source(file[o].src) else Unallocated
    else Unallocated
  }

  /** Reading block b through the two levels of tables. */
  function Read(file: map<nat, Block>, l1: seq<nat>, k: nat, b: nat): Found
    requires k >= 3
  {
    var i := Shr(b, k - 3);
    if i < |l1| && l1[i] != 0 then
      var o := Place(l1[i], k);
      if o in file && file[o].L2Block? then InTable(file, file[o].table, k, b) else Unallocated
    else Unallocated
  }

  /** The same, with the table that is still pending. */
  ghost function ReadNow(file: map<nat, Block>, l1: seq<nat>, l1Index: nat, l2: seq<nat>, k: nat, b: nat): Found
    requires k >= 3
  {
    if Shr(b, k - 3) == l1Index then InTable(file, l2, k, b) else Read(file, l1, k, b)
  }

  // ---- what the writer keeps ----

  /** Everything below offset is written, nothing from it on; entries lead below it. */
  ghost predicate FileOk(file: map<nat, Block>, offset: nat, k: nat, l1: seq<nat>, l2: seq<nat>)
  {
    && offset > 0 && (forall o :: o in file <==> 0 < o < offset)
    && (forall i :: 0 <= i < |l1| && l1[i] != 0 ==> Place(l1[i], k) in file && file[Place(l1[i], k)].L2Block?)
    && forall i :: 0 <= i < |l2| && l2[i] != 0 ==> Place(l2[i], k) in file
  }

  /** Tables in the file lead to blocks of the file. */
  ghost predicate TablesOk(file: map<nat, Block>, k: nat)
  {
    forall o :: o in file && file[o].L2Block? ==>
      forall i :: 0 <= i < |file[o].table| && file[o].table[i] != 0 ==> Place(file[o].table[i], k) in file
  }

  /** Each second-level table in the file is the one table of one first-level entry: it was written once. */
  ghost predicate OnceEach(file: map<nat, Block>, k: nat, l1: seq<nat>)
  {
    && (forall i, j :: 0 <= i < j < |l1| && l1[i] != 0 && l1[j] != 0 ==> Place(l1[i], k) != Place(l1[j], k))
    && forall o :: o in file && file[o].L2Block? ==> HasEntry(k, l1, o)
  }

  ghost predicate HasEntry(k: nat, l1: seq<nat>, o: nat)
  {
    exists i :: 0 <= i < |l1| && l1[i] != 0 && Place(l1[i], k) == o
  }

  /** What was written is not written over. */
  ghost predicate Keeps(file: map<nat, Block>, more: map<nat, Block>)
  {
    forall o :: o in file ==> o in more && more[o] == file[o]
  }

  /** One write to the output. */
  datatype Write = Write(place: nat, block: Block)

  /** No two writes go to the same place, and the file is exactly what was written. */
  ghost predicate WrittenOnce(file: map<nat, Block>, log: seq<Write>)
  {
    && (forall i, j :: 0 <= i < j < |log| ==> log[i].place != log[j].place)
    && (forall i :: 0 <= i < |log| ==> log[i].place in file && file[log[i].place] == log[i].block)
    && forall o :: o in file ==> Logged(log, o)
  }

  ghost predicate Logged(log: seq<Write>, o: nat)
  {
    exists i :: 0 <= i < |log| && log[i].place == o
  }

  lemma {:induction false} WriteNew(file: map<nat, Block>, log: seq<Write>, o: nat, blk: Block)
    requires WrittenOnce(file, log) && o !in file
    ensures WrittenOnce(file[o := blk], log + [Write(o, blk)])
  {
    var more, file2 := log + [Write(o, blk)], file[o := blk];
    forall p | p in file2
      ensures Logged(more, p)
    {
      if p == o {
        assert more[|log|].place == o;
      } else {
        assert Logged(log, p);
        var i :| 0 <= i < |log| && log[i].place == p;
        assert more[i].place == p;
      }
    }
  }

  class Image {
    const k: nat
    var file: map<nat, Block>
    ghost var log: seq<Write>
    var l1: seq<nat>
    var l1Index: nat
    var l2: seq<nat>
    var offset: nat

    /** No first-level entry is set from index n on, nor for the pending table. */
    ghost predicate Valid(n: nat)
      reads this
    {
      && k >= 7 && |l2| == Pow2(k - 3) && |l1| <= NO_INDEX
      && FileOk(file, offset, k, l1, l2) && TablesOk(file, k) && OnceEach(file, k, l1) && WrittenOnce(file, log)
      && (l1Index == NO_INDEX ==> forall i :: 0 <= i < |l2| ==> l2[i] == 0)
      && (l1Index != NO_INDEX ==> l1Index < |l1| && n == l1Index + 1 && l1[l1Index] == 0)
      && forall i :: n <= i < |l1| ==> l1[i] == 0
    }

    constructor (k: nat, l1Size: nat)
      requires k >= 7 && l1Size <= NO_INDEX
      ensures Valid(0) && this.k == k && |l1| == l1Size && l1Index == NO_INDEX
      ensures forall b: nat :: ReadNow(file, l1, l1Index, l2, k, b) == Unallocated || Shr(b, k - 3) == NO_INDEX
    {
      this.k := k;
      file, log, offset, l1Index := map[], [], 1, NO_INDEX;
      l1 := seq(l1Size, i => 0);
      l2 := seq(Pow2(k - 3), i => 0);
    }

    /** xpwrite of one block. */
    method Pwrite(o: nat, blk: Block)
      modifies this`file, this`log
      ensures file == old(file)[o := blk] && log == old(log) + [Write(o, blk)]
      ensures old(WrittenOnce(file, log)) && o !in old(file) ==> WrittenOnce(file, log)
    {
      if WrittenOnce(file, log) && o !in file { WriteNew(file, log, o, blk); }
      file, log := file[o := blk], log + [Write(o, blk)];
    }

    /** flush_l2. */
    method FlushL2(ghost n: nat)
      requires Valid(n)
      modifies this
      ensures Valid(n) && l1Index == NO_INDEX && |l1| == |old(l1)| && offset >= old(offset)
      ensures forall b: nat :: Shr(b, k - 3) < |l1| ==>
                ReadNow(file, l1, l1Index, l2, k, b) == old(ReadNow(file, l1, l1Index, l2, k, b))
      ensures Keeps(old(file), file)
    {
      hide Lsh, Shr, Low, Pow2, Place, Entry, WrittenOnce;
      if l1Index == NO_INDEX { return; }
      FlushReads(file, l1, l1Index, l2, offset, k);
      FlushTables(file, l1, l1Index, l2, offset, k);
      Pwrite(offset, L2Block(l2));
      l1 := l1[l1Index := Entry(offset, k)];
      offset := offset + 1;
      l2 := seq(Pow2(k - 3), i => 0);
      l1Index := NO_INDEX;
    }

    /** add_l2. Blocks come in ascending order: a table that was flushed is never needed again. */
    method AddL2(b: nat, dst: nat, ghost n: nat)
      requires Valid(n) && dst in file && file[dst] == DataBlock(b) && Shr(b, k - 3) < |l1|
      requires Shr(b, k - 3) == l1Index || n <= Shr(b, k - 3)
      modifies this
      ensures Valid(Shr(b, k - 3) + 1) && l1Index == Shr(b, k - 3) && |l1| == |old(l1)|
      ensures forall c: nat :: Shr(c, k - 3) < |l1| ==>
                ReadNow(file, l1, l1Index, l2, k, c) == if c == b then Source(b) else old(ReadNow(file, l1, l1Index, l2, k, c))
      ensures Keeps(old(file), file)
    {
      hide Lsh, Shr, Low, Pow2, Place, Entry, WrittenOnce;
      var i1, i2 := Shr(b, k - 3), Low(b, k - 3);
      if l1Index != i1 {
        FlushL2(n);
        EmptyPending(file, l1, i1, l2, k);
        l1Index := i1;
      }
      Split(b, k - 3);
      EntryPlace(dst, k);
      AddReads(file, l1, l1Index, l2, k, b, dst);
      l2 := l2[i2 := Entry(dst, k)];
    }

    /** One step of the data loop: the block is written at the end and entered in the tables. */
    method WriteBlock(b: nat, ghost n: nat)
      requires Valid(n) && Shr(b, k - 3) < |l1| && (Shr(b, k - 3) == l1Index || n <= Shr(b, k - 3))
      modifies this
      ensures Valid(Shr(b, k - 3) + 1) && l1Index == Shr(b, k - 3) && |l1| == |old(l1)|
      ensures forall c: nat :: Shr(c, k - 3) < |l1| ==>
                ReadNow(file, l1, l1Index, l2, k, c) == if c == b then Source(b) else old(ReadNow(file, l1, l1Index, l2, k, c))
      ensures Keeps(old(file), file)
    {
      hide Lsh, Shr, Low, Pow2, Place, Entry, WrittenOnce;
      var dst := offset;
      offset := offset + 1;
      DataReads(file, l1, l1Index, l2, dst, k, b);
      Pwrite(dst, DataBlock(b));
      AddL2(b, dst, n);
    }
  }

  // ---- growing the file changes no answer ----

  lemma TableGrows(file: map<nat, Block>, o: nat, blk: Block, table: seq<nat>, k: nat, b: nat)
    requires k >= 3 && o !in file && forall i :: 0 <= i < |table| && table[i] != 0 ==> Place(table[i], k) in file
    ensures InTable(file[o := blk], table, k, b) == InTable(file, table, k, b)
  {
  }

  lemma ReadGrows(file: map<nat, Block>, o: nat, blk: Block, l1: seq<nat>, k: nat, b: nat)
    requires k >= 3 && o !in file && TablesOk(file, k)
    requires forall i :: 0 <= i < |l1| && l1[i] != 0 ==> Place(l1[i], k) in file
    ensures Read(file[o := blk], l1, k, b) == Read(file, l1, k, b)
  {
    hide Shr, Low, Place, InTable;
    var i := Shr(b, k - 3);
    if i < |l1| && l1[i] != 0 && file[Place(l1[i], k)].L2Block? {
      TableGrows(file, o, blk, file[Place(l1[i], k)].table, k, b);
    }
  }

  /** Flushing moves the pending table into the file; reading sees no difference. */
  lemma {:induction false} FlushReads(file: map<nat, Block>, l1: seq<nat>, l1Index: nat, l2: seq<nat>, offset: nat, k: nat)
    requires k >= 3 && FileOk(file, offset, k, l1, l2) && TablesOk(file, k) && l1Index < |l1| <= NO_INDEX
    ensures var file2, l12 := file[offset := L2Block(l2)], l1[l1Index := Entry(offset, k)];
            forall b: nat :: Shr(b, k - 3) < |l1| ==> Read(file2, l12, k, b) == ReadNow(file, l1, l1Index, l2, k, b)
  {
    hide Lsh, Shr, Low, Place, Entry, InTable;
    var file2, l12 := file[offset := L2Block(l2)], l1[l1Index := Entry(offset, k)];
    EntryPlace(offset, k);
    forall b: nat | Shr(b, k - 3) < |l1|
      ensures Read(file2, l12, k, b) == ReadNow(file, l1, l1Index, l2, k, b)
    {
      ReadGrows(file, offset, L2Block(l2), l1, k, b);
      TableGrows(file, offset, L2Block(l2), l2, k, b);
    }
  }

  lemma {:induction false} FlushTables(file: map<nat, Block>, l1: seq<nat>, l1Index: nat, l2: seq<nat>, offset: nat, k: nat)
    requires k >= 3 && FileOk(file, offset, k, l1, l2) && TablesOk(file, k) && OnceEach(file, k, l1)
    requires l1Index < |l1| && l1[l1Index] == 0
    ensures var file2, l12 := file[offset := L2Block(l2)], l1[l1Index := Entry(offset, k)];
            TablesOk(file2, k) && OnceEach(file2, k, l12)
            && (forall o :: o in file2 <==> 0 < o < offset + 1)
            && forall i :: 0 <= i < |l12| && l12[i] != 0 ==> Place(l12[i], k) in file2 && file2[Place(l12[i], k)].L2Block?
  {
    hide Place, Entry;
    EntryPlace(offset, k);
    var file2, l12 := file[offset := L2Block(l2)], l1[l1Index := Entry(offset, k)];
    forall o | o in file2 && file2[o].L2Block?
      ensures HasEntry(k, l12, o)
    {
      if o == offset {
        assert Place(l12[l1Index], k) == offset;
      } else {
        assert HasEntry(k, l1, o);
        var i :| 0 <= i < |l1| && l1[i] != 0 && Place(l1[i], k) == o;
        assert l12[i] == l1[i];
      }
    }
  }

  lemma EmptyPending(file: map<nat, Block>, l1: seq<nat>, i1: nat, l2: seq<nat>, k: nat)
    requires k >= 3 && i1 < |l1| <= NO_INDEX && l1[i1] == 0 && forall i :: 0 <= i < |l2| ==> l2[i] == 0
    ensures forall b: nat :: Shr(b, k - 3) < |l1| ==> ReadNow(file, l1, i1, l2, k, b) == ReadNow(file, l1, NO_INDEX, l2, k, b)
  {
    hide Shr, Low, Place;
  }

  lemma {:induction false} AddReads(file: map<nat, Block>, l1: seq<nat>, l1Index: nat, l2: seq<nat>, k: nat, b: nat, dst: nat)
    requires k >= 3 && |l2| == Pow2(k - 3) && Low(b, k - 3) < |l2| && Shr(b, k - 3) == l1Index
    requires dst in file && file[dst] == DataBlock(b)
    ensures forall c: nat ::
              ReadNow(file, l1, l1Index, l2[Low(b, k - 3) := Entry(dst, k)], k, c)
              == if c == b then Source(b) else ReadNow(file, l1, l1Index, l2, k, c)
  {
    hide Lsh, Shr, Low, Place, Entry, Pow2, Read;
    EntryPlace(dst, k);
    forall c: nat
      ensures ReadNow(file, l1, l1Index, l2[Low(b, k - 3) := Entry(dst, k)], k, c)
              == if c == b then Source(b) else ReadNow(file, l1, l1Index, l2, k, c)
    {
      Split(b, k - 3);
      Split(c, k - 3);
    }
  }

  lemma {:induction false} DataReads(file: map<nat, Block>, l1: seq<nat>, l1Index: nat, l2: seq<nat>, o: nat, k: nat, b: nat)
    requires k >= 3 && FileOk(file, o, k, l1, l2) && TablesOk(file, k) && OnceEach(file, k, l1)
    ensures var file2 := file[o := DataBlock(b)];
            && TablesOk(file2, k) && OnceEach(file2, k, l1) && FileOk(file2, o + 1, k, l1, l2)
            && forall c: nat :: ReadNow(file2, l1, l1Index, l2, k, c) == ReadNow(file, l1, l1Index, l2, k, c)
  {
    hide Shr, Low, Place, InTable, Read;
    var file2 := file[o := DataBlock(b)];
    forall c: nat
      ensures ReadNow(file2, l1, l1Index, l2, k, c) == ReadNow(file, l1, l1Index, l2, k, c)
    {
      ReadGrows(file, o, DataBlock(b), l1, k, c);
      TableGrows(file, o, DataBlock(b), l2, k, c);
    }
  }

  // ---- the whole image ----

  /** DIV_ROUND_UP(image_size, block_size * l2_size). */
  function L1Size(imageSize: nat, k: nat): nat
    requires k >= 3
  {
    Shr(imageSize + Pow2(k + k - 3) - 1, k + k - 3)
  }

  /** A block that starts inside the image has a first-level entry. */
  lemma {:induction false} IndexInL1(b: nat, k: nat, imageSize: nat)
    requires k >= 3 && Lsh(b, k) < imageSize
    ensures Shr(b, k - 3) < L1Size(imageSize, k)
  {
    hide Lsh, Shr, Low, Pow2;
    var m, x := k + k - 3, Lsh(b, k);
    ShrLsh(b, k, k);
    ShiftByZero(b);
    ShrShr(x, k, k - 3);
    var v := imageSize + Pow2(m) - 1;
    Split(v, m);
    ShrLt(x, Shr(v, m), m);
  }

  /** Some range reaches into block b. */
  ghost predicate Touched(ranges: seq<Range>, k: nat, b: nat)
  {
    exists i :: 0 <= i < |ranges| && ranges[i].start < Lsh(b + 1, k) && Lsh(b, k) < ranges[i].end
  }

  lemma {:induction false} TouchedIsCovered(ranges: seq<Range>, rounded: seq<Range>, k: nat, b: nat)
    requires |rounded| == |ranges|
    requires forall i :: 0 <= i < |ranges| ==> rounded[i] == Range(RoundDown(ranges[i].start, k), RoundUp(ranges[i].end, k))
    ensures Touched(ranges, k, b) <==> Covers(rounded, Lsh(b, k))
  {
    hide Lsh, RoundDown, RoundUp;
    if Touched(ranges, k, b) {
      var i :| 0 <= i < |ranges| && ranges[i].start < Lsh(b + 1, k) && Lsh(b, k) < ranges[i].end;
      RoundedBlock(ranges[i], k, b);
      assert rounded[i].start <= Lsh(b, k) < rounded[i].end;
    }
    if Covers(rounded, Lsh(b, k)) {
      var i :| 0 <= i < |rounded| && rounded[i].start <= Lsh(b, k) < rounded[i].end;
      RoundedBlock(ranges[i], k, b);
    }
  }

  /** Blocks entered when range i has been copied up to byte x. */
  ghost predicate CopiedBefore(m: seq<Range>, i: nat, x: nat, k: nat, b: nat)
    requires i <= |m|
  {
    Covers(m[..i], Lsh(b, k)) || (i < |m| && m[i].start <= Lsh(b, k) < x)
  }

  /** The tables built so far answer for exactly the blocks copied so far. */
  ghost predicate Answers(img: Image, m: seq<Range>, i: nat, x: nat)
    requires img.k >= 3 && i <= |m|
    reads img
  {
    forall b: nat :: Shr(b, img.k - 3) < |img.l1| ==>
      ReadNow(img.file, img.l1, img.l1Index, img.l2, img.k, b)
      == if CopiedBefore(m, i, x, img.k, b) then Source(b) else Unallocated
  }

  /** The next block is new, and comes after everything copied. */
  lemma {:induction false} NextBlock(m: seq<Range>, i: nat, x: nat, k: nat)
    requires Separate(m) && i < |m| && m[i].start <= x < m[i].end && Low(x, k) == 0 && Low(m[i].end, k) == 0
    ensures Lsh(Shr(x, k), k) == x && Low(x + Pow2(k), k) == 0 && x + Pow2(k) <= m[i].end
    ensures forall b: nat :: CopiedBefore(m, i, x + Pow2(k), k, b) <==> CopiedBefore(m, i, x, k, b) || b == Shr(x, k)
    ensures !CopiedBefore(m, i, x, k, Shr(x, k))
  {
    hide Lsh, Shr, Low, Pow2, Covers;
    var q, e := Shr(x, k), Shr(m[i].end, k);
    Split(x, k);
    Split(m[i].end, k);
    OrderOfBlocks(e, q, k);
    if q < e { LshGap(q, e, k); }
    LshAdd(q, 1, k);
    OneBlock(k);
    ShrLsh(q + 1, k, k);
    assert Lsh(q, k) == x;
    forall b: nat
      ensures CopiedBefore(m, i, x + Pow2(k), k, b) <==> CopiedBefore(m, i, x, k, b) || b == q
    {
      OrderOfBlocks(q + 1, b, k);
      OrderOfBlocks(q, b, k);
    }
    EarlierEnds(m, i, x);
    OrderOfBlocks(q, q, k);
  }

  lemma EarlierEnds(m: seq<Range>, i: nat, x: nat)
    requires Separate(m) && i < |m| && m[i].start <= x
    ensures !Covers(m[..i], x)
  {
  }

  lemma {:induction false} StartsInside(x: nat, k: nat, imageSize: nat)
    requires k >= 3 && Low(x, k) == 0 && x < RoundUp(imageSize, k)
    ensures Lsh(Shr(x, k), k) == x < imageSize && Shr(Shr(x, k), k - 3) < L1Size(imageSize, k)
  {
    hide Lsh, Shr, Low, Pow2, RoundUp, RoundDown, L1Size;
    Split(x, k);
    RoundedBlock(Range(0, imageSize), k, Shr(x, k));
    RoundedZero(k);
    IndexInL1(Shr(x, k), k, imageSize);
  }

  lemma RoundedZero(k: nat)
    ensures RoundDown(0, k) == 0
  {
    LshZero(k);
  }

  lemma {:induction false} RoundedEnds(ranges: seq<Range>, rounded: seq<Range>, k: nat, imageSize: nat)
    requires |rounded| == |ranges| && EndBy(ranges, imageSize)
    requires forall i :: 0 <= i < |ranges| ==> rounded[i] == Range(RoundDown(ranges[i].start, k), RoundUp(ranges[i].end, k))
    ensures EndBy(rounded, RoundUp(imageSize, k))
  {
    hide Lsh, Shr, Pow2, RoundDown;
    forall i | 0 <= i < |rounded|
      ensures rounded[i].end <= RoundUp(imageSize, k)
    {
      ShrMonotone(ranges[i].end + Pow2(k) - 1, imageSize + Pow2(k) - 1, k);
      LshMonotone(Shr(ranges[i].end + Pow2(k) - 1, k), Shr(imageSize + Pow2(k) - 1, k), k);
    }
  }

  /** The index bound that goes with the pending table. */
  ghost function Bound(l1Index: nat): nat { if l1Index == NO_INDEX then 0 else l1Index + 1 }

  /** The pending table is for block x / 2^k or an earlier one. */
  ghost predicate NotPast(img: Image, x: nat)
    requires img.k >= 3
    reads img
  {
    img.l1Index == NO_INDEX || img.l1Index <= Shr(Shr(x, img.k), img.k - 3)
  }

  lemma NotPastLater(img: Image, x: nat, y: nat)
    requires img.k >= 3 && NotPast(img, x) && x <= y
    ensures NotPast(img, y)
  {
    hide Shr;
    ShrMonotone(x, y, img.k);
    ShrMonotone(Shr(x, img.k), Shr(y, img.k), img.k - 3);
  }

  lemma PastRange(m: seq<Range>, i: nat, k: nat, b: nat)
    requires i < |m|
    ensures CopiedBefore(m, i + 1, if i + 1 < |m| then m[i + 1].start else 0, k, b) <==> CopiedBefore(m, i, m[i].end, k, b)
  {
    hide Lsh;
    assert m[..i + 1] == m[..i] + [m[i]];
    CoversPush(m[..i], m[i], Lsh(b, k));
  }

  /** The inner loop of the data pass. */
  method CopyRange(img: Image, m: seq<Range>, i: nat, ghost imageSize: nat)
    requires Separate(m) && i < |m| && Aligned(m, img.k) && EndBy(m, RoundUp(imageSize, img.k))
    requires img.Valid(Bound(img.l1Index)) && |img.l1| == L1Size(imageSize, img.k) && NotPast(img, m[i].start)
    requires Answers(img, m, i, m[i].start)
    modifies img
    ensures img.Valid(Bound(img.l1Index)) && |img.l1| == |old(img.l1)| && NotPast(img, m[i].end)
    ensures Answers(img, m, i, m[i].end)
    ensures Keeps(old(img.file), img.file)
  {
    hide Lsh, Shr, Low, Pow2, ReadNow, CopiedBefore, RoundUp, L1Size, WrittenOnce;
    var x := m[i].start;
    while x < m[i].end
      invariant m[i].start <= x <= m[i].end && Low(x, img.k) == 0
      invariant img.Valid(Bound(img.l1Index)) && |img.l1| == |old(img.l1)| && NotPast(img, x) && Answers(img, m, i, x)
      invariant Keeps(old(img.file), img.file)
    {
      NextBlock(m, i, x, img.k);
      StartsInside(x, img.k, imageSize);
      img.WriteBlock(Shr(x, img.k), Bound(img.l1Index));
      NotPastLater(img, x, x + Pow2(img.k));
      x := x + Pow2(img.k);
    }
  }

  /** The outer loop. */
  method CopyAll(img: Image, m: seq<Range>, ghost imageSize: nat)
    requires Separate(m) && Aligned(m, img.k) && EndBy(m, RoundUp(imageSize, img.k))
    requires img.Valid(0) && img.l1Index == NO_INDEX && |img.l1| == L1Size(imageSize, img.k) && Answers(img, [], 0, 0)
    modifies img
    ensures img.Valid(Bound(img.l1Index)) && |img.l1| == |old(img.l1)| && Answers(img, m, |m|, 0)
    ensures Keeps(old(img.file), img.file)
  {
    hide Lsh, Shr, Low, Pow2, ReadNow, RoundUp, L1Size, WrittenOnce;
    NothingCopied(img, m);
    for i := 0 to |m|
      invariant img.Valid(Bound(img.l1Index)) && |img.l1| == |old(img.l1)|
      invariant Keeps(old(img.file), img.file)
      invariant (i < |m| ==> NotPast(img, m[i].start)) && Answers(img, m, i, if i < |m| then m[i].start else 0)
    {
      CopyRange(img, m, i, imageSize);
      NextRange(img, m, i);
    }
  }

  lemma NothingCopied(img: Image, m: seq<Range>)
    requires img.k >= 3 && Answers(img, [], 0, 0)
    ensures Answers(img, m, 0, if |m| > 0 then m[0].start else 0)
  {
    hide Lsh, Shr, ReadNow;
    forall b: nat
      ensures !CopiedBefore(m, 0, if |m| > 0 then m[0].start else 0, img.k, b) && !CopiedBefore([], 0, 0, img.k, b)
    {
      assert m[..0] == [];
    }
  }

  lemma NextRange(img: Image, m: seq<Range>, i: nat)
    requires img.k >= 3 && i < |m| && Answers(img, m, i, m[i].end) && NotPast(img, m[i].end) && Separate(m)
    ensures Answers(img, m, i + 1, if i + 1 < |m| then m[i + 1].start else 0)
    ensures i + 1 < |m| ==> NotPast(img, m[i + 1].start)
  {
    hide Lsh, Shr, ReadNow, CopiedBefore, NotPast;
    forall b: nat
      ensures CopiedBefore(m, i + 1, if i + 1 < |m| then m[i + 1].start else 0, img.k, b) <==> CopiedBefore(m, i, m[i].end, img.k, b)
    {
      PastRange(m, i, img.k, b);
    }
    if i + 1 < |m| { NotPastLater(img, m[i].end, m[i + 1].start); }
  }

  /** Reading block b of a finished image, starting from its header. */
  function ReadImage(file: map<nat, Block>, k: nat, b: nat): Found
    requires k >= 3
  {
    if 0 in file && file[0].HeaderBlock? then
      var t := Shr(file[0].hdr.l1TableOffset, k);
      if t in file && file[t].L1Block? then Read(file, file[t].table, k, b) else Unallocated
    else Unallocated
  }

  /** The first-level table, in as many blocks as it needs, at the end of the file. */
  method WriteL1(img: Image, ghost n: nat) returns (dst: nat)
    requires img.Valid(n) && img.l1Index == NO_INDEX
    modifies img
    ensures img.k >= 3 && img.l1 == old(img.l1) && 0 < dst == old(img.offset) && dst in img.file && img.file[dst] == L1Block(img.l1)
    ensures forall o :: o in img.file <==> 0 < o < img.offset
    ensures Keeps(old(img.file), img.file)
    ensures forall b: nat :: Read(img.file, img.l1, img.k, b) == old(Read(img.file, img.l1, img.k, b))
    ensures TablesOk(img.file, img.k) && OnceEach(img.file, img.k, img.l1)
    ensures forall i :: 0 <= i < |img.l1| && img.l1[i] != 0 ==> Place(img.l1[i], img.k) in img.file
    ensures WrittenOnce(img.file, img.log)
  {
    hide Lsh, Shr, Low, Pow2, Place, Read, WrittenOnce;
    dst := img.offset;
    var blocks := Shr(|img.l1| * 8 + Pow2(img.k) - 1, img.k);
    GrowOne(img.file, dst, L1Block(img.l1), img.l1, img.k);
    img.Pwrite(dst, L1Block(img.l1));
    var end := dst + (if blocks > 0 then blocks else 1);
    for o := dst + 1 to end
      invariant img.l1 == old(img.l1) && dst in img.file && img.file[dst] == L1Block(img.l1)
      invariant forall p :: p in img.file <==> 0 < p < o
      invariant Keeps(old(img.file), img.file) && OnceEach(img.file, img.k, img.l1)
      invariant forall b: nat :: Read(img.file, img.l1, img.k, b) == old(Read(img.file, img.l1, img.k, b))
      invariant TablesOk(img.file, img.k) && WrittenOnce(img.file, img.log)
      invariant forall i :: 0 <= i < |img.l1| && img.l1[i] != 0 ==> Place(img.l1[i], img.k) in img.file
    {
      GrowOne(img.file, o, L1Rest, img.l1, img.k);
      img.Pwrite(o, L1Rest);
    }
    img.offset := end;
  }

  lemma {:induction false} GrowOne(file: map<nat, Block>, o: nat, blk: Block, l1: seq<nat>, k: nat)
    requires k >= 3 && o !in file && TablesOk(file, k) && !blk.L2Block?
    requires forall i :: 0 <= i < |l1| && l1[i] != 0 ==> Place(l1[i], k) in file
    ensures TablesOk(file[o := blk], k)
    ensures forall b: nat :: Read(file[o := blk], l1, k, b) == Read(file, l1, k, b)
  {
    hide Place, Read;
    forall b: nat
      ensures Read(file[o := blk], l1, k, b) == Read(file, l1, k, b)
    {
      ReadGrows(file, o, blk, l1, k, b);
    }
  }

  /**
   qcow2_write_image. Reading any block of the finished image gives the block of the
   input if some range reaches into it, and otherwise nothing. Of the writes in log no two
   overlap, and together they are the image.
   */
  method WriteImage(ranges: seq<Range>, k: nat, imageSize: nat) returns (file: map<nat, Block>, ghost log: seq<Write>)
    requires k >= 7 && L1Size(imageSize, k) <= NO_INDEX
    requires EndBy(ranges, imageSize) && forall i :: 0 <= i < |ranges| ==> ranges[i].start <= ranges[i].end
    ensures 0 in file && file[0].HeaderBlock? && file[0].hdr.size == imageSize && file[0].hdr.blockBits == k
    ensures file[0].hdr.l1Size == L1Size(imageSize, k)
    ensures var t := Shr(file[0].hdr.l1TableOffset, k); t in file && file[t].L1Block? && OnceEach(file, k, file[t].table)
    ensures forall b: nat :: ReadImage(file, k, b) == if Touched(ranges, k, b) then Source(b) else Unallocated
    ensures WrittenOnce(file, log)
  {
    hide Lsh, Shr, Low, Pow2, Read, ReadNow, WrittenOnce, Touched, RoundDown, RoundUp, L1Size;
    var r := RoundupAll(ranges, k);
    RoundedEnds(ranges, r, k, imageSize);
    var m := SortMerge(r);
    var img := new Image(k, L1Size(imageSize, k));
    FreshAnswers(img);
    CopyAll(img, m, imageSize);
    ghost var n := Bound(img.l1Index);
    CopiedAll(img, ranges, r, m, imageSize);
    img.FlushL2(n);
    FlushedReads(img, n, ranges);
    var dst := WriteL1(img, n);
    WriteHeader(img, dst, imageSize);
    file, log := img.file, img.log;
  }

  lemma FreshAnswers(img: Image)
    requires img.k >= 3 && |img.l1| <= NO_INDEX
    requires forall b: nat :: ReadNow(img.file, img.l1, img.l1Index, img.l2, img.k, b) == Unallocated || Shr(b, img.k - 3) == NO_INDEX
    ensures Answers(img, [], 0, 0)
  {
    hide Lsh, Shr, ReadNow;
    forall b: nat
      ensures !CopiedBefore([], 0, 0, img.k, b)
    {
    }
  }

  /** After the data pass the tables answer for the blocks some range reaches into. */
  lemma {:induction false} CopiedAll(img: Image, ranges: seq<Range>, rounded: seq<Range>, m: seq<Range>, imageSize: nat)
    requires img.k >= 3 && Answers(img, m, |m|, 0) && |rounded| == |ranges|
    requires forall i :: 0 <= i < |ranges| ==> rounded[i] == Range(RoundDown(ranges[i].start, img.k), RoundUp(ranges[i].end, img.k))
    requires forall x: nat :: Covers(m, x) <==> Covers(rounded, x)
    requires EndBy(ranges, imageSize) && |img.l1| == L1Size(imageSize, img.k)
    ensures forall b: nat :: Shr(b, img.k - 3) < |img.l1| ==>
              ReadNow(img.file, img.l1, img.l1Index, img.l2, img.k, b) == if Touched(ranges, img.k, b) then Source(b) else Unallocated
    ensures forall b: nat :: Touched(ranges, img.k, b) ==> Shr(b, img.k - 3) < |img.l1|
  {
    hide Lsh, Shr, ReadNow, RoundDown, RoundUp, L1Size, Covers;
    assert m[..|m|] == m;
    forall b: nat
      ensures Touched(ranges, img.k, b) <==> CopiedBefore(m, |m|, 0, img.k, b)
      ensures Touched(ranges, img.k, b) ==> Shr(b, img.k - 3) < |img.l1|
    {
      TouchedIsCovered(ranges, rounded, img.k, b);
      if Touched(ranges, img.k, b) { IndexInL1(b, img.k, imageSize); }
    }
    hide CopiedBefore, Touched;
  }

  lemma {:induction false} FlushedReads(img: Image, n: nat, ranges: seq<Range>)
    requires img.Valid(n) && img.l1Index == NO_INDEX
    requires forall b: nat :: Shr(b, img.k - 3) < |img.l1| ==>
               ReadNow(img.file, img.l1, img.l1Index, img.l2, img.k, b) == if Touched(ranges, img.k, b) then Source(b) else Unallocated
    requires forall b: nat :: Touched(ranges, img.k, b) ==> Shr(b, img.k - 3) < |img.l1|
    ensures forall b: nat :: Read(img.file, img.l1, img.k, b) == if Touched(ranges, img.k, b) then Source(b) else Unallocated
  {
    hide Lsh, Shr, Low, Place, Touched, InTable;
    forall b: nat
      ensures Read(img.file, img.l1, img.k, b) == if Touched(ranges, img.k, b) then Source(b) else Unallocated
    {
      if Shr(b, img.k - 3) < |img.l1| {
        assert ReadNow(img.file, img.l1, img.l1Index, img.l2, img.k, b) == Read(img.file, img.l1, img.k, b);
      }
    }
  }

  /** The header goes to the block kept free for it. */
  method WriteHeader(img: Image, dst: nat, imageSize: nat)
    requires img.k >= 3 && 0 !in img.file && dst in img.file && img.file[dst] == L1Block(img.l1)
    requires |img.l1| == L1Size(imageSize, img.k)
    requires TablesOk(img.file, img.k) && OnceEach(img.file, img.k, img.l1) && WrittenOnce(img.file, img.log)
    requires forall i :: 0 <= i < |img.l1| && img.l1[i] != 0 ==> Place(img.l1[i], img.k) in img.file
    modifies img`file, img`log
    ensures 0 in img.file && img.file[0] == HeaderBlock(Header(QCOW_MAGIC, 2, img.k, imageSize, |img.l1|, Lsh(dst, img.k)))
    ensures Keeps(old(img.file), img.file) && OnceEach(img.file, img.k, img.l1) && Shr(Lsh(dst, img.k), img.k) == dst
    ensures WrittenOnce(img.file, img.log)
    ensures forall b: nat :: ReadImage(img.file, img.k, b) == old(Read(img.file, img.l1, img.k, b))
  {
    hide Lsh, Shr, Low, Place, Read, WrittenOnce;
    var hdr := HeaderBlock(Header(QCOW_MAGIC, 2, img.k, imageSize, |img.l1|, Lsh(dst, img.k)));
    GrowOne(img.file, 0, hdr, img.l1, img.k);
    ShrLsh(dst, img.k, img.k);
    ShiftByZero(dst);
    img.Pwrite(0, hdr);
  }
}
