/**
 * The time-travel event log's storage: a doubly linked list of fixed-size
 * blocks of entries. Entries are appended to the newest block and removed
 * only from the front of the oldest one; a block that has been drained is
 * unlinked.
 *
 * The list object keeps a single block pointer, `headBlock`, naming the block
 * that appends go to; older blocks are reached through `previous`, and the
 * first (oldest) block is the one with no `previous`.
 */
module EventList {
  import opened Spans

  /** Number of entry slots in one block. */
  const BlockSize: nat := 512

  /** One block of the list. Only the slots [startPos, currPos) hold live entries. */
  class Link<T> {
    /** One past the last live slot; appends write here. */
    var currPos: nat
    /** The first live slot; removals from the front advance it. */
    var startPos: nat
    /** The slots of the block. */
    const blockData: array<T>
    var next: Link?<T>
    var previous: Link?<T>

    /** A fresh, empty block linked after `previous`; unused slots hold `fill`. */
    constructor (previous: Link?<T>, fill: T)
      ensures this.previous == previous && next == null
      ensures startPos == 0 && currPos == 0
      ensures fresh(blockData) && blockData.Length == BlockSize
    {
      this.previous := previous;
      next := null;
      startPos, currPos := 0, 0;
      blockData := new T[BlockSize](_ => fill);
    }
  }

  /**
   * Shape of block i of the block list `bs` whose live slices are `ss`:
   * cursors, full interior blocks, links to its neighbours, live slice.
   * The block holds a live entry unless it is at index `emptyAt`, the one
   * block allowed to be empty while it is being linked or unlinked.
   */
  ghost predicate BlockOk<T>(bs: seq<Link<T>>, ss: seq<seq<T>>, i: int, emptyAt: int)
    reads bs[i], bs[i].blockData
    requires 0 <= i < |bs| == |ss|
  {
    var b := bs[i];
    && b.blockData.Length == BlockSize
    && b.startPos <= b.currPos <= BlockSize
    && (b.startPos == b.currPos ==> i == emptyAt)
    && (i > 0 ==> b.startPos == 0)
    && (i < |bs| - 1 ==> b.currPos == BlockSize)
    && b.previous == (if i == 0 then null else bs[i - 1])
    && b.next == (if i == |bs| - 1 then null else bs[i + 1])
    && ss[i] == b.blockData[b.startPos..b.currPos]
  }

  /** Blocks i and j of `bs` are different blocks with different slot arrays. */
  ghost predicate Apart<T>(bs: seq<Link<T>>, i: int, j: int)
    requires 0 <= i < |bs| && 0 <= j < |bs|
  {
    bs[i] != bs[j] && bs[i].blockData != bs[j].blockData
  }

  /**
   * A block keeps its shape at a new index of a new block list when its
   * neighbours, its slice and its place at either end are the same there.
   */
  lemma BlockOkMoved<T>(bs: seq<Link<T>>, ss: seq<seq<T>>, i: int, emptyAt: int,
                        bs': seq<Link<T>>, ss': seq<seq<T>>, i': int, emptyAt': int)
    requires 0 <= i < |bs| == |ss| && BlockOk(bs, ss, i, emptyAt)
    requires 0 <= i' < |bs'| == |ss'| && bs'[i'] == bs[i] && ss'[i'] == ss[i]
    requires (i' == 0) == (i == 0) && (i' == |bs'| - 1) == (i == |bs| - 1)
    requires i > 0 ==> bs'[i' - 1] == bs[i - 1]
    requires i < |bs| - 1 ==> bs'[i' + 1] == bs[i + 1]
    requires i == emptyAt ==> i' == emptyAt'
    ensures BlockOk(bs', ss', i', emptyAt')
  {
  }

  class TTEventList<T> {
    /** The block that receives appends (null when the list is empty). */
    var headBlock: Link?<T>

    /** The linked blocks, oldest first. */
    ghost var blocks: seq<Link<T>>
    /** The live slice of each block. */
    ghost var spans: seq<seq<T>>
    /** The entries of the list in insertion order. */
    ghost var Contents: seq<T>
    ghost var Repr: set<object>

    ghost predicate Valid()
      reads this, Repr
    {
      Shape(-1)
    }

    /** The representation invariant, with the block at index `emptyAt` allowed to be empty. */
    ghost predicate Shape(emptyAt: int)
      reads this, Repr
    {
      && this in Repr
      && |spans| == |blocks|
      && (blocks == [] <==> headBlock == null)
      && (blocks != [] ==> headBlock == blocks[|blocks| - 1])
      && (forall i | 0 <= i < |blocks| :: blocks[i] in Repr && blocks[i].blockData in Repr)
      && (forall i {:trigger BlockOk(blocks, spans, i, emptyAt)} | 0 <= i < |blocks| ::
            BlockOk(blocks, spans, i, emptyAt))
      && (forall i, j {:trigger Apart(blocks, i, j)} | 0 <= i < j < |blocks| :: Apart(blocks, i, j))
      && Contents == Concat(spans)
    }

    /** Every live block holds at least one entry. */
    lemma ValidSpans()
      requires Valid()
      ensures AllNonEmpty(spans)
    {
      forall i | 0 <= i < |spans| ensures spans[i] != [] {
        assert BlockOk(blocks, spans, i, -1);
      }
    }

    constructor ()
      ensures Valid() && fresh(Repr)
      ensures Contents == []
    {
      headBlock := null;
      blocks, spans, Contents := [], [], [];
      Repr := {this};
    }

    /** Drop every entry and every block. */
    method UnloadEventList()
      requires Valid()
      modifies this
      ensures Valid() && Repr <= old(Repr)
      ensures Contents == []
    {
      headBlock := null;
      blocks, spans, Contents := [], [], [];
      Repr := {this};
    }

    /**
     * Link a fresh, empty block after the newest one (the list is empty or
     * its newest block is full).
     */
    method AddArrayLink(fill: T)
      requires Valid()
      requires headBlock == null || headBlock.currPos == BlockSize
      modifies this, headBlock
      ensures Shape(|blocks| - 1) && fresh(Repr - old(Repr))
      ensures headBlock != null && fresh(headBlock) && headBlock.startPos == headBlock.currPos == 0
      ensures blocks == old(blocks) + [headBlock] && spans == old(spans) + [[]]
      ensures Contents == old(Contents)
    {
      var link := new Link(headBlock, fill);
      if headBlock == null {
        headBlock := link;
        blocks, spans := [link], [[]];
        Repr := Repr + {link, link.blockData};
        assert BlockOk(blocks, spans, 0, 0);
      } else {
        LinkAfterHead(link);
      }
    }

    /** Link `link`, a fresh empty block, after the full newest block. */
    method LinkAfterHead(link: Link<T>)
      requires Valid() && headBlock != null && headBlock.currPos == BlockSize
      requires link !in Repr && link.blockData !in Repr && link.blockData != headBlock.blockData
      requires link.previous == headBlock && link.next == null
      requires link.startPos == link.currPos == 0 && link.blockData.Length == BlockSize
      modifies this, headBlock
      ensures Shape(|blocks| - 1) && Repr == old(Repr) + {link, link.blockData}
      ensures headBlock == link && link.startPos == link.currPos == 0
      ensures blocks == old(blocks) + [link] && spans == old(spans) + [[]]
      ensures Contents == old(Contents)
    {
      ghost var n := |blocks|;
      ghost var bs, ss := blocks, spans;
      ghost var nb, ns := bs + [link], ss + [[]];
      assert BlockOk(bs, ss, n - 1, -1);
      headBlock.next := link;
      forall i | 0 <= i < n - 1
        ensures BlockOk(nb, ns, i, n)
      {
        assert old(BlockOk(bs, ss, i, -1));
        assert Apart(bs, i, n - 1);
        BlockOkMoved(bs, ss, i, -1, nb, ns, i, n);
      }
      assert BlockOk(nb, ns, n - 1, n);
      assert BlockOk(nb, ns, n, n);
      forall i, j | 0 <= i < j < |nb|
        ensures Apart(nb, i, j)
      {
        if j < n {
          assert Apart(bs, i, j);
        }
      }
      ConcatAppend(ss, []);
      SetState(link, nb, ns, Contents, Repr + {link, link.blockData}, n);
    }

    /** Replace the block pointer and the ghost description of the list in one step. */
    method SetState(head: Link?<T>, ghost bs: seq<Link<T>>, ghost ss: seq<seq<T>>,
                    ghost contents: seq<T>, ghost repr: set<object>, ghost emptyAt: int)
      requires this in repr && |ss| == |bs|
      requires (bs == [] <==> head == null) && (bs != [] ==> head == bs[|bs| - 1])
      requires forall i | 0 <= i < |bs| :: bs[i] in repr && bs[i].blockData in repr
      requires forall i {:trigger BlockOk(bs, ss, i, emptyAt)} | 0 <= i < |bs| :: BlockOk(bs, ss, i, emptyAt)
      requires forall i, j {:trigger Apart(bs, i, j)} | 0 <= i < j < |bs| :: Apart(bs, i, j)
      requires contents == Concat(ss)
      modifies this
      ensures Shape(emptyAt)
      ensures headBlock == head && blocks == bs && spans == ss
      ensures Contents == contents && Repr == repr
    {
      headBlock := head;
      blocks, spans, Contents, Repr := bs, ss, contents, repr;
    }

    /** Store an entry in the first free slot of the newest block, which has room. */
    method StoreAtCurrPos(data: T)
      requires Shape(|blocks| - 1) && headBlock != null && headBlock.currPos < BlockSize
      modifies this, headBlock, headBlock.blockData
      ensures Valid() && Repr == old(Repr) && blocks == old(blocks)
      ensures Contents == old(Contents) + [data]
    {
      var b := headBlock;
      ghost var m := |blocks|;
      ghost var bs, ss := blocks, spans;
      assert BlockOk(bs, ss, m - 1, m - 1);
      ghost var live := b.blockData[b.startPos..b.currPos];
      b.blockData[b.currPos] := data;
      b.currPos := b.currPos + 1;
      assert b.blockData[b.startPos..b.currPos] == live + [data];
      ghost var ns := ss[..m - 1] + [ss[m - 1] + [data]];
      forall i | 0 <= i < m - 1
        ensures BlockOk(bs, ns, i, -1)
      {
        assert old(BlockOk(bs, ss, i, m - 1));
        assert Apart(bs, i, m - 1);
        BlockOkMoved(bs, ss, i, m - 1, bs, ns, i, -1);
      }
      assert BlockOk(bs, ns, m - 1, -1);
      GrowLast(ss, data);
      SetState(b, bs, ns, Contents + [data], Repr, -1);
    }

    /** A valid list has the weaker shape too, with any index exempted. */
    lemma ValidShape(emptyAt: int)
      requires Valid()
      ensures Shape(emptyAt)
    {
      forall i | 0 <= i < |blocks| ensures BlockOk(blocks, spans, i, emptyAt) {
        assert BlockOk(blocks, spans, i, -1);
      }
    }

    /**
     * Append an entry after all existing ones, linking a fresh block when the
     * list is empty or the newest block is full.
     */
    method AddEntry(data: T)
      requires Valid()
      modifies Repr
      ensures Valid() && fresh(Repr - old(Repr))
      ensures Contents == old(Contents) + [data]
      ensures |blocks| == old(|blocks|) + (if old(headBlock == null || headBlock.currPos == BlockSize) then 1 else 0)
    {
      if headBlock == null || headBlock.currPos == BlockSize {
        AddArrayLink(data);
      } else {
        assert BlockOk(blocks, spans, |blocks| - 1, -1);
        ValidShape(|blocks| - 1);
      }
      StoreAtCurrPos(data);
    }

    /** Unlink the first block, which has been drained. */
    method RemoveArrayLink(block: Link<T>)
      requires Shape(0) && blocks != [] && block == blocks[0] && block.startPos == block.currPos
      modifies this, block.next
      ensures Valid() && Repr == old(Repr) - {block, block.blockData}
      ensures blocks == old(blocks)[1..] && Contents == old(Contents)
    {
      ghost var bs, ss := blocks, spans;
      ghost var nb, ns := bs[1..], ss[1..];
      assert BlockOk(bs, ss, 0, 0);
      if |bs| > 1 {
        assert BlockOk(bs, ss, 1, 0);
        assert Apart(bs, 0, 1);
      }
      var head := headBlock;
      if block.next == null {
        head := null;
      } else {
        block.next.previous := null;
      }
      forall i | 0 <= i < |nb|
        ensures BlockOk(nb, ns, i, -1)
      {
        assert old(BlockOk(bs, ss, i + 1, 0));
        if i > 0 {
          assert Apart(bs, 1, i + 1);
          BlockOkMoved(bs, ss, i + 1, 0, nb, ns, i, -1);
        }
      }
      ghost var repr := Repr - {block, block.blockData};
      forall i | 0 <= i < |nb|
        ensures nb[i] in repr && nb[i].blockData in repr
      {
        assert Apart(bs, 0, i + 1);
      }
      forall i, j | 0 <= i < j < |nb|
        ensures Apart(nb, i, j)
      {
        assert Apart(bs, i + 1, j + 1);
      }
      assert ss[0] == [];
      assert Concat(ss) == Concat(ns);
      SetState(head, nb, ns, Contents, repr, -1);
    }

    /**
     * Remove the first entry; `block` must be the first block and `data` the
     * entry at its start. A block drained by this is unlinked.
     */
    method DeleteFirstEntry(block: Link<T>, data: T)
      requires Valid()
      requires blocks != [] && Contents != [] && block == blocks[0] && data == Contents[0]
      modifies Repr
      ensures Valid() && Repr <= old(Repr)
      ensures Contents == old(Contents)[1..]
      ensures blocks == if old(block.currPos - block.startPos) == 1 then old(blocks)[1..] else old(blocks)
    {
      ghost var bs, ss := blocks, spans;
      ValidSpans();
      assert BlockOk(bs, ss, 0, -1);
      ShrinkFirst(ss);
      block.startPos := block.startPos + 1;
      ghost var ns := [ss[0][1..]] + ss[1..];
      assert BlockOk(bs, ns, 0, 0);
      forall i | 0 < i < |bs|
        ensures BlockOk(bs, ns, i, 0)
      {
        assert old(BlockOk(bs, ss, i, -1));
        assert Apart(bs, 0, i);
        BlockOkMoved(bs, ss, i, -1, bs, ns, i, 0);
      }
      SetState(headBlock, bs, ns, Contents[1..], Repr, 0);
      if block.startPos == block.currPos {
        RemoveArrayLink(block);
      } else {
        forall i | 0 <= i < |blocks|
          ensures BlockOk(blocks, spans, i, -1)
        {
          assert BlockOk(blocks, spans, i, 0);
        }
      }
    }

    /** True when no entry is stored. */
    function IsEmpty(): (r: bool)
      reads this, Repr
      requires Valid()
      ensures r <==> Contents == []
    {
      ValidSpans();
      headBlock == null
    }

    /** Number of stored entries, summed block by block (not constant time). */
    method Count() returns (n: nat)
      requires Valid()
      ensures n == |Contents|
    {
      n := 0;
      var b := headBlock;
      ghost var i := |blocks|;
      while b != null
        invariant 0 <= i <= |blocks|
        invariant b == if i == 0 then null else blocks[i - 1]
        invariant n == |Concat(spans[i..])|
        decreases i
      {
        assert BlockOk(blocks, spans, i - 1, -1);
        assert spans[i - 1..][1..] == spans[i..];
        n := n + (b.currPos - b.startPos);
        b := b.previous;
        i := i - 1;
      }
      assert spans[0..] == spans;
    }

    /**
     * The iterator `it` stands at logical position k: on the entry when k is
     * a position of Contents, off the list (no block) otherwise.
     */
    ghost predicate Denotes(it: Iterator<T>, k: int)
      reads this, Repr, it
      requires Valid()
    {
      if 0 <= k < |Contents| then
        var (i, j) := Locate(spans, k);
        assert blocks[i] in Repr;
        it.currLink == blocks[i] && it.currIdx == blocks[i].startPos + j
      else
        it.currLink == null
    }

    /** An iterator at the first entry (off the list when it is empty). */
    method GetIteratorAtFirst() returns (it: Iterator<T>)
      requires Valid()
      ensures fresh(it) && Denotes(it, 0)
    {
      if headBlock == null {
        it := new Iterator.At(null, 0);
      } else {
        var b := headBlock;
        ghost var i := |blocks| - 1;
        while b.previous != null
          invariant 0 <= i < |blocks| && b == blocks[i] && BlockOk(blocks, spans, i, -1)
          decreases i
        {
          b := b.previous;
          i := i - 1;
        }
        ValidSpans();
        LocateFirst(spans);
        it := new Iterator.At(b, b.startPos);
      }
    }

    /** An iterator at the last entry (off the list when it is empty). */
    method GetIteratorAtLast() returns (it: Iterator<T>)
      requires Valid()
      ensures fresh(it) && Denotes(it, |Contents| - 1)
    {
      if headBlock == null {
        it := new Iterator.At(null, 0);
      } else {
        ValidSpans();
        LocateLast(spans);
        assert BlockOk(blocks, spans, |blocks| - 1, -1);
        it := new Iterator.At(headBlock, headBlock.currPos - 1);
      }
    }
  }

  /** A cursor over a TTEventList: a block and a slot index in it. */
  class Iterator<T> {
    var currLink: Link?<T>
    var currIdx: nat

    /** An iterator that stands on no entry. */
    constructor ()
      ensures currLink == null && currIdx == 0
    {
      currLink, currIdx := null, 0;
    }

    constructor At(head: Link?<T>, pos: nat)
      ensures currLink == head && currIdx == pos
    {
      currLink, currIdx := head, pos;
    }

    /** The entry the iterator stands on. */
    method Current(ghost l: TTEventList<T>, ghost k: int) returns (e: T)
      requires l.Valid() && 0 <= k < |l.Contents| && l.Denotes(this, k)
      ensures e == l.Contents[k]
    {
      var (i, j) := Locate(l.spans, k);
      assert BlockOk(l.blocks, l.spans, i, -1);
      e := currLink.blockData[currIdx];
    }

    /** True exactly while the iterator stands on a live entry. */
    method IsValid(ghost l: TTEventList<T>, ghost k: int) returns (b: bool)
      requires l.Valid() && l.Denotes(this, k)
      ensures b <==> 0 <= k < |l.Contents|
    {
      if 0 <= k < |l.Contents| {
        var (i, j) := Locate(l.spans, k);
        assert BlockOk(l.blocks, l.spans, i, -1);
      }
      b := currLink != null && currLink.startPos <= currIdx < currLink.currPos;
    }

    /** Step to the next entry, falling off the list after the last one. */
    method MoveNext(ghost l: TTEventList<T>, ghost k: int)
      requires l.Valid() && this !in l.Repr && 0 <= k < |l.Contents| && l.Denotes(this, k)
      modifies this
      ensures l.Valid() && l.Denotes(this, k + 1)
    {
      var (i, j) := Locate(l.spans, k);
      assert BlockOk(l.blocks, l.spans, i, -1);
      l.ValidSpans();
      LocateNext(l.spans, k);
      if currIdx + 1 < currLink.currPos {
        currIdx := currIdx + 1;
      } else {
        if i + 1 < |l.blocks| {
          assert BlockOk(l.blocks, l.spans, i + 1, -1);
        }
        currLink := currLink.next;
        currIdx := if currLink != null then currLink.startPos else 0;
      }
    }

    /** Step to the previous entry, falling off the list before the first one. */
    method MovePrevious(ghost l: TTEventList<T>, ghost k: int)
      requires l.Valid() && this !in l.Repr && 0 <= k < |l.Contents| && l.Denotes(this, k)
      modifies this
      ensures l.Valid() && l.Denotes(this, k - 1)
    {
      var (i, j) := Locate(l.spans, k);
      assert BlockOk(l.blocks, l.spans, i, -1);
      l.ValidSpans();
      LocatePrevious(l.spans, k);
      if currIdx > currLink.startPos {
        currIdx := currIdx - 1;
      } else {
        if i > 0 {
          assert BlockOk(l.blocks, l.spans, i - 1, -1);
        }
        currLink := currLink.previous;
        currIdx := if currLink != null then currLink.currPos - 1 else 0;
      }
    }
  }
}
