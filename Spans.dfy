/**
 * Pure view of a block list: each block contributes the slice of entries it
 * holds, and the list's contents are those slices one after the other.
 * `Locate` turns a logical position into (block number, offset in block),
 * which is what an event-list iterator stores.
 */
module Spans {

  /** The entries of all blocks, first block first. */
  function Concat<T>(ss: seq<seq<T>>): seq<T>
  {
    if ss == [] then [] else ss[0] + Concat(ss[1..])
  }

  /** Every block holds at least one entry. */
  predicate AllNonEmpty<T>(ss: seq<seq<T>>)
  {
    forall i | 0 <= i < |ss| :: ss[i] != []
  }

  /** Appending a block appends its entries. */
  lemma {:induction false} ConcatAppend<T>(ss: seq<seq<T>>, s: seq<T>)
    ensures Concat(ss + [s]) == Concat(ss) + s
  {
    if ss == [] {
      assert [] + [s] == [s];
      assert Concat([s]) == s + Concat([s][1..]);
    } else {
      assert (ss + [s])[0] == ss[0];
      assert (ss + [s])[1..] == ss[1..] + [s];
      ConcatAppend(ss[1..], s);
    }
  }

  /** Extending the last block by one entry extends the contents by that entry. */
  lemma {:induction false} GrowLast<T>(ss: seq<seq<T>>, x: T)
    requires ss != []
    ensures Concat(ss[..|ss| - 1] + [ss[|ss| - 1] + [x]]) == Concat(ss) + [x]
  {
    var init, last := ss[..|ss| - 1], ss[|ss| - 1];
    assert ss == init + [last];
    ConcatAppend(init, last);
    ConcatAppend(init, last + [x]);
    assert Concat(init) + (last + [x]) == (Concat(init) + last) + [x];
  }

  /** Dropping the first entry of the first block drops the first entry of the contents. */
  lemma ShrinkFirst<T>(ss: seq<seq<T>>)
    requires ss != [] && ss[0] != []
    ensures Concat([ss[0][1..]] + ss[1..]) == Concat(ss)[1..]
  {
    assert ([ss[0][1..]] + ss[1..])[1..] == ss[1..];
  }

  /**
   * The block and the offset within it that hold the entry at logical
   * position k of Concat(ss).
   */
  function Locate<T>(ss: seq<seq<T>>, k: nat): (r: (nat, nat))
    requires k < |Concat(ss)|
    ensures r.0 < |ss| && r.1 < |ss[r.0]|
    ensures Concat(ss)[k] == ss[r.0][r.1]
    decreases |ss|
  {
    if k < |ss[0]| then (0, k)
    else
      var r := Locate(ss[1..], k - |ss[0]|);
      (r.0 + 1, r.1)
  }

  /** A list of non-empty blocks starts at offset 0 of its first block. */
  lemma LocateFirst<T>(ss: seq<seq<T>>)
    requires ss != [] && AllNonEmpty(ss)
    ensures 0 < |Concat(ss)| && Locate(ss, 0) == (0, 0)
  {
    assert ss[0] != [];
  }

  /** The last entry of a list of non-empty blocks is the last one of its last block. */
  lemma {:induction false} LocateLast<T>(ss: seq<seq<T>>)
    requires ss != [] && AllNonEmpty(ss)
    ensures 0 < |Concat(ss)|
    ensures Locate(ss, |Concat(ss)| - 1) == (|ss| - 1, |ss[|ss| - 1]| - 1)
  {
    assert ss[0] != [];
    if |ss| > 1 {
      LocateLast(ss[1..]);
    }
  }

  /**
   * One step forward: the next entry is the next offset in the same block,
   * or offset 0 of the next block, or there is no next entry.
   */
  lemma {:induction false} LocateNext<T>(ss: seq<seq<T>>, k: nat)
    requires AllNonEmpty(ss) && k < |Concat(ss)|
    ensures var (i, j) := Locate(ss, k);
      && (j + 1 < |ss[i]| ==> k + 1 < |Concat(ss)| && Locate(ss, k + 1) == (i, j + 1))
      && (j + 1 == |ss[i]| && i + 1 < |ss| ==> k + 1 < |Concat(ss)| && Locate(ss, k + 1) == (i + 1, 0))
      && (j + 1 == |ss[i]| && i + 1 == |ss| ==> k + 1 == |Concat(ss)|)
    decreases |ss|
  {
    if k + 1 < |ss[0]| {
    } else if k + 1 == |ss[0]| {
      if |ss| > 1 {
        assert ss[1..][0] != [];
      } else {
        assert ss[1..] == [];
      }
    } else {
      LocateNext(ss[1..], k - |ss[0]|);
    }
  }

  /**
   * One step backward: the previous entry is the previous offset in the same
   * block, or the last offset of the previous block, or there is none.
   */
  lemma {:induction false} LocatePrevious<T>(ss: seq<seq<T>>, k: nat)
    requires AllNonEmpty(ss) && k < |Concat(ss)|
    ensures var (i, j) := Locate(ss, k);
      && (j > 0 ==> k > 0 && Locate(ss, k - 1) == (i, j - 1))
      && (j == 0 && i > 0 ==> k > 0 && Locate(ss, k - 1) == (i - 1, |ss[i - 1]| - 1))
      && (j == 0 && i == 0 ==> k == 0)
    decreases |ss|
  {
    if k < |ss[0]| {
    } else if k == |ss[0]| {
      assert ss[1..][0] != [];
    } else {
      LocatePrevious(ss[1..], k - |ss[0]|);
    }
  }
}
