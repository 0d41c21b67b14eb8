/**
 * One page of a book: six tiles, the test that all of them arrived, and the
 * geometry of the composite image the tiles are pasted into.
 */
module Pages {
  import opened Wrappers

  /** Number of tiles a page is cut into. */
  const SplitCount: int := 6

  /** A tile image, reduced to the size the image library reports for it. */
  datatype Tile = Tile(width: nat, height: nat)

  /** The composite page image: its canvas size and where each tile is pasted (x; y is 0). */
  datatype Layout = Layout(width: nat, height: nat, offsets: seq<nat>)

  // ---------------------------------------------------------------------------
  // Geometry of save_full_page
  // ---------------------------------------------------------------------------

  /** `sum(widths)` */
  function SumWidths(tiles: seq<Tile>): nat
  {
    if tiles == [] then 0 else SumWidths(tiles[..|tiles| - 1]) + tiles[|tiles| - 1].width
  }

  /** `max(heights)`; Python raises on an empty sequence. */
  function MaxHeight(tiles: seq<Tile>): nat
    requires |tiles| > 0
  {
    if |tiles| == 1 then tiles[0].height
    else
      var m := MaxHeight(tiles[..|tiles| - 1]);
      if tiles[|tiles| - 1].height > m then tiles[|tiles| - 1].height else m
  }

  /** The composite: tiles side by side, left to right, in the given order. */
  function Composite(tiles: seq<Tile>): (g: Layout)
    requires |tiles| > 0
    ensures |g.offsets| == |tiles| && g.offsets[0] == 0
    ensures forall i :: 0 <= i < |tiles| ==> tiles[i].height <= g.height
    ensures exists i :: 0 <= i < |tiles| && tiles[i].height == g.height
  {
    assert tiles[..0] == [];
    MaxHeightIsMax(tiles);
    Layout(SumWidths(tiles), MaxHeight(tiles), seq(|tiles|, i requires 0 <= i < |tiles| => SumWidths(tiles[..i])))
  }

  lemma {:induction false} SumWidthsStep(tiles: seq<Tile>, i: nat)
    requires i < |tiles|
    ensures SumWidths(tiles[..i + 1]) == SumWidths(tiles[..i]) + tiles[i].width
  {
    assert tiles[..i + 1][..i] == tiles[..i];
  }

  lemma {:induction false} SumWidthsMonotone(tiles: seq<Tile>, i: nat)
    requires i <= |tiles|
    ensures SumWidths(tiles[..i]) <= SumWidths(tiles)
    decreases |tiles| - i
  {
    if i < |tiles| {
      SumWidthsStep(tiles, i);
      SumWidthsMonotone(tiles, i + 1);
    } else {
      assert tiles[..i] == tiles;
    }
  }

  lemma {:induction false} MaxHeightIsMax(tiles: seq<Tile>)
    requires |tiles| > 0
    ensures forall i :: 0 <= i < |tiles| ==> tiles[i].height <= MaxHeight(tiles)
    ensures exists i :: 0 <= i < |tiles| && tiles[i].height == MaxHeight(tiles)
  {
    if |tiles| == 1 {
      assert tiles[0].height == MaxHeight(tiles);
    } else {
      var init := tiles[..|tiles| - 1];
      MaxHeightIsMax(init);
      var k :| 0 <= k < |init| && init[k].height == MaxHeight(init);
      assert tiles[k] == init[k];
      assert forall i :: 0 <= i < |init| ==> tiles[i] == init[i];
      if tiles[|tiles| - 1].height > MaxHeight(init) {
        assert tiles[|tiles| - 1].height == MaxHeight(tiles);
      } else {
        assert tiles[k].height == MaxHeight(tiles);
      }
    }
  }

  /**
   * The composite places the tiles edge to edge without overlap: each tile
   * starts where the previous one ends, the first at 0, and all fit inside a
   * canvas as wide as their widths together and as high as the tallest tile.
   */
  lemma CompositeSideBySide(tiles: seq<Tile>)
    requires |tiles| > 0
    ensures |Composite(tiles).offsets| == |tiles|
    ensures Composite(tiles).offsets[0] == 0
    ensures forall i :: 0 <= i < |tiles| - 1 ==>
      Composite(tiles).offsets[i + 1] == Composite(tiles).offsets[i] + tiles[i].width
    ensures Composite(tiles).offsets[|tiles| - 1] + tiles[|tiles| - 1].width == Composite(tiles).width
    ensures forall i :: 0 <= i < |tiles| ==>
      Composite(tiles).offsets[i] + tiles[i].width <= Composite(tiles).width && tiles[i].height <= Composite(tiles).height
    ensures exists i :: 0 <= i < |tiles| && tiles[i].height == Composite(tiles).height
  {
    var g := Composite(tiles);
    assert tiles[..0] == [];
    forall i | 0 <= i < |tiles| ensures g.offsets[i] + tiles[i].width <= g.width {
      SumWidthsStep(tiles, i);
      SumWidthsMonotone(tiles, i + 1);
    }
    forall i | 0 <= i < |tiles| - 1 ensures g.offsets[i + 1] == g.offsets[i] + tiles[i].width {
      SumWidthsStep(tiles, i);
    }
    SumWidthsStep(tiles, |tiles| - 1);
    assert tiles[..|tiles|] == tiles;
    MaxHeightIsMax(tiles);
  }

  /**
   * The paste loop of `save_full_page`: each tile goes at the running x
   * offset, which then advances by the tile's width.
   */
  method LayOut(tiles: seq<Tile>) returns (g: Layout)
    requires |tiles| > 0
    ensures g == Composite(tiles)
  {
    var offsets: seq<nat> := [];
    var xOffset := 0;
    for i := 0 to |tiles|
      invariant |offsets| == i
      invariant xOffset == SumWidths(tiles[..i])
      invariant forall k :: 0 <= k < i ==> offsets[k] == SumWidths(tiles[..k])
    {
      offsets := offsets + [xOffset];
      SumWidthsStep(tiles, i);
      xOffset := xOffset + tiles[i].width;
    }
    assert tiles[..|tiles|] == tiles;
    g := Layout(xOffset, MaxHeight(tiles), offsets);
  }

  // ---------------------------------------------------------------------------
  // The slot map
  // ---------------------------------------------------------------------------

  /** The range check written at wqbook.py:28: `index < 0 and index > 6`. */
  predicate GuardRejects(index: int)
  {
    index < 0 && index > 6
  }

  /** Every slot 0..5 holds a tile, so `split_pages[i]` succeeds for each i in range(6). */
  predicate HasAllSlots(slots: map<int, Tile>)
  {
    forall i :: 0 <= i < SplitCount ==> i in slots
  }

  /** The tiles of slots 0..5, in that order. */
  function SlotTiles(slots: map<int, Tile>): (tiles: seq<Tile>)
    requires HasAllSlots(slots)
    ensures |tiles| == SplitCount
  {
    seq(SplitCount, i requires 0 <= i < SplitCount && HasAllSlots(slots) => slots[i])
  }

  /** The slot map after a sequence of `add_split_page(index, image)` calls, in arrival order. */
  function Fill(slots: map<int, Tile>, writes: seq<(int, Tile)>): map<int, Tile>
    decreases writes
  {
    if writes == [] then slots else Fill(slots[writes[0].0 := writes[0].1], writes[1..])
  }

  /** The guard as written never rejects anything. */
  lemma GuardNeverRejects(index: int)
    ensures !GuardRejects(index)
  {
  }

  /** The slot set {0, ..., 5}. */
  function SlotRange(): (r: set<int>)
    ensures forall i :: i in r <==> 0 <= i < SplitCount
    ensures |r| == SplitCount
  {
    var r := {0, 1, 2, 3, 4, 5};
    assert forall i :: i in r <==> 0 <= i < SplitCount;
    r
  }

  /**
   * For slots drawn from 0..5, having six keys (`is_enough`) is the same as
   * having every slot filled: completeness does not depend on arrival order.
   */
  lemma {:induction false} EnoughIffAllSlots(slots: map<int, Tile>)
    requires forall i :: i in slots ==> 0 <= i < SplitCount
    ensures |slots| == SplitCount <==> HasAllSlots(slots)
  {
    var full := SlotRange();
    assert slots.Keys <= full;
    if HasAllSlots(slots) {
      assert slots.Keys == full;
    } else {
      var missing :| 0 <= missing < SplitCount && missing !in slots;
      assert slots.Keys <= full - {missing};
      SubsetCard(slots.Keys, full - {missing});
    }
  }

  lemma SubsetCard(a: set<int>, b: set<int>)
    requires a <= b
    ensures |a| <= |b|
  {
    assert b == a + (b - a);
  }

  /**
   * Because the guard never fires, six keys do not mean slots 0..5: a page that
   * received tiles 1..6 passes `is_enough` but has no tile 0, so composing it
   * fails on the missing key.
   */
  lemma EnoughWithoutAllSlots()
    ensures var slots := Fill(map[], [(1, Tile(1, 1)), (2, Tile(1, 1)), (3, Tile(1, 1)), (4, Tile(1, 1)), (5, Tile(1, 1)), (6, Tile(1, 1))]);
      |slots| == SplitCount && !HasAllSlots(slots)
  {
    var t := Tile(1, 1);
    var w: seq<(int, Tile)> := [(1, t), (2, t), (3, t), (4, t), (5, t), (6, t)];
    var m1 := map[1 := t];
    var m2 := m1[2 := t];
    var m3 := m2[3 := t];
    var m4 := m3[4 := t];
    var m5 := m4[5 := t];
    var m6 := m5[6 := t];
    assert Fill(m6, w[6..]) == m6;
    assert Fill(m5, w[5..]) == Fill(m6, w[6..]);
    assert Fill(m4, w[4..]) == Fill(m5, w[5..]);
    assert Fill(m3, w[3..]) == Fill(m4, w[4..]);
    assert Fill(m2, w[2..]) == Fill(m3, w[3..]);
    assert Fill(m1, w[1..]) == Fill(m2, w[2..]);
    assert Fill(map[], w) == Fill(m1, w[1..]);
    assert m6.Keys == {1, 2, 3, 4, 5, 6};
    assert 0 !in m6;
  }

  /**
   * After any sequence of writes, a slot holds the tile of the LAST write to it
   * (or its earlier tile if it was not written), and the keys are the old ones
   * plus the written indices: the final map, and so the composite, depends only
   * on the last write per slot.
   */
  lemma FillLastWriteWins(slots: map<int, Tile>, writes: seq<(int, Tile)>)
    ensures forall i :: i in Fill(slots, writes) <==> i in slots || exists k :: 0 <= k < |writes| && writes[k].0 == i
    ensures forall k :: 0 <= k < |writes| && (forall m :: k < m < |writes| ==> writes[m].0 != writes[k].0) ==>
      writes[k].0 in Fill(slots, writes) && Fill(slots, writes)[writes[k].0] == writes[k].1
    ensures forall i :: i in slots && (forall k :: 0 <= k < |writes| ==> writes[k].0 != i) ==>
      i in Fill(slots, writes) && Fill(slots, writes)[i] == slots[i]
  {
    FillKeys(slots, writes);
    FillLast(slots, writes);
    FillUntouched(slots, writes);
  }

  /** The keys after the writes are the old keys plus the written indices. */
  lemma {:induction false} FillKeys(slots: map<int, Tile>, writes: seq<(int, Tile)>)
    ensures forall i :: i in Fill(slots, writes) <==> i in slots || exists k :: 0 <= k < |writes| && writes[k].0 == i
    decreases writes
  {
    if writes != [] {
      var next := slots[writes[0].0 := writes[0].1];
      assert Fill(slots, writes) == Fill(next, writes[1..]);
      FillKeys(next, writes[1..]);
      forall i | i in Fill(slots, writes)
        ensures i in slots || exists k :: 0 <= k < |writes| && writes[k].0 == i
      {
        if i !in slots && i != writes[0].0 {
          var k :| 0 <= k < |writes[1..]| && writes[1..][k].0 == i;
          assert writes[k + 1].0 == i;
        }
      }
      forall i | i in slots || exists k :: 0 <= k < |writes| && writes[k].0 == i
        ensures i in Fill(slots, writes)
      {
        if i !in slots && i != writes[0].0 {
          var k :| 0 <= k < |writes| && writes[k].0 == i;
          assert writes[1..][k - 1].0 == i;
        }
      }
    }
  }

  /** A write that no later write overrides is the one the slot ends up holding. */
  lemma {:induction false} FillLast(slots: map<int, Tile>, writes: seq<(int, Tile)>)
    ensures forall k :: 0 <= k < |writes| && (forall m :: k < m < |writes| ==> writes[m].0 != writes[k].0) ==>
      writes[k].0 in Fill(slots, writes) && Fill(slots, writes)[writes[k].0] == writes[k].1
    decreases writes
  {
    if writes != [] {
      var next := slots[writes[0].0 := writes[0].1];
      FillLast(next, writes[1..]);
      FillUntouched(next, writes[1..]);
      forall k | 0 <= k < |writes| && (forall m :: k < m < |writes| ==> writes[m].0 != writes[k].0)
        ensures writes[k].0 in Fill(slots, writes) && Fill(slots, writes)[writes[k].0] == writes[k].1
      {
        if k > 0 {
          assert writes[1..][k - 1] == writes[k];
          assert forall m :: k - 1 < m < |writes[1..]| ==> writes[1..][m] == writes[m + 1];
        } else {
          assert forall m :: 0 <= m < |writes[1..]| ==> writes[1..][m].0 != writes[0].0 by {
            assert forall m :: 0 <= m < |writes[1..]| ==> writes[1..][m] == writes[m + 1];
          }
        }
      }
    }
  }

  /** A slot that no write targets keeps its old tile. */
  lemma {:induction false} FillUntouched(slots: map<int, Tile>, writes: seq<(int, Tile)>)
    ensures forall i :: i in slots && (forall k :: 0 <= k < |writes| ==> writes[k].0 != i) ==>
      i in Fill(slots, writes) && Fill(slots, writes)[i] == slots[i]
    decreases writes
  {
    if writes != [] {
      var next := slots[writes[0].0 := writes[0].1];
      FillUntouched(next, writes[1..]);
      forall i | i in slots && (forall k :: 0 <= k < |writes| ==> writes[k].0 != i)
        ensures i in Fill(slots, writes) && Fill(slots, writes)[i] == slots[i]
      {
        assert forall m :: 0 <= m < |writes[1..]| ==> writes[1..][m] == writes[m + 1];
      }
    }
  }

  /** Some write in the sequence targets slot `i`. */
  predicate Arrived(writes: seq<(int, Tile)>, i: int)
  {
    exists k :: 0 <= k < |writes| && writes[k].0 == i
  }

  /**
   * Tiles whose indices lie in 0..5 complete a page exactly when every one of
   * the six indices has arrived at least once, in any order and with repeats.
   */
  lemma PageCompleteIffAllArrived(writes: seq<(int, Tile)>)
    requires forall k :: 0 <= k < |writes| ==> 0 <= writes[k].0 < SplitCount
    ensures |Fill(map[], writes)| == SplitCount <==> forall i :: 0 <= i < SplitCount ==> Arrived(writes, i)
  {
    FillLastWriteWins(map[], writes);
    var slots := Fill(map[], writes);
    forall i | i in slots ensures 0 <= i < SplitCount {
      var k :| 0 <= k < |writes| && writes[k].0 == i;
    }
    EnoughIffAllSlots(slots);
    assert forall i :: i in slots <==> Arrived(writes, i);
  }

  /** `OnePage`: the tiles received so far for one page. */
  class OnePage {
    /** Indices added so far. */
    var addedPages: set<int>
    /** Tile per index. */
    var splitPages: map<int, Tile>

    /** The two fields are written together, so the index set is the key set. */
    ghost predicate Valid()
      reads this
    {
      addedPages == splitPages.Keys
    }

    constructor ()
      ensures Valid()
      ensures splitPages == map[] && addedPages == {}
    {
      addedPages := {};
      splitPages := map[];
    }

    /**
     * `add_split_page(index, image)`: stores the tile under any index (the
     * range check never fires) and overwrites an index written before.
     */
    method AddSplitPage(index: int, image: Tile)
      requires Valid()
      modifies this
      ensures Valid()
      ensures splitPages == old(splitPages)[index := image]
      ensures addedPages == old(addedPages) + {index}
    {
      if GuardRejects(index) {
        return;
      }
      splitPages := splitPages[index := image];
      addedPages := addedPages + {index};
    }

    /** `is_enough`: six tiles are stored, whatever their indices. */
    function IsEnough(): (r: bool)
      reads this
      ensures (forall i :: i in splitPages ==> 0 <= i < SplitCount) ==> (r <==> HasAllSlots(splitPages))
    {
      var enough := |splitPages| == SplitCount;
      if forall i :: i in splitPages ==> 0 <= i < SplitCount then EnoughIffAllSlots(splitPages); enough else enough
    }

    /**
     * The geometry of `save_full_page`: slots 0..5 are taken in order and laid
     * out side by side. None stands for the KeyError raised when one of those
     * slots is empty.
     */
    method SaveFullPage() returns (g: Option<Layout>)
      ensures g.None? <==> !HasAllSlots(splitPages)
      ensures g.Some? ==> g.value == Composite(SlotTiles(splitPages))
    {
      var images: seq<Tile> := [];
      for i := 0 to SplitCount
        invariant |images| == i
        invariant forall k :: 0 <= k < i ==> k in splitPages && images[k] == splitPages[k]
      {
        if i !in splitPages {
          return None;
        }
        images := images + [splitPages[i]];
      }
      assert images == SlotTiles(splitPages);
      var layout := LayOut(images);
      g := Some(layout);
    }
  }
}
