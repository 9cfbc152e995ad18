/** The two-level skip list over per-block id ranges, and its forward-only cursor. */
module SkipList {
  import opened Options
  import opened Bytes

  const SKIP_INTERVAL := 8

  datatype BlockSkipEntry = BlockSkipEntry(blockIndex: nat, minDocId: u32, maxDocId: u32)

  datatype BlockSkipList = BlockSkipList(bottom: seq<BlockSkipEntry>, top: seq<BlockSkipEntry>)

  ghost predicate ValidRanges(bottom: seq<BlockSkipEntry>) {
    && (forall i :: 0 <= i < |bottom| ==> bottom[i].minDocId <= bottom[i].maxDocId)
    && (forall i :: 0 < i < |bottom| ==>
        bottom[i - 1].blockIndex < bottom[i].blockIndex && bottom[i - 1].maxDocId < bottom[i].minDocId)
  }

  /** Every `SKIP_INTERVAL`-th entry; empty when the bottom layer has at most one. */
  function TopLayer(bottom: seq<BlockSkipEntry>): (top: seq<BlockSkipEntry>)
    ensures |top| == if |bottom| <= 1 then 0 else (|bottom| + 7) / 8
    ensures forall i :: 0 <= i < |top| ==> 8 * i < |bottom| && top[i] == bottom[8 * i]
  {
    if |bottom| <= 1 then []
    else
      seq((|bottom| + SKIP_INTERVAL - 1) / SKIP_INTERVAL,
          i requires 0 <= i < (|bottom| + SKIP_INTERVAL - 1) / SKIP_INTERVAL => bottom[SKIP_INTERVAL * i])
  }

  ghost predicate ValidList(list: BlockSkipList) {
    ValidRanges(list.bottom) && list.top == TopLayer(list.bottom)
  }

  lemma {:induction false} RangesIncrease(bottom: seq<BlockSkipEntry>, i: nat, j: nat)
    requires ValidRanges(bottom) && i < j < |bottom|
    ensures bottom[i].maxDocId < bottom[j].minDocId <= bottom[j].maxDocId
    ensures bottom[i].blockIndex < bottom[j].blockIndex
    decreases j
  {
    assert bottom[j - 1].maxDocId < bottom[j].minDocId && bottom[j - 1].blockIndex < bottom[j].blockIndex;
    if i < j - 1 {
      RangesIncrease(bottom, i, j - 1);
    }
  }

  /** Ranges are accepted exactly if none is empty and, of any two, the earlier has the lower block
      and ends below the later. */
  lemma RangesAre(bottom: seq<BlockSkipEntry>)
    ensures ValidRanges(bottom) <==>
      && (forall i :: 0 <= i < |bottom| ==> bottom[i].minDocId <= bottom[i].maxDocId)
      && (forall i, j :: 0 <= i < j < |bottom| ==>
          bottom[i].blockIndex < bottom[j].blockIndex && bottom[i].maxDocId < bottom[j].minDocId)
  {
    if ValidRanges(bottom) {
      forall i, j | 0 <= i < j < |bottom|
        ensures bottom[i].blockIndex < bottom[j].blockIndex && bottom[i].maxDocId < bottom[j].minDocId
      {
        RangesIncrease(bottom, i, j);
      }
    }
  }

  /** Builds the list, or reports the first invariant broken; it accepts exactly the valid ranges. */
  method FromBlockRanges(bottom: seq<BlockSkipEntry>) returns (r: Result<BlockSkipList>)
    ensures ValidRanges(bottom) ==> r.Success? && r.value.bottom == bottom && ValidList(r.value)
    ensures !ValidRanges(bottom) ==> r == Failure(NotMonotonic)
  {
    var i := 1;
    while i < |bottom|
      invariant 1 <= i
      invariant forall k :: 0 < k < i && k < |bottom| ==>
        bottom[k - 1].blockIndex < bottom[k].blockIndex && bottom[k - 1].maxDocId < bottom[k].minDocId
    {
      if bottom[i - 1].blockIndex >= bottom[i].blockIndex {
        return Failure(NotMonotonic);
      }
      if bottom[i - 1].maxDocId >= bottom[i].minDocId {
        return Failure(NotMonotonic);
      }
      i := i + 1;
    }
    for k := 0 to |bottom|
      invariant forall j :: 0 <= j < k ==> bottom[j].minDocId <= bottom[j].maxDocId
    {
      if bottom[k].minDocId > bottom[k].maxDocId {
        return Failure(NotMonotonic);
      }
    }
    r := Success(BlockSkipList(bottom, TopLayer(bottom)));
  }

  /** The first entry from `position` on whose greatest id reaches `target`; the length if none. */
  function FirstAtLeast(bottom: seq<BlockSkipEntry>, position: nat, target: u32): (i: nat)
    requires position <= |bottom|
    ensures position <= i <= |bottom|
    ensures forall k :: position <= k < i ==> bottom[k].maxDocId < target
    ensures i < |bottom| ==> bottom[i].maxDocId >= target
    decreases |bottom| - position
  {
    if position == |bottom| || bottom[position].maxDocId >= target then position
    else FirstAtLeast(bottom, position + 1, target)
  }

  lemma FirstAtLeastUnique(bottom: seq<BlockSkipEntry>, position: nat, target: u32, i: nat)
    requires position <= i <= |bottom|
    requires forall k :: position <= k < i ==> bottom[k].maxDocId < target
    requires i < |bottom| ==> bottom[i].maxDocId >= target
    ensures FirstAtLeast(bottom, position, target) == i
  {
    hide FirstAtLeast;
    var j := FirstAtLeast(bottom, position, target);
  }

  class BlockSkipCursor {
    const skipList: BlockSkipList
    var position: nat
    var blocksVisited: nat

    ghost predicate Valid()
      reads this
    {
      ValidList(skipList)
    }

    constructor (skipList: BlockSkipList, position: nat)
      requires ValidList(skipList)
      ensures Valid() && this.skipList == skipList && this.position == position && blocksVisited == 0
    {
      this.skipList, this.position, this.blocksVisited := skipList, position, 0;
    }

    /** Scans the bottom layer up to `stop`, counting every entry touched. */
    method Scan(target: u32, stop: nat) returns (r: Option<BlockSkipEntry>)
      requires Valid() && position <= stop <= |skipList.bottom|
      modifies this
      ensures position <= |skipList.bottom|
      ensures var first := FirstAtLeast(skipList.bottom, old(position), target);
        if first < stop then
          && position == first && r == Some(skipList.bottom[first])
          && blocksVisited == old(blocksVisited) + first + 1 - old(position)
        else
          position == stop && r == None && blocksVisited == old(blocksVisited) + stop - old(position)
    {
      hide FirstAtLeast;
      ghost var start := position;
      while position < stop
        invariant start <= position <= stop
        invariant forall k :: start <= k < position ==> skipList.bottom[k].maxDocId < target
        invariant blocksVisited == old(blocksVisited) + position - start
      {
        var entry := skipList.bottom[position];
        blocksVisited := blocksVisited + 1;
        if entry.maxDocId >= target {
          FirstAtLeastUnique(skipList.bottom, start, target, position);
          return Some(entry);
        }
        position := position + 1;
      }
      r := None;
    }

    /** Jumps along the top layer while its next entry is below the target. */
    method Jump(target: u32)
      requires Valid() && position < |skipList.bottom|
      modifies this`position
      ensures old(position) <= position < |skipList.bottom|
      ensures forall k :: old(position) <= k < position ==> skipList.bottom[k].maxDocId < target
      ensures position + SKIP_INTERVAL + 1 < |skipList.bottom| ==>
        exists k :: position <= k <= position + SKIP_INTERVAL && skipList.bottom[k].maxDocId >= target
    {
      var top, bottom := skipList.top, skipList.bottom;
      if top != [] {
        ghost var start := position;
        var topIndex := position / SKIP_INTERVAL;
        while topIndex + 1 < |top| && top[topIndex + 1].maxDocId < target
          invariant start / SKIP_INTERVAL <= topIndex < |top|
          invariant topIndex > start / SKIP_INTERVAL ==> top[topIndex].maxDocId < target
        {
          topIndex := topIndex + 1;
        }
        var candidate := topIndex * SKIP_INTERVAL;
        if candidate > position {
          forall k | start <= k < candidate ensures bottom[k].maxDocId < target {
            RangesIncrease(bottom, k, candidate);
          }
          position := candidate;
        }
        if topIndex + 1 < |top| {
          assert top[topIndex + 1] == bottom[SKIP_INTERVAL * (topIndex + 1)];
        }
      }
    }

    /** Moves to the first entry from the current one on that reaches `target`, touching at
        most nine entries of the bottom layer. */
    method AdvanceTo(target: u32) returns (r: Option<BlockSkipEntry>)
      requires Valid()
      modifies this
      ensures Valid()
      ensures old(position) >= |skipList.bottom| ==> r == None && unchanged(this)
      ensures old(position) < |skipList.bottom| ==>
        && position == FirstAtLeast(skipList.bottom, old(position), target)
        && r == if position < |skipList.bottom| then Some(skipList.bottom[position]) else None
      ensures blocksVisited <= old(blocksVisited) + 9
    {
      hide FirstAtLeast, ValidList;
      var bottom := skipList.bottom;
      if position >= |bottom| {
        return None;
      }
      ghost var start := position;
      Jump(target);
      FirstAtLeastFrom(bottom, start, position, target);
      var stop := if |bottom| < position + SKIP_INTERVAL * 2 then |bottom| else position + SKIP_INTERVAL * 2;
      ghost var jumped := position;
      r := Scan(target, stop);
      if r.Some? {
        return;
      }
      assert position == |bottom|;
      r := Scan(target, |bottom|);
    }
  }

  lemma FirstAtLeastFrom(bottom: seq<BlockSkipEntry>, start: nat, position: nat, target: u32)
    requires start <= position <= |bottom|
    requires forall k :: start <= k < position ==> bottom[k].maxDocId < target
    ensures FirstAtLeast(bottom, start, target) == FirstAtLeast(bottom, position, target)
  {
    hide FirstAtLeast;
    FirstAtLeastUnique(bottom, start, target, FirstAtLeast(bottom, position, target));
  }

  // Runs of targets

  /** Where the cursor stands after each of a run of targets. */
  function Positions(bottom: seq<BlockSkipEntry>, position: nat, targets: seq<u32>): (r: seq<nat>)
    requires position <= |bottom|
    ensures |r| == |targets|
    decreases targets
  {
    if targets == [] then []
    else
      var next := FirstAtLeast(bottom, position, targets[0]);
      [next] + Positions(bottom, next, targets[1..])
  }

  function Greatest(targets: seq<u32>): u32
    requires targets != []
  {
    if |targets| == 1 then targets[0]
    else
      var rest := Greatest(targets[1..]);
      if targets[0] < rest then rest else targets[0]
  }

  /** Restarting from where a first target led is answering both targets at once. */
  lemma FirstAtLeastTwice(bottom: seq<BlockSkipEntry>, position: nat, a: u32, b: u32)
    requires ValidRanges(bottom) && position <= |bottom|
    ensures FirstAtLeast(bottom, FirstAtLeast(bottom, position, a), b)
         == FirstAtLeast(bottom, position, if a < b then b else a)
  {
    hide FirstAtLeast, ValidRanges;
    var i := FirstAtLeast(bottom, position, a);
    if a < b {
      FirstAtLeastUnique(bottom, position, b, FirstAtLeast(bottom, i, b));
    } else {
      FirstAtLeastUnique(bottom, i, b, i);
    }
  }

  /** After any run of targets the cursor answers as a linear scan from its start would for
      the greatest target so far. */
  lemma {:induction false} RunIsPrefixMaximum(bottom: seq<BlockSkipEntry>, position: nat, targets: seq<u32>, i: nat)
    requires ValidRanges(bottom) && position <= |bottom| && i < |targets|
    ensures Positions(bottom, position, targets)[i] == FirstAtLeast(bottom, position, Greatest(targets[..i + 1]))
    decreases i
  {
    hide FirstAtLeast, ValidRanges;
    if i == 0 {
      assert targets[..1] == [targets[0]];
    } else {
      var next := FirstAtLeast(bottom, position, targets[0]);
      RunIsPrefixMaximum(bottom, next, targets[1..], i - 1);
      assert targets[1..][..i] == targets[..i + 1][1..];
      FirstAtLeastTwice(bottom, position, targets[0], Greatest(targets[1..][..i]));
    }
  }

  lemma {:induction false} GreatestIsLast(targets: seq<u32>)
    requires targets != [] && forall i, j :: 0 <= i < j < |targets| ==> targets[i] <= targets[j]
    ensures Greatest(targets) == targets[|targets| - 1]
  {
    if |targets| > 1 {
      GreatestIsLast(targets[1..]);
    }
  }

  /** On nondecreasing targets, every answer is that of a linear scan from block 0. */
  lemma RunIsLinearScan(bottom: seq<BlockSkipEntry>, targets: seq<u32>, i: nat)
    requires ValidRanges(bottom) && i < |targets|
    requires forall a, b :: 0 <= a < b < |targets| ==> targets[a] <= targets[b]
    ensures Positions(bottom, 0, targets)[i] == FirstAtLeast(bottom, 0, targets[i])
  {
    hide FirstAtLeast, ValidRanges, Positions;
    RunIsPrefixMaximum(bottom, 0, targets, i);
    GreatestIsLast(targets[..i + 1]);
  }

  /** Drives a fresh cursor through nondecreasing targets: it finds for each what a linear
      scan of all the blocks finds. */
  method AdvanceThrough(list: BlockSkipList, targets: seq<u32>) returns (found: seq<Option<BlockSkipEntry>>)
    requires ValidList(list)
    requires forall a, b :: 0 <= a < b < |targets| ==> targets[a] <= targets[b]
    ensures |found| == |targets|
    ensures forall i :: 0 <= i < |targets| ==>
      var first := FirstAtLeast(list.bottom, 0, targets[i]);
      found[i] == if first < |list.bottom| then Some(list.bottom[first]) else None
  {
    hide FirstAtLeast, ValidRanges;
    var cursor := new BlockSkipCursor(list, 0);
    found := [];
    for i := 0 to |targets|
      invariant cursor.Valid() && fresh(cursor) && cursor.skipList == list
      invariant |found| == i && cursor.position <= |list.bottom|
      invariant cursor.position == if i == 0 then 0 else FirstAtLeast(list.bottom, 0, targets[i - 1])
      invariant forall k :: 0 <= k < i ==>
        var first := FirstAtLeast(list.bottom, 0, targets[k]);
        found[k] == if first < |list.bottom| then Some(list.bottom[first]) else None
    {
      if i > 0 {
        FirstAtLeastTwice(list.bottom, 0, targets[i - 1], targets[i]);
      }
      var entry := cursor.AdvanceTo(targets[i]);
      found := found + [entry];
    }
  }
}
