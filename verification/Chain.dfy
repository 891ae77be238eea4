/**
 * The block index: a tree linked by predecessors, with a skip link in each entry, and the
 * active chain as a vector of entries. Walking predecessors is the reference for all of it.
 */
module Chain {
  import opened SkipHeights
  import opened Numbers

  /** pprev and nHeight are settled when an entry joins the tree; pskip is built afterwards. */
  class BlockIndex {
    const pprev: BlockIndex?
    const nHeight: nat
    var pskip: BlockIndex?

    constructor Genesis()
      ensures pprev == null && nHeight == 0 && pskip == null
    {
      pprev, nHeight, pskip := null, 0, null;
    }

    constructor After(prev: BlockIndex)
      ensures pprev == prev && nHeight == prev.nHeight + 1 && pskip == null
    {
      pprev, nHeight, pskip := prev, prev.nHeight + 1, null;
    }

    // `steps` counts the rounds of the loop.
    method GetAncestor(height: int) returns (r: BlockIndex?, ghost steps: nat)
      requires Rooted(this) && SkipsOk(this)
      ensures SkipsOk(this)
      ensures height < 0 || height > nHeight ==> r == null && steps == 0
      ensures 0 <= height <= nHeight ==> r == Up(this, nHeight - height)
      ensures 0 <= height <= nHeight && old(Linked(this)) ==> steps == Steps(nHeight, height)
    {
      hide Up, GetSkipHeight, Steps;
      steps := 0;
      if height > nHeight || height < 0 {
        return null, 0;
      }
      var walk: BlockIndex := this;
      var heightWalk := nHeight;
      UpNone(this);
      while heightWalk > height
        invariant height <= heightWalk <= nHeight && SkipsOk(this)
        invariant Rooted(walk) && walk.nHeight == heightWalk && walk == Up(this, nHeight - heightWalk)
        invariant old(Linked(this)) ==> Linked(this) && steps + Steps(heightWalk, height) == Steps(nHeight, height)
      {
        var heightSkip := GetSkipHeight(heightWalk);
        var heightSkipPrev := GetSkipHeight(heightWalk - 1);
        OnLine(this, nHeight - heightWalk);
        SkipAt(this, walk);
        if old(Linked(this)) { LinkAt(this, walk); }
        OneStep(heightWalk, height);
        steps := steps + 1;
        if walk.pskip != null
          && (heightSkip == height
              || (heightSkip > height && !(heightSkipPrev < heightSkip - 2 && heightSkipPrev >= height)))
        {
          UpUp(this, nHeight - heightWalk, heightWalk - heightSkip);
          UpRooted(walk, heightWalk - heightSkip);
          walk := walk.pskip;
          heightWalk := heightSkip;
        } else {
          assert walk.pprev != null;
          UpOne(walk);
          UpUp(this, nHeight - heightWalk, 1);
          walk := walk.pprev;
          heightWalk := heightWalk - 1;
        }
      }
      OneStep(height + 1, height);
      r := walk;
    }

    method BuildSkip()
      requires Rooted(this) && (pprev != null ==> SkipsOk(pprev))
      requires pprev == null ==> pskip == null
      modifies this`pskip
      ensures SkipsOk(this)
      ensures pprev != null ==> pskip == Up(this, nHeight - GetSkipHeight(nHeight))
      ensures pprev == null || old(Linked(pprev)) ==> Linked(this)
    {
      hide Up, GetSkipHeight;
      if pprev != null {
        var skip := GetSkipHeight(nHeight);
        NotOnOwnLine(this);
        LineAllocated(pprev);
        ghost var steps;
        pskip, steps := pprev.GetAncestor(skip);
        UpOne(this);
        UpUp(this, 1, pprev.nHeight - skip);
        UpRooted(pprev, pprev.nHeight - skip);
        assert forall x :: x in Line(pprev) ==> x != this && SkipOk(x);
        assert old(Linked(pprev)) ==> forall x :: x in Line(pprev) && x.nHeight > 0 ==> x.pskip != null;
        assert Line(this) == Line(pprev) + [this];
      } else {
        assert Line(this) == [this];
      }
    }
  }

  /** Heights count the steps to the root. */
  ghost predicate Rooted(b: BlockIndex)
    decreases b.nHeight
  {
    if b.pprev == null then b.nHeight == 0
    else b.nHeight == b.pprev.nHeight + 1 && Rooted(b.pprev)
  }

  /** k predecessor steps up from b. */
  ghost function Up(b: BlockIndex, k: nat): BlockIndex?
    decreases k
  {
    if k == 0 then b else if b.pprev == null then null else Up(b.pprev, k - 1)
  }

  /** The entries from the root down to b. */
  ghost function Line(b: BlockIndex): (l: seq<BlockIndex>)
    requires Rooted(b)
    ensures |l| == b.nHeight + 1 && l[b.nHeight] == b
    decreases b.nHeight
  {
    (if b.pprev == null then [] else Line(b.pprev)) + [b]
  }

  ghost predicate SkipOk(b: BlockIndex)
    reads b
  {
    b.pskip != null ==> 0 < b.nHeight && b.pskip == Up(b, b.nHeight - GetSkipHeight(b.nHeight))
  }

  ghost predicate SkipsOk(b: BlockIndex)
    requires Rooted(b)
    reads Line(b)
  {
    forall x :: x in Line(b) ==> SkipOk(x)
  }

  /** Every entry of the line but the root has its skip link. */
  ghost predicate Linked(b: BlockIndex)
    requires Rooted(b)
    reads Line(b)
  {
    forall x :: x in Line(b) && x.nHeight > 0 ==> x.pskip != null
  }

  // ---- Walking up --------------------------------------------------------------------------

  lemma UpNone(b: BlockIndex)
    ensures Up(b, 0) == b
  {
  }

  lemma UpOne(b: BlockIndex)
    ensures Up(b, 1) == b.pprev
  {
  }

  lemma {:induction false} UpRooted(b: BlockIndex, k: nat)
    requires Rooted(b) && k <= b.nHeight
    ensures var u := Up(b, k); u != null && Rooted(u) && u.nHeight == b.nHeight - k
    decreases k
  {
    if k > 0 {
      UpRooted(b.pprev, k - 1);
    }
  }

  lemma {:induction false} UpUp(b: BlockIndex, j: nat, k: nat)
    requires Up(b, j) != null
    ensures Up(b, j + k) == Up(Up(b, j), k)
    decreases j
  {
    if j > 0 {
      UpUp(b.pprev, j - 1, k);
    }
  }

  /** The line lists what walking up finds. */
  lemma {:induction false} LineUp(b: BlockIndex, h: nat)
    requires Rooted(b) && h <= b.nHeight
    ensures Line(b)[h] == Up(b, b.nHeight - h)
    decreases b.nHeight
  {
    if h < b.nHeight {
      LineUp(b.pprev, h);
    }
  }

  lemma OnLine(b: BlockIndex, k: nat)
    requires Rooted(b) && k <= b.nHeight
    ensures Up(b, k) in Line(b)
  {
    LineUp(b, b.nHeight - k);
  }

  lemma LinkAt(b: BlockIndex, x: BlockIndex)
    requires Rooted(b) && Linked(b) && x in Line(b) && x.nHeight > 0
    ensures x.pskip != null
  {
  }

  lemma SkipAt(b: BlockIndex, x: BlockIndex)
    requires Rooted(b) && SkipsOk(b) && x in Line(b)
    ensures SkipOk(x)
  {
  }

  lemma {:induction false} LineHeights(b: BlockIndex, h: nat)
    requires Rooted(b) && h <= b.nHeight
    ensures Rooted(Line(b)[h]) && Line(b)[h].nHeight == h && Line(Line(b)[h]) == Line(b)[..h + 1]
    decreases b.nHeight
  {
    if h < b.nHeight {
      LineHeights(b.pprev, h);
      assert Line(b)[..h + 1] == Line(b.pprev)[..h + 1];
    } else {
      assert Line(b)[..h + 1] == Line(b);
    }
  }

  lemma NotOnOwnLine(b: BlockIndex)
    requires Rooted(b) && b.pprev != null
    ensures b !in Line(b.pprev)
  {
    if b in Line(b.pprev) {
      var h :| 0 <= h < |Line(b.pprev)| && Line(b.pprev)[h] == b;
      LineHeights(b.pprev, h);
    }
  }

  lemma {:induction false} LineAllocated(b: BlockIndex)
    requires Rooted(b)
    ensures forall x :: x in Line(b) ==> allocated(x)
    decreases b.nHeight
  {
    if b.pprev != null {
      LineAllocated(b.pprev);
    }
  }

  /** With its skip links built, an entry up to height 2^18 finds each ancestor in at most 110 rounds. */
  method FindAncestor(b: BlockIndex, height: nat) returns (r: BlockIndex?, ghost steps: nat)
    requires Rooted(b) && SkipsOk(b) && Linked(b) && height <= b.nHeight
    ensures r == Up(b, b.nHeight - height)
    ensures b.nHeight <= 0x40000 ==> steps <= 110
    ensures forall k: nat :: b.nHeight < Pow2(k) ==> steps <= (k * k + 11 * k) / 4 + 5
  {
    r, steps := b.GetAncestor(height);
    if b.nHeight <= 0x40000 { MaxSteps(b.nHeight, height); }
    forall k: nat | b.nHeight < Pow2(k) ensures steps <= (k * k + 11 * k) / 4 + 5
        { StepsQuadratic(b.nHeight, height, k); }
  }

  /** A tree grows one entry at a time, and every entry has its skip link built. */
  method Grow(prev: BlockIndex) returns (b: BlockIndex)
    requires Rooted(prev) && SkipsOk(prev)
    ensures fresh(b) && b.pprev == prev && Rooted(b) && SkipsOk(b) && SkipsOk(prev)
    ensures old(Linked(prev)) ==> Linked(b)
  {
    hide Up, GetSkipHeight;
    LineAllocated(prev);
    b := new BlockIndex.After(prev);
    b.BuildSkip();
    assert Line(b) == Line(prev) + [b];
  }

  // ---- The active chain --------------------------------------------------------------------

  /** The vector is the line of its last entry. */
  ghost predicate Active(v: seq<BlockIndex?>) {
    v != [] ==>
      var tip := v[|v| - 1];
      tip != null && Rooted(tip) && v == Line(tip)
  }

  /** While SetTip works: above height h the new line is in place, below it the old entries. */
  ghost predicate Setting(before: seq<BlockIndex?>, now: seq<BlockIndex?>, tip: BlockIndex, h: int)
    requires Rooted(tip)
  {
    && |now| == tip.nHeight + 1 && -1 <= h <= tip.nHeight
    && (forall i :: h < i <= tip.nHeight ==> now[i] == Line(tip)[i])
    && (forall i :: 0 <= i <= h ==> now[i] == if i < |before| then before[i] else null)
  }

  /** The walk may stop at an entry already in place: everything below it is the same line. */
  lemma EarlyStop(before: seq<BlockIndex?>, now: seq<BlockIndex?>, tip: BlockIndex, h: nat)
    requires Rooted(tip) && Active(before) && Setting(before, now, tip, h)
    requires now[h] == Line(tip)[h]
    ensures now == Line(tip)
  {
    if before != [] {
      var t := before[|before| - 1];
      assert h < |before| && before[h] == Line(tip)[h];
      LineHeights(t, h);
      LineHeights(tip, h);
      assert Line(t)[..h + 1] == Line(tip)[..h + 1];
      forall i | 0 <= i <= h
        ensures now[i] == Line(tip)[i]
      {
        assert Line(t)[i] == Line(t)[..h + 1][i] == Line(tip)[..h + 1][i];
      }
    }
  }

  class ActiveChain {
    var vChain: seq<BlockIndex?>

    constructor ()
      ensures vChain == []
    {
      vChain := [];
    }

    function At(height: int): BlockIndex?
      reads this
    {
      if height < 0 || height >= |vChain| then null else vChain[height]
    }

    predicate Contains(b: BlockIndex)
      reads this
    {
      At(b.nHeight) == b
    }

    function Height(): int
      reads this
    {
      |vChain| - 1
    }

    method SetTip(tip: BlockIndex?)
      requires Active(vChain) && (tip != null ==> Rooted(tip))
      modifies this
      ensures vChain == if tip == null then [] else Line(tip)
      ensures Active(vChain)
    {
      hide Rooted, Line;
      if tip == null {
        vChain := [];
        return;
      }
      var before := vChain;
      vChain := seq(tip.nHeight + 1, i requires 0 <= i => if i < |before| then before[i] else null);
      assert Setting(before, vChain, tip, tip.nHeight);
      var pindex: BlockIndex? := tip;
      ghost var h: int := tip.nHeight;
      UpNone(tip);
      while pindex != null && vChain[pindex.nHeight] != pindex
        modifies this
        invariant -1 <= h <= tip.nHeight
        invariant pindex == null <==> h == -1
        invariant pindex != null ==> pindex.nHeight == h && pindex == Line(tip)[h]
        invariant Setting(before, vChain, tip, h)
        decreases h
      {
        LinePrevious(tip, h);
        vChain := vChain[pindex.nHeight := pindex];
        pindex := pindex.pprev;
        h := h - 1;
      }
      if pindex != null {
        EarlyStop(before, vChain, tip, h);
      }
      assert vChain == Line(tip);
      LineActive(tip);
    }

    /** The highest entry of the line of b that is in the chain, if any. */
    method FindFork(b: BlockIndex?) returns (r: BlockIndex?)
      requires Active(vChain) && (b != null ==> Rooted(b) && SkipsOk(b))
      ensures b == null ==> r == null
      ensures b != null && r != null ==>
        r in Line(b) && Contains(r) && forall x :: x in Line(b) && Contains(x) ==> x.nHeight <= r.nHeight
      ensures b != null && r == null ==> forall x :: x in Line(b) ==> !Contains(x)
    {
      hide Rooted, Line, Up, SkipsOk;
      if b == null {
        return null;
      }
      var pindex: BlockIndex? := b;
      ghost var h: int := b.nHeight;
      UpNone(b);
      LineUp(b, b.nHeight);
      HeightAt(b);
      if pindex.nHeight > Height() {
        h := Height();
        ghost var steps;
        pindex, steps := pindex.GetAncestor(Height());
        if h >= 0 {
          LineUp(b, h);
          LineHeights(b, h);
        }
      }
      while pindex != null && !Contains(pindex)
        invariant -1 <= h <= b.nHeight
        invariant pindex == null <==> h == -1
        invariant pindex != null ==> pindex.nHeight == h && pindex == Line(b)[h]
        invariant forall i :: h < i <= b.nHeight ==> !Contains(Line(b)[i])
        decreases h
      {
        LinePrevious(b, h);
        pindex := pindex.pprev;
        h := h - 1;
      }
      r := pindex;
      HeightsOnLine(b);
    }

    /** An entry of the chain has its ancestors in the chain. */
    lemma ContainsLine(b: BlockIndex, x: BlockIndex, h: nat)
      requires Active(vChain) && Rooted(b) && x in Line(b) && Contains(x) && h <= x.nHeight
      ensures h <= b.nHeight && At(h) == Line(b)[h]
    {
      hide Rooted, Line;
      var tip := vChain[|vChain| - 1];
      HeightsOnLine(b);
      LineHeights(b, x.nHeight);
      LineHeights(tip, x.nHeight);
      assert Line(b)[..x.nHeight + 1][h] == Line(tip)[..x.nHeight + 1][h];
    }

    /** The ancestor at a lower height; the chain's index and the skip list give the same entry. */
    method StepBack(b: BlockIndex, pindex: BlockIndex, height: nat) returns (ancestor: BlockIndex)
      requires Active(vChain) && Rooted(b) && SkipsOk(b)
      requires pindex.nHeight <= b.nHeight && pindex == Line(b)[pindex.nHeight] && height <= pindex.nHeight
      ensures SkipsOk(b) && ancestor == Line(b)[height]
    {
      hide Rooted, Line, Up;
      LineAllocated(b);
      if Contains(pindex) {
        ContainsLine(b, pindex, height);
        ancestor := vChain[height];
      } else {
        ghost var h := pindex.nHeight;
        LineSkips(b, h);
        LineUp(b, height);
        LineUp(b, h);
        UpUp(b, b.nHeight - h, h - height);
        ghost var steps;
        ancestor, steps := pindex.GetAncestor(height);
      }
    }

    /** The locator of an entry, or of the tip when none is given. */
    method GetLocator(pindex: BlockIndex?) returns (blocks: seq<BlockIndex>)
      requires Active(vChain) && (pindex != null ==> Rooted(pindex) && SkipsOk(pindex))
      requires vChain != [] ==> SkipsOk(vChain[|vChain| - 1])
      ensures pindex != null ==> Locates(blocks, pindex, LocatorHeights(pindex.nHeight, 0, 1))
      ensures pindex == null && vChain == [] ==> blocks == []
      ensures pindex == null && vChain != [] ==>
        var tip := vChain[|vChain| - 1]; Locates(blocks, tip, LocatorHeights(tip.nHeight, 0, 1))
    {
      if pindex != null {
        blocks := LocatorFrom(pindex);
      } else if vChain != [] {
        blocks := LocatorFrom(vChain[|vChain| - 1]);
      } else {
        blocks := [];
      }
    }

    method LocatorFrom(b: BlockIndex) returns (blocks: seq<BlockIndex>)
      requires Active(vChain) && Rooted(b) && SkipsOk(b)
      ensures Locates(blocks, b, LocatorHeights(b.nHeight, 0, 1))
    {
      hide Rooted, Line, LocatorHeights, Locates, Active, SkipsOk;
      blocks := [];
      var step := 1;
      var pindex := b;
      ghost var done: seq<nat> := [];
      HeightAt(b);
      LocatesNone(b);
      while true
        invariant 0 < step && pindex.nHeight <= b.nHeight && pindex == Line(b)[pindex.nHeight] && SkipsOk(b)
        invariant |blocks| == |done| && Locates(blocks, b, done)
        invariant done + LocatorHeights(pindex.nHeight, |blocks|, step) == LocatorHeights(b.nHeight, 0, 1)
        decreases pindex.nHeight
      {
        LocatorNext(done, pindex.nHeight, |blocks|, step);
        LocatesNext(blocks, b, done, pindex.nHeight);
        blocks := blocks + [pindex];
        done := done + [pindex.nHeight];
        if pindex.nHeight == 0 {
          break;
        }
        var height: nat := if pindex.nHeight > step then pindex.nHeight - step else 0;
        pindex := StepBack(b, pindex, height);
        if |blocks| > 10 {
          step := 2 * step;
        }
      }
    }
  }

  /** The heights of a locator: single steps first, then doubling ones, down to the root. */
  ghost function LocatorHeights(h: nat, size: nat, step: nat): seq<nat>
    requires 0 < step
    decreases h
  {
    if h == 0 then [0]
    else
      var below: nat := if h > step then h - step else 0;
      [h] + LocatorHeights(below, size + 1, if size + 1 > 10 then 2 * step else step)
  }

  /** A locator descends strictly from the entry to the root. */
  lemma {:induction false} LocatorShape(h: nat, size: nat, step: nat)
    requires 0 < step
    ensures
      var s := LocatorHeights(h, size, step);
      && s != [] && s[0] == h && s[|s| - 1] == 0
      && forall i :: 0 < i < |s| ==> s[i] < s[i - 1]
    decreases h
  {
    if h > 0 {
      LocatorShape(if h > step then h - step else 0, size + 1, if size + 1 > 10 then 2 * step else step);
    }
  }

  /** How far below the entry number i of a locator is: eleven single steps, then 2, 4, 8 and so on. */
  function LocatorOffset(i: nat): nat {
    if i <= 11 then i else 9 + Pow2(i - 10)
  }

  function LocatorStep(i: nat): (step: nat)
    ensures 0 < step && LocatorOffset(i + 1) == LocatorOffset(i) + step
  {
    if i <= 10 then 1 else Pow2(i - 10)
  }

  lemma {:induction false} LocatorFromSize(h: nat, size: nat)
    ensures
      var s := LocatorHeights(h, size, LocatorStep(size));
      var top := h + LocatorOffset(size);
      && s != [] && top <= LocatorOffset(size + |s| - 1) && (|s| > 1 ==> LocatorOffset(size + |s| - 2) < top)
      && forall i :: 0 <= i < |s| ==> s[i] == Max(0, top - LocatorOffset(size + i))
    decreases h
  {
    if h > 0 {
      var step := LocatorStep(size);
      var below := if h > step then h - step else 0;
      LocatorFromSize(below, size + 1);
    }
  }

  /**
   * The heights of a whole locator, and that it ends with the first that reaches the root. So it has at most thirteen
   * entries, or eleven more than the height has bits.
   */
  lemma LocatorIs(h: nat, k: nat)
    requires h < Pow2(k)
    ensures
      var s := LocatorHeights(h, 0, 1);
      && |s| > 0 && h <= LocatorOffset(|s| - 1) && (|s| > 1 ==> LocatorOffset(|s| - 2) < h)
      && (forall i :: 0 <= i < |s| ==> s[i] == Max(0, h - LocatorOffset(i)))
      && |s| <= Max(13, k + 11)
  {
    LocatorFromSize(h, 0);
    var s := LocatorHeights(h, 0, 1);
    if |s| > 13 && |s| > k + 11 { PowMono(k, |s| - 12); }
  }

  ghost predicate Locates(blocks: seq<BlockIndex>, b: BlockIndex, heights: seq<nat>)
    requires Rooted(b)
  {
    && |blocks| == |heights|
    && forall i :: 0 <= i < |heights| ==> heights[i] <= b.nHeight && blocks[i] == Line(b)[heights[i]]
  }

  lemma LocatorNext(done: seq<nat>, h: nat, size: nat, step: nat)
    requires 0 < step
    ensures h == 0 ==> done + LocatorHeights(h, size, step) == done + [h]
    ensures h > 0 ==>
      done + LocatorHeights(h, size, step)
        == (done + [h])
           + LocatorHeights(if h > step then h - step else 0, size + 1, if size + 1 > 10 then 2 * step else step)
  {
  }

  lemma LocatesNone(b: BlockIndex)
    requires Rooted(b)
    ensures Locates([], b, [])
    ensures [] + LocatorHeights(b.nHeight, 0, 1) == LocatorHeights(b.nHeight, 0, 1)
  {
  }

  lemma LocatesNext(blocks: seq<BlockIndex>, b: BlockIndex, done: seq<nat>, h: nat)
    requires Rooted(b) && Locates(blocks, b, done) && h <= b.nHeight
    ensures Locates(blocks + [Line(b)[h]], b, done + [h])
  {
  }

  lemma LineSkips(b: BlockIndex, h: nat)
    requires Rooted(b) && SkipsOk(b) && h <= b.nHeight
    ensures Rooted(Line(b)[h]) && SkipsOk(Line(b)[h])
  {
    LineHeights(b, h);
  }

  lemma LineActive(tip: BlockIndex)
    requires Rooted(tip)
    ensures Active(Line(tip))
  {
  }

  lemma LinePrevious(b: BlockIndex, h: nat)
    requires Rooted(b) && h <= b.nHeight
    ensures Line(b)[h].nHeight == h
    ensures Line(b)[h].pprev == if h == 0 then null else Line(b)[h - 1]
    ensures h > 0 ==> Line(b)[h - 1].nHeight == h - 1
  {
    LineHeights(b, h);
    if h > 0 {
      LineHeights(b, h - 1);
      LineUp(b, h);
      LineUp(b, h - 1);
      UpUp(b, b.nHeight - h, 1);
      UpOne(Line(b)[h]);
    }
  }

  lemma HeightAt(b: BlockIndex)
    requires Rooted(b)
    ensures forall i :: 0 <= i <= b.nHeight ==> Line(b)[i].nHeight == i
  {
    forall i | 0 <= i <= b.nHeight
      ensures Line(b)[i].nHeight == i
    {
      LineHeights(b, i);
    }
  }

  lemma HeightsOnLine(b: BlockIndex)
    requires Rooted(b)
    ensures forall x :: x in Line(b) ==> x.nHeight <= b.nHeight && Line(b)[x.nHeight] == x
  {
    forall x | x in Line(b)
      ensures x.nHeight <= b.nHeight && Line(b)[x.nHeight] == x
    {
      var h :| 0 <= h < |Line(b)| && Line(b)[h] == x;
      LineHeights(b, h);
    }
  }

  /** The highest entry two lines share; null when they have different roots. */
  method LastCommonAncestor(a: BlockIndex, b: BlockIndex) returns (r: BlockIndex?)
    requires Rooted(a) && Rooted(b) && SkipsOk(a) && SkipsOk(b)
    ensures r != null ==>
      r in Line(a) && r in Line(b) && forall x :: x in Line(a) && x in Line(b) ==> x.nHeight <= r.nHeight
    ensures r == null ==> forall x :: x in Line(a) ==> x !in Line(b)
    ensures Line(a)[0] == Line(b)[0] ==> r != null
  {
    hide Rooted, Line, Up;
    var pa: BlockIndex?, pb: BlockIndex? := a, b;
    UpNone(a);
    UpNone(b);
    LineUp(a, a.nHeight);
    LineUp(b, b.nHeight);
    ghost var h: int := if a.nHeight < b.nHeight then a.nHeight else b.nHeight;
    LineUp(a, h);
    LineUp(b, h);
    LineHeights(a, h);
    LineHeights(b, h);
    if pa.nHeight > pb.nHeight {
      ghost var steps;
      pa, steps := pa.GetAncestor(pb.nHeight);
    } else if pb.nHeight > pa.nHeight {
      ghost var steps;
      pb, steps := pb.GetAncestor(pa.nHeight);
    }
    ghost var top := h;
    while pa != pb && pa != null && pb != null
      invariant -1 <= h <= top
      invariant h == -1 ==> pa == null && pb == null
      invariant h >= 0 ==> pa == Line(a)[h] && pb == Line(b)[h]
      invariant forall i :: h < i <= top ==> Line(a)[i] != Line(b)[i]
      decreases h
    {
      LinePrevious(a, h);
      LinePrevious(b, h);
      pa := pa.pprev;
      pb := pb.pprev;
      h := h - 1;
    }
    assert pa == pb;
    HeightAt(a);
    HeightsOnLine(a);
    HeightsOnLine(b);
    r := pa;
  }
}
