/**
 * Ratcliff/Obershelp "gestalt" pattern matching, the algorithm behind the
 * similarity ratio of Python's difflib.SequenceMatcher, for a matcher built
 * without a junk predicate.  The matcher finds the longest block common to
 * both sequences, then recurses on the pieces to its left and to its right.
 * The module is generic in the element type: the scoring engine applies it to
 * characters, the line report to whole lines.
 */
module Matching {

  /** A matching block: a[a..a + size] == b[b..b + size]. */
  datatype Block = Block(a: nat, b: nat, size: nat)

  /** (i, j, k) is a common block of a[alo..ahi] and b[blo..bhi]. */
  ghost predicate IsMatch<T>(a: seq<T>, b: seq<T>, alo: nat, ahi: nat, blo: nat, bhi: nat, i: nat, j: nat, k: nat)
  {
    && alo <= i && i + k <= ahi <= |a|
    && blo <= j && j + k <= bhi <= |b|
    && a[i..i + k] == b[j..j + k]
  }

  /**
   * The contract of find_longest_match when nothing is junk: m is a common
   * block of maximal size; of all maximal blocks it starts earliest in a, and
   * of those, earliest in b.  When nothing is shared, m is (alo, blo, 0).
   */
  ghost predicate IsLongestMatch<T>(a: seq<T>, b: seq<T>, alo: nat, ahi: nat, blo: nat, bhi: nat, m: Block)
  {
    && IsMatch(a, b, alo, ahi, blo, bhi, m.a, m.b, m.size)
    && forall i: nat, j: nat, k: nat | IsMatch(a, b, alo, ahi, blo, bhi, i, j, k) ::
         k < m.size || (k == m.size && (m.a < i || (m.a == i && m.b <= j)))
  }

  /** The length of the longest common run that starts at a[i] and b[j]. */
  function CommonRun<T(==)>(a: seq<T>, b: seq<T>, i: nat, j: nat, ahi: nat, bhi: nat): (k: nat)
    requires i <= ahi <= |a| && j <= bhi <= |b|
    ensures i + k <= ahi && j + k <= bhi
    ensures a[i..i + k] == b[j..j + k]
    ensures i + k < ahi && j + k < bhi ==> a[i + k] != b[j + k]
    decreases ahi - i
  {
    if i < ahi && j < bhi && a[i] == b[j] then
      var k := 1 + CommonRun(a, b, i + 1, j + 1, ahi, bhi);
      assert a[i..i + k] == [a[i]] + a[i + 1..i + k];
      assert b[j..j + k] == [b[j]] + b[j + 1..j + k];
      k
    else
      0
  }

  /** No common block starting at (i, j) is longer than CommonRun. */
  lemma RunIsMaximal<T>(a: seq<T>, b: seq<T>, alo: nat, ahi: nat, blo: nat, bhi: nat, i: nat, j: nat, k: nat)
    requires IsMatch(a, b, alo, ahi, blo, bhi, i, j, k)
    ensures k <= CommonRun(a, b, i, j, ahi, bhi)
  {
  }

  /**
   * The best block starting in row i (at a[i]) and at b[j] or later: the
   * longest, and the earliest in b among the longest.  (alo, blo, 0) when the
   * row has no common element from b[j] on.
   */
  function RowBest<T(==)>(a: seq<T>, b: seq<T>, alo: nat, ahi: nat, blo: nat, bhi: nat, i: nat, j: nat): (m: Block)
    requires alo <= i < ahi <= |a| && blo <= j <= bhi <= |b|
    ensures IsMatch(a, b, alo, ahi, blo, bhi, m.a, m.b, m.size)
    ensures m.size == 0 ==> m == Block(alo, blo, 0)
    ensures m.size > 0 ==> m.a == i && j <= m.b
    ensures forall j' | j <= j' < bhi ::
      var k := CommonRun(a, b, i, j', ahi, bhi);
      k <= m.size && (k == m.size > 0 ==> m.b <= j')
    decreases bhi - j
  {
    if j == bhi then
      Block(alo, blo, 0)
    else
      var k := CommonRun(a, b, i, j, ahi, bhi);
      var rest := RowBest(a, b, alo, ahi, blo, bhi, i, j + 1);
      if k > 0 && k >= rest.size then Block(i, j, k) else rest
  }

  /**
   * The best block starting in rows i..ahi: the longest, the earliest in a
   * among the longest and the earliest in b among those.
   */
  function Best<T(==)>(a: seq<T>, b: seq<T>, alo: nat, ahi: nat, blo: nat, bhi: nat, i: nat): (m: Block)
    requires alo <= i <= ahi <= |a| && blo <= bhi <= |b|
    ensures IsMatch(a, b, alo, ahi, blo, bhi, m.a, m.b, m.size)
    ensures m.size == 0 ==> m == Block(alo, blo, 0)
    ensures m.size > 0 ==> i <= m.a
    ensures forall i', j' | i <= i' < ahi && blo <= j' < bhi ::
      var k := CommonRun(a, b, i', j', ahi, bhi);
      k <= m.size && (k == m.size > 0 ==> m.a < i' || (m.a == i' && m.b <= j'))
    decreases ahi - i
  {
    if i == ahi then
      Block(alo, blo, 0)
    else
      var row := RowBest(a, b, alo, ahi, blo, bhi, i, blo);
      var rest := Best(a, b, alo, ahi, blo, bhi, i + 1);
      var m := if row.size > 0 && row.size >= rest.size then row else rest;
      BestStep(a, b, alo, ahi, blo, bhi, i, row, rest, m);
      m
  }

  /** The best block of row i, compared with the best of the rows below it, is the best of rows i..ahi. */
  lemma BestStep<T>(a: seq<T>, b: seq<T>, alo: nat, ahi: nat, blo: nat, bhi: nat, i: nat, row: Block, rest: Block, m: Block)
    requires alo <= i < ahi <= |a| && blo <= bhi <= |b|
    requires row.size > 0 ==> row.a == i
    requires forall j' | blo <= j' < bhi ::
      var k := CommonRun(a, b, i, j', ahi, bhi);
      k <= row.size && (k == row.size > 0 ==> row.b <= j')
    requires rest.size > 0 ==> i + 1 <= rest.a
    requires forall i', j' | i + 1 <= i' < ahi && blo <= j' < bhi ::
      var k := CommonRun(a, b, i', j', ahi, bhi);
      k <= rest.size && (k == rest.size > 0 ==> rest.a < i' || (rest.a == i' && rest.b <= j'))
    requires m == if row.size > 0 && row.size >= rest.size then row else rest
    ensures forall i', j' | i <= i' < ahi && blo <= j' < bhi ::
      var k := CommonRun(a, b, i', j', ahi, bhi);
      k <= m.size && (k == m.size > 0 ==> m.a < i' || (m.a == i' && m.b <= j'))
  {
    forall i', j' | i <= i' < ahi && blo <= j' < bhi
      ensures var k := CommonRun(a, b, i', j', ahi, bhi);
        k <= m.size && (k == m.size > 0 ==> m.a < i' || (m.a == i' && m.b <= j'))
    {
      var k := CommonRun(a, b, i', j', ahi, bhi);
      if i' == i {
        assert k <= row.size && (k == row.size > 0 ==> row.b <= j');
      } else {
        assert k <= rest.size && (k == rest.size > 0 ==> rest.a < i' || (rest.a == i' && rest.b <= j'));
      }
    }
  }

  /** find_longest_match(alo, ahi, blo, bhi) of a matcher without junk. */
  function LongestMatch<T(==)>(a: seq<T>, b: seq<T>, alo: nat, ahi: nat, blo: nat, bhi: nat): (m: Block)
    requires alo <= ahi <= |a| && blo <= bhi <= |b|
    ensures alo <= m.a && m.a + m.size <= ahi && blo <= m.b && m.b + m.size <= bhi
    ensures IsLongestMatch(a, b, alo, ahi, blo, bhi, m)
  {
    var m := Best(a, b, alo, ahi, blo, bhi, alo);
    BestIsLongest(a, b, alo, ahi, blo, bhi, m);
    m
  }

  lemma BestIsLongest<T>(a: seq<T>, b: seq<T>, alo: nat, ahi: nat, blo: nat, bhi: nat, m: Block)
    requires alo <= ahi <= |a| && blo <= bhi <= |b|
    requires m == Best(a, b, alo, ahi, blo, bhi, alo)
    ensures IsLongestMatch(a, b, alo, ahi, blo, bhi, m)
  {
    forall i: nat, j: nat, k: nat | IsMatch(a, b, alo, ahi, blo, bhi, i, j, k)
      ensures k < m.size || (k == m.size && (m.a < i || (m.a == i && m.b <= j)))
    {
      if k > 0 {
        RunIsMaximal(a, b, alo, ahi, blo, bhi, i, j, k);
      }
    }
  }

  /** The contract of find_longest_match determines its result. */
  lemma {:induction false} LongestMatchIsUnique<T>(a: seq<T>, b: seq<T>, alo: nat, ahi: nat, blo: nat, bhi: nat, m: Block, m': Block)
    requires IsLongestMatch(a, b, alo, ahi, blo, bhi, m)
    requires IsLongestMatch(a, b, alo, ahi, blo, bhi, m')
    ensures m == m'
  {
    assert IsMatch(a, b, alo, ahi, blo, bhi, m'.a, m'.b, m'.size);
    assert IsMatch(a, b, alo, ahi, blo, bhi, m.a, m.b, m.size);
  }

  /**
   * blocks is a chain of matching blocks that starts at (i, j) or later and
   * ends by (ahi, bhi): every block is non-empty and pairs equal pieces of a
   * and b, and each block starts, in both sequences, at or after the end of
   * the one before it.
   */
  ghost predicate Chain<T>(a: seq<T>, b: seq<T>, blocks: seq<Block>, i: nat, j: nat, ahi: nat, bhi: nat)
    decreases |blocks|
  {
    if blocks == [] then
      i <= ahi <= |a| && j <= bhi <= |b|
    else
      var m := blocks[0];
      && i <= m.a && j <= m.b && 0 < m.size
      && IsMatch(a, b, m.a, ahi, m.b, bhi, m.a, m.b, m.size)
      && Chain(a, b, blocks[1..], m.a + m.size, m.b + m.size, ahi, bhi)
  }

  /** The total size of the blocks: M in the ratio 2*M/T. */
  function Matches(blocks: seq<Block>): nat
  {
    if blocks == [] then 0 else blocks[0].size + Matches(blocks[1..])
  }

  lemma {:induction false} MatchesAppend(x: seq<Block>, y: seq<Block>)
    ensures Matches(x + y) == Matches(x) + Matches(y)
  {
    if x != [] {
      assert (x + y)[1..] == x[1..] + y;
      MatchesAppend(x[1..], y);
    } else {
      assert x + y == y;
    }
  }

  lemma {:induction false} ChainEnds<T>(a: seq<T>, b: seq<T>, blocks: seq<Block>, i: nat, j: nat, ahi: nat, bhi: nat)
    requires Chain(a, b, blocks, i, j, ahi, bhi)
    ensures i <= ahi <= |a| && j <= bhi <= |b|
    decreases |blocks|
  {
    if blocks != [] {
      var m := blocks[0];
      ChainEnds(a, b, blocks[1..], m.a + m.size, m.b + m.size, ahi, bhi);
    }
  }

  /** A chain that fits before (x, y) followed by one that starts there is a chain. */
  lemma {:induction false} ChainConcat<T>(a: seq<T>, b: seq<T>, left: seq<Block>, right: seq<Block>, i: nat, j: nat, x: nat, y: nat, ahi: nat, bhi: nat)
    requires Chain(a, b, left, i, j, x, y)
    requires Chain(a, b, right, x, y, ahi, bhi)
    ensures Chain(a, b, left + right, i, j, ahi, bhi)
    decreases |left|
  {
    ChainEnds(a, b, right, x, y, ahi, bhi);
    if left == [] {
      assert left + right == right;
    } else {
      var m := left[0];
      assert (left + right)[1..] == left[1..] + right;
      ChainConcat(a, b, left[1..], right, m.a + m.size, m.b + m.size, x, y, ahi, bhi);
    }
  }

  /** The blocks of a chain cover at most the room it has in each sequence. */
  lemma {:induction false} ChainMatchesBound<T>(a: seq<T>, b: seq<T>, blocks: seq<Block>, i: nat, j: nat, ahi: nat, bhi: nat)
    requires Chain(a, b, blocks, i, j, ahi, bhi)
    ensures i + Matches(blocks) <= ahi && j + Matches(blocks) <= bhi
    decreases |blocks|
  {
    if blocks != [] {
      var m := blocks[0];
      ChainMatchesBound(a, b, blocks[1..], m.a + m.size, m.b + m.size, ahi, bhi);
    } else {
      ChainEnds(a, b, blocks, i, j, ahi, bhi);
    }
  }

  /**
   * A chain whose blocks fill all the room in both sequences pairs equal
   * sequences: it covers a[i..ahi] and b[j..bhi] without gaps.
   */
  lemma {:induction false} FullChainMeansEqual<T>(a: seq<T>, b: seq<T>, blocks: seq<Block>, i: nat, j: nat, ahi: nat, bhi: nat)
    requires Chain(a, b, blocks, i, j, ahi, bhi)
    requires i + Matches(blocks) == ahi && j + Matches(blocks) == bhi
    ensures a[i..ahi] == b[j..bhi]
    decreases |blocks|
  {
    if blocks != [] {
      var m := blocks[0];
      ChainMatchesBound(a, b, blocks[1..], m.a + m.size, m.b + m.size, ahi, bhi);
      FullChainMeansEqual(a, b, blocks[1..], m.a + m.size, m.b + m.size, ahi, bhi);
      assert a[i..ahi] == a[m.a..m.a + m.size] + a[m.a + m.size..ahi];
      assert b[j..bhi] == b[m.b..m.b + m.size] + b[m.b + m.size..bhi];
    }
  }

  /**
   * get_matching_blocks before its final pass: the longest match of the
   * region, then the blocks of the part to its left and of the part to its
   * right.  difflib works through the regions with a worklist and sorts the
   * blocks at the end; the chain property proved here says that this order is
   * already the sorted one.
   */
  function MatchingBlocks<T(==)>(a: seq<T>, b: seq<T>, alo: nat, ahi: nat, blo: nat, bhi: nat): (blocks: seq<Block>)
    requires alo <= ahi <= |a| && blo <= bhi <= |b|
    ensures Chain(a, b, blocks, alo, blo, ahi, bhi)
    decreases ahi - alo + bhi - blo
  {
    var m := LongestMatch(a, b, alo, ahi, blo, bhi);
    if m.size == 0 then
      []
    else
      var left := if alo < m.a && blo < m.b then MatchingBlocks(a, b, alo, m.a, blo, m.b) else [];
      var right :=
        if m.a + m.size < ahi && m.b + m.size < bhi then MatchingBlocks(a, b, m.a + m.size, ahi, m.b + m.size, bhi)
        else [];
      MatchingBlocksStep(a, b, left, m, right, alo, blo, ahi, bhi);
      left + [m] + right
  }

  /** A longest match that leaves nothing on the left is followed by the blocks on its right. */
  lemma MatchingBlocksOfLeading<T>(a: seq<T>, b: seq<T>, alo: nat, ahi: nat, blo: nat, bhi: nat)
    requires alo <= ahi <= |a| && blo <= bhi <= |b|
    requires LongestMatch(a, b, alo, ahi, blo, bhi) == Block(alo, blo, LongestMatch(a, b, alo, ahi, blo, bhi).size)
    ensures var m := LongestMatch(a, b, alo, ahi, blo, bhi);
      MatchingBlocks(a, b, alo, ahi, blo, bhi)
      == if m.size == 0 then []
         else if m.a + m.size < ahi && m.b + m.size < bhi then [m] + MatchingBlocks(a, b, m.a + m.size, ahi, m.b + m.size, bhi)
         else [m]
  {
  }

  lemma ConsPair<X>(xs: seq<X>, x: X, ys: seq<X>, y: X)
    requires xs == [x] + ys && ys == [y]
    ensures xs == [x, y]
  {
  }

  /** A longest match that ends both regions, with nothing matching before it, is the only block. */
  lemma MatchingBlocksOfTrailing<T>(a: seq<T>, b: seq<T>, alo: nat, ahi: nat, blo: nat, bhi: nat)
    requires alo <= ahi <= |a| && blo <= bhi <= |b|
    requires var m := LongestMatch(a, b, alo, ahi, blo, bhi);
      && 0 < m.size && m.a + m.size == ahi && m.b + m.size == bhi
      && alo < m.a && blo < m.b && MatchingBlocks(a, b, alo, m.a, blo, m.b) == []
    ensures MatchingBlocks(a, b, alo, ahi, blo, bhi) == [LongestMatch(a, b, alo, ahi, blo, bhi)]
  {
    var m := LongestMatch(a, b, alo, ahi, blo, bhi);
    assert [] + [m] + [] == [m];
  }

  /** A region whose longest match is empty has no matching blocks. */
  lemma MatchingBlocksOfNoMatch<T>(a: seq<T>, b: seq<T>, alo: nat, ahi: nat, blo: nat, bhi: nat)
    requires alo <= ahi <= |a| && blo <= bhi <= |b|
    requires LongestMatch(a, b, alo, ahi, blo, bhi).size == 0
    ensures MatchingBlocks(a, b, alo, ahi, blo, bhi) == []
  {
  }

  /** Two single elements that differ have no matching blocks. */
  lemma NoBlocksAtMismatch<T>(a: seq<T>, b: seq<T>, n: nat)
    requires n < |a| && n < |b| && a[n] != b[n]
    ensures MatchingBlocks(a, b, n, n + 1, n, n + 1) == []
  {
    var t := LongestMatch(a, b, n, n + 1, n, n + 1);
    MatchHead(a, b, n, n + 1, n, n + 1, t.a, t.b, t.size);
    MatchingBlocksOfNoMatch(a, b, n, n + 1, n, n + 1);
  }

  lemma MatchingBlocksStep<T>(a: seq<T>, b: seq<T>, left: seq<Block>, m: Block, right: seq<Block>, alo: nat, blo: nat, ahi: nat, bhi: nat)
    requires Chain(a, b, left, alo, blo, m.a, m.b)
    requires 0 < m.size && IsMatch(a, b, m.a, ahi, m.b, bhi, m.a, m.b, m.size)
    requires Chain(a, b, right, m.a + m.size, m.b + m.size, ahi, bhi)
    ensures Chain(a, b, left + [m] + right, alo, blo, ahi, bhi)
  {
    assert ([m] + right)[1..] == right;
    ChainConcat(a, b, left, [m] + right, alo, blo, m.a, m.b, ahi, bhi);
    assert left + [m] + right == left + ([m] + right);
  }

  /** Every block of the list is non-empty. */
  ghost predicate AllNonEmpty(blocks: seq<Block>)
  {
    forall k | 0 <= k < |blocks| :: blocks[k].size > 0
  }

  /** No block ends exactly where the next one starts in both sequences. */
  ghost predicate Separated(blocks: seq<Block>)
  {
    forall k | 0 <= k < |blocks| - 1 ::
      blocks[k].a + blocks[k].size != blocks[k + 1].a || blocks[k].b + blocks[k].size != blocks[k + 1].b
  }

  lemma {:induction false} ChainNonEmpty<T>(a: seq<T>, b: seq<T>, blocks: seq<Block>, i: nat, j: nat, ahi: nat, bhi: nat)
    requires Chain(a, b, blocks, i, j, ahi, bhi)
    ensures AllNonEmpty(blocks)
    decreases |blocks|
  {
    if blocks != [] {
      var m := blocks[0];
      ChainNonEmpty(a, b, blocks[1..], m.a + m.size, m.b + m.size, ahi, bhi);
      forall k | 0 <= k < |blocks| ensures blocks[k].size > 0 {
        if k > 0 {
          assert blocks[k] == blocks[1..][k - 1];
        }
      }
    }
  }

  /**
   * The final pass of get_matching_blocks: a block that continues the one
   * being grown (cur) in both sequences is merged into it; otherwise cur is
   * emitted, unless it is empty, and the new block is grown next.  difflib
   * starts from the empty block (0, 0, 0).
   */
  function Collapse(cur: Block, blocks: seq<Block>): seq<Block>
    decreases |blocks|
  {
    if blocks == [] then
      if cur.size > 0 then [cur] else []
    else
      var next := blocks[0];
      if cur.a + cur.size == next.a && cur.b + cur.size == next.b then
        Collapse(Block(cur.a, cur.b, cur.size + next.size), blocks[1..])
      else
        (if cur.size > 0 then [cur] else []) + Collapse(next, blocks[1..])
  }

  /** Merging blocks keeps their total size. */
  lemma {:induction false} CollapseKeepsMatches(cur: Block, blocks: seq<Block>)
    ensures Matches(Collapse(cur, blocks)) == cur.size + Matches(blocks)
    decreases |blocks|
  {
    if blocks != [] {
      var next := blocks[0];
      if cur.a + cur.size == next.a && cur.b + cur.size == next.b {
        CollapseKeepsMatches(Block(cur.a, cur.b, cur.size + next.size), blocks[1..]);
      } else {
        CollapseKeepsMatches(next, blocks[1..]);
        MatchesAppend(if cur.size > 0 then [cur] else [], Collapse(next, blocks[1..]));
      }
    }
  }

  /** Merging the blocks of a chain gives a chain. */
  lemma {:induction false} CollapseKeepsChain<T>(a: seq<T>, b: seq<T>, cur: Block, blocks: seq<Block>, i: nat, j: nat, ahi: nat, bhi: nat)
    requires i <= cur.a && j <= cur.b
    requires cur.size == 0 || IsMatch(a, b, cur.a, ahi, cur.b, bhi, cur.a, cur.b, cur.size)
    requires Chain(a, b, blocks, cur.a + cur.size, cur.b + cur.size, ahi, bhi)
    ensures Chain(a, b, Collapse(cur, blocks), i, j, ahi, bhi)
    decreases |blocks|, 1
  {
    if blocks == [] {
      ChainEnds(a, b, blocks, cur.a + cur.size, cur.b + cur.size, ahi, bhi);
    } else {
      var next := blocks[0];
      if cur.a + cur.size == next.a && cur.b + cur.size == next.b {
        CollapseGrowsChain(a, b, cur, blocks, i, j, ahi, bhi);
      } else {
        CollapseEmitsChain(a, b, cur, blocks, i, j, ahi, bhi);
      }
    }
  }

  /** The step of CollapseKeepsChain where the next block continues cur. */
  lemma {:induction false} CollapseGrowsChain<T>(a: seq<T>, b: seq<T>, cur: Block, blocks: seq<Block>, i: nat, j: nat, ahi: nat, bhi: nat)
    requires i <= cur.a && j <= cur.b
    requires cur.size == 0 || IsMatch(a, b, cur.a, ahi, cur.b, bhi, cur.a, cur.b, cur.size)
    requires Chain(a, b, blocks, cur.a + cur.size, cur.b + cur.size, ahi, bhi)
    requires blocks != [] && cur.a + cur.size == blocks[0].a && cur.b + cur.size == blocks[0].b
    ensures Chain(a, b, Collapse(cur, blocks), i, j, ahi, bhi)
    decreases |blocks|, 0
  {
    var next := blocks[0];
    var grown := Block(cur.a, cur.b, cur.size + next.size);
    GrownIsMatch(a, b, cur, next, ahi, bhi);
    CollapseKeepsChain(a, b, grown, blocks[1..], i, j, ahi, bhi);
  }

  /** The step of CollapseKeepsChain where cur is emitted and the next block is grown. */
  lemma {:induction false} CollapseEmitsChain<T>(a: seq<T>, b: seq<T>, cur: Block, blocks: seq<Block>, i: nat, j: nat, ahi: nat, bhi: nat)
    requires i <= cur.a && j <= cur.b
    requires cur.size == 0 || IsMatch(a, b, cur.a, ahi, cur.b, bhi, cur.a, cur.b, cur.size)
    requires Chain(a, b, blocks, cur.a + cur.size, cur.b + cur.size, ahi, bhi)
    requires blocks != [] && (cur.a + cur.size != blocks[0].a || cur.b + cur.size != blocks[0].b)
    ensures Chain(a, b, Collapse(cur, blocks), i, j, ahi, bhi)
    decreases |blocks|, 0
  {
    var next := blocks[0];
    var rest := blocks[1..];
    if cur.size > 0 {
      CollapseKeepsChain(a, b, next, rest, cur.a + cur.size, cur.b + cur.size, ahi, bhi);
      ChainCons(a, b, cur, Collapse(next, rest), i, j, ahi, bhi);
    } else {
      CollapseKeepsChain(a, b, next, rest, i, j, ahi, bhi);
      assert [] + Collapse(next, rest) == Collapse(next, rest);
    }
  }

  /** A block that continues a match in both sequences extends it. */
  lemma GrownIsMatch<T>(a: seq<T>, b: seq<T>, cur: Block, next: Block, ahi: nat, bhi: nat)
    requires cur.size == 0 || IsMatch(a, b, cur.a, ahi, cur.b, bhi, cur.a, cur.b, cur.size)
    requires IsMatch(a, b, next.a, ahi, next.b, bhi, next.a, next.b, next.size)
    requires cur.a + cur.size == next.a && cur.b + cur.size == next.b
    ensures IsMatch(a, b, cur.a, ahi, cur.b, bhi, cur.a, cur.b, cur.size + next.size)
  {
    assert a[cur.a..next.a + next.size] == a[cur.a..next.a] + a[next.a..next.a + next.size];
    assert b[cur.b..next.b + next.size] == b[cur.b..next.b] + b[next.b..next.b + next.size];
  }

  /** A non-empty match placed before a chain that starts after it is a chain. */
  lemma ChainCons<T>(a: seq<T>, b: seq<T>, m: Block, rest: seq<Block>, i: nat, j: nat, ahi: nat, bhi: nat)
    requires i <= m.a && j <= m.b && 0 < m.size
    requires IsMatch(a, b, m.a, ahi, m.b, bhi, m.a, m.b, m.size)
    requires Chain(a, b, rest, m.a + m.size, m.b + m.size, ahi, bhi)
    ensures Chain(a, b, [m] + rest, i, j, ahi, bhi)
  {
    assert ([m] + rest)[1..] == rest;
  }

  /** The merged list starts where a non-empty cur starts. */
  lemma {:induction false} CollapseHead(cur: Block, blocks: seq<Block>)
    requires cur.size > 0
    ensures Collapse(cur, blocks) != []
    ensures Collapse(cur, blocks)[0].a == cur.a && Collapse(cur, blocks)[0].b == cur.b
    decreases |blocks|
  {
    if blocks != [] {
      var next := blocks[0];
      if cur.a + cur.size == next.a && cur.b + cur.size == next.b {
        CollapseHead(Block(cur.a, cur.b, cur.size + next.size), blocks[1..]);
      }
    }
  }

  /** After the merge, no two neighbouring blocks continue each other. */
  lemma {:induction false} CollapseSeparates(cur: Block, blocks: seq<Block>)
    requires AllNonEmpty(blocks)
    ensures Separated(Collapse(cur, blocks))
    decreases |blocks|
  {
    if blocks != [] {
      var next := blocks[0];
      var rest := blocks[1..];
      assert AllNonEmpty(rest) by {
        forall k | 0 <= k < |rest| ensures rest[k].size > 0 {
          assert rest[k] == blocks[k + 1];
        }
      }
      if cur.a + cur.size == next.a && cur.b + cur.size == next.b {
        CollapseSeparates(Block(cur.a, cur.b, cur.size + next.size), rest);
      } else {
        CollapseSeparates(next, rest);
        EmitSeparates(cur, next, rest);
      }
    }
  }

  /** Emitting cur before the merge of the rest, which starts at next, keeps the blocks separated. */
  lemma EmitSeparates(cur: Block, next: Block, rest: seq<Block>)
    requires next.size > 0
    requires cur.a + cur.size != next.a || cur.b + cur.size != next.b
    requires Separated(Collapse(next, rest))
    ensures Separated((if cur.size > 0 then [cur] else []) + Collapse(next, rest))
  {
    var tail := Collapse(next, rest);
    if cur.size > 0 {
      CollapseHead(next, rest);
      var r := [cur] + tail;
      forall k | 0 <= k < |r| - 1
        ensures r[k].a + r[k].size != r[k + 1].a || r[k].b + r[k].size != r[k + 1].b
      {
        if k > 0 {
          assert r[k] == tail[k - 1] && r[k + 1] == tail[k];
        }
      }
    } else {
      assert [] + tail == tail;
    }
  }

  /**
   * get_matching_blocks(): the blocks of the whole of a and b, merged, then
   * closed by the sentinel (|a|, |b|, 0).
   */
  function GetMatchingBlocks<T(==)>(a: seq<T>, b: seq<T>): (r: seq<Block>)
    ensures |r| > 0 && r[|r| - 1] == Block(|a|, |b|, 0)
    ensures Chain(a, b, r[..|r| - 1], 0, 0, |a|, |b|)
    ensures Separated(r[..|r| - 1])
    ensures Matches(r) <= |a| && Matches(r) <= |b|
  {
    var blocks := MatchingBlocks(a, b, 0, |a|, 0, |b|);
    var merged := Collapse(Block(0, 0, 0), blocks);
    CollapseKeepsChain(a, b, Block(0, 0, 0), blocks, 0, 0, |a|, |b|);
    ChainNonEmpty(a, b, blocks, 0, 0, |a|, |b|);
    CollapseSeparates(Block(0, 0, 0), blocks);
    ChainMatchesBound(a, b, merged, 0, 0, |a|, |b|);
    MatchesAppend(merged, [Block(|a|, |b|, 0)]);
    assert (merged + [Block(|a|, |b|, 0)])[..|merged|] == merged;
    merged + [Block(|a|, |b|, 0)]
  }

  /**
   * When the blocks of the whole of a and b are two blocks, the first at the
   * start and the second not adjacent to it, get_matching_blocks() keeps both
   * and adds the sentinel.
   */
  lemma GetMatchingBlocksOfTwo<T>(a: seq<T>, b: seq<T>, x: Block, y: Block)
    requires MatchingBlocks(a, b, 0, |a|, 0, |b|) == [x, y]
    requires x.a == 0 && x.b == 0 && x.size > 0 && y.size > 0
    requires x.size != y.a || x.size != y.b
    ensures GetMatchingBlocks(a, b) == [x, y, Block(|a|, |b|, 0)]
  {
    CollapseOfSeparate(x, y);
    assert [x, y] + [Block(|a|, |b|, 0)] == [x, y, Block(|a|, |b|, 0)];
  }

  /** Two non-empty blocks, the first at the start and the second not adjacent to it, are not merged. */
  lemma CollapseOfSeparate(x: Block, y: Block)
    requires x.a == 0 && x.b == 0 && x.size > 0 && y.size > 0
    requires x.size != y.a || x.size != y.b
    ensures Collapse(Block(0, 0, 0), [x, y]) == [x, y]
  {
    assert [x, y][1..] == [y];
    assert [y][1..] == [];
    assert Collapse(x, [y]) == [x] + [y];
  }

  /** The total size of the matching blocks, M. */
  lemma {:induction false} MatchesOfMatchingBlocks<T>(a: seq<T>, b: seq<T>)
    ensures Matches(GetMatchingBlocks(a, b)) == Matches(MatchingBlocks(a, b, 0, |a|, 0, |b|))
  {
    var blocks := MatchingBlocks(a, b, 0, |a|, 0, |b|);
    var merged := Collapse(Block(0, 0, 0), blocks);
    CollapseKeepsMatches(Block(0, 0, 0), blocks);
    MatchesAppend(merged, [Block(|a|, |b|, 0)]);
  }

  /**
   * ratio(): 2*M/T with T = |a| + |b|, and 1.0 when both sequences are empty.
   */
  function Ratio<T(==)>(a: seq<T>, b: seq<T>): (r: real)
    ensures 0.0 <= r <= 1.0
  {
    var matches := Matches(GetMatchingBlocks(a, b));
    var length := |a| + |b|;
    if length > 0 then
      UnitFraction(2.0 * matches as real, length as real);
      2.0 * matches as real / length as real
    else
      1.0
  }

  /** The ratio of sequences that are not both empty, as 2*M/T. */
  lemma RatioOfMatches<T>(a: seq<T>, b: seq<T>)
    requires |a| + |b| > 0
    ensures Ratio(a, b) == 2.0 * Matches(GetMatchingBlocks(a, b)) as real / (|a| + |b|) as real
  {
  }

  lemma WholeFraction(x: real)
    requires x > 0.0
    ensures x / x == 1.0
  {
  }

  lemma OneFraction(x: real, y: real)
    requires y > 0.0
    ensures x / y == 1.0 <==> x == y
  {
    if x / y == 1.0 {
      assert x == x / y * y;
    }
  }

  lemma UnitFraction(x: real, y: real)
    requires 0.0 <= x <= y && 0.0 < y
    ensures 0.0 <= x / y <= 1.0
  {
    assert x / y * y == x;
  }

  /** A sequence matched against itself is one block covering both. */
  lemma GetMatchingBlocksOfEqual<T>(s: seq<T>)
    ensures GetMatchingBlocks(s, s) == (if |s| > 0 then [Block(0, 0, |s|)] else []) + [Block(|s|, |s|, 0)]
  {
    var n := |s|;
    if n > 0 {
      var m := LongestMatch(s, s, 0, n, 0, n);
      assert IsMatch(s, s, 0, n, 0, n, 0, 0, n);
      assert m == Block(0, 0, n);
      assert MatchingBlocks(s, s, 0, n, 0, n) == [Block(0, 0, n)];
      assert Collapse(Block(0, 0, 0), [Block(0, 0, n)]) == Collapse(Block(0, 0, n), []);
    } else {
      assert LongestMatch(s, s, 0, n, 0, n).size == 0;
    }
  }

  /** A ratio of 1 leaves no room for unmatched elements. */
  lemma RatioOneMeansAllMatched<T>(a: seq<T>, b: seq<T>)
    requires Ratio(a, b) == 1.0
    ensures Matches(GetMatchingBlocks(a, b)) == |a| == |b|
  {
    var m := Matches(GetMatchingBlocks(a, b));
    if |a| + |b| > 0 {
      RatioOfMatches(a, b);
      OneFraction(2.0 * m as real, (|a| + |b|) as real);
    }
  }

  /** Identical sequences have ratio 1. */
  lemma RatioOfEqual<T>(s: seq<T>)
    ensures Ratio(s, s) == 1.0
  {
    GetMatchingBlocksOfEqual(s);
    var r := GetMatchingBlocks(s, s);
    var n := |s|;
    if n > 0 {
      assert r[1..] == [Block(n, n, 0)] && r[1..][1..] == [];
      assert Matches(r) == n;
      assert 2.0 * n as real == (n + n) as real;
      WholeFraction((n + n) as real);
    }
  }

  /** Only identical sequences have ratio 1. */
  lemma RatioOneMeansEqual<T>(a: seq<T>, b: seq<T>)
    requires Ratio(a, b) == 1.0
    ensures a == b
  {
    RatioOneMeansAllMatched(a, b);
    var r := GetMatchingBlocks(a, b);
    var blocks := r[..|r| - 1];
    assert r == blocks + [r[|r| - 1]];
    MatchesAppend(blocks, [r[|r| - 1]]);
    FullChainMeansEqual(a, b, blocks, 0, 0, |a|, |b|);
    assert a == a[0..|a|] && b == b[0..|b|];
  }

  /** The ratio is 1 exactly when the two sequences are equal. */
  lemma RatioIsOneIff<T>(a: seq<T>, b: seq<T>)
    ensures Ratio(a, b) == 1.0 <==> a == b
  {
    if a == b {
      RatioOfEqual(a);
    } else if Ratio(a, b) == 1.0 {
      RatioOneMeansEqual(a, b);
    }
  }

  /** Equal elements form a common block of size 1. */
  lemma SharedElementIsMatch<T>(a: seq<T>, b: seq<T>, alo: nat, ahi: nat, blo: nat, bhi: nat, i: nat, j: nat)
    requires alo <= i < ahi <= |a| && blo <= j < bhi <= |b|
    ensures a[i] == b[j] <==> IsMatch(a, b, alo, ahi, blo, bhi, i, j, 1)
  {
    assert a[i..i + 1] == [a[i]] && b[j..j + 1] == [b[j]];
  }

  /** A non-empty match starts with two equal elements. */
  lemma MatchStart<T>(a: seq<T>, b: seq<T>, i: nat, j: nat, k: nat)
    requires i + k <= |a| && j + k <= |b| && a[i..i + k] == b[j..j + k]
    ensures k > 0 ==> a[i] == b[j]
  {
    if k > 0 {
      MatchAt(a, b, i, j, k, 0);
    }
  }

  /** Inside a match, the two sequences agree position by position. */
  lemma MatchAt<T>(a: seq<T>, b: seq<T>, i: nat, j: nat, k: nat, x: nat)
    requires x < k && i + k <= |a| && j + k <= |b| && a[i..i + k] == b[j..j + k]
    ensures a[i + x] == b[j + x]
  {
    assert a[i..i + k][x] == b[j..j + k][x];
  }

  /** The longest match of two regions is empty exactly when no element of a's region occurs in b's region. */
  lemma LongestMatchIsEmptyIff<T>(a: seq<T>, b: seq<T>, alo: nat, ahi: nat, blo: nat, bhi: nat)
    requires alo <= ahi <= |a| && blo <= bhi <= |b|
    ensures LongestMatch(a, b, alo, ahi, blo, bhi).size == 0
        <==> forall i, j | alo <= i < ahi && blo <= j < bhi :: a[i] != b[j]
  {
    var m := LongestMatch(a, b, alo, ahi, blo, bhi);
    MatchHead(a, b, alo, ahi, blo, bhi, m.a, m.b, m.size);
    if m.size == 0 {
      EmptyLongestMeansNothingShared(a, b, alo, ahi, blo, bhi);
    }
  }

  lemma EmptyLongestMeansNothingShared<T>(a: seq<T>, b: seq<T>, alo: nat, ahi: nat, blo: nat, bhi: nat)
    requires alo <= ahi <= |a| && blo <= bhi <= |b|
    requires LongestMatch(a, b, alo, ahi, blo, bhi).size == 0
    ensures forall i, j | alo <= i < ahi && blo <= j < bhi :: a[i] != b[j]
  {
    forall i, j | alo <= i < ahi && blo <= j < bhi ensures a[i] != b[j] {
      SharedElementIsMatch(a, b, alo, ahi, blo, bhi, i, j);
    }
  }

  /** A non-empty match starts with a shared element of the two regions. */
  lemma MatchHead<T>(a: seq<T>, b: seq<T>, alo: nat, ahi: nat, blo: nat, bhi: nat, i: nat, j: nat, k: nat)
    requires IsMatch(a, b, alo, ahi, blo, bhi, i, j, k)
    ensures k > 0 ==> alo <= i < ahi && blo <= j < bhi && a[i] == b[j]
  {
    MatchStart(a, b, i, j, k);
  }

  lemma {:induction false} MatchesIsZeroIffEmpty(blocks: seq<Block>)
    requires AllNonEmpty(blocks)
    ensures Matches(blocks) == 0 <==> blocks == []
  {
    if blocks != [] {
      assert blocks[0].size > 0;
    }
  }

  /** The matcher finds no block exactly when no element of a occurs in b. */
  lemma MatchesIsZeroIff<T>(a: seq<T>, b: seq<T>)
    ensures Matches(GetMatchingBlocks(a, b)) == 0 <==> forall i, j | 0 <= i < |a| && 0 <= j < |b| :: a[i] != b[j]
  {
    var blocks := MatchingBlocks(a, b, 0, |a|, 0, |b|);
    MatchesOfMatchingBlocks(a, b);
    ChainNonEmpty(a, b, blocks, 0, 0, |a|, |b|);
    MatchesIsZeroIffEmpty(blocks);
    LongestMatchIsEmptyIff(a, b, 0, |a|, 0, |b|);
  }

  /**
   * The ratio is 0 exactly when the sequences are not both empty and share
   * no element.
   */
  lemma RatioIsZeroIff<T>(a: seq<T>, b: seq<T>)
    ensures Ratio(a, b) == 0.0 <==> |a| + |b| > 0 && forall i, j | 0 <= i < |a| && 0 <= j < |b| :: a[i] != b[j]
  {
    MatchesIsZeroIff(a, b);
    if |a| + |b| > 0 {
      RatioOfMatches(a, b);
      ZeroFraction(2.0 * Matches(GetMatchingBlocks(a, b)) as real, (|a| + |b|) as real);
    }
  }

  lemma ZeroFraction(x: real, y: real)
    requires x >= 0.0 && y > 0.0
    ensures x / y == 0.0 <==> x == 0.0
  {
    if x / y == 0.0 {
      assert x == x / y * y;
    }
  }
}
