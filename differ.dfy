/**
 * The comparison report of app.py: difflib.ndiff over the lines of the
 * snippet and the lines of the typed text, joined with newlines.  ndiff runs a
 * SequenceMatcher over whole lines, turns its matching blocks into opcodes and
 * writes each opcode out as "  " (unchanged), "- " (only in the snippet) and
 * "+ " (only in the typed text) lines; a replaced region is searched for a
 * pair of similar lines to line up on.
 */
module Differ {
  import opened Wrappers
  import Matching
  import Lines

  datatype Kind = Unchanged | Removed | Added

  /** One line of the report: its kind (the two-character prefix) and its text. */
  datatype DiffLine = DiffLine(kind: Kind, text: string)

  /** The kind of an opcode of SequenceMatcher.get_opcodes(). */
  datatype Tag = Replace | Delete | Insert | Equal

  /** An opcode: a[alo..ahi] is to become b[blo..bhi]. */
  datatype Opcode = Opcode(tag: Tag, alo: nat, ahi: nat, blo: nat, bhi: nat)

  /** The lines of the first text that the report shows: its "  " and "- " lines, in order. */
  function Before(report: seq<DiffLine>): seq<string>
  {
    if report == [] then []
    else if report[0].kind == Added then Before(report[1..])
    else [report[0].text] + Before(report[1..])
  }

  /** The lines of the second text that the report shows: its "  " and "+ " lines, in order. */
  function After(report: seq<DiffLine>): seq<string>
  {
    if report == [] then []
    else if report[0].kind == Removed then After(report[1..])
    else [report[0].text] + After(report[1..])
  }

  lemma ProjectAppend(x: seq<DiffLine>, y: seq<DiffLine>)
    ensures Before(x + y) == Before(x) + Before(y)
    ensures After(x + y) == After(x) + After(y)
  {
    BeforeAppend(x, y);
    AfterAppend(x, y);
  }

  lemma {:induction false} BeforeAppend(x: seq<DiffLine>, y: seq<DiffLine>)
    ensures Before(x + y) == Before(x) + Before(y)
  {
    if x == [] {
      assert x + y == y;
    } else {
      assert (x + y)[0] == x[0];
      assert (x + y)[1..] == x[1..] + y;
      BeforeAppend(x[1..], y);
    }
  }

  lemma {:induction false} AfterAppend(x: seq<DiffLine>, y: seq<DiffLine>)
    ensures After(x + y) == After(x) + After(y)
  {
    if x == [] {
      assert x + y == y;
    } else {
      assert (x + y)[0] == x[0];
      assert (x + y)[1..] == x[1..] + y;
      AfterAppend(x[1..], y);
    }
  }

  /**
   * get_opcodes(), from the matching blocks that start at (i, j) or later: the
   * gap before each block becomes a replace, delete or insert opcode, and the
   * block itself (unless it is the empty sentinel) an equal one.
   */
  function OpcodesFrom(blocks: seq<Matching.Block>, i: nat, j: nat): seq<Opcode>
    decreases |blocks|
  {
    if blocks == [] then
      []
    else
      var m := blocks[0];
      BlockOpcodes(i, j, m, OpcodesFrom(blocks[1..], m.a + m.size, m.b + m.size))
  }

  /** The opcodes of one block that starts after (i, j), followed by those of the blocks after it. */
  function BlockOpcodes(i: nat, j: nat, m: Matching.Block, rest: seq<Opcode>): seq<Opcode>
  {
    GapOpcode(i, j, m.a, m.b) + (EqualOpcode(m) + rest)
  }

  /** The opcode for the unmatched stretch a[i..ia], b[j..jb], if it is not empty. */
  function GapOpcode(i: nat, j: nat, ia: nat, jb: nat): seq<Opcode>
  {
    if i < ia && j < jb then [Opcode(Replace, i, ia, j, jb)]
    else if i < ia then [Opcode(Delete, i, ia, j, jb)]
    else if j < jb then [Opcode(Insert, i, ia, j, jb)]
    else []
  }

  /** The equal opcode of a block, unless it is empty. */
  function EqualOpcode(m: Matching.Block): seq<Opcode>
  {
    if m.size > 0 then [Opcode(Equal, m.a, m.a + m.size, m.b, m.b + m.size)] else []
  }

  /** What an opcode says about its two ranges. */
  ghost predicate Describes<T>(a: seq<T>, b: seq<T>, op: Opcode)
  {
    && op.alo <= op.ahi <= |a| && op.blo <= op.bhi <= |b|
    && match op.tag
       case Replace => op.alo < op.ahi && op.blo < op.bhi
       case Delete => op.alo < op.ahi && op.blo == op.bhi
       case Insert => op.alo == op.ahi && op.blo < op.bhi
       case Equal => op.alo < op.ahi && a[op.alo..op.ahi] == b[op.blo..op.bhi]
  }

  /**
   * ops turn a[i..] into b[j..]: each opcode starts where the one before it
   * ends, the first at (i, j) and the last ending at (|a|, |b|).
   */
  ghost predicate Tiles<T>(a: seq<T>, b: seq<T>, ops: seq<Opcode>, i: nat, j: nat)
    decreases |ops|
  {
    && i <= |a| && j <= |b|
    && if ops == [] then
      i == |a| && j == |b|
    else
      && ops[0].alo == i && ops[0].blo == j
      && Describes(a, b, ops[0])
      && Tiles(a, b, ops[1..], ops[0].ahi, ops[0].bhi)
  }

  /** An opcode that starts at (i, j) and ends where a tiling starts extends that tiling. */
  lemma TilesCons<T>(a: seq<T>, b: seq<T>, op: Opcode, rest: seq<Opcode>, i: nat, j: nat)
    requires op.alo == i && op.blo == j && Describes(a, b, op)
    requires Tiles(a, b, rest, op.ahi, op.bhi)
    ensures Tiles(a, b, [op] + rest, i, j)
  {
    assert ([op] + rest)[1..] == rest;
  }

  lemma GapTiles<T>(a: seq<T>, b: seq<T>, rest: seq<Opcode>, i: nat, j: nat, ia: nat, jb: nat)
    requires i <= ia && j <= jb
    requires Tiles(a, b, rest, ia, jb) && ia <= |a| && jb <= |b|
    ensures Tiles(a, b, GapOpcode(i, j, ia, jb) + rest, i, j)
  {
    var gap := GapOpcode(i, j, ia, jb);
    if gap == [] {
      assert gap + rest == rest;
    } else {
      TilesCons(a, b, gap[0], rest, i, j);
      assert gap == [gap[0]];
    }
  }

  lemma EqualTiles<T>(a: seq<T>, b: seq<T>, rest: seq<Opcode>, m: Matching.Block)
    requires m.size > 0 && Matching.IsMatch(a, b, m.a, |a|, m.b, |b|, m.a, m.b, m.size)
    requires Tiles(a, b, rest, m.a + m.size, m.b + m.size)
    ensures Tiles(a, b, EqualOpcode(m) + rest, m.a, m.b)
  {
    var op := Opcode(Equal, m.a, m.a + m.size, m.b, m.b + m.size);
    EqualDescribes(a, b, m);
    TilesCons(a, b, op, rest, m.a, m.b);
    assert EqualOpcode(m) == [op];
  }

  /** The equal opcode of a block describes it. */
  lemma EqualDescribes<T>(a: seq<T>, b: seq<T>, m: Matching.Block)
    requires m.size > 0 && Matching.IsMatch(a, b, m.a, |a|, m.b, |b|, m.a, m.b, m.size)
    ensures Describes(a, b, Opcode(Equal, m.a, m.a + m.size, m.b, m.b + m.size))
  {
  }

  /**
   * The blocks get_opcodes reads: non-empty matching blocks in increasing
   * order after (i, j), closed by the sentinel (|a|, |b|, 0).
   */
  ghost predicate Closed<T>(a: seq<T>, b: seq<T>, blocks: seq<Matching.Block>, i: nat, j: nat)
    decreases |blocks|
  {
    && blocks != []
    && i <= blocks[0].a <= |a| && j <= blocks[0].b <= |b|
    && if |blocks| == 1 then
      blocks[0] == Matching.Block(|a|, |b|, 0)
    else
      var m := blocks[0];
      && 0 < m.size
      && Matching.IsMatch(a, b, m.a, |a|, m.b, |b|, m.a, m.b, m.size)
      && Closed(a, b, blocks[1..], m.a + m.size, m.b + m.size)
  }

  /** A chain over the whole of a and b followed by the sentinel is closed. */
  lemma {:induction false} ChainIsClosed<T>(a: seq<T>, b: seq<T>, chain: seq<Matching.Block>, i: nat, j: nat)
    requires Matching.Chain(a, b, chain, i, j, |a|, |b|)
    ensures Closed(a, b, chain + [Matching.Block(|a|, |b|, 0)], i, j)
    decreases |chain|
  {
    var blocks := chain + [Matching.Block(|a|, |b|, 0)];
    if chain == [] {
      assert blocks == [Matching.Block(|a|, |b|, 0)];
    } else {
      var m := chain[0];
      ChainIsClosed(a, b, chain[1..], m.a + m.size, m.b + m.size);
      assert blocks[1..] == chain[1..] + [Matching.Block(|a|, |b|, 0)];
    }
  }

  lemma {:induction false} OpcodesFromTile<T>(a: seq<T>, b: seq<T>, blocks: seq<Matching.Block>, i: nat, j: nat)
    requires Closed(a, b, blocks, i, j)
    ensures Tiles(a, b, OpcodesFrom(blocks, i, j), i, j)
    decreases |blocks|
  {
    var m := blocks[0];
    var rest := OpcodesFrom(blocks[1..], m.a + m.size, m.b + m.size);
    if |blocks| == 1 {
      assert blocks[1..] == [];
    } else {
      OpcodesFromTile(a, b, blocks[1..], m.a + m.size, m.b + m.size);
    }
    OpcodesFromStep(a, b, blocks, rest, i, j);
    OpcodesFromCons(blocks, i, j, m, rest);
  }

  lemma OpcodesFromCons(blocks: seq<Matching.Block>, i: nat, j: nat, m: Matching.Block, rest: seq<Opcode>)
    requires blocks != [] && m == blocks[0]
    requires rest == OpcodesFrom(blocks[1..], m.a + m.size, m.b + m.size)
    ensures OpcodesFrom(blocks, i, j) == BlockOpcodes(i, j, m, rest)
  {
  }

  /** One block: its gap opcode and its equal opcode, followed by the tiling of what comes after the block. */
  lemma OpcodesFromStep<T>(a: seq<T>, b: seq<T>, blocks: seq<Matching.Block>, rest: seq<Opcode>, i: nat, j: nat)
    requires Closed(a, b, blocks, i, j)
    requires Tiles(a, b, rest, blocks[0].a + blocks[0].size, blocks[0].b + blocks[0].size)
    ensures Tiles(a, b, BlockOpcodes(i, j, blocks[0], rest), i, j)
  {
    var m := blocks[0];
    assert Tiles(a, b, EqualOpcode(m) + rest, m.a, m.b) by {
      if m.size > 0 {
        EqualTiles(a, b, rest, m);
      } else {
        assert EqualOpcode(m) + rest == rest;
      }
    }
    GapTiles(a, b, EqualOpcode(m) + rest, i, j, m.a, m.b);
  }

  /** get_opcodes() of a SequenceMatcher over a and b. */
  function GetOpcodes<T(==)>(a: seq<T>, b: seq<T>): (ops: seq<Opcode>)
    ensures Tiles(a, b, ops, 0, 0)
  {
    var blocks := Matching.GetMatchingBlocks(a, b);
    assert blocks == blocks[..|blocks| - 1] + [Matching.Block(|a|, |b|, 0)];
    ChainIsClosed(a, b, blocks[..|blocks| - 1], 0, 0);
    OpcodesFromTile(a, b, blocks, 0, 0);
    OpcodesFrom(blocks, 0, 0)
  }

  /** _dump(tag, x, lo, hi): one report line of the given kind per line of x[lo..hi]. */
  function Dump(kind: Kind, x: seq<string>, lo: nat, hi: nat): seq<DiffLine>
    requires lo <= hi <= |x|
    decreases hi - lo
  {
    if lo == hi then [] else [DiffLine(kind, x[lo])] + Dump(kind, x, lo + 1, hi)
  }

  /** A dump shows its lines on the side, or sides, its kind belongs to. */
  lemma {:induction false} DumpProjects(kind: Kind, x: seq<string>, lo: nat, hi: nat)
    requires lo <= hi <= |x|
    ensures Before(Dump(kind, x, lo, hi)) == if kind != Added then x[lo..hi] else []
    ensures After(Dump(kind, x, lo, hi)) == if kind != Removed then x[lo..hi] else []
    decreases hi - lo
  {
    if lo < hi {
      DumpProjects(kind, x, lo + 1, hi);
      assert x[lo..hi] == [x[lo]] + x[lo + 1..hi];
      assert ([DiffLine(kind, x[lo])] + Dump(kind, x, lo + 1, hi))[1..] == Dump(kind, x, lo + 1, hi);
    }
  }

  /**
   * _plain_replace: all the "+ " lines and then all the "- " lines when the
   * typed side is the shorter, the "- " lines first otherwise.
   */
  function PlainReplace(a: seq<string>, alo: nat, ahi: nat, b: seq<string>, blo: nat, bhi: nat): seq<DiffLine>
    requires alo < ahi <= |a| && blo < bhi <= |b|
  {
    if bhi - blo < ahi - alo then Dump(Added, b, blo, bhi) + Dump(Removed, a, alo, ahi)
    else Dump(Removed, a, alo, ahi) + Dump(Added, b, blo, bhi)
  }

  /**
   * The character-level similarity ndiff uses to decide whether two lines are
   * close: the ratio of a SequenceMatcher that treats blanks and tabs as junk.
   */
  type Similarity = (string, string) -> real

  /** The variables of _fancy_replace's search: best_ratio, best_i, best_j and (eqi, eqj). */
  datatype SyncSearch = SyncSearch(bestRatio: real, bestI: nat, bestJ: nat, equal: Option<(nat, nat)>)

  const BEST_RATIO_START: real := 0.74
  const CUTOFF: real := 0.75

  /*
   * The search visits the pairs (x, y) of the region with y in the outer loop
   * and x in the inner one, so (x, y) is visited before (i, j) when
   * y < j || (y == j && x < i). When the search stands at (alo, bhi) it has
   * visited every pair of the region.
   */

  /** No pair of the region visited before (i, j) is a pair of identical lines. */
  ghost predicate NoIdenticalBefore(a: seq<string>, alo: nat, ahi: nat, b: seq<string>, blo: nat, bhi: nat,
                                    i: nat, j: nat)
  {
    && ahi <= |a| && bhi <= |b|
    && forall x, y | alo <= x < ahi && blo <= y < bhi && (y < j || (y == j && x < i)) :: !SameLine(a, b, x, y)
  }

  /** Line x of a is line y of b. */
  predicate SameLine(a: seq<string>, b: seq<string>, x: nat, y: nat)
  {
    x < |a| && y < |b| && a[x] == b[y]
  }

  /** Every pair of different lines visited before (i, j) has a similarity of at most bound. */
  ghost predicate SimilarityAtMost(a: seq<string>, alo: nat, ahi: nat, b: seq<string>, blo: nat, bhi: nat,
                                   similarity: Similarity, i: nat, j: nat, bound: real)
  {
    && ahi <= |a| && bhi <= |b|
    && forall x, y {:trigger similarity(a[x], b[y])}
         | alo <= x < ahi && blo <= y < bhi && (y < j || (y == j && x < i)) && a[x] != b[y] ::
         similarity(a[x], b[y]) <= bound
  }

  /** Every pair of different lines visited before (i, j) has a similarity below bound. */
  ghost predicate SimilarityBelow(a: seq<string>, alo: nat, ahi: nat, b: seq<string>, blo: nat, bhi: nat,
                                  similarity: Similarity, i: nat, j: nat, bound: real)
  {
    && ahi <= |a| && bhi <= |b|
    && forall x, y {:trigger similarity(a[x], b[y])}
         | alo <= x < ahi && blo <= y < bhi && (y < j || (y == j && x < i)) && a[x] != b[y] ::
         similarity(a[x], b[y]) < bound
  }

  /** (i, j) is the first pair of identical lines of the region. */
  ghost predicate FirstIdentical(a: seq<string>, alo: nat, ahi: nat, b: seq<string>, blo: nat, bhi: nat,
                                 i: nat, j: nat)
  {
    && alo <= i < ahi <= |a| && blo <= j < bhi <= |b|
    && a[i] == b[j]
    && NoIdenticalBefore(a, alo, ahi, b, blo, bhi, i, j)
  }

  /** (i, j) is a pair of different lines more similar than every pair of different lines visited before it. */
  ghost predicate FirstMostSimilar(a: seq<string>, alo: nat, ahi: nat, b: seq<string>, blo: nat, bhi: nat,
                                   similarity: Similarity, i: nat, j: nat)
  {
    && alo <= i < ahi <= |a| && blo <= j < bhi <= |b|
    && a[i] != b[j]
    && SimilarityBelow(a, alo, ahi, b, blo, bhi, similarity, i, j, similarity(a[i], b[j]))
  }

  /**
   * What the search state knows when the search stands at (i, j): the
   * remembered identical pair is the first one, if any was visited; the best
   * ratio bounds every pair of different lines visited; and once it has left
   * its start value, it is the similarity of the best pair, which beats every
   * pair visited before it.
   */
  ghost predicate Scanned(a: seq<string>, alo: nat, ahi: nat, b: seq<string>, blo: nat, bhi: nat,
                          similarity: Similarity, i: nat, j: nat, s: SyncSearch)
  {
    && ahi <= |a| && bhi <= |b|
    && s.bestRatio >= BEST_RATIO_START
    && (s.equal.None? ==> NoIdenticalBefore(a, alo, ahi, b, blo, bhi, i, j))
    && (s.equal.Some? ==> FirstIdentical(a, alo, ahi, b, blo, bhi, s.equal.value.0, s.equal.value.1))
    && SimilarityAtMost(a, alo, ahi, b, blo, bhi, similarity, i, j, s.bestRatio)
    && (s.bestRatio > BEST_RATIO_START ==>
          && FirstMostSimilar(a, alo, ahi, b, blo, bhi, similarity, s.bestI, s.bestJ)
          && similarity(a[s.bestI], b[s.bestJ]) == s.bestRatio)
  }

  /**
   * _fancy_replace's search over the pairs (i, j), j in the outer loop: the
   * first identical pair is remembered, and among the other pairs the first
   * one whose similarity beats the best seen so far becomes the best.
   */
  function SearchSync(a: seq<string>, alo: nat, ahi: nat, b: seq<string>, blo: nat, bhi: nat,
                      similarity: Similarity, i: nat, j: nat, s: SyncSearch): (r: SyncSearch)
    requires alo <= i <= ahi && blo <= j <= bhi
    requires Scanned(a, alo, ahi, b, blo, bhi, similarity, i, j, s)
    ensures Scanned(a, alo, ahi, b, blo, bhi, similarity, alo, bhi, r)
    ensures r.bestRatio >= s.bestRatio
    decreases bhi - j, ahi - i
  {
    if j == bhi then
      ScanEnd(a, alo, ahi, b, blo, bhi, similarity, i, s);
      s
    else if i == ahi then
      ScanWrap(a, alo, ahi, b, blo, bhi, similarity, j, s);
      SearchSync(a, alo, ahi, b, blo, bhi, similarity, alo, j + 1, s)
    else
      var next :=
        if a[i] == b[j] then
          if s.equal.None? then s.(equal := Some((i, j))) else s
        else if similarity(a[i], b[j]) > s.bestRatio then
          SyncSearch(similarity(a[i], b[j]), i, j, s.equal)
        else
          s;
      ScanStep(a, alo, ahi, b, blo, bhi, similarity, i, j, s, next);
      SearchSync(a, alo, ahi, b, blo, bhi, similarity, i + 1, j, next)
  }

  /** Standing anywhere on the row past the last one is standing at the end. */
  lemma ScanEnd(a: seq<string>, alo: nat, ahi: nat, b: seq<string>, blo: nat, bhi: nat,
                similarity: Similarity, i: nat, s: SyncSearch)
    requires Scanned(a, alo, ahi, b, blo, bhi, similarity, i, bhi, s)
    ensures Scanned(a, alo, ahi, b, blo, bhi, similarity, alo, bhi, s)
  {
  }

  /** Moving past the end of a row to the start of the next one visits no new pair. */
  lemma ScanWrap(a: seq<string>, alo: nat, ahi: nat, b: seq<string>, blo: nat, bhi: nat,
                 similarity: Similarity, j: nat, s: SyncSearch)
    requires Scanned(a, alo, ahi, b, blo, bhi, similarity, ahi, j, s)
    ensures Scanned(a, alo, ahi, b, blo, bhi, similarity, alo, j + 1, s)
  {
  }

  /** Visiting the pair (i, j) as the search does keeps what the state knows. */
  lemma ScanStep(a: seq<string>, alo: nat, ahi: nat, b: seq<string>, blo: nat, bhi: nat,
                 similarity: Similarity, i: nat, j: nat, s: SyncSearch, next: SyncSearch)
    requires alo <= i < ahi && blo <= j < bhi
    requires Scanned(a, alo, ahi, b, blo, bhi, similarity, i, j, s)
    requires next ==
      if a[i] == b[j] then
        if s.equal.None? then s.(equal := Some((i, j))) else s
      else if similarity(a[i], b[j]) > s.bestRatio then
        SyncSearch(similarity(a[i], b[j]), i, j, s.equal)
      else
        s
    ensures Scanned(a, alo, ahi, b, blo, bhi, similarity, i + 1, j, next)
  {
  }

  /** Where _fancy_replace lines the region up: nowhere, on an identical pair, or on a similar pair. */
  datatype Synch = Plain | Identical(i: nat, j: nat) | Similar(i: nat, j: nat)

  /**
   * The outcome of _fancy_replace's search: the first of the most similar
   * pairs of different lines if its similarity reaches the cutoff; else the
   * first pair of identical lines; else none. Standing at (alo, bhi), the
   * predicates below speak of every pair of the region.
   */
  function ChooseSynch(a: seq<string>, alo: nat, ahi: nat, b: seq<string>, blo: nat, bhi: nat,
                       similarity: Similarity): (p: Synch)
    requires alo < ahi <= |a| && blo < bhi <= |b|
    ensures !p.Plain? ==> alo <= p.i < ahi && blo <= p.j < bhi
    ensures p.Identical? ==> a[p.i] == b[p.j]
    ensures p.Similar? ==>
      && FirstMostSimilar(a, alo, ahi, b, blo, bhi, similarity, p.i, p.j)
      && similarity(a[p.i], b[p.j]) >= CUTOFF
      && SimilarityAtMost(a, alo, ahi, b, blo, bhi, similarity, alo, bhi, similarity(a[p.i], b[p.j]))
    ensures p.Identical? ==>
      && FirstIdentical(a, alo, ahi, b, blo, bhi, p.i, p.j)
      && SimilarityBelow(a, alo, ahi, b, blo, bhi, similarity, alo, bhi, CUTOFF)
    ensures p.Plain? ==>
      && NoIdenticalBefore(a, alo, ahi, b, blo, bhi, alo, bhi)
      && SimilarityBelow(a, alo, ahi, b, blo, bhi, similarity, alo, bhi, CUTOFF)
  {
    var start := SyncSearch(BEST_RATIO_START, 0, 0, None);
    assert Scanned(a, alo, ahi, b, blo, bhi, similarity, alo, blo, start);
    var s := SearchSync(a, alo, ahi, b, blo, bhi, similarity, alo, blo, start);
    if s.bestRatio >= CUTOFF then Similar(s.bestI, s.bestJ)
    else if s.equal.Some? then Identical(s.equal.value.0, s.equal.value.1)
    else Plain
  }

  /** The lines written for the synch pair itself; the "? " hint lines are not part of this model. */
  function SynchLines(a: seq<string>, b: seq<string>, p: Synch): seq<DiffLine>
    requires !p.Plain? && p.i < |a| && p.j < |b|
  {
    if p.Identical? then [DiffLine(Unchanged, a[p.i])]
    else [DiffLine(Removed, a[p.i]), DiffLine(Added, b[p.j])]
  }

  /**
   * _fancy_replace: line up on the most similar pair of lines if it reaches
   * the cutoff (a "- " and a "+ " line), else on the first identical pair (an
   * unchanged line), else write the region out as a plain replace; the parts
   * before and after the pair are handled the same way.
   */
  function FancyReplace(a: seq<string>, alo: nat, ahi: nat, b: seq<string>, blo: nat, bhi: nat,
                        similarity: Similarity): seq<DiffLine>
    requires alo < ahi <= |a| && blo < bhi <= |b|
    decreases ahi - alo + bhi - blo, 0
  {
    var p := ChooseSynch(a, alo, ahi, b, blo, bhi, similarity);
    if p.Plain? then
      PlainReplace(a, alo, ahi, b, blo, bhi)
    else
      FancyHelper(a, alo, p.i, b, blo, p.j, similarity)
      + SynchLines(a, b, p)
      + FancyHelper(a, p.i + 1, ahi, b, p.j + 1, bhi, similarity)
  }

  /** _fancy_helper: a region with lines on both sides is searched again, a one-sided one dumped. */
  function FancyHelper(a: seq<string>, alo: nat, ahi: nat, b: seq<string>, blo: nat, bhi: nat,
                       similarity: Similarity): seq<DiffLine>
    requires alo <= ahi <= |a| && blo <= bhi <= |b|
    decreases ahi - alo + bhi - blo, 1
  {
    if alo < ahi then
      if blo < bhi then FancyReplace(a, alo, ahi, b, blo, bhi, similarity)
      else Dump(Removed, a, alo, ahi)
    else if blo < bhi then
      Dump(Added, b, blo, bhi)
    else
      []
  }

  /** _plain_replace shows the whole region on each side. */
  lemma PlainReplaceProjects(a: seq<string>, alo: nat, ahi: nat, b: seq<string>, blo: nat, bhi: nat)
    requires alo < ahi <= |a| && blo < bhi <= |b|
    ensures Before(PlainReplace(a, alo, ahi, b, blo, bhi)) == a[alo..ahi]
    ensures After(PlainReplace(a, alo, ahi, b, blo, bhi)) == b[blo..bhi]
  {
    DumpProjects(Added, b, blo, bhi);
    DumpProjects(Removed, a, alo, ahi);
    if bhi - blo < ahi - alo {
      ProjectAppend(Dump(Added, b, blo, bhi), Dump(Removed, a, alo, ahi));
    } else {
      ProjectAppend(Dump(Removed, a, alo, ahi), Dump(Added, b, blo, bhi));
    }
  }

  /**
   * Around a synch pair (i, j): what comes before it, the pair's own lines and
   * what comes after it show the region on each side.
   */
  lemma SynchProjects(a: seq<string>, alo: nat, i: nat, ahi: nat, b: seq<string>, blo: nat, j: nat, bhi: nat,
                      whole: seq<DiffLine>, left: seq<DiffLine>, pair: seq<DiffLine>, right: seq<DiffLine>)
    requires alo <= i < ahi <= |a| && blo <= j < bhi <= |b|
    requires whole == left + pair + right
    requires Before(left) == a[alo..i] && After(left) == b[blo..j]
    requires Before(pair) == [a[i]] && After(pair) == [b[j]]
    requires Before(right) == a[i + 1..ahi] && After(right) == b[j + 1..bhi]
    ensures Before(whole) == a[alo..ahi]
    ensures After(whole) == b[blo..bhi]
  {
    ProjectAppend(left, pair);
    ProjectAppend(left + pair, right);
    SliceAround(a, alo, i, ahi);
    SliceAround(b, blo, j, bhi);
  }

  lemma SliceAround<T>(s: seq<T>, lo: nat, k: nat, hi: nat)
    requires lo <= k < hi <= |s|
    ensures s[lo..hi] == s[lo..k] + [s[k]] + s[k + 1..hi]
  {
  }

  /** A "- " line followed by a "+ " line shows one line on each side. */
  lemma ChangedPairProjects(x: string, y: string)
    ensures Before([DiffLine(Removed, x), DiffLine(Added, y)]) == [x]
    ensures After([DiffLine(Removed, x), DiffLine(Added, y)]) == [y]
  {
    SingleProjects(DiffLine(Removed, x));
    SingleProjects(DiffLine(Added, y));
    ProjectAppend([DiffLine(Removed, x)], [DiffLine(Added, y)]);
    assert [DiffLine(Removed, x), DiffLine(Added, y)] == [DiffLine(Removed, x)] + [DiffLine(Added, y)];
  }

  lemma SingleProjects(line: DiffLine)
    ensures Before([line]) == if line.kind != Added then [line.text] else []
    ensures After([line]) == if line.kind != Removed then [line.text] else []
  {
    assert [line][1..] == [];
  }

  /** The synch pair shows one line on each side. */
  lemma SynchLinesProjects(a: seq<string>, b: seq<string>, p: Synch)
    requires !p.Plain? && p.i < |a| && p.j < |b|
    requires p.Identical? ==> a[p.i] == b[p.j]
    ensures Before(SynchLines(a, b, p)) == [a[p.i]]
    ensures After(SynchLines(a, b, p)) == [b[p.j]]
  {
    if p.Identical? {
      SingleProjects(DiffLine(Unchanged, a[p.i]));
    } else {
      ChangedPairProjects(a[p.i], b[p.j]);
    }
  }

  /** _fancy_replace loses no line: the "  " and "- " lines are the region of a, the "  " and "+ " lines that of b. */
  lemma {:induction false} FancyReplaceProjects(a: seq<string>, alo: nat, ahi: nat, b: seq<string>, blo: nat, bhi: nat,
                                                similarity: Similarity)
    requires alo < ahi <= |a| && blo < bhi <= |b|
    ensures Before(FancyReplace(a, alo, ahi, b, blo, bhi, similarity)) == a[alo..ahi]
    ensures After(FancyReplace(a, alo, ahi, b, blo, bhi, similarity)) == b[blo..bhi]
    decreases ahi - alo + bhi - blo, 0
  {
    var p := ChooseSynch(a, alo, ahi, b, blo, bhi, similarity);
    if p.Plain? {
      PlainProjects(a, alo, ahi, b, blo, bhi, similarity);
    } else {
      var left := FancyHelper(a, alo, p.i, b, blo, p.j, similarity);
      var i1, j1 := p.i + 1, p.j + 1;
      var right := FancyHelper(a, i1, ahi, b, j1, bhi, similarity);
      FancyHelperProjects(a, alo, p.i, b, blo, p.j, similarity);
      FancyHelperProjects(a, i1, ahi, b, j1, bhi, similarity);
      SynchLinesProjects(a, b, p);
      SynchedUnfold(a, alo, ahi, b, blo, bhi, similarity, p, i1, j1, left, right);
      SynchProjects(a, alo, p.i, ahi, b, blo, p.j, bhi,
                    FancyReplace(a, alo, ahi, b, blo, bhi, similarity), left, SynchLines(a, b, p), right);
    }
  }

  /** With no pair to line up on, _fancy_replace is a plain replace. */
  lemma PlainProjects(a: seq<string>, alo: nat, ahi: nat, b: seq<string>, blo: nat, bhi: nat, similarity: Similarity)
    requires alo < ahi <= |a| && blo < bhi <= |b|
    requires ChooseSynch(a, alo, ahi, b, blo, bhi, similarity).Plain?
    ensures Before(FancyReplace(a, alo, ahi, b, blo, bhi, similarity)) == a[alo..ahi]
    ensures After(FancyReplace(a, alo, ahi, b, blo, bhi, similarity)) == b[blo..bhi]
  {
    assert FancyReplace(a, alo, ahi, b, blo, bhi, similarity) == PlainReplace(a, alo, ahi, b, blo, bhi);
    PlainReplaceProjects(a, alo, ahi, b, blo, bhi);
  }

  lemma SynchedUnfold(a: seq<string>, alo: nat, ahi: nat, b: seq<string>, blo: nat, bhi: nat, similarity: Similarity,
                      p: Synch, i1: nat, j1: nat, left: seq<DiffLine>, right: seq<DiffLine>)
    requires alo < ahi <= |a| && blo < bhi <= |b|
    requires p == ChooseSynch(a, alo, ahi, b, blo, bhi, similarity) && !p.Plain?
    requires i1 == p.i + 1 && j1 == p.j + 1
    requires left == FancyHelper(a, alo, p.i, b, blo, p.j, similarity)
    requires right == FancyHelper(a, i1, ahi, b, j1, bhi, similarity)
    ensures FancyReplace(a, alo, ahi, b, blo, bhi, similarity) == left + SynchLines(a, b, p) + right
  {
  }

  lemma {:induction false} FancyHelperProjects(a: seq<string>, alo: nat, ahi: nat, b: seq<string>, blo: nat, bhi: nat,
                                               similarity: Similarity)
    requires alo <= ahi <= |a| && blo <= bhi <= |b|
    ensures Before(FancyHelper(a, alo, ahi, b, blo, bhi, similarity)) == a[alo..ahi]
    ensures After(FancyHelper(a, alo, ahi, b, blo, bhi, similarity)) == b[blo..bhi]
    decreases ahi - alo + bhi - blo, 1
  {
    if alo < ahi && blo < bhi {
      FancyReplaceProjects(a, alo, ahi, b, blo, bhi, similarity);
    } else if alo < ahi {
      DumpProjects(Removed, a, alo, ahi);
    } else {
      DumpProjects(Added, b, blo, bhi);
    }
  }

  /** What Differ.compare writes for one opcode. */
  function Dispatch(a: seq<string>, b: seq<string>, op: Opcode, similarity: Similarity): seq<DiffLine>
    requires Describes(a, b, op)
  {
    match op.tag
    case Replace => FancyReplace(a, op.alo, op.ahi, b, op.blo, op.bhi, similarity)
    case Delete => Dump(Removed, a, op.alo, op.ahi)
    case Insert => Dump(Added, b, op.blo, op.bhi)
    case Equal => Dump(Unchanged, a, op.alo, op.ahi)
  }

  lemma DispatchProjects(a: seq<string>, b: seq<string>, op: Opcode, similarity: Similarity)
    requires Describes(a, b, op)
    ensures Before(Dispatch(a, b, op, similarity)) == a[op.alo..op.ahi]
    ensures After(Dispatch(a, b, op, similarity)) == b[op.blo..op.bhi]
  {
    match op.tag
    case Replace => FancyReplaceProjects(a, op.alo, op.ahi, b, op.blo, op.bhi, similarity);
    case Delete => DumpProjects(Removed, a, op.alo, op.ahi);
    case Insert => DumpProjects(Added, b, op.blo, op.bhi);
    case Equal => DumpProjects(Unchanged, a, op.alo, op.ahi);
  }

  /** Differ.compare's loop over the opcodes, which tile a[i..] and b[j..]. */
  function CompareOps(a: seq<string>, b: seq<string>, ops: seq<Opcode>, i: nat, j: nat, similarity: Similarity): seq<DiffLine>
    requires Tiles(a, b, ops, i, j)
    decreases |ops|
  {
    if ops == [] then []
    else Dispatch(a, b, ops[0], similarity) + CompareOps(a, b, ops[1..], ops[0].ahi, ops[0].bhi, similarity)
  }

  lemma SliceSplit<T>(s: seq<T>, i: nat, k: nat)
    requires i <= k <= |s|
    ensures s[i..] == s[i..k] + s[k..]
  {
  }

  /** Opcodes that tile a[i..] and b[j..] are written out as a report showing exactly those lines. */
  lemma {:induction false} CompareOpsProjects(a: seq<string>, b: seq<string>, ops: seq<Opcode>, i: nat, j: nat,
                                              similarity: Similarity)
    requires Tiles(a, b, ops, i, j)
    ensures Before(CompareOps(a, b, ops, i, j, similarity)) == a[i..]
    ensures After(CompareOps(a, b, ops, i, j, similarity)) == b[j..]
    decreases |ops|
  {
    if ops != [] {
      var op, rest := ops[0], ops[1..];
      var head := Dispatch(a, b, op, similarity);
      var tail := CompareOps(a, b, rest, op.ahi, op.bhi, similarity);
      assert CompareOps(a, b, ops, i, j, similarity) == head + tail;
      CompareOpsProjects(a, b, rest, op.ahi, op.bhi, similarity);
      DispatchProjects(a, b, op, similarity);
      ProjectAppend(head, tail);
      SliceSplit(a, i, op.ahi);
      SliceSplit(b, j, op.bhi);
    }
  }

  /**
   * difflib.ndiff(a, b) with no line junk: the report's "  " and "- " lines
   * are a, its "  " and "+ " lines are b, whatever the similarity.
   */
  function Compare(a: seq<string>, b: seq<string>, similarity: Similarity): (report: seq<DiffLine>)
    ensures Before(report) == a
    ensures After(report) == b
  {
    var ops := GetOpcodes(a, b);
    CompareOpsProjects(a, b, ops, 0, 0, similarity);
    assert a[0..] == a && b[0..] == b;
    CompareOps(a, b, ops, 0, 0, similarity)
  }

  /** The opcodes of one block covering both sequences, followed by the sentinel. */
  lemma OpcodesOfFullBlock(n: nat)
    ensures OpcodesFrom([Matching.Block(0, 0, n), Matching.Block(n, n, 0)], 0, 0)
         == if n > 0 then [Opcode(Equal, 0, n, 0, n)] else []
  {
    var sentinel := Matching.Block(n, n, 0);
    var blocks := [Matching.Block(0, 0, n), sentinel];
    assert blocks[1..] == [sentinel];
    assert [sentinel][1..] == [];
    assert OpcodesFrom([sentinel], n, n) == [];
  }

  /** The opcodes of a sequence against itself: one equal opcode, or none for an empty one. */
  lemma GetOpcodesOfEqual<T>(a: seq<T>)
    ensures GetOpcodes(a, a) == if |a| > 0 then [Opcode(Equal, 0, |a|, 0, |a|)] else []
  {
    Matching.GetMatchingBlocksOfEqual(a);
    if |a| > 0 {
      OpcodesOfFullBlock(|a|);
    } else {
      var sentinel := Matching.Block(0, 0, 0);
      assert [] + [sentinel] == [sentinel];
      assert [sentinel][1..] == [];
    }
  }

  /** A text typed exactly as the snippet gets a report of unchanged lines only. */
  lemma CompareOfEqual(a: seq<string>, similarity: Similarity)
    ensures Compare(a, a, similarity) == Dump(Unchanged, a, 0, |a|)
  {
    var ops := GetOpcodes(a, a);
    assert CompareOps(a, a, ops, 0, 0, similarity) == Dump(Unchanged, a, 0, |a|) by {
      GetOpcodesOfEqual(a);
      if |a| > 0 {
        assert ops[1..] == [];
        assert CompareOps(a, a, ops, 0, 0, similarity) == Dump(Unchanged, a, 0, |a|) + [];
      }
    }
    assert Compare(a, a, similarity) == CompareOps(a, a, ops, 0, 0, similarity);
  }

  /*
   * A snippet of three lines p, q, r typed as p, s, r, where s is a new line
   * that is not similar enough to q: the report keeps p and r and shows q as
   * removed and s as added.
   */

  /** The line the typist changed does not occur at a neighbouring position. */
  ghost predicate OneLineChanged(p: string, q: string, r: string, s: string)
  {
    p != q && q != r && q != s && s != p && s != r
  }

  /** The longest match of [p, q, r] and [p, s, r] is the first line. */
  lemma OneChangedLongest(p: string, q: string, r: string, s: string)
    requires OneLineChanged(p, q, r, s)
    ensures Matching.LongestMatch([p, q, r], [p, s, r], 0, 3, 0, 3) == Matching.Block(0, 0, 1)
  {
    Matching.SharedElementIsMatch([p, q, r], [p, s, r], 0, 3, 0, 3, 0, 0);
  }

  /** After the first line, the longest match is the last line. */
  lemma OneChangedRightLongest(p: string, q: string, r: string, s: string)
    requires OneLineChanged(p, q, r, s)
    ensures Matching.LongestMatch([p, q, r], [p, s, r], 1, 3, 1, 3) == Matching.Block(2, 2, 1)
  {
    var a, b := [p, q, r], [p, s, r];
    var m := Matching.LongestMatch(a, b, 1, 3, 1, 3);
    Matching.SharedElementIsMatch(a, b, 1, 3, 1, 3, 2, 2);
    Matching.MatchHead(a, b, 1, 3, 1, 3, m.a, m.b, m.size);
  }

  /** The matching blocks, before merging: the first line and the last line. */
  lemma OneChangedBlocks(p: string, q: string, r: string, s: string)
    requires OneLineChanged(p, q, r, s)
    ensures Matching.MatchingBlocks([p, q, r], [p, s, r], 0, 3, 0, 3)
         == [Matching.Block(0, 0, 1), Matching.Block(2, 2, 1)]
  {
    var a, b := [p, q, r], [p, s, r];
    var first, last := Matching.Block(0, 0, 1), Matching.Block(2, 2, 1);
    OneChangedRightLongest(p, q, r, s);
    Matching.NoBlocksAtMismatch(a, b, 1);
    Matching.MatchingBlocksOfTrailing(a, b, 1, 3, 1, 3);
    OneChangedLongest(p, q, r, s);
    Matching.MatchingBlocksOfLeading(a, b, 0, 3, 0, 3);
    Matching.ConsPair(Matching.MatchingBlocks(a, b, 0, 3, 0, 3), first, Matching.MatchingBlocks(a, b, 1, 3, 1, 3), last);
  }

  /** get_matching_blocks(): the two blocks, which are not adjacent, and the sentinel. */
  lemma OneChangedMatchingBlocks(p: string, q: string, r: string, s: string)
    requires OneLineChanged(p, q, r, s)
    ensures Matching.GetMatchingBlocks([p, q, r], [p, s, r])
         == [Matching.Block(0, 0, 1), Matching.Block(2, 2, 1), Matching.Block(3, 3, 0)]
  {
    OneChangedBlocks(p, q, r, s);
    Matching.GetMatchingBlocksOfTwo([p, q, r], [p, s, r], Matching.Block(0, 0, 1), Matching.Block(2, 2, 1));
  }

  /** get_opcodes() from the matching blocks. */
  lemma GetOpcodesUnfold<T>(a: seq<T>, b: seq<T>, blocks: seq<Matching.Block>)
    requires blocks == Matching.GetMatchingBlocks(a, b)
    ensures GetOpcodes(a, b) == OpcodesFrom(blocks, 0, 0)
  {
  }

  /** The opcodes of a block at the start, a block after a one-element gap, and the sentinel. */
  lemma OpcodesOfGap()
    ensures OpcodesFrom([Matching.Block(0, 0, 1), Matching.Block(2, 2, 1), Matching.Block(3, 3, 0)], 0, 0)
         == [Opcode(Equal, 0, 1, 0, 1), Opcode(Replace, 1, 2, 1, 2), Opcode(Equal, 2, 3, 2, 3)]
  {
    var first, last, sentinel := Matching.Block(0, 0, 1), Matching.Block(2, 2, 1), Matching.Block(3, 3, 0);
    var e1, rep, e2 := Opcode(Equal, 0, 1, 0, 1), Opcode(Replace, 1, 2, 1, 2), Opcode(Equal, 2, 3, 2, 3);
    assert [sentinel][1..] == [];
    OpcodesFromCons([sentinel], 3, 3, sentinel, []);
    var tail := [last, sentinel];
    assert tail[1..] == [sentinel];
    OpcodesFromCons(tail, 1, 1, last, []);
    assert BlockOpcodes(1, 1, last, []) == [rep] + ([e2] + []);
    var blocks := [first, last, sentinel];
    assert blocks[1..] == tail;
    OpcodesFromCons(blocks, 0, 0, first, [rep, e2]);
    assert BlockOpcodes(0, 0, first, [rep, e2]) == [] + ([e1] + [rep, e2]);
  }

  /** get_opcodes(): the first line is equal, the second replaced, the third equal. */
  lemma OneChangedOpcodes(p: string, q: string, r: string, s: string)
    requires OneLineChanged(p, q, r, s)
    ensures GetOpcodes([p, q, r], [p, s, r])
         == [Opcode(Equal, 0, 1, 0, 1), Opcode(Replace, 1, 2, 1, 2), Opcode(Equal, 2, 3, 2, 3)]
  {
    OneChangedMatchingBlocks(p, q, r, s);
    GetOpcodesUnfold([p, q, r], [p, s, r],
                     [Matching.Block(0, 0, 1), Matching.Block(2, 2, 1), Matching.Block(3, 3, 0)]);
    OpcodesOfGap();
  }

  /** The replaced pair is neither identical nor similar enough, so it is written as a plain replace. */
  lemma OneChangedReplace(p: string, q: string, r: string, s: string, similarity: Similarity)
    requires OneLineChanged(p, q, r, s) && similarity(q, s) < CUTOFF
    ensures FancyReplace([p, q, r], 1, 2, [p, s, r], 1, 2, similarity) == [DiffLine(Removed, q), DiffLine(Added, s)]
  {
    var a, b := [p, q, r], [p, s, r];
    var c := ChooseSynch(a, 1, 2, b, 1, 2, similarity);
    assert c.Plain?;
    assert Dump(Removed, a, 1, 2) == [DiffLine(Removed, q)];
    assert Dump(Added, b, 1, 2) == [DiffLine(Added, s)];
  }

  /** ndiff of [p, q, r] and [p, s, r]: p unchanged, q removed, s added, r unchanged. */
  lemma CompareOfOneChangedLine(p: string, q: string, r: string, s: string, similarity: Similarity)
    requires OneLineChanged(p, q, r, s) && similarity(q, s) < CUTOFF
    ensures Compare([p, q, r], [p, s, r], similarity)
         == [DiffLine(Unchanged, p), DiffLine(Removed, q), DiffLine(Added, s), DiffLine(Unchanged, r)]
  {
    var changed := [DiffLine(Removed, q), DiffLine(Added, s)];
    OneChangedOpcodes(p, q, r, s);
    OneChangedReplace(p, q, r, s, similarity);
    CompareOfMiddleReplace([p, q, r], [p, s, r], similarity, changed);
    FourLines(DiffLine(Unchanged, p), DiffLine(Removed, q), DiffLine(Added, s), DiffLine(Unchanged, r));
  }

  lemma FourLines(w: DiffLine, x: DiffLine, y: DiffLine, z: DiffLine)
    ensures [w] + [x, y] + [z] == [w, x, y, z]
  {
  }

  /**
   * Three lines against three lines whose opcodes are equal, replace, equal:
   * the first line unchanged, the replace's lines, the last line unchanged.
   */
  lemma CompareOfMiddleReplace(a: seq<string>, b: seq<string>, similarity: Similarity, middle: seq<DiffLine>)
    requires |a| == 3 && |b| == 3
    requires GetOpcodes(a, b) == [Opcode(Equal, 0, 1, 0, 1), Opcode(Replace, 1, 2, 1, 2), Opcode(Equal, 2, 3, 2, 3)]
    requires FancyReplace(a, 1, 2, b, 1, 2, similarity) == middle
    ensures Compare(a, b, similarity) == [DiffLine(Unchanged, a[0])] + middle + [DiffLine(Unchanged, a[2])]
  {
    var ops := GetOpcodes(a, b);
    CompareUnfold(a, b, similarity, ops);
    CompareOpsOfMiddleReplace(a, b, ops, similarity, middle);
  }

  lemma CompareUnfold(a: seq<string>, b: seq<string>, similarity: Similarity, ops: seq<Opcode>)
    requires ops == GetOpcodes(a, b)
    ensures Compare(a, b, similarity) == CompareOps(a, b, ops, 0, 0, similarity)
  {
  }

  lemma CompareOpsOfMiddleReplace(a: seq<string>, b: seq<string>, ops: seq<Opcode>, similarity: Similarity,
                                  middle: seq<DiffLine>)
    requires Tiles(a, b, ops, 0, 0) && |a| == 3 && |b| == 3
    requires ops == [Opcode(Equal, 0, 1, 0, 1), Opcode(Replace, 1, 2, 1, 2), Opcode(Equal, 2, 3, 2, 3)]
    requires FancyReplace(a, 1, 2, b, 1, 2, similarity) == middle
    ensures CompareOps(a, b, ops, 0, 0, similarity) == [DiffLine(Unchanged, a[0])] + middle + [DiffLine(Unchanged, a[2])]
  {
    var rest := ops[1..];
    var last := rest[1..];
    assert rest == [Opcode(Replace, 1, 2, 1, 2), Opcode(Equal, 2, 3, 2, 3)];
    assert last == [Opcode(Equal, 2, 3, 2, 3)];
    var tail := CompareOps(a, b, last, 2, 2, similarity);
    assert tail == [DiffLine(Unchanged, a[2])] by {
      CompareOpsCons(a, b, last, 2, 2, similarity);
      assert last[1..] == [];
      DumpOne(Unchanged, a, 2);
    }
    var mid := CompareOps(a, b, rest, 1, 1, similarity);
    assert mid == middle + tail by {
      CompareOpsCons(a, b, rest, 1, 1, similarity);
    }
    CompareOpsCons(a, b, ops, 0, 0, similarity);
    DumpOne(Unchanged, a, 0);
  }

  /** One step of Differ.compare's loop. */
  lemma CompareOpsCons(a: seq<string>, b: seq<string>, ops: seq<Opcode>, i: nat, j: nat, similarity: Similarity)
    requires Tiles(a, b, ops, i, j) && ops != []
    ensures CompareOps(a, b, ops, i, j, similarity)
         == Dispatch(a, b, ops[0], similarity) + CompareOps(a, b, ops[1..], ops[0].ahi, ops[0].bhi, similarity)
  {
  }

  /** _dump of a single line. */
  lemma DumpOne(kind: Kind, x: seq<string>, lo: nat)
    requires lo < |x|
    ensures Dump(kind, x, lo, lo + 1) == [DiffLine(kind, x[lo])]
  {
  }

  /** None of the strings holds a line boundary. */
  ghost predicate AllLines(xs: seq<string>)
  {
    forall k | 0 <= k < |xs| :: Lines.IsLine(xs[k])
  }

  lemma AllLinesCons(x: string, xs: seq<string>)
    requires AllLines([x] + xs)
    ensures Lines.IsLine(x) && AllLines(xs)
  {
    assert ([x] + xs)[0] == x;
    forall k | 0 <= k < |xs| ensures Lines.IsLine(xs[k]) {
      assert xs[k] == ([x] + xs)[k + 1];
    }
  }

  /** Every line of a report shows on the side, or sides, its kind belongs to. */
  lemma {:induction false} TextsAreLines(report: seq<DiffLine>)
    requires AllLines(Before(report)) && AllLines(After(report))
    ensures forall k | 0 <= k < |report| :: Lines.IsLine(report[k].text)
  {
    if report != [] {
      var rest := report[1..];
      HeadIsLine(report);
      TextsAreLines(rest);
      forall k | 0 <= k < |report| ensures Lines.IsLine(report[k].text) {
        if k > 0 {
          assert report[k] == rest[k - 1];
        }
      }
    }
  }

  /** The first line of a report shows on one of the sides, and the rest of the report shows on the rest of them. */
  lemma HeadIsLine(report: seq<DiffLine>)
    requires report != []
    requires AllLines(Before(report)) && AllLines(After(report))
    ensures Lines.IsLine(report[0].text)
    ensures AllLines(Before(report[1..])) && AllLines(After(report[1..]))
  {
    var head, rest := report[0], report[1..];
    if head.kind != Added {
      assert Before(report) == [head.text] + Before(rest);
      AllLinesCons(head.text, Before(rest));
    } else {
      assert Before(report) == Before(rest);
    }
    if head.kind != Removed {
      assert After(report) == [head.text] + After(rest);
      AllLinesCons(head.text, After(rest));
    } else {
      assert After(report) == After(rest);
    }
  }

  /** The two-character prefix of a report line. */
  function Prefix(kind: Kind): string
  {
    match kind
    case Unchanged => "  "
    case Removed => "- "
    case Added => "+ "
  }

  /** A line of ndiff's output: its prefix, then its text. */
  function Format(line: DiffLine): string
  {
    Prefix(line.kind) + line.text
  }

  /** Reads a line of ndiff's output back; a "? " hint line, or anything else, reads as nothing. */
  function Parse(s: string): (line: Option<DiffLine>)
    ensures line.Some? ==> Format(line.value) == s
  {
    if |s| < 2 then None
    else if s[..2] == "  " then Some(DiffLine(Unchanged, s[2..]))
    else if s[..2] == "- " then Some(DiffLine(Removed, s[2..]))
    else if s[..2] == "+ " then Some(DiffLine(Added, s[2..]))
    else None
  }

  lemma ParseFormat(line: DiffLine)
    ensures Parse(Format(line)) == Some(line)
  {
    var s := Format(line);
    assert s[..2] == Prefix(line.kind) && s[2..] == line.text;
  }

  function FormatAll(report: seq<DiffLine>): (lines: seq<string>)
    ensures |lines| == |report|
  {
    if report == [] then [] else [Format(report[0])] + FormatAll(report[1..])
  }

  /** The lines of a report read back as diff lines, hint lines skipped. */
  function ParseAll(lines: seq<string>): seq<DiffLine>
  {
    if lines == [] then []
    else
      var rest := ParseAll(lines[1..]);
      match Parse(lines[0])
      case Some(line) => [line] + rest
      case None => rest
  }

  lemma {:induction false} ParseAllFormatAll(report: seq<DiffLine>)
    ensures ParseAll(FormatAll(report)) == report
  {
    if report != [] {
      ParseFormat(report[0]);
      ParseAllFormatAll(report[1..]);
      assert FormatAll(report)[1..] == FormatAll(report[1..]);
      assert report == [report[0]] + report[1..];
    }
  }

  lemma {:induction false} FormattedLines(report: seq<DiffLine>)
    requires forall k | 0 <= k < |report| :: Lines.IsLine(report[k].text)
    ensures forall k | 0 <= k < |report| :: Lines.IsLine(FormatAll(report)[k]) && FormatAll(report)[k] != []
  {
    if report != [] {
      FormattedLines(report[1..]);
      var s := Format(report[0]);
      assert s == Prefix(report[0].kind) + report[0].text;
      assert forall k | 2 <= k < |s| :: s[k] == report[0].text[k - 2];
      assert Lines.IsLine(s);
      assert forall k | 1 <= k < |report| :: FormatAll(report)[k] == FormatAll(report[1..])[k - 1];
    }
  }

  /** The displayed report: "\n".join of the formatted lines. */
  function Render(report: seq<DiffLine>): string
  {
    Lines.Join(FormatAll(report))
  }

  /** A report whose texts are lines splits back into its formatted lines. */
  lemma RenderSplits(report: seq<DiffLine>)
    requires forall k | 0 <= k < |report| :: Lines.IsLine(report[k].text)
    ensures Lines.SplitLines(Render(report)) == FormatAll(report)
  {
    FormattedLines(report);
    Lines.SplitJoin(FormatAll(report));
  }

  /**
   * The comparison report app.py shows: ndiff over the lines of the snippet
   * and of the typed text, joined with newlines.  Read back line by line, its
   * "  " and "- " lines are the snippet's lines and its "  " and "+ " lines the
   * typed lines, in order.
   */
  function ComparisonReport(snippet: string, typed: string, similarity: Similarity): (text: string)
    ensures Before(ParseAll(Lines.SplitLines(text))) == Lines.SplitLines(snippet)
    ensures After(ParseAll(Lines.SplitLines(text))) == Lines.SplitLines(typed)
  {
    var report := Compare(Lines.SplitLines(snippet), Lines.SplitLines(typed), similarity);
    TextsAreLines(report);
    RenderSplits(report);
    ParseAllFormatAll(report);
    Render(report)
  }
}
