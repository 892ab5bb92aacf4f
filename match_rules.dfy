/**
 * The rules of the tile-click handler and of the delayed revert, as functions
 * on the board: a sequence of tiles, each with its identifier and the three
 * flags the JavaScript code keeps as CSS classes (`found`, `peek`, `timeout`).
 * The class in MemoryGame performs these steps in place and is proved to
 * produce exactly these boards; the lemmas here state what the steps promise.
 */
module MatchRules {
  import opened BoardGeneration
  import opened TileIdentifier

  datatype Tile = Tile(identifier: string, found: bool, peek: bool, timeout: bool)

  type Board = seq<Tile>

  predicate IsPeeked(t: Tile) { t.peek }
  predicate IsFound(t: Tile) { t.found }

  // ---------------------------------------------------------------------------
  // Counting and finding tiles (the `$gameBoard.find('.' + cls)` selections)

  /** The number of tiles satisfying `f`. */
  function Count(b: Board, f: Tile -> bool): (n: nat)
    ensures n <= |b|
  {
    if b == [] then 0 else Count(b[..|b| - 1], f) + (if f(b[|b| - 1]) then 1 else 0)
  }

  function PeekCount(b: Board): nat { Count(b, IsPeeked) }
  function FoundCount(b: Board): nat { Count(b, IsFound) }

  lemma {:induction false} CountUpdate(b: Board, i: nat, t: Tile, f: Tile -> bool)
    requires i < |b|
    ensures Count(b[i := t], f) + (if f(b[i]) then 1 else 0) == Count(b, f) + (if f(t) then 1 else 0)
  {
    var n := |b| - 1;
    var c := b[i := t];
    if i < n {
      assert c[..n] == b[..n][i := t];
      CountUpdate(b[..n], i, t, f);
    } else {
      assert c[..n] == b[..n];
    }
  }

  lemma {:induction false} CountSame(b: Board, c: Board, f: Tile -> bool)
    requires |b| == |c| && forall j :: 0 <= j < |b| ==> f(b[j]) == f(c[j])
    ensures Count(b, f) == Count(c, f)
  {
    if b != [] {
      CountSame(b[..|b| - 1], c[..|c| - 1], f);
    }
  }

  lemma {:induction false} CountNone(b: Board, f: Tile -> bool)
    requires forall j :: 0 <= j < |b| ==> !f(b[j])
    ensures Count(b, f) == 0
  {
    if b != [] {
      CountNone(b[..|b| - 1], f);
    }
  }

  /** Counting every tile means every tile satisfies `f`. */
  lemma {:induction false} CountAll(b: Board, f: Tile -> bool)
    requires Count(b, f) == |b|
    ensures forall j :: 0 <= j < |b| ==> f(b[j])
  {
    if b != [] {
      CountAll(b[..|b| - 1], f);
      assert forall j :: 0 <= j < |b| - 1 ==> b[..|b| - 1][j] == b[j];
    }
  }

  /** The positions of the peeked tiles, in board order. */
  function PeekedIndices(b: Board): (ps: seq<nat>)
    ensures |ps| == PeekCount(b)
    ensures forall k :: 0 <= k < |ps| ==> ps[k] < |b| && b[ps[k]].peek
    ensures forall j, k :: 0 <= j < k < |ps| ==> ps[j] < ps[k]
    ensures forall j :: 0 <= j < |b| && b[j].peek ==> j in ps
  {
    if b == [] then []
    else
      var ps := PeekedIndices(b[..|b| - 1]);
      assert forall j :: 0 <= j < |b| - 1 ==> b[..|b| - 1][j] == b[j];
      if b[|b| - 1].peek then ps + [|b| - 1] else ps
  }

  // ---------------------------------------------------------------------------
  // The click

  /** A click on a found or peeked tile is ignored. */
  predicate Clickable(b: Board, i: nat)
    requires i < |b|
  {
    !b[i].found && !b[i].peek
  }

  /** `removeClass(peek).removeClass(timeout)` on a tile of the peeked selection. */
  function TurnBack(t: Tile): (r: Tile)
    ensures !r.peek && r.identifier == t.identifier && r.found == t.found
    ensures !t.peek ==> r == t
    ensures r.timeout ==> t.timeout
    ensures t.peek ==> !r.timeout
  {
    if t.peek then t.(peek := false, timeout := false) else t
  }

  function TurnBackAll(b: Board): (c: Board)
    ensures |c| == |b|
    ensures forall j :: 0 <= j < |b| ==> c[j] == TurnBack(b[j])
  {
    seq(|b|, j requires 0 <= j < |b| => TurnBack(b[j]))
  }

  /** The first half of a counted click: turn back a pair that is still shown,
      then peek the clicked tile. */
  function Uncover(b: Board, i: nat): (c: Board)
    requires i < |b|
    ensures |c| == |b| && c[i].peek
    ensures forall j :: 0 <= j < |b| ==> c[j].identifier == b[j].identifier && c[j].found == b[j].found
    ensures PeekCount(b) <= 1 ==> forall j :: 0 <= j < |b| && j != i ==> c[j] == b[j]
  {
    var c := if PeekCount(b) > 1 then TurnBackAll(b) else b;
    c[i := c[i].(peek := true)]
  }

  /** What comparing the peeked tiles finds. */
  datatype Comparison = Unpaired | Match(first: nat, second: nat) | Mismatch(first: nat, second: nat)

  /** Compare the peeked tiles when there are exactly two. */
  function Compare(c: Board): (cmp: Comparison)
    ensures !cmp.Unpaired? ==> && PeekedIndices(c) == [cmp.first, cmp.second]
                               && cmp.first < cmp.second < |c|
                               && (cmp.Match? <==> c[cmp.first].identifier == c[cmp.second].identifier)
    ensures cmp.Unpaired? <==> PeekCount(c) != 2
  {
    var ps := PeekedIndices(c);
    if |ps| != 2 then Unpaired
    else if c[ps[0]].identifier == c[ps[1]].identifier then Match(ps[0], ps[1])
    else Mismatch(ps[0], ps[1])
  }

  /** `addClass(found).removeClass(peek)` on a tile of a matching pair. */
  function Fix(t: Tile): Tile { t.(found := true, peek := false) }

  /** `addClass(timeout)` on a tile of a mismatching pair. */
  function Mark(t: Tile): Tile { t.(timeout := true) }

  /** The second half of a counted click: act on the comparison. */
  function Settle(c: Board, cmp: Comparison): (d: Board)
    requires !cmp.Unpaired? ==> cmp.first < |c| && cmp.second < |c|
    ensures |d| == |c|
    ensures forall j :: 0 <= j < |c| ==> d[j].identifier == c[j].identifier && (c[j].found ==> d[j].found)
  {
    match cmp
    case Unpaired => c
    case Match(p, q) => c[p := Fix(c[p])][q := Fix(c[q])]
    case Mismatch(p, q) => c[p := Mark(c[p])][q := Mark(c[q])]
  }

  /** The board after a click on tile `i`. */
  function ClickBoard(b: Board, i: nat): (r: Board)
    requires i < |b|
    ensures |r| == |b|
    ensures forall j :: 0 <= j < |b| ==> r[j].identifier == b[j].identifier && (b[j].found ==> r[j].found)
    ensures !Clickable(b, i) ==> r == b
  {
    if !Clickable(b, i) then b
    else
      var c := Uncover(b, i);
      Settle(c, Compare(c))
  }

  /** The comparison a click on tile `i` makes (Unpaired for an ignored click). */
  function ClickComparison(b: Board, i: nat): (cmp: Comparison)
    requires i < |b|
    ensures cmp.Unpaired? <==> !Clickable(b, i) || PeekCount(b) != 1
  {
    if !Clickable(b, i) then Unpaired
    else
      UncoverPeeks(b, i);
      Compare(Uncover(b, i))
  }

  /** The win check after a counted click: the found tiles number twice the pairs. */
  predicate Won(b: Board, pairs: nat)
  {
    FoundCount(b) == 2 * pairs
  }

  // ---------------------------------------------------------------------------
  // The delayed revert

  /** The revert on one tile of its pair: only a tile still marked `timeout`
      loses `peek` and `timeout`. */
  function Expire(t: Tile): (r: Tile)
    ensures !r.timeout && r.identifier == t.identifier && r.found == t.found
    ensures !t.timeout ==> r == t
    ensures r.peek ==> t.peek
    ensures t.timeout ==> !r.peek
  {
    if t.timeout then t.(peek := false, timeout := false) else t
  }

  /** The `setTimeout` callback for the pair `p`, `q`. */
  function Revert(b: Board, p: nat, q: nat): (r: Board)
    requires p < |b| && q < |b|
    ensures |r| == |b|
    ensures forall j :: 0 <= j < |b| ==> r[j] == if j == p || j == q then Expire(b[j]) else b[j]
  {
    var b1 := b[p := Expire(b[p])];
    b1[q := Expire(b1[q])]
  }

  // ---------------------------------------------------------------------------
  // A freshly filled board

  /** `fillBoard`: one face-down tile per image reference, with the identifier
      extracted from it. */
  function FreshBoard(urls: seq<string>): (b: Board)
    ensures |b| == |urls|
    ensures forall k :: 0 <= k < |b| ==> b[k].identifier == IdentifierOf(urls[k])
  {
    seq(|urls|, k requires 0 <= k < |urls| => Tile(IdentifierOf(urls[k]), false, false, false))
  }

  // ---------------------------------------------------------------------------
  // Invariants

  /** What every reachable board satisfies: at most two peeked tiles, no tile
      both peeked and found, and a `timeout` mark only on a tile that is peeked
      or found. */
  predicate Consistent(b: Board)
  {
    && PeekCount(b) <= 2
    && (forall j :: 0 <= j < |b| ==> !(b[j].peek && b[j].found))
    && (forall j :: 0 <= j < |b| ==> b[j].timeout ==> b[j].peek || b[j].found)
  }

  lemma TurnBackAllClearsPeeks(b: Board)
    ensures PeekCount(TurnBackAll(b)) == 0
  {
    CountNone(TurnBackAll(b), IsPeeked);
  }

  /** The peeked tiles after the uncovering step: the clicked tile alone when a
      pair was shown, and otherwise the clicked tile added to the one before. */
  lemma UncoverPeeks(b: Board, i: nat)
    requires i < |b| && Clickable(b, i)
    ensures PeekCount(b) > 1 ==> PeekCount(Uncover(b, i)) == 1
    ensures PeekCount(b) <= 1 ==> PeekCount(Uncover(b, i)) == PeekCount(b) + 1
  {
    var c := if PeekCount(b) > 1 then TurnBackAll(b) else b;
    if PeekCount(b) > 1 {
      TurnBackAllClearsPeeks(b);
    }
    CountUpdate(c, i, c[i].(peek := true), IsPeeked);
  }

  /** Acting on a comparison: a match removes both tiles from the peeked ones;
      a mismatch leaves the peeked ones as they are. */
  lemma SettlePeekCount(c: Board, cmp: Comparison)
    requires !cmp.Unpaired? ==> cmp.first < cmp.second < |c| && c[cmp.first].peek && c[cmp.second].peek
    ensures cmp.Match? ==> PeekCount(Settle(c, cmp)) + 2 == PeekCount(c)
    ensures !cmp.Match? ==> PeekCount(Settle(c, cmp)) == PeekCount(c)
  {
    match cmp
    case Unpaired =>
    case Match(p, q) =>
      var c1 := c[p := Fix(c[p])];
      CountUpdate(c, p, Fix(c[p]), IsPeeked);
      CountUpdate(c1, q, Fix(c1[q]), IsPeeked);
    case Mismatch(p, q) =>
      CountSame(c, Settle(c, cmp), IsPeeked);
  }

  /** A match adds both tiles to the found ones; a mismatch adds none. */
  lemma SettleFoundCount(c: Board, cmp: Comparison)
    requires !cmp.Unpaired? ==> cmp.first < cmp.second < |c| && !c[cmp.first].found && !c[cmp.second].found
    ensures FoundCount(Settle(c, cmp)) == FoundCount(c) + (if cmp.Match? then 2 else 0)
  {
    match cmp
    case Unpaired =>
    case Match(p, q) =>
      var c1 := c[p := Fix(c[p])];
      CountUpdate(c, p, Fix(c[p]), IsFound);
      CountUpdate(c1, q, Fix(c1[q]), IsFound);
    case Mismatch(p, q) =>
      CountSame(c, Settle(c, cmp), IsFound);
  }

  /** The per-tile part of `Consistent`. */
  predicate FlagsAgree(b: Board)
  {
    && (forall j :: 0 <= j < |b| ==> !(b[j].peek && b[j].found))
    && (forall j :: 0 <= j < |b| ==> b[j].timeout ==> b[j].peek || b[j].found)
  }

  lemma UncoverKeepsFlags(b: Board, i: nat)
    requires i < |b| && Clickable(b, i) && FlagsAgree(b)
    ensures FlagsAgree(Uncover(b, i))
  {
    var c := if PeekCount(b) > 1 then TurnBackAll(b) else b;
    assert FlagsAgree(c);
  }

  lemma SettleKeepsFlags(c: Board)
    requires FlagsAgree(c)
    ensures FlagsAgree(Settle(c, Compare(c)))
  {
  }

  /** Whatever the board before, a counted click leaves at most two tiles peeked. */
  lemma ClickLeavesAtMostTwoPeeked(b: Board, i: nat)
    requires i < |b| && Clickable(b, i)
    ensures PeekCount(ClickBoard(b, i)) <= 2
  {
    var c := Uncover(b, i);
    UncoverPeeks(b, i);
    SettlePeekCount(c, Compare(c));
  }

  /** Both steps keep a board consistent. */
  lemma ClickKeepsConsistent(b: Board, i: nat)
    requires i < |b| && Consistent(b)
    ensures Consistent(ClickBoard(b, i))
  {
    if Clickable(b, i) {
      ClickLeavesAtMostTwoPeeked(b, i);
      UncoverKeepsFlags(b, i);
      SettleKeepsFlags(Uncover(b, i));
    }
  }

  lemma RevertKeepsConsistent(b: Board, p: nat, q: nat)
    requires p < |b| && q < |b| && Consistent(b)
    ensures Consistent(Revert(b, p, q))
  {
    var b1 := b[p := Expire(b[p])];
    CountUpdate(b, p, Expire(b[p]), IsPeeked);
    CountUpdate(b1, q, Expire(b1[q]), IsPeeked);
  }

  /** A click never loses a found tile, never changes an identifier, and adds two
      found tiles exactly when it completes a match. */
  lemma ClickKeepsFound(b: Board, i: nat)
    requires i < |b| && Consistent(b)
    ensures forall j :: 0 <= j < |b| ==> ClickBoard(b, i)[j].identifier == b[j].identifier
    ensures forall j :: 0 <= j < |b| && b[j].found ==> ClickBoard(b, i)[j].found
    ensures FoundCount(ClickBoard(b, i)) ==
            FoundCount(b) + (if ClickComparison(b, i).Match? then 2 else 0)
  {
    if Clickable(b, i) {
      var c := Uncover(b, i);
      assert forall j :: 0 <= j < |b| ==> c[j].identifier == b[j].identifier && c[j].found == b[j].found;
      CountSame(b, c, IsFound);
      UncoverKeepsFlags(b, i);
      var cmp := Compare(c);
      assert cmp == ClickComparison(b, i);
      SettleFoundCount(c, cmp);
      var d := Settle(c, cmp);
      assert d == ClickBoard(b, i);
    }
  }

  /** The revert never changes found tiles or identifiers and never peeks a tile. */
  lemma RevertKeepsFound(b: Board, p: nat, q: nat)
    requires p < |b| && q < |b|
    ensures forall j :: 0 <= j < |b| ==> && Revert(b, p, q)[j].identifier == b[j].identifier
                                         && Revert(b, p, q)[j].found == b[j].found
                                         && (Revert(b, p, q)[j].peek ==> b[j].peek)
    ensures FoundCount(Revert(b, p, q)) == FoundCount(b)
  {
    CountSame(b, Revert(b, p, q), IsFound);
  }

  // ---------------------------------------------------------------------------
  // What a counted click does, case by case

  /** The first tile of a pair: only the clicked tile changes, it is now peeked. */
  lemma ClickFirstOfPair(b: Board, i: nat)
    requires i < |b| && Clickable(b, i) && PeekCount(b) == 0
    ensures ClickBoard(b, i) == b[i := b[i].(peek := true)]
    ensures ClickComparison(b, i) == Unpaired
  {
    UncoverPeeks(b, i);
  }

  /** A click while a pair is still shown turns both back (clearing `peek` and
      `timeout`), then peeks the clicked tile, which is then the only peeked one. */
  lemma ClickInterruptsShownPair(b: Board, i: nat)
    requires i < |b| && Clickable(b, i) && PeekCount(b) >= 2
    ensures ClickBoard(b, i) == TurnBackAll(b)[i := b[i].(peek := true)]
    ensures PeekedIndices(ClickBoard(b, i)) == [i]
    ensures ClickComparison(b, i) == Unpaired
  {
    UncoverPeeks(b, i);
    var r := ClickBoard(b, i);
    assert r[i].peek;
    var ps := PeekedIndices(r);
    assert i in ps;
  }

  /** Peeking the second tile of a pair: the two peeked tiles in board order. */
  lemma UncoverSecond(b: Board, i: nat)
    requires i < |b| && Clickable(b, i) && PeekCount(b) == 1
    ensures var p := PeekedIndices(b)[0];
            && p != i
            && Uncover(b, i) == b[i := b[i].(peek := true)]
            && PeekedIndices(Uncover(b, i)) == if p < i then [p, i] else [i, p]
  {
    var p := PeekedIndices(b)[0];
    UncoverPeeks(b, i);
    assert p != i;
    var c := b[i := b[i].(peek := true)];
    assert Uncover(b, i) == c;
    if p < i {
      TwoPeeked(c, p, i);
    } else {
      TwoPeeked(c, i, p);
    }
  }

  /** With exactly two peeked tiles, known to be at `x < y`, those are the peeked positions. */
  lemma TwoPeeked(c: Board, x: nat, y: nat)
    requires x < y < |c| && c[x].peek && c[y].peek && PeekCount(c) == 2
    ensures PeekedIndices(c) == [x, y]
  {
    var ps := PeekedIndices(c);
    assert x in ps && y in ps;
  }

  /** The second tile of a matching pair: both tiles become found and are no
      longer peeked; nothing else changes. */
  lemma ClickCompletesMatch(b: Board, i: nat)
    requires i < |b| && Clickable(b, i) && PeekCount(b) == 1
    requires b[PeekedIndices(b)[0]].identifier == b[i].identifier
    ensures var p := PeekedIndices(b)[0];
            && ClickBoard(b, i) == b[p := Fix(b[p])][i := Fix(b[i])]
            && PeekCount(ClickBoard(b, i)) == 0
            && ClickComparison(b, i).Match?
  {
    var p := PeekedIndices(b)[0];
    UncoverSecond(b, i);
    var c := Uncover(b, i);
    var x, y := if p < i then p else i, if p < i then i else p;
    assert Compare(c) == Match(x, y);
    var r := ClickBoard(b, i);
    assert r == c[x := Fix(c[x])][y := Fix(c[y])];
    assert Fix(c[i]) == Fix(b[i]) && c[p] == b[p];
    OverwriteUpdate(b, i, p, b[i].(peek := true), Fix(b[i]), Fix(b[p]));
    SettlePeekCount(c, Compare(c));
  }

  /** The second tile of a mismatching pair: both tiles stay peeked and are
      marked `timeout`; nothing else changes. */
  lemma ClickMarksMismatch(b: Board, i: nat)
    requires i < |b| && Clickable(b, i) && PeekCount(b) == 1
    requires b[PeekedIndices(b)[0]].identifier != b[i].identifier
    ensures var p := PeekedIndices(b)[0];
            && ClickBoard(b, i) == b[p := Mark(b[p])][i := b[i].(peek := true, timeout := true)]
            && PeekCount(ClickBoard(b, i)) == 2
            && ClickComparison(b, i) == Mismatch(if p < i then p else i, if p < i then i else p)
  {
    var p := PeekedIndices(b)[0];
    UncoverSecond(b, i);
    var c := Uncover(b, i);
    var x, y := if p < i then p else i, if p < i then i else p;
    assert Compare(c) == Mismatch(x, y);
    var r := ClickBoard(b, i);
    assert r == c[x := Mark(c[x])][y := Mark(c[y])];
    assert Mark(c[i]) == b[i].(peek := true, timeout := true) && c[p] == b[p];
    OverwriteUpdate(b, i, p, b[i].(peek := true), b[i].(peek := true, timeout := true), Mark(b[p]));
    SettlePeekCount(c, Compare(c));
  }

  /** Updating tile `i` twice around an update of another tile keeps the last. */
  lemma OverwriteUpdate(s: Board, i: nat, p: nat, t: Tile, u: Tile, v: Tile)
    requires i < |s| && p < |s| && i != p
    ensures s[i := t][p := v][i := u] == s[p := v][i := u]
    ensures s[i := t][i := u][p := v] == s[p := v][i := u]
  {
    var a, b := s[i := t][p := v][i := u], s[p := v][i := u];
    forall j | 0 <= j < |s| ensures a[j] == b[j] {
    }
    var a', b' := s[i := t][i := u][p := v], s[p := v][i := u];
    forall j | 0 <= j < |s| ensures a'[j] == b'[j] {
    }
  }

  /** A won game has every tile found once the board holds `2 * pairs` tiles, so
      every later click is ignored and the win is signalled once. */
  lemma WonBoardIgnoresClicks(b: Board, pairs: nat, i: nat)
    requires Won(b, pairs) && |b| == 2 * pairs && i < |b|
    ensures !Clickable(b, i) && ClickBoard(b, i) == b
  {
    CountAll(b, IsFound);
  }

  /** With fewer tiles than `2 * pairs` (too few coins passed the filter) the win
      is never signalled. */
  lemma ShortBoardNeverWins(b: Board, pairs: nat)
    requires |b| < 2 * pairs
    ensures !Won(b, pairs)
  {
  }

  /** A mismatch followed by its own revert, with no click in between: both
      tiles are turned back, the one peeked before the click being the only
      tile that differs from the board before it, and no tile stays peeked. */
  lemma MismatchThenRevert(b: Board, i: nat)
    requires i < |b| && Clickable(b, i) && PeekCount(b) == 1 && Consistent(b)
    requires b[PeekedIndices(b)[0]].identifier != b[i].identifier
    ensures var p := PeekedIndices(b)[0];
            var cmp := ClickComparison(b, i);
            && cmp.Mismatch?
            && Revert(ClickBoard(b, i), cmp.first, cmp.second) == b[p := b[p].(peek := false, timeout := false)]
            && PeekCount(Revert(ClickBoard(b, i), cmp.first, cmp.second)) == 0
  {
    ClickMarksMismatch(b, i);
    var p := PeekedIndices(b)[0];
    assert b[p].peek && !b[i].timeout;
    var cmp := ClickComparison(b, i);
    RevertOfMarkedPair(b, p, i, cmp.first, cmp.second);
    CountUpdate(b, p, b[p].(peek := false, timeout := false), IsPeeked);
  }

  /** The revert of a pair just marked by a mismatching click, where `p` was
      peeked before the click and `i` is the clicked tile. */
  lemma RevertOfMarkedPair(b: Board, p: nat, i: nat, x: nat, y: nat)
    requires p < |b| && i < |b| && b[p].peek && !b[i].peek && !b[i].timeout
    requires (x == p && y == i) || (x == i && y == p)
    ensures Revert(b[p := Mark(b[p])][i := b[i].(peek := true, timeout := true)], x, y)
            == b[p := b[p].(peek := false, timeout := false)]
  {
    var r := b[p := Mark(b[p])][i := b[i].(peek := true, timeout := true)];
    assert Expire(r[p]) == b[p].(peek := false, timeout := false);
    assert Expire(r[i]) == b[i];
  }

  // ---------------------------------------------------------------------------
  // Stale reverts

  /** A revert whose pair no longer carries `timeout` changes nothing. */
  lemma RevertOfClearedPair(b: Board, p: nat, q: nat)
    requires p < |b| && q < |b| && !b[p].timeout && !b[q].timeout
    ensures Revert(b, p, q) == b
  {
  }

  /** A click that interrupts a shown mismatching pair makes the revert
      scheduled for that pair a no-op. */
  lemma InterruptedPairRevertIsNoOp(b: Board, i: nat)
    requires i < |b| && Clickable(b, i) && PeekCount(b) == 2
    ensures var ps := PeekedIndices(b);
            Revert(ClickBoard(b, i), ps[0], ps[1]) == ClickBoard(b, i)
  {
    ClickInterruptsShownPair(b, i);
    var ps := PeekedIndices(b);
    var p, q := ps[0], ps[1];
    var r := ClickBoard(b, i);
    assert b[p].peek && b[q].peek;
    assert p != i && q != i;
    assert r[p] == TurnBackAll(b)[p] == TurnBack(b[p]);
    assert r[q] == TurnBackAll(b)[q] == TurnBack(b[q]);
    RevertOfClearedPair(r, p, q);
  }

  /** The revert recognises its pair by the `timeout` mark alone. When one of its
      tiles was clicked again into a newer mismatching pair, the older revert
      turns that tile back early and leaves the other tile of the newer pair
      peeked and marked on its own; the board stays consistent. */
  lemma StaleRevertEndsNewerPair(b: Board, i: nat)
    requires Consistent(b) && PeekCount(b) == 2 && i < |b| && Clickable(b, i)
    requires var p := PeekedIndices(b)[0]; b[i].identifier != b[p].identifier
    ensures var p, q := PeekedIndices(b)[0], PeekedIndices(b)[1];
            var b1 := ClickBoard(b, i);
            && p < |b1| && Clickable(b1, p)
            && var b2 := ClickBoard(b1, p);
               && ClickComparison(b1, p).Mismatch?
               && var b3 := Revert(b2, p, q);
                  && !b3[p].peek && b3[i].peek && b3[i].timeout
                  && PeekCount(b3) == 1
                  && Consistent(b3)
  {
    var p, q := PeekedIndices(b)[0], PeekedIndices(b)[1];
    ClickInterruptsShownPair(b, i);
    var b1 := ClickBoard(b, i);
    ClickKeepsConsistent(b, i);
    assert b1[p] == TurnBack(b[p]);
    assert Clickable(b1, p);
    ClickMarksMismatch(b1, p);
    var b2 := ClickBoard(b1, p);
    ClickKeepsConsistent(b1, p);
    assert PeekedIndices(b1)[0] == i;
    assert b2 == b1[i := Mark(b1[i])][p := b1[p].(peek := true, timeout := true)];
    assert b[q].peek && q != i && q != p;
    assert b1[q] == TurnBackAll(b)[q] == TurnBack(b[q]);
    assert b2[q] == b1[q] && !b2[q].timeout;
    assert b2[p] == b1[p].(peek := true, timeout := true);
    assert b1[i].peek && b2[i] == Mark(b1[i]);
    RevertOfHalfClearedPair(b2, p, q, i);
  }

  /** The revert of a pair whose tile `p` is marked again, now in a pair with
      `i`, while its other tile `q` no longer is: only `p` is turned back. */
  lemma RevertOfHalfClearedPair(b: Board, p: nat, q: nat, i: nat)
    requires Consistent(b) && PeekCount(b) == 2
    requires p < |b| && q < |b| && i < |b| && p != i && q != p
    requires b[p].peek && b[p].timeout && b[i].peek && b[i].timeout && !b[q].timeout
    ensures var r := Revert(b, p, q);
            && !r[p].peek && r[i].peek && r[i].timeout
            && PeekCount(r) == 1
            && Consistent(r)
  {
    RevertKeepsConsistent(b, p, q);
    assert Revert(b, p, q) == b[p := Expire(b[p])];
    CountUpdate(b, p, Expire(b[p]), IsPeeked);
  }

  // ---------------------------------------------------------------------------
  // The board a reset builds

  /** A freshly filled board has no found, peeked or marked tile. */
  lemma FreshBoardIsIdle(urls: seq<string>)
    ensures Consistent(FreshBoard(urls))
    ensures PeekCount(FreshBoard(urls)) == 0 && FoundCount(FreshBoard(urls)) == 0
    ensures forall j :: 0 <= j < |urls| ==> !FreshBoard(urls)[j].timeout
  {
    CountNone(FreshBoard(urls), IsPeeked);
    CountNone(FreshBoard(urls), IsFound);
  }

  function Identifiers(b: Board): (ids: seq<string>)
    ensures |ids| == |b|
  {
    seq(|b|, k requires 0 <= k < |b| => b[k].identifier)
  }

  /** Every coin's identifier twice, coin by coin. */
  function Twice(coins: seq<Coin>): (ids: seq<string>)
    ensures |ids| == 2 * |coins|
  {
    if coins == [] then [] else [coins[0].id, coins[0].id] + Twice(coins[1..])
  }

  lemma {:induction false} PairIdentifiers(w: UrlWrap, coins: seq<Coin>, useBack: bool)
    requires forall k :: 0 <= k < |coins| ==> PlainId(coins[k].id)
    requires !Contains(w.after, RecordTag)
    ensures Identifiers(FreshBoard(PairUrls(w, coins, useBack))) == Twice(coins)
  {
    if coins != [] {
      PairIdentifiers(w, coins[1..], useBack);
      IdentifierOfImageUrl(w, coins[0], false);
      IdentifierOfImageUrl(w, coins[0], useBack);
      var urls := PairUrls(w, coins, useBack);
      assert urls == [ImageUrl(w, coins[0], false), ImageUrl(w, coins[0], useBack)] + PairUrls(w, coins[1..], useBack);
      var ids := Identifiers(FreshBoard(urls));
      var rest := Identifiers(FreshBoard(PairUrls(w, coins[1..], useBack)));
      assert ids == [coins[0].id, coins[0].id] + rest;
    }
  }

  /** The board a reset builds from a generated image list holds every selected
      coin's identifier exactly twice (and as often as the coin was selected). */
  lemma GeneratedBoardHoldsPairs(w: UrlWrap, coins: seq<Coin>, lo: int, hi: int, pairs: nat, useBack: bool,
                                 picks: seq<nat>, order: seq<nat>)
    requires ValidChoices(coins, lo, hi, pairs, picks, order)
    requires forall k :: 0 <= k < |coins| && InRange(lo, hi, coins[k]) ==> PlainId(coins[k].id)
    requires !Contains(w.after, RecordTag)
    ensures multiset(Identifiers(FreshBoard(ShuffledImageUrls(w, coins, lo, hi, pairs, useBack, picks, order))))
            == multiset(Twice(SelectedCoins(coins, lo, hi, pairs, picks)))
  {
    var filtered := CenturyFilter(coins, lo, hi);
    var selected := SelectedCoins(coins, lo, hi, pairs, picks);
    CenturyFilterKeepsExactlyInRange(coins, lo, hi);
    forall k | 0 <= k < |selected| ensures PlainId(selected[k].id) {
      assert selected[k] == filtered[picks[k]];
      assert filtered[picks[k]] in multiset(filtered);
      assert filtered[picks[k]] in coins && InRange(lo, hi, filtered[picks[k]]);
    }
    var urls := PairUrls(w, selected, useBack);
    PairIdentifiers(w, selected, useBack);
    var ids := Identifiers(FreshBoard(urls));
    assert Identifiers(FreshBoard(Sample(urls, |urls|, order))) == Sample(ids, |ids|, order);
    SampleIsSubMultiset(ids, |ids|, order);
  }
}
