/**
 * The game board as the click handler and the delayed revert change it: a
 * fixed array of tiles, the move count, and a generation number that tells
 * the tiles of one filled board from those of the next (`fillBoard` replaces
 * every tile element, so a revert still pending from an earlier board only
 * touches elements that are no longer shown).
 */
module MemoryGame {
  import opened Wrappers
  import opened TileIdentifier
  import opened MatchRules

  /** A revert scheduled by a mismatching click: the board it belongs to and its pair. */
  datatype Pending = Pending(generation: nat, first: nat, second: nat)

  /** What a click reports: ignored, or counted with the result of the win check
      and the revert it scheduled, if any. */
  datatype ClickResult = Ignored | Counted(won: bool, pending: Option<Pending>)

  class Game {
    var tiles: array<Tile>
    var moveCount: nat
    var generation: nat

    /** The board as a value. */
    function Board(): Board
      reads this, tiles
    {
      tiles[..]
    }

    ghost predicate Valid()
      reads this, tiles
    {
      Consistent(tiles[..])
    }

    /** The revert a click with comparison `cmp` schedules on the current board. */
    function PendingFor(cmp: Comparison): (r: Option<Pending>)
      reads this
    {
      if cmp.Mismatch? then Some(Pending(generation, cmp.first, cmp.second)) else None
    }

    /** The page before the image data has arrived: no tiles yet. The page
        leaves the move count unset until the first reset; with no tile to
        click, that value is never read, and the model starts it at 0. */
    constructor ()
      ensures Valid() && Board() == [] && moveCount == 0 && generation == 0
    {
      tiles := new Tile[0];
      moveCount := 0;
      generation := 0;
    }

    /** `resetGame`: fill the board afresh from the image references `urls`
        (the result of `createShuffledImageUrls`) and set the move count to 0. */
    method Reset(urls: seq<string>)
      modifies this
      ensures Valid() && fresh(tiles)
      ensures Board() == FreshBoard(urls)
      ensures moveCount == 0 && generation == old(generation) + 1
    {
      var a := new Tile[|urls|];
      for k := 0 to |urls|
        modifies a
        invariant forall j :: 0 <= j < k ==> a[j] == FreshBoard(urls)[j]
      {
        a[k] := Tile(IdentifierOf(urls[k]), false, false, false);
      }
      tiles := a;
      moveCount := 0;
      generation := generation + 1;
      assert tiles[..] == FreshBoard(urls);
      FreshBoardIsIdle(urls);
    }

    /** `$gameBoard.find('.peek')`: the positions of the peeked tiles, in order. */
    method PeekedTiles() returns (ps: seq<nat>)
      ensures ps == PeekedIndices(Board())
    {
      ps := [];
      for k := 0 to tiles.Length
        invariant ps == PeekedIndices(tiles[..k])
      {
        assert tiles[..k + 1][..k] == tiles[..k];
        if tiles[k].peek {
          ps := ps + [k];
        }
      }
      assert tiles[..tiles.Length] == tiles[..];
    }

    /** `$gameBoard.find('.found').length`. */
    method FoundTiles() returns (n: nat)
      ensures n == FoundCount(Board())
    {
      n := 0;
      for k := 0 to tiles.Length
        invariant n == FoundCount(tiles[..k])
      {
        assert tiles[..k + 1][..k] == tiles[..k];
        if tiles[k].found {
          n := n + 1;
        }
      }
      assert tiles[..tiles.Length] == tiles[..];
    }

    /** `$oldPeek.removeClass(peek).removeClass(timeout)`. */
    method TurnBackPeeked()
      requires Valid()
      modifies tiles
      ensures Valid()
      ensures Board() == TurnBackAll(old(Board()))
    {
      for k := 0 to tiles.Length
        invariant forall j :: 0 <= j < k ==> tiles[j] == TurnBack(old(tiles[j]))
        invariant forall j :: k <= j < tiles.Length ==> tiles[j] == old(tiles[j])
      {
        tiles[k] := TurnBack(tiles[k]);
      }
      TurnBackAllClearsPeeks(old(tiles[..]));
      assert tiles[..] == TurnBackAll(old(tiles[..]));
    }

    /** The first half of a counted click on tile `i`. */
    method UncoverTile(i: nat)
      requires Valid() && i < tiles.Length && Clickable(Board(), i)
      modifies tiles
      ensures Valid()
      ensures Board() == Uncover(old(Board()), i)
    {
      ghost var b := tiles[..];
      UncoverPeeks(b, i);
      UncoverKeepsFlags(b, i);
      var oldPeek := PeekedTiles();
      if |oldPeek| > 1 {
        TurnBackPeeked();
      }
      tiles[i] := tiles[i].(peek := true);
    }

    /** The second half of a counted click: compare two peeked tiles and fix
        them as found, or mark them for the revert it returns. */
    method SettlePeeked() returns (pending: Option<Pending>)
      requires Valid()
      modifies tiles
      ensures Valid()
      ensures Board() == Settle(old(Board()), Compare(old(Board())))
      ensures pending == PendingFor(Compare(old(Board())))
    {
      ghost var c := tiles[..];
      var newPeek := PeekedTiles();
      pending := None;
      if |newPeek| == 2 {
        var p, q := newPeek[0], newPeek[1];
        if tiles[p].identifier == tiles[q].identifier {
          tiles[p] := tiles[p].(found := true, peek := false);
          tiles[q] := tiles[q].(found := true, peek := false);
        } else {
          tiles[p] := tiles[p].(timeout := true);
          tiles[q] := tiles[q].(timeout := true);
          pending := Some(Pending(generation, p, q));
        }
      }
      SettleKeepsFlags(c);
      SettlePeekCount(c, Compare(c));
    }

    /** The click handler on tile `i`, with `pairs` the value of `getNumberOfPairs()`. */
    method Click(i: nat, pairs: nat) returns (result: ClickResult)
      requires Valid() && i < tiles.Length
      modifies tiles, this`moveCount
      ensures Valid()
      ensures Board() == ClickBoard(old(Board()), i)
      ensures result.Ignored? <==> !Clickable(old(Board()), i)
      ensures result.Ignored? ==> Board() == old(Board())
      ensures moveCount == old(moveCount) + (if result.Ignored? then 0 else 1)
      ensures result.Counted? ==> result.won == Won(Board(), pairs)
      ensures result.Counted? ==> result.pending == PendingFor(ClickComparison(old(Board()), i))
    {
      ghost var b := tiles[..];
      if tiles[i].found || tiles[i].peek {
        return Ignored;
      }
      moveCount := moveCount + 1;
      UncoverTile(i);
      var pending := SettlePeeked();
      ClickKeepsConsistent(b, i);
      var found := FoundTiles();
      result := Counted(found == 2 * pairs, pending);
    }

    /** The `setTimeout` callback of a mismatching click: the tiles of its pair
        that still carry `timeout` lose `peek` and `timeout`. A revert of an
        earlier board touches only detached elements. */
    method OnTimeout(p: Pending)
      requires Valid()
      requires p.generation == generation ==> p.first < tiles.Length && p.second < tiles.Length
      modifies tiles
      ensures Valid()
      ensures Board() == if p.generation == generation then Revert(old(Board()), p.first, p.second)
                         else old(Board())
    {
      if p.generation == generation {
        ghost var b := tiles[..];
        var expireFirst, expireSecond := tiles[p.first].timeout, tiles[p.second].timeout;
        if expireFirst {
          tiles[p.first] := tiles[p.first].(peek := false, timeout := false);
        }
        if expireSecond {
          tiles[p.second] := tiles[p.second].(peek := false, timeout := false);
        }
        assert tiles[..] == Revert(b, p.first, p.second);
        RevertKeepsConsistent(b, p.first, p.second);
      }
    }
  }
}
