/** CardBoard: deals a deck onto the grid's cards and runs the match state
    machine over them. A pick is at most two cards; the second distinct pick
    locks input until the selection is resolved. The resolution coroutine
    is the separate step ResolveSelection, and the win announcement the
    scheduler delays is the separate step RaiseWin. */
module Board {
  import opened Engine
  import opened Sequences
  import Deck
  import Timer
  import Views
  import Grid

  /** What the board broadcasts through CardMatchEvents, in order. */
  datatype BoardEvent =
    | Matched(a: Views.CardView, b: Views.CardView)
    | Mismatched(a: Views.CardView, b: Views.CardView)
    | Won(elapsed: real)

  /** The column count BuildBoard deals with: one more when cols x rows is
      odd, which makes the card count even. */
  function DealtCols(cols: int, rows: int): (c: int)
    ensures (c * rows) % 2 == 0
    ensures cols <= c <= cols + 1
    ensures c == cols + 1 <==> (cols * rows) % 2 == 1
  {
    if (cols * rows) % 2 == 1 then
      ProductParity(cols, rows);
      ProductParity(cols + 1, rows);
      cols + 1
    else cols
  }

  /** The parity of a product is the product of the parities. */
  lemma ProductParity(x: int, y: int)
    ensures (x * y) % 2 == (x % 2) * (y % 2)
  {
    var a, p := x / 2, x % 2;
    var b, q := y / 2, y % 2;
    assert x * y == 2 * (2 * a * b + a * q + b * p) + p * q;
  }

  /** An odd product means both factors are odd, so within the grid's
      bounds there is room for one more column, and the new product is even. */
  lemma OddGridHasRoom(cols: int, rows: int)
    requires Grid.MinSize <= cols <= Grid.MaxSize && Grid.MinSize <= rows <= Grid.MaxSize
    requires (cols * rows) % 2 == 1
    ensures cols % 2 == 1 && rows % 2 == 1 && cols + 1 <= Grid.MaxSize
    ensures ((cols + 1) * rows) % 2 == 0
  {
    ProductParity(cols, rows);
    ProductParity(cols + 1, rows);
  }

  /** A grid within bounds holds 4 to 100 cells, an int; an even count is
      its own EvenCount. */
  lemma SmallGrid(cols: int, rows: int)
    requires Grid.MinSize <= cols <= Grid.MaxSize && Grid.MinSize <= rows <= Grid.MaxSize
    requires (cols * rows) % 2 == 0
    ensures 4 <= cols * rows <= 100 && Deck.IsInt(cols * rows)
    ensures Deck.EvenCount(cols * rows) == cols * rows
  {
    assert 2 * rows <= cols * rows <= 10 * rows;
  }

  /** The grid is valid and none of its objects is the board, its timer or
      one of the given cards. */
  ghost predicate GridApart(grid: Grid.GridGeneratorUI, board: object, timer: object, cards: seq<Views.CardView>)
    reads grid, grid.pooler, grid.pooler.Repr
  {
    && grid.Valid()
    && board !in grid.Footprint() && timer !in grid.Footprint()
    && (forall c :: c in cards ==> c !in grid.Footprint())
  }

  /** Every card is matched. */
  predicate AllMatched(cards: seq<Views.CardView>)
    reads cards
  {
    forall k :: 0 <= k < |cards| ==> cards[k].isMatched
  }

  class CardBoard {
    /** _cards */
    var cards: seq<Views.CardView>
    /** _selection */
    var selection: seq<Views.CardView>
    /** _inputLocked */
    var inputLocked: bool
    /** Match, Mismatch and Win broadcasts so far. */
    var events: seq<BoardEvent>
    /** Win broadcasts the scheduler has not delivered yet. */
    var pendingWins: nat
    const timer: Timer.SimpleTimerService
    const grid: Grid.GridGeneratorUI
    /** The serialized face sprites; null when none were assigned. */
    const faces: Option<seq<Sprite>>

    /** At most two picks, input locked exactly when two distinct cards are
        picked, and picks come from the dealt cards. */
    ghost predicate Valid()
      reads this, cards
    {
      && |selection| <= 2 && (inputLocked <==> |selection| == 2) && NoDup(selection)
      && (forall c :: c in selection ==> c in cards)
      && NoDup(cards) && (forall c :: c in cards ==> c.Valid())
    }

    /** Field initialisers and Awake: no cards, nothing picked, a new timer. */
    constructor (grid: Grid.GridGeneratorUI, faces: Option<seq<Sprite>>)
      requires grid.Valid()
      ensures Valid() && fresh(timer) && GridApart(grid, this, timer, [])
      ensures cards == [] && selection == [] && !inputLocked && events == [] && pendingWins == 0
      ensures this.grid == grid && this.faces == faces
      ensures !timer.isRunning && timer.elapsed == 0.0
    {
      cards := [];
      selection := [];
      inputLocked := false;
      events := [];
      pendingWins := 0;
      timer := new Timer.SimpleTimerService();
      this.grid := grid;
      this.faces := faces;
    }

    /** BuildBoard(): widens an odd grid by one column, deals a deck of
        cols x rows cards onto the cards the factory returns (dealt), clears
        the pick and resets the timer. The returned deck is the one dealt. */
    method BuildBoard(dealt: seq<Views.CardView>, poolRolls: seq<int>, deckRolls: seq<int>)
      returns (ghost deck: seq<Deck.CardEntry>)
      requires Valid()
      requires GridApart(grid, this, timer, dealt) && NoDup(dealt) && (forall c :: c in dealt ==> c.Valid())
      requires |dealt| <= DealtCols(grid.cols, grid.rows) * grid.rows
      requires Deck.HasFaces(faces) ==> Deck.ForwardRolls(poolRolls, |faces.value|)
      requires Deck.ForwardRolls(deckRolls, DealtCols(grid.cols, grid.rows) * grid.rows)
      modifies this, timer, dealt, grid, grid.pooler, grid.pooler.Repr
      ensures Valid() && GridApart(grid, this, timer, cards) && fresh(grid.pooler.Repr - old(grid.pooler.Repr))
      ensures grid.rows == old(grid.rows) && grid.cols == DealtCols(old(grid.cols), old(grid.rows))
      ensures (grid.cols * grid.rows) % 2 == 0 && grid.Built()
      ensures cards == dealt && selection == [] && !inputLocked
      ensures !timer.isRunning && timer.elapsed == 0.0
      ensures events == old(events) && pendingWins == old(pendingWins)
      ensures |deck| == grid.cols * grid.rows
      ensures forall p :: Deck.Occurrences(deck, p) == if 0 <= p < |deck| / 2 then 2 else 0
      ensures forall k :: 0 <= k < |cards| ==>
                cards[k].pairId == deck[k].pairId && cards[k].face == deck[k].face
                && !cards[k].isFaceUp && !cards[k].isMatched
    {
      var total := PrepareGrid();
      deck := Deal(dealt, total, poolRolls, deckRolls);
    }

    /** The rest of BuildBoard once the grid holds total cards, total even:
        the deck builder makes a deck of total cards, the dealt cards show
        it, nothing is picked, input is open and the timer is reset. */
    method Deal(dealt: seq<Views.CardView>, total: int, poolRolls: seq<int>, deckRolls: seq<int>)
      returns (ghost deck: seq<Deck.CardEntry>)
      requires NoDup(dealt) && |dealt| <= total && Deck.IsInt(total) && total % 2 == 0
      requires Deck.HasFaces(faces) ==> Deck.ForwardRolls(poolRolls, |faces.value|)
      requires Deck.ForwardRolls(deckRolls, total)
      modifies this, timer, dealt
      ensures Valid() && cards == dealt && selection == [] && !inputLocked
      ensures !timer.isRunning && timer.elapsed == 0.0
      ensures events == old(events) && pendingWins == old(pendingWins)
      ensures |deck| == total
      ensures forall p :: Deck.Occurrences(deck, p) == if 0 <= p < |deck| / 2 then 2 else 0
      ensures forall k :: 0 <= k < |cards| ==>
                cards[k].pairId == deck[k].pairId && cards[k].face == deck[k].face
                && !cards[k].isFaceUp && !cards[k].isMatched
    {
      assert Deck.EvenCount(total) == total;
      var built := Deck.Build(total, faces, poolRolls, deckRolls);
      deck := built.deck;
      cards := dealt;
      SetupCards(built.deck);
      selection := [];
      inputLocked := false;
      timer.Reset();
    }

    /** The first step of BuildBoard: an odd cols x rows grid gets one more
        column through the Cols setter, which rebuilds it. */
    method EvenOutGrid() returns (total: int)
      requires grid.Valid()
      modifies grid, grid.pooler, grid.pooler.Repr
      ensures grid.Valid() && fresh(grid.pooler.Repr - old(grid.pooler.Repr))
      ensures grid.rows == old(grid.rows) && grid.cols == DealtCols(old(grid.cols), old(grid.rows))
      ensures total == grid.cols * grid.rows && total % 2 == 0
    {
      total := grid.cols * grid.rows;
      if total % 2 == 1 {
        OddGridHasRoom(grid.cols, grid.rows);
        grid.SetCols(grid.cols + 1);
        total := grid.cols * grid.rows;
      }
    }

    /** The grid half of BuildBoard: evens out the grid, then has the
        factory build it; total is the even card count. */
    method PrepareGrid() returns (total: int)
      requires grid.Valid()
      modifies grid, grid.pooler, grid.pooler.Repr
      ensures grid.Valid() && grid.Built() && fresh(grid.pooler.Repr - old(grid.pooler.Repr))
      ensures grid.rows == old(grid.rows) && grid.cols == DealtCols(old(grid.cols), old(grid.rows))
      ensures total == grid.cols * grid.rows && Deck.IsInt(total) && Deck.EvenCount(total) == total
    {
      total := EvenOutGrid();
      FactoryBuild();
      SmallGrid(grid.cols, grid.rows);
    }

    /** GridCardFactory.Build(cols, rows) on the board's own grid size:
        SetSize rebuilds the grid, which then holds cols x rows cards. */
    method FactoryBuild()
      requires grid.Valid()
      modifies grid, grid.pooler, grid.pooler.Repr
      ensures grid.Valid() && grid.Built() && fresh(grid.pooler.Repr - old(grid.pooler.Repr))
      ensures grid.rows == old(grid.rows) && grid.cols == old(grid.cols)
    {
      grid.SetSize(grid.cols, grid.rows);
    }

    /** The dealing loop of BuildBoard: card i shows deck[i]. */
    method SetupCards(deck: seq<Deck.CardEntry>)
      requires |cards| <= |deck| && NoDup(cards)
      modifies cards
      ensures forall k :: 0 <= k < |cards| ==>
                cards[k].Valid() && cards[k].pairId == deck[k].pairId && cards[k].face == deck[k].face
                && !cards[k].isFaceUp && !cards[k].isMatched
    {
      var i := 0;
      while i < |cards|
        invariant 0 <= i <= |cards|
        invariant forall k :: 0 <= k < i ==>
                    cards[k].Valid() && cards[k].pairId == deck[k].pairId && cards[k].face == deck[k].face
                    && !cards[k].isFaceUp && !cards[k].isMatched
      {
        cards[i].Setup(deck[i].face, deck[i].pairId);
        i := i + 1;
      }
    }

    /** OnCardClicked(card): ignored while input is locked or for a null
        card. Otherwise the timer starts if stopped, the card is revealed,
        and it becomes the first pick, or the second pick, which locks input,
        unless it is the card already picked. */
    method OnCardClicked(card: Views.CardView?)
      requires Valid() && (card != null ==> card in cards)
      modifies this, timer, cards
      ensures Valid()
      ensures cards == old(cards) && events == old(events) && pendingWins == old(pendingWins)
      ensures old(inputLocked) || card == null ==>
                unchanged(this, timer) && (forall c :: c in cards ==> unchanged(c))
      ensures !old(inputLocked) && card != null ==>
                timer.isRunning && timer.elapsed == old(timer.elapsed)
                && card.isFaceUp == (old(card.isFaceUp) || !old(card.isMatched))
                && card.isMatched == old(card.isMatched) && card.pairId == old(card.pairId)
                && (forall c :: c in cards && c != card ==> unchanged(c))
      ensures !old(inputLocked) && card != null && old(selection) == [] ==>
                selection == [card] && !inputLocked
      ensures !old(inputLocked) && card != null && |old(selection)| == 1 && old(selection[0]) == card ==>
                selection == old(selection) && !inputLocked
      ensures !old(inputLocked) && card != null && |old(selection)| == 1 && old(selection[0]) != card ==>
                selection == old(selection) + [card] && inputLocked
    {
      if inputLocked || card == null {
        return;
      }
      if !timer.isRunning {
        timer.Start();
      }
      card.Reveal();
      if |selection| == 0 {
        selection := selection + [card];
        return;
      }
      if |selection| == 1 {
        if selection[0] == card {
          return;
        }
        selection := selection + [card];
        inputLocked := true;
      }
    }

    /** ResolveSelection(), after its wait: equal pair ids mark both picks
        matched and broadcast a match, and a board left fully matched stops
        the timer and schedules the win; different pair ids broadcast a
        mismatch and turn both picks back. Either way the pick is cleared
        and input unlocked. Only the two picked cards change. */
    method ResolveSelection()
      requires Valid() && |selection| == 2
      modifies this, timer, selection
      ensures Valid() && selection == [] && !inputLocked && cards == old(cards)
      ensures var a, b := old(selection[0]), old(selection[1]);
              && a.pairId == old(a.pairId) && b.pairId == old(b.pairId)
              && (old(a.pairId) == old(b.pairId) ==> Resolved(a, b, old(events), old(pendingWins), old(timer.elapsed)))
              && (old(a.pairId) != old(b.pairId) ==>
                    events == old(events) + [Mismatched(a, b)] && pendingWins == old(pendingWins)
                    && unchanged(timer)
                    && a.isFaceUp == old(a.isFaceUp) && a.isMatched == old(a.isMatched)
                    && b.isFaceUp == old(b.isFaceUp) && b.isMatched == old(b.isMatched)
                    && (!old(a.isMatched) && old(a.isFaceUp) ==> a.pending == old(a.pending) + [Views.ConcealLater])
                    && (!old(b.isMatched) && old(b.isFaceUp) ==> b.pending == old(b.pending) + [Views.ConcealLater]))
    {
      var a := selection[0];
      var b := selection[1];
      assert a in selection && b in selection;
      if a.pairId == b.pairId {
        ResolveMatch(a, b);
      } else {
        ResolveMismatch(a, b);
      }
      selection := [];
      inputLocked := false;
    }

    /** The state a match leaves: both picks matched, the match broadcast,
        and, when no card is left unmatched, the timer stopped and one win
        scheduled. */
    ghost predicate Resolved(a: Views.CardView, b: Views.CardView, events0: seq<BoardEvent>, wins0: nat, elapsed0: real)
      reads this, timer, a, b, cards
    {
      && a.isMatched && b.isMatched && events == events0 + [Matched(a, b)]
      && pendingWins == wins0 + (if AllMatched(cards) then 1 else 0)
      && (AllMatched(cards) ==> !timer.isRunning)
      && timer.elapsed == elapsed0
    }

    /** The match branch of ResolveSelection. */
    method ResolveMatch(a: Views.CardView, b: Views.CardView)
      requires Valid() && selection == [a, b]
      modifies this, timer, a, b
      ensures Valid() && selection == old(selection) && cards == old(cards)
      ensures a.pairId == old(a.pairId) && b.pairId == old(b.pairId)
      ensures Resolved(a, b, old(events), old(pendingWins), old(timer.elapsed))
    {
      assert a in selection && b in selection;
      a.SetMatched(true);
      b.SetMatched(true);
      events := events + [Matched(a, b)];
      var all := IsAllMatched();
      if all {
        timer.Stop();
        pendingWins := pendingWins + 1;
      }
    }

    /** The mismatch branch of ResolveSelection. */
    method ResolveMismatch(a: Views.CardView, b: Views.CardView)
      requires Valid() && selection == [a, b]
      modifies this, a, b
      ensures Valid() && selection == old(selection) && cards == old(cards)
      ensures events == old(events) + [Mismatched(a, b)] && pendingWins == old(pendingWins)
      ensures a.pairId == old(a.pairId) && b.pairId == old(b.pairId)
      ensures a.isFaceUp == old(a.isFaceUp) && a.isMatched == old(a.isMatched)
      ensures b.isFaceUp == old(b.isFaceUp) && b.isMatched == old(b.isMatched)
      ensures !old(a.isMatched) && old(a.isFaceUp) ==> a.pending == old(a.pending) + [Views.ConcealLater]
      ensures !old(b.isMatched) && old(b.isFaceUp) ==> b.pending == old(b.pending) + [Views.ConcealLater]
    {
      assert a in selection && b in selection && selection[0] != selection[1];
      events := events + [Mismatched(a, b)];
      a.Conceal();
      b.Conceal();
    }

    /** IsAllMatched(): the first unmatched card ends the scan. */
    method IsAllMatched() returns (all: bool)
      ensures all <==> AllMatched(cards)
    {
      var i := 0;
      while i < |cards|
        invariant 0 <= i <= |cards|
        invariant forall k :: 0 <= k < i ==> cards[k].isMatched
      {
        if !cards[i].isMatched {
          return false;
        }
        i := i + 1;
      }
      return true;
    }

    /** The scheduled win announcement: it reports the timer's elapsed time
        at the moment it runs. */
    method RaiseWin()
      requires pendingWins > 0
      modifies this
      ensures pendingWins == old(pendingWins) - 1
      ensures events == old(events) + [Won(timer.elapsed)]
      ensures cards == old(cards) && selection == old(selection) && inputLocked == old(inputLocked)
    {
      pendingWins := pendingWins - 1;
      events := events + [Won(timer.elapsed)];
    }

    /** Restart(): builds the board again. */
    method Restart(dealt: seq<Views.CardView>, poolRolls: seq<int>, deckRolls: seq<int>)
      returns (ghost deck: seq<Deck.CardEntry>)
      requires Valid()
      requires GridApart(grid, this, timer, dealt) && NoDup(dealt) && (forall c :: c in dealt ==> c.Valid())
      requires |dealt| <= DealtCols(grid.cols, grid.rows) * grid.rows
      requires Deck.HasFaces(faces) ==> Deck.ForwardRolls(poolRolls, |faces.value|)
      requires Deck.ForwardRolls(deckRolls, DealtCols(grid.cols, grid.rows) * grid.rows)
      modifies this, timer, dealt, grid, grid.pooler, grid.pooler.Repr
      ensures Valid() && GridApart(grid, this, timer, cards) && cards == dealt && selection == [] && !inputLocked
      ensures !timer.isRunning && timer.elapsed == 0.0
      ensures events == old(events) && pendingWins == old(pendingWins)
      ensures grid.rows == old(grid.rows) && grid.cols == DealtCols(old(grid.cols), old(grid.rows))
      ensures (grid.cols * grid.rows) % 2 == 0 && grid.Built() && |deck| == grid.cols * grid.rows
      ensures forall p :: Deck.Occurrences(deck, p) == if 0 <= p < |deck| / 2 then 2 else 0
      ensures forall k :: 0 <= k < |cards| ==>
                cards[k].pairId == deck[k].pairId && cards[k].face == deck[k].face
                && !cards[k].isFaceUp && !cards[k].isMatched
    {
      deck := BuildBoard(dealt, poolRolls, deckRolls);
    }
  }
}
