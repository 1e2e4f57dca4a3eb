/** The gameplay card view: face-up / matched flags, a pair id, and three
    visual switches (face image, back image, button). Work the view defers
    through the scheduler or through its flip animation is kept as a list of
    pending steps that run later, one at a time, in an order the model does
    not fix. */
module Views {
  import opened Engine

  /** A deferred step: ApplyVisuals (scheduled by SetMatched, or run at the
      half turn of a flip), or the delayed body of Conceal. */
  datatype Deferred = ApplyVisualsLater | ConcealLater

  class CardView {
    var isFaceUp: bool
    var isMatched: bool
    /** PairId; -1 means "not dealt". */
    var pairId: int
    /** faceImage.sprite */
    var face: Sprite
    /** faceImage.enabled */
    var faceShown: bool
    /** backImage.enabled */
    var backShown: bool
    /** cardButton.interactable */
    var interactable: bool
    /** Deferred work not yet run. */
    var pending: seq<Deferred>

    /** The images show what the flags say. */
    ghost predicate VisualsInSync()
      reads this
    {
      faceShown == (isFaceUp && !isMatched) && backShown == (!isFaceUp && !isMatched)
    }

    /** Face and back are never shown together, the button is usable exactly
        when the card is unmatched, and once no ApplyVisuals is pending the
        images agree with the flags. */
    ghost predicate Valid()
      reads this
    {
      && !(faceShown && backShown)
      && interactable == !isMatched
      && (ApplyVisualsLater !in pending ==> VisualsInSync())
    }

    /** Field initialisers and Awake: the two flags come from the
        serialized fields, PairId starts at -1, and Awake applies the
        visuals. */
    constructor (isFaceUp: bool, isMatched: bool)
      ensures Valid() && VisualsInSync()
      ensures this.isFaceUp == isFaceUp && this.isMatched == isMatched
      ensures pairId == -1 && pending == []
    {
      this.isFaceUp := isFaceUp;
      this.isMatched := isMatched;
      pairId := -1;
      face := NoSprite;
      pending := [];
      new;
      ApplyVisuals();
    }

    /** ApplyVisuals(): images and button follow the flags. */
    method ApplyVisuals()
      modifies this
      ensures VisualsInSync() && interactable == !isMatched
      ensures isFaceUp == old(isFaceUp) && isMatched == old(isMatched)
      ensures pairId == old(pairId) && face == old(face) && pending == old(pending)
      ensures isMatched ==> !faceShown && !backShown
    {
      faceShown := isFaceUp && !isMatched;
      backShown := !isFaceUp && !isMatched;
      interactable := !isMatched;
    }

    /** OnClicked(): a matched or face-up card ignores the press; otherwise
        it reveals itself and raises Clicked once (the result says whether
        Clicked was raised). */
    method OnClicked() returns (clicked: bool)
      requires Valid()
      modifies this
      ensures Valid()
      ensures clicked <==> !old(isMatched) && !old(isFaceUp)
      ensures !clicked ==> unchanged(this)
      ensures clicked ==> isFaceUp && !isMatched && pending == old(pending) + [ApplyVisualsLater]
      ensures pairId == old(pairId) && face == old(face)
    {
      if isMatched || isFaceUp {
        return false;
      }
      Reveal();
      clicked := true;
    }

    /** Reveal(): no effect on a matched or face-up card; otherwise the card
        turns face up at once and its images follow at the flip's half turn. */
    method Reveal()
      requires Valid()
      modifies this
      ensures Valid()
      ensures old(isMatched) || old(isFaceUp) ==> unchanged(this)
      ensures !old(isMatched) && !old(isFaceUp) ==>
                isFaceUp && !isMatched && pending == old(pending) + [ApplyVisualsLater]
                && faceShown == old(faceShown) && backShown == old(backShown)
      ensures pairId == old(pairId) && face == old(face) && isMatched == old(isMatched)
    {
      if isMatched || isFaceUp {
        return;
      }
      isFaceUp := true;
      pending := pending + [ApplyVisualsLater];
    }

    /** Conceal(): no effect on a matched or face-down card; otherwise the
        turn face down is deferred by the flip-back delay. */
    method Conceal()
      requires Valid()
      modifies this
      ensures Valid()
      ensures old(isMatched) || !old(isFaceUp) ==> unchanged(this)
      ensures !old(isMatched) && old(isFaceUp) ==> pending == old(pending) + [ConcealLater]
      ensures isFaceUp == old(isFaceUp) && isMatched == old(isMatched)
      ensures pairId == old(pairId) && face == old(face)
    {
      if isMatched || !isFaceUp {
        return;
      }
      pending := pending + [ConcealLater];
    }

    /** SetMatched(matched): the flag and the button change at once; the
        images follow when the scheduled ApplyVisuals runs. */
    method SetMatched(matched: bool)
      requires Valid()
      modifies this
      ensures Valid()
      ensures isMatched == matched && interactable == !matched
      ensures isFaceUp == old(isFaceUp) && pairId == old(pairId) && face == old(face)
      ensures pending == old(pending) + [ApplyVisualsLater]
    {
      isMatched := matched;
      pending := pending + [ApplyVisualsLater];
      interactable := !matched;
    }

    /** Setup(faceSprite, pairId): deals the card face down and unmatched. */
    method Setup(faceSprite: Sprite, pairId: int)
      modifies this
      ensures Valid() && VisualsInSync()
      ensures this.pairId == pairId && face == faceSprite
      ensures !isFaceUp && !isMatched && backShown && !faceShown && interactable
      ensures pending == old(pending)
    {
      this.pairId := pairId;
      face := faceSprite;
      isFaceUp := false;
      isMatched := false;
      ApplyVisuals();
    }

    /** ResetForReuse(): back to the state of a fresh card, PairId -1. */
    method ResetForReuse()
      modifies this
      ensures Valid() && VisualsInSync()
      ensures !isFaceUp && !isMatched && pairId == -1 && face == old(face)
      ensures pending == old(pending)
    {
      isFaceUp := false;
      isMatched := false;
      pairId := -1;
      ApplyVisuals();
    }

    /** Runs pending step k. The delayed Conceal body does not look at the
        matched flag again: it turns the card face down and starts the flip
        whose half turn applies the visuals. */
    method RunPending(k: nat)
      requires Valid() && k < |pending|
      modifies this
      ensures Valid()
      ensures pairId == old(pairId) && face == old(face) && isMatched == old(isMatched)
      ensures old(pending[k]) == ApplyVisualsLater ==>
                isFaceUp == old(isFaceUp) && pending == old(pending[..k] + pending[k + 1..])
                && VisualsInSync()
      ensures old(pending[k]) == ConcealLater ==>
                !isFaceUp && pending == old(pending[..k] + pending[k + 1..]) + [ApplyVisualsLater]
    {
      var step := pending[k];
      pending := pending[..k] + pending[k + 1..];
      match step {
        case ApplyVisualsLater =>
          ApplyVisuals();
        case ConcealLater =>
          isFaceUp := false;
          pending := pending + [ApplyVisualsLater];
      }
    }
  }
}
