/** The older card view at the root of the scripts folder: two flags and two
    images, with the images brought in line with the flags after every call. */
module LegacyViews {

  class CardView {
    var isFaceUp: bool
    var isMatched: bool
    /** faceImage.enabled */
    var faceShown: bool
    /** backImage.enabled */
    var backShown: bool

    /** The images show what the flags say: the face only when face up and
        unmatched, the back only when face down and unmatched. */
    ghost predicate VisualsInSync()
      reads this
    {
      faceShown == (isFaceUp && !isMatched) && backShown == (!isFaceUp && !isMatched)
    }

    /** A freshly loaded card: the serialized flags and whatever the images
        were authored with. The class has no Awake, so nothing is applied yet. */
    constructor (isFaceUp: bool, isMatched: bool, faceShown: bool, backShown: bool)
      ensures this.isFaceUp == isFaceUp && this.isMatched == isMatched
      ensures this.faceShown == faceShown && this.backShown == backShown
    {
      this.isFaceUp := isFaceUp;
      this.isMatched := isMatched;
      this.faceShown := faceShown;
      this.backShown := backShown;
    }

    /** ApplyVisuals(): never shows face and back together. */
    method ApplyVisuals()
      modifies this
      ensures VisualsInSync() && !(faceShown && backShown)
      ensures isFaceUp == old(isFaceUp) && isMatched == old(isMatched)
    {
      faceShown := isFaceUp && !isMatched;
      backShown := !isFaceUp && !isMatched;
    }

    /** ResetForReuse(): face down and unmatched. */
    method ResetForReuse()
      modifies this
      ensures !isFaceUp && !isMatched
      ensures VisualsInSync() && backShown && !faceShown
    {
      isFaceUp := false;
      isMatched := false;
      ApplyVisuals();
    }

    /** Flip(): a matched card stays as it is; otherwise the face flag toggles. */
    method Flip()
      modifies this
      ensures isMatched == old(isMatched)
      ensures isFaceUp == if old(isMatched) then old(isFaceUp) else !old(isFaceUp)
      ensures old(isMatched) ==> unchanged(this)
      ensures !old(isMatched) ==> VisualsInSync()
    {
      if isMatched {
        return;
      }
      isFaceUp := !isFaceUp;
      ApplyVisuals();
    }

    /** SetMatched(matched): sets the matched flag and leaves the face flag. */
    method SetMatched(matched: bool)
      modifies this
      ensures isMatched == matched && isFaceUp == old(isFaceUp)
      ensures VisualsInSync()
      ensures matched ==> !faceShown && !backShown
    {
      isMatched := matched;
      ApplyVisuals();
    }
  }

  /** Flipping an unmatched card twice brings back its flags, and a flip of
      a card whose visuals were in sync keeps face and back exclusive. */
  method FlipTwice(card: CardView)
    requires !card.isMatched
    modifies card
    ensures card.isFaceUp == old(card.isFaceUp) && card.isMatched == old(card.isMatched)
    ensures !(card.faceShown && card.backShown)
  {
    card.Flip();
    card.Flip();
  }
}
