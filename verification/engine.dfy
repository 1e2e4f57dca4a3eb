/** Engine-level vocabulary shared by every part of the model: nullable
    values, Unity object identities, sprites and Mathf.Clamp. */
module Engine {

  /** A value that may be absent; None stands for C#'s null / default(T). */
  datatype Option<+T> = None | Some(value: T)

  /** A Unity GameObject. It carries no state of its own in the model: only its
      identity matters, so `new GameObject()` plays the part of Instantiate. */
  class GameObject {
    constructor ()
    {
    }
  }

  /** A sprite asset reference; NoSprite is a null Sprite. */
  datatype Sprite = NoSprite | SpriteAsset(id: nat)

  /** Mathf.Clamp(value, min, max) on ints: first raised to min, then lowered to max. */
  function Clamp(value: int, min: int, max: int): (r: int)
    ensures min <= max ==> min <= r <= max
    ensures min <= value <= max ==> r == value
    ensures value < min ==> r == min
    ensures min <= max < value ==> r == max
  {
    if value < min then min else if value > max then max else value
  }
}
