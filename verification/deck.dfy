/** DeckBuilder: turns a card count and a face pool into a shuffled deck in
    which every pair id occurs exactly twice. Random.Range is replaced by a
    sequence of draws ("rolls") that respect the range Random.Range promises. */
module Deck {
  import opened Engine
  import opened Sequences
  import opened Arith

  /** IDeckBuilder's CardEntry { face, pairId }. */
  datatype CardEntry = CardEntry(face: Sprite, pairId: int)

  /** Draws for a forward Fisher–Yates pass over n items: the draw used at
      step i is `Random.Range(i, n)`, which lies in [i, n). */
  predicate ForwardRolls(rolls: seq<int>, n: nat)
  {
    |rolls| == n && forall i :: 0 <= i < n ==> i <= rolls[i] < n
  }

  /** The list produced by the forward pass, from step i on: step i swaps
      position i with position rolls[i]. */
  function ForwardShuffle<T>(s: seq<T>, rolls: seq<int>, i: nat): (r: seq<T>)
    requires i <= |s| && ForwardRolls(rolls, |s|)
    ensures |r| == |s| && multiset(r) == multiset(s)
    decreases |s| - i
  {
    if i == |s| then s
    else
      SwapMultiset(s, i, rolls[i]);
      ForwardShuffle(Swap(s, i, rolls[i]), rolls, i + 1)
  }

  /** Shuffle<T>(IList<T>): the forward Fisher–Yates loop, in place. */
  method Shuffle<T>(a: array<T>, rolls: seq<int>)
    requires ForwardRolls(rolls, a.Length)
    modifies a
    ensures a[..] == ForwardShuffle(old(a[..]), rolls, 0)
    ensures multiset(a[..]) == multiset(old(a[..]))
  {
    var i := 0;
    while i < a.Length
      invariant 0 <= i <= a.Length
      invariant ForwardShuffle(a[..], rolls, i) == ForwardShuffle(old(a[..]), rolls, 0)
    {
      var j := rolls[i];
      ghost var before := a[..];
      a[i], a[j] := a[j], a[i];
      assert a[..] == Swap(before, i, j);
      i := i + 1;
    }
  }

  /** The range of C#'s int. */
  const IntMin: int := -0x8000_0000
  const IntMax: int := 0x7fff_ffff

  predicate IsInt(x: int)
  {
    IntMin <= x <= IntMax
  }

  /** The deck size Build uses: an odd count is rounded up by one with an
      unchecked int increment, so int.MaxValue, which is odd, wraps around to
      int.MinValue. The low bit of a negative int is set exactly when the
      Euclidean remainder by 2 is 1. */
  function EvenCount(totalCards: int): (n: int)
    requires IsInt(totalCards)
    ensures IsInt(n) && n % 2 == 0
    ensures totalCards < IntMax ==> totalCards <= n <= totalCards + 1
    ensures totalCards == IntMax ==> n == IntMin
  {
    if totalCards % 2 == 1 then (if totalCards == IntMax then IntMin else totalCards + 1) else totalCards
  }

  /** What Build does: return the deck, or throw ArgumentOutOfRangeException
      when the pair count handed to the List capacity constructor is
      negative. */
  datatype BuildOutcome = Returned(deck: seq<CardEntry>) | CapacityOutOfRange

  /** A face list is usable when it is neither null nor empty. */
  predicate HasFaces(faces: Option<seq<Sprite>>)
  {
    faces.Some? && |faces.value| > 0
  }

  /** The face that pair i receives: none without faces, otherwise the
      shuffled face pool read round-robin. */
  function FaceFor(i: nat, faces: Option<seq<Sprite>>, poolRolls: seq<int>): (face: Sprite)
    requires HasFaces(faces) ==> ForwardRolls(poolRolls, |faces.value|)
    ensures HasFaces(faces) ==> face in faces.value
    ensures !HasFaces(faces) ==> face == NoSprite
  {
    var pool := if HasFaces(faces) then ForwardShuffle(faces.value, poolRolls, 0) else [];
    assert HasFaces(faces) ==> pool[i % |faces.value|] in multiset(pool);
    if HasFaces(faces) then pool[i % |faces.value|] else NoSprite
  }

  /** The entry Build deals for pair i. */
  function PairEntry(i: nat, faces: Option<seq<Sprite>>, poolRolls: seq<int>): CardEntry
    requires HasFaces(faces) ==> ForwardRolls(poolRolls, |faces.value|)
  {
    CardEntry(FaceFor(i, faces, poolRolls), i)
  }

  /** Every entry of a list written twice in a row: [e0, e0, e1, e1, ...]. */
  function Doubled<T>(s: seq<T>): seq<T>
  {
    seq(2 * |s|, k requires 0 <= k < 2 * |s| => s[k / 2])
  }

  /** Doubling a list holds each of its entries twice as often as the list
      does, and nothing else. */
  lemma {:induction false} DoubledMultiset<T>(s: seq<T>)
    ensures |Doubled(s)| == 2 * |s|
    ensures multiset(Doubled(s)) == multiset(s) + multiset(s)
  {
    if s != [] {
      var t, x := s[..|s| - 1], s[|s| - 1];
      DoubledMultiset(t);
      assert Doubled(s) == Doubled(t) + [x, x];
      assert s == t + [x];
    }
  }

  /** The pair ids of a deck, in deck order. */
  function PairIds(deck: seq<CardEntry>): (ids: seq<int>)
    ensures |ids| == |deck|
    ensures forall k :: 0 <= k < |deck| ==> ids[k] == deck[k].pairId
  {
    seq(|deck|, k requires 0 <= k < |deck| => deck[k].pairId)
  }

  /** How many entries of the deck carry pair id p. */
  function Occurrences(deck: seq<CardEntry>, p: int): nat
  {
    multiset(PairIds(deck))[p]
  }

  /** PickSpritesForPairs: pair i gets pair id i and the face FaceFor(i). */
  method PickSpritesForPairs(pairCount: nat, faces: Option<seq<Sprite>>, poolRolls: seq<int>)
    returns (res: seq<CardEntry>)
    requires HasFaces(faces) ==> ForwardRolls(poolRolls, |faces.value|)
    ensures |res| == pairCount
    ensures forall i :: 0 <= i < pairCount ==> res[i] == PairEntry(i, faces, poolRolls)
  {
    res := [];
    if !HasFaces(faces) {
      var i := 0;
      while i < pairCount
        invariant 0 <= i <= pairCount
        invariant |res| == i
        invariant forall k :: 0 <= k < i ==> res[k] == PairEntry(k, faces, poolRolls)
      {
        res := res + [CardEntry(NoSprite, i)];
        i := i + 1;
      }
      return;
    }
    var faceList := faces.value;
    var pool := new Sprite[|faceList|](k requires 0 <= k < |faceList| => faceList[k]);
    assert pool[..] == faceList;
    Shuffle(pool, poolRolls);
    ghost var shuffled := pool[..];
    assert shuffled == ForwardShuffle(faceList, poolRolls, 0);
    var n := pool.Length;
    ModUnique(0, n, 0, 0);
    var idx := 0;
    var i := 0;
    while i < pairCount
      invariant 0 <= i <= pairCount
      invariant idx == i % n
      invariant |res| == i
      invariant forall k :: 0 <= k < i ==> res[k] == PairEntry(k, faces, poolRolls)
    {
      ghost var entry := PairEntry(i, faces, poolRolls);
      assert entry == CardEntry(shuffled[idx], i);
      res := res + [CardEntry(pool[idx], i)];
      assert (idx + 1) % n == (i + 1) % n by { ModSuccessor(i, n); }
      idx := (idx + 1) % n;
      i := i + 1;
    }
  }

  /** Advancing a round-robin index: (i mod n + 1) mod n = (i + 1) mod n. */
  lemma ModSuccessor(i: nat, n: nat)
    requires n > 0
    ensures (i % n + 1) % n == (i + 1) % n
  {
    var q, r := i / n, i % n;
    assert i == n * q + r;
    if r + 1 == n {
      ModUnique(i + 1, n, q + 1, 0);
      ModUnique(r + 1, n, 1, 0);
    } else {
      ModUnique(i + 1, n, q, r + 1);
      ModUnique(r + 1, n, 0, r + 1);
    }
  }

  /** Build(totalCards, faces): rounds the count up to even, builds one entry
      per pair, writes each entry twice and shuffles the result. */
  method Build(totalCards: int, faces: Option<seq<Sprite>>, poolRolls: seq<int>, deckRolls: seq<int>)
    returns (result: BuildOutcome)
    requires IsInt(totalCards)
    requires HasFaces(faces) ==> ForwardRolls(poolRolls, |faces.value|)
    requires EvenCount(totalCards) >= 0 ==> ForwardRolls(deckRolls, EvenCount(totalCards))
    ensures result.CapacityOutOfRange? <==> EvenCount(totalCards) < 0
    ensures result.Returned? ==> |result.deck| == EvenCount(totalCards)
    ensures result.Returned? ==>
              forall p :: Occurrences(result.deck, p) == if 0 <= p < |result.deck| / 2 then 2 else 0
    ensures result.Returned? ==>
              forall k :: 0 <= k < |result.deck| ==>
                0 <= result.deck[k].pairId < |result.deck| / 2
                && result.deck[k] == PairEntry(result.deck[k].pairId, faces, poolRolls)
  {
    var total := totalCards;
    if total % 2 == 1 {
      total := if total == IntMax then IntMin else total + 1;
    }
    var pairCount := total / 2;
    if pairCount < 0 {
      return CapacityOutOfRange;
    }
    var pairList := PickSpritesForPairs(pairCount, faces, poolRolls);
    var list := DoublePairs(pairList);
    var arr := new CardEntry[|list|](k requires 0 <= k < |list| => list[k]);
    assert arr[..] == list;
    Shuffle(arr, deckRolls);
    var deck := arr[..];
    DoubledPairsOccurTwice(pairList, faces, poolRolls);
    ShufflePreservesPairIds(list, deckRolls, 0);
    ShuffledPairsAreEntries(pairList, faces, poolRolls, deck);
    result := Returned(deck);
  }

  /** The loop of Build that adds every pair entry twice, in order. */
  method DoublePairs(pairList: seq<CardEntry>) returns (list: seq<CardEntry>)
    ensures list == Doubled(pairList)
  {
    list := [];
    var i := 0;
    while i < |pairList|
      invariant 0 <= i <= |pairList|
      invariant |list| == 2 * i
      invariant forall m :: 0 <= m < |list| ==> list[m] == pairList[m / 2]
    {
      list := list + [pairList[i], pairList[i]];
      i := i + 1;
    }
  }

  /** Any permutation of the doubled pair list holds only pair entries. */
  lemma ShuffledPairsAreEntries(pairs: seq<CardEntry>, faces: Option<seq<Sprite>>, poolRolls: seq<int>, deck: seq<CardEntry>)
    requires HasFaces(faces) ==> ForwardRolls(poolRolls, |faces.value|)
    requires forall i :: 0 <= i < |pairs| ==> pairs[i] == PairEntry(i, faces, poolRolls)
    requires multiset(deck) == multiset(Doubled(pairs))
    ensures forall k :: 0 <= k < |deck| ==>
              0 <= deck[k].pairId < |pairs| && deck[k] == PairEntry(deck[k].pairId, faces, poolRolls)
  {
    var list := Doubled(pairs);
    forall k | 0 <= k < |deck|
      ensures 0 <= deck[k].pairId < |pairs| && deck[k] == PairEntry(deck[k].pairId, faces, poolRolls)
    {
      assert deck[k] in multiset(list);
      var m :| 0 <= m < |list| && list[m] == deck[k];
      assert list[m] == pairs[m / 2];
    }
  }

  /** The doubled pair list carries each id of [0, |pairs|) exactly twice. */
  lemma DoubledPairsOccurTwice(pairs: seq<CardEntry>, faces: Option<seq<Sprite>>, poolRolls: seq<int>)
    requires HasFaces(faces) ==> ForwardRolls(poolRolls, |faces.value|)
    requires forall i :: 0 <= i < |pairs| ==> pairs[i] == PairEntry(i, faces, poolRolls)
    ensures forall p :: Occurrences(Doubled(pairs), p) == if 0 <= p < |pairs| then 2 else 0
  {
    assert PairIds(Doubled(pairs)) == TwiceEach(|pairs|);
    TwiceEachOccurrences(|pairs|);
  }

  /** The id sequence [0, 0, 1, 1, ..., n-1, n-1]. */
  function TwiceEach(n: nat): seq<int>
  {
    seq(2 * n, k requires 0 <= k < 2 * n => k / 2)
  }

  lemma {:induction false} TwiceEachOccurrences(n: nat)
    ensures forall p :: multiset(TwiceEach(n))[p] == if 0 <= p < n then 2 else 0
  {
    if n > 0 {
      TwiceEachOccurrences(n - 1);
      assert TwiceEach(n) == TwiceEach(n - 1) + [n - 1, n - 1];
      assert multiset(TwiceEach(n)) == multiset(TwiceEach(n - 1)) + multiset{n - 1, n - 1};
    }
  }

  /** Shuffling a deck shuffles its pair ids the same way, so it keeps the
      number of entries carrying each pair id. */
  lemma {:induction false} ShufflePreservesPairIds(deck: seq<CardEntry>, rolls: seq<int>, i: nat)
    requires i <= |deck| && ForwardRolls(rolls, |deck|)
    ensures PairIds(ForwardShuffle(deck, rolls, i)) == ForwardShuffle(PairIds(deck), rolls, i)
    ensures forall p :: Occurrences(ForwardShuffle(deck, rolls, i), p) == Occurrences(deck, p)
    decreases |deck| - i
  {
    if i < |deck| {
      var swapped := Swap(deck, i, rolls[i]);
      assert PairIds(swapped) == Swap(PairIds(deck), i, rolls[i]);
      SwapMultiset(PairIds(deck), i, rolls[i]);
      ShufflePreservesPairIds(swapped, rolls, i + 1);
    }
  }
}
