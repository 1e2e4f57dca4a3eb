# Memory-game engine in Dafny

This project models the engine of a Unity card-matching ("memory") game and
proves properties of the model. The model covers these parts:

- **DeckBuilder** turns a card count and a face pool into a shuffled deck.
  The count is rounded up to even. Pair `i` gets pair id `i` and a face taken
  round-robin from a shuffled copy of the pool. Every pair is written twice and
  the deck is shuffled with a forward Fisher–Yates pass.
- **Pooler / Pool / PoolingUtils** form the object pool. A registry maps every
  prefab and every pooled instance to one pool. Each pool keeps an in-use list
  and an idle list. Spawn reuses the first idle instance or creates one.
  Despawn is idempotent. Prewarming tops a pool up to a count.
- **CardBoard** is the match state machine. It holds the dealt cards, a pick
  of at most two cards and an input lock. It deals a deck onto the grid's
  cards, resolves a pair of picks into a match or a mismatch, and detects the
  win.
- **CardView** exists in two versions: the gameplay view and the older view
  at the root of the scripts folder. Each is a flag machine over face-up and
  matched, with images that follow the flags. Only the gameplay view also
  carries a pair id and a face sprite.
- **SimpleTimerService** holds a running flag and an elapsed time.
- **GridGeneratorUI** clamps its rows and columns to [2, 10]. It keeps its
  active list at rows x cols in-use instances of the card prefab.
- **Extensions** holds the list helpers: `ConcatArrays` … `ToDictionary`,
  `SafeTake`, `ToCleanString`, `Shuffle` and `ShuffleInPlace`.

Engine objects and engine services are modelled as follows:

- A Unity `GameObject` is a field-less class, so only its identity matters.
  `Instantiate` is `new GameObject()`.
- A sprite is an id.
- `Mathf.Clamp` is `Engine.Clamp`.
- A C# null list or delegate is `None`. A thrown exception is the `Threw`
  outcome.
- `Random.Range` is replaced by a sequence of draws ("rolls"). A predicate
  states the range that each draw lies in.
- Work the game defers through its scheduler or a coroutine becomes an
  explicit step that runs later:
  - `Views.CardView.pending` and `Views.CardView.RunPending`;
  - `Board.CardBoard.pendingWins` and `Board.CardBoard.RaiseWin`;
  - `Board.CardBoard.ResolveSelection`.
- The `Pooler.Instance` singleton is passed explicitly.
- The broadcasts of the game's event bus become an append-only log,
  `Board.CardBoard.events`.

Files, one module each:

| file | module |
|---|---|
| `engine.dfy` | Engine |
| `arith.dfy` | Arith, for C# `int` wrap-around |
| `sequences.dfy` | Sequences |
| `extensions.dfy` | Extensions |
| `deck.dfy` | Deck |
| `pooler.dfy` | Pooling and PoolingUtils |
| `timer.dfy` | Timer |
| `card_view.dfy` | Views |
| `legacy_card_view.dfy` | LegacyViews |
| `grid.dfy` | Grid |
| `board.dfy` | Board |

## Model

| member | source | states |
|---|---|---|
| Engine.Clamp | Assets/Game/Scripts/Features/Grid/GridGeneratorUI.cs:31 | Mathf.Clamp: the result lies in [min, max]; a value already in range is kept; a value below min gives min and one above max gives max |
| Sequences.Swap | Assets/Game/Scripts/Core/Services/DeckBuilder.cs:49 | the tuple swap exchanges positions i and j and leaves every other position alone |
| Sequences.SwapMultiset | Assets/Game/Scripts/Core/Services/DeckBuilder.cs:49 | a swap permutes the list (same multiset) |
| Sequences.RemoveFirst | Assets/Game/Scripts/Utility/Pooler.cs:101 | List.Remove takes away exactly one occurrence of a present element and leaves a list without it unchanged |
| Sequences.RemoveFirstNoDup | Assets/Game/Scripts/Utility/Pooler.cs:110 | removing from a duplicate-free list keeps it duplicate-free, keeps exactly the other elements and shortens it by one when the element was there |
| Sequences.RemoveFirstAt | Assets/Game/Scripts/Utility/Pooler.cs:101 | List.Remove drops the first occurrence: the result is the list cut at the first index holding the element, that index left out, and nothing changes when the element is absent |
| Sequences.NoDupCard | Assets/Game/Scripts/Utility/Pooler.cs:53 | a list without repeats has as many distinct elements as positions |
| Extensions.ConcatArrays | Assets/Game/Scripts/Utility/Extensions.cs:13-20 | reading the length of a null array throws NullReference; otherwise the result has length \|a\|+\|b\|, with a's elements first and then b's |
| Extensions.ElementAtOrDefault | Assets/Game/Scripts/Utility/Extensions.cs:22-40 | an element is returned exactly when the list is non-null and the index is in [0, length), and it is the element at that index |
| Extensions.FirstIndex | Assets/Game/Scripts/Utility/Extensions.cs:54-62 | the early-return scan stops at the first satisfying position, or gives -1 exactly when no element satisfies the predicate |
| Extensions.FirstOrDefault | Assets/Game/Scripts/Utility/Extensions.cs:42-63 | a null list or predicate throws ArgumentNull; otherwise the result is nothing exactly when no element satisfies, and else the earliest satisfying element |
| Extensions.CountWhere | Assets/Game/Scripts/Utility/Extensions.cs:146-156 | the counting loop counts at most as many elements as the list has |
| Extensions.CountWhereSnoc | Assets/Game/Scripts/Utility/Extensions.cs:146-156 | one more element raises the count by one exactly when it satisfies the predicate |
| Extensions.CountWhereHits | Assets/Game/Scripts/Utility/Extensions.cs:146-156 | the count equals the number of positions whose element satisfies the predicate |
| Extensions.CountWhereZero | Assets/Game/Scripts/Utility/Extensions.cs:134-157 | the count of satisfying elements is zero exactly when no element satisfies |
| Extensions.CountWhereAll | Assets/Game/Scripts/Utility/Extensions.cs:111-132 | the count equals the length exactly when every element satisfies |
| Extensions.Any | Assets/Game/Scripts/Utility/Extensions.cs:65-109 | throws on null arguments; otherwise true exactly when the number of satisfying elements is positive |
| Extensions.All | Assets/Game/Scripts/Utility/Extensions.cs:111-132 | throws on null arguments; otherwise true exactly when every element satisfies (no element fails) |
| Extensions.Count | Assets/Game/Scripts/Utility/Extensions.cs:134-157 | throws ArgumentNull exactly on a null argument; otherwise the number of positions whose element satisfies the predicate, at most the length and zero exactly when none satisfies |
| Extensions.SumFrom | Assets/Game/Scripts/Utility/Extensions.cs:171-178 | the accumulating loop with 32-bit wrap-around at each `+=` ends at the true sum wrapped once to 32 bits |
| Extensions.Sum | Assets/Game/Scripts/Utility/Extensions.cs:159-179 | throws on null arguments; otherwise the mathematical sum of the selector wrapped to the C# int range |
| Extensions.Map | Assets/Game/Scripts/Utility/Extensions.cs:262-269 | one selector result per element, position by position |
| Extensions.Select | Assets/Game/Scripts/Utility/Extensions.cs:228-270 | throws on null arguments; otherwise same length as the input with result i equal to the selector applied to element i |
| Extensions.Prefix | Assets/Game/Scripts/Utility/Extensions.cs:284-290 | the copying loop yields the first n elements, or the whole list when n exceeds its length |
| Extensions.Take | Assets/Game/Scripts/Utility/Extensions.cs:272-293 | throws on a null list; empty for count <= 0; otherwise the prefix of length min(count, length) |
| Extensions.Filter | Assets/Game/Scripts/Utility/Extensions.cs:307-317 | keeps exactly the satisfying elements: as many as satisfy, each one satisfying, every satisfying element present |
| Extensions.FilterAppend | Assets/Game/Scripts/Utility/Extensions.cs:307-317 | filtering distributes over concatenation, so relative order is kept |
| Extensions.Where | Assets/Game/Scripts/Utility/Extensions.cs:295-318 | throws ArgumentNull exactly on a null argument; otherwise the satisfying elements in their original order (the Filter of the list), each one with its multiplicity in the list, and no other element |
| Extensions.Insert | Assets/Game/Scripts/Utility/Extensions.cs:329-346 | the adding loop fails only with DuplicateKey, keeps earlier entries and maps each element's key to its value |
| Extensions.InsertFails | Assets/Game/Scripts/Utility/Extensions.cs:329-346 | Dictionary.Add succeeds throughout exactly when the selected keys are distinct and new to the dictionary |
| Extensions.InsertKeys | Assets/Game/Scripts/Utility/Extensions.cs:329-346 | a successful run has exactly the old keys plus the selected keys |
| Extensions.InsertSize | Assets/Game/Scripts/Utility/Extensions.cs:329-346 | a successful run adds exactly one entry per element |
| Extensions.ToDictionary | Assets/Game/Scripts/Utility/Extensions.cs:320-347 | a null list or selector throws ArgumentNull; otherwise it throws exactly when two elements select the same key, and then DuplicateKey; a result has exactly the selected keys, one entry per element, each key mapped to its element's value |
| Extensions.SafeTake | Assets/Game/Scripts/Utility/Extensions.cs:463-466 | a null list throws NullReference; otherwise it agrees with Take on the same count |
| Extensions.LowerAscii | Assets/Game/Scripts/Utility/Extensions.cs:433 | an upper-case ASCII letter becomes its lower-case letter (code + 32); every other character is kept; no upper-case letter remains |
| Extensions.ToCleanString | Assets/Game/Scripts/Utility/Extensions.cs:431-434 | no spaces and no upper-case letters remain, the string does not grow, and an already clean string is returned as it is |
| Extensions.CleanIsFilterThenLower | Assets/Game/Scripts/Utility/Extensions.cs:431-434 | cleaning is exactly: remove the spaces, then lower-case every remaining character |
| Extensions.CleanIdempotent | Assets/Game/Scripts/Utility/Extensions.cs:431-434 | cleaning twice is the same as cleaning once |
| Extensions.RangeRollsDescend | Assets/Game/Scripts/Utility/Extensions.cs:484-486 | draws in [start, i] are draws in [0, i], none below start |
| Extensions.DescendingTurnFits | Assets/Game/Scripts/Utility/Extensions.cs:484-490 | every turn of the descending loop has a valid draw and performs one swap |
| Extensions.SwapDownPermutes | Assets/Game/Scripts/Utility/Extensions.cs:484-490 | the descending loop only swaps, so it permutes the list |
| Extensions.SwapDownKeepsAbove | Assets/Game/Scripts/Utility/Extensions.cs:484-490 | no index above end is touched, since j <= i <= end |
| Extensions.SwapDownKeepsBelowStart | Assets/Game/Scripts/Utility/Extensions.cs:484-490 | when every draw is at least start, no index below start is touched |
| Extensions.ShuffleInPlace | Assets/Game/Scripts/Utility/Extensions.cs:480-493 | end == -1 means the last index and j is drawn from [0, i]; it returns the list exactly when every index the loop reaches is in range; a last index past the end throws ArgumentOutOfRange with the list untouched, and a start below -1 throws after the swaps down to index 0; every swap done is the descending swap sequence |
| Extensions.ShuffleRange | Assets/Game/Scripts/Utility/Extensions.cs:480-493 | with j drawn from [start, i], the array is permuted and every index outside [start, end] keeps its element |
| Extensions.ShuffleInPlaceLeavesRange | Assets/Game/Scripts/Utility/Extensions.cs:486 | a legal draw of the as-written loop moves an element from below start (see Findings) |
| Extensions.LastIndex | Assets/Game/Scripts/Utility/Extensions.cs:482 | end == -1 stands for the last index count - 1; any other end is used as given |
| Extensions.SwapDown | Assets/Game/Scripts/Utility/Extensions.cs:484-490 | the descending swap sequence keeps the length (its other properties are the SwapDown lemmas) |
| Extensions.Shuffle | Assets/Game/Scripts/Utility/Extensions.cs:468-478 | iterating a null list throws NullReference; otherwise the result is a permutation of the input, of the same length, as a new list |
| Deck.ForwardShuffle | Assets/Game/Scripts/Core/Services/DeckBuilder.cs:44-50 | the forward Fisher–Yates pass keeps the length and the multiset of its input |
| Deck.Shuffle | Assets/Game/Scripts/Core/Services/DeckBuilder.cs:44-50 | the in-place loop leaves the array equal to the forward pass over its old contents, hence a permutation of them |
| Deck.EvenCount | Assets/Game/Scripts/Core/Services/DeckBuilder.cs:12 | the count rounded up to even with C# int wrap-around: an even count is kept, an odd one below int.MaxValue gains one, and int.MaxValue wraps to int.MinValue |
| Deck.FaceFor | Assets/Game/Scripts/Core/Services/DeckBuilder.cs:25-39 | without faces the face is null; with faces it is one of the given faces |
| Deck.PickSpritesForPairs | Assets/Game/Scripts/Core/Services/DeckBuilder.cs:22-42 | one entry per pair, entry i carrying pair id i and face i mod \|faces\| of the shuffled pool (null without faces) |
| Deck.ModSuccessor | Assets/Game/Scripts/Core/Services/DeckBuilder.cs:39 | advancing the round-robin index tracks i mod \|faces\| |
| Deck.DoublePairs | Assets/Game/Scripts/Core/Services/DeckBuilder.cs:16-17 | the foreach adds every pair entry twice, in order |
| Deck.DoubledMultiset | Assets/Game/Scripts/Core/Services/DeckBuilder.cs:16-17 | adding every entry twice doubles the length and each entry's multiplicity |
| Deck.DoubledPairsOccurTwice | Assets/Game/Scripts/Core/Services/DeckBuilder.cs:13-17 | in the doubled list every pair id in [0, pairCount) occurs exactly twice and no other id occurs |
| Deck.TwiceEachOccurrences | Assets/Game/Scripts/Core/Services/DeckBuilder.cs:17 | the id list [0,0,1,1,…] holds each id below n exactly twice |
| Deck.ShufflePreservesPairIds | Assets/Game/Scripts/Core/Services/DeckBuilder.cs:44-50 | shuffling a deck shuffles its pair ids alike and keeps the number of entries per pair id |
| Deck.ShuffledPairsAreEntries | Assets/Game/Scripts/Core/Services/DeckBuilder.cs:17-18 | every entry of the shuffled deck is the pair entry of its own pair id, so both cards of a pair share a face |
| Deck.Build | Assets/Game/Scripts/Core/Services/DeckBuilder.cs:10-20 | after the even rounding (with wrap-around) a negative count throws from the List capacity constructor, and only then; otherwise the deck has the even count, each pair id in [0, count/2) occurs exactly twice and no other, and each entry is its pair's entry (same face for both cards) |
| Timer.SimpleTimerService.constructor | Assets/Game/Scripts/Core/Services/SimpleTimerService.cs:7-8 | a new timer is stopped at zero |
| Timer.SimpleTimerService.Start | Assets/Game/Scripts/Core/Services/SimpleTimerService.cs:10 | running afterwards; elapsed unchanged |
| Timer.SimpleTimerService.Stop | Assets/Game/Scripts/Core/Services/SimpleTimerService.cs:11 | stopped afterwards; elapsed unchanged |
| Timer.SimpleTimerService.Reset | Assets/Game/Scripts/Core/Services/SimpleTimerService.cs:13-17 | stopped with zero elapsed |
| Timer.SimpleTimerService.Tick | Assets/Game/Scripts/Core/Services/SimpleTimerService.cs:19-23 | adds exactly the delta while running, nothing while stopped, never changes the running flag, and never decreases elapsed for a non-negative delta |
| Views.CardView.constructor | Assets/Game/Scripts/Gameplay/Views/CardView.cs:23-34 | the two flags as serialized, PairId -1, nothing deferred, and the images in sync with the flags after Awake |
| Views.CardView.ApplyVisuals | Assets/Game/Scripts/Gameplay/Views/CardView.cs:67-72 | images follow the flags, so face and back are never both shown and both are hidden once matched; the button is usable exactly when unmatched |
| Views.CardView.OnClicked | Assets/Game/Scripts/Gameplay/Views/CardView.cs:36-41 | a matched or face-up card is left untouched and raises nothing; otherwise the card is revealed and Clicked is raised once |
| Views.CardView.Reveal | Assets/Game/Scripts/Gameplay/Views/CardView.cs:43-48 | no effect on a matched or face-up card; otherwise face up at once, with the visual update deferred to the half turn |
| Views.CardView.Conceal | Assets/Game/Scripts/Gameplay/Views/CardView.cs:50-58 | no effect on a matched or face-down card; otherwise the flags stay and the turn face down is deferred |
| Views.CardView.SetMatched | Assets/Game/Scripts/Gameplay/Views/CardView.cs:60-65 | the matched flag is set at once and the button is usable exactly when unmatched; the visual update is deferred |
| Views.CardView.Setup | Assets/Game/Scripts/Gameplay/Views/CardView.cs:74-81 | pair id and face as given, face down, unmatched, back shown, clickable |
| Views.CardView.ResetForReuse | Assets/Game/Scripts/Gameplay/Views/CardView.cs:83-89 | face down, unmatched, pair id -1 (the initial value), images in sync |
| Views.CardView.RunPending | Assets/Game/Scripts/Gameplay/Views/CardView.cs:53-57 | a deferred ApplyVisuals brings the images in line with the flags; the deferred conceal turns the card face down and defers its visual update; pair id, face and matched flag are kept and the invariant holds throughout |
| LegacyViews.CardView.constructor | Assets/Game/Scripts/CardView.cs:9-10 | the serialized flags and images as authored |
| LegacyViews.CardView.ApplyVisuals | Assets/Game/Scripts/CardView.cs:36-40 | images follow the flags; face and back are never both enabled |
| LegacyViews.CardView.ResetForReuse | Assets/Game/Scripts/CardView.cs:12-17 | both flags cleared, back shown |
| LegacyViews.CardView.Flip | Assets/Game/Scripts/CardView.cs:23-28 | a matched card is untouched; otherwise the face flag toggles and the images follow |
| LegacyViews.CardView.SetMatched | Assets/Game/Scripts/CardView.cs:30-34 | the matched flag is set and the face flag kept; both images hidden when matched |
| LegacyViews.FlipTwice | Assets/Game/Scripts/CardView.cs:23-28 | two flips of an unmatched card restore its flags, with face and back exclusive |
| Pooling.Pool.constructor | Assets/Game/Scripts/Utility/Pooler.cs:48-51 | a new pool is empty, has no prefab and owns nothing |
| Pooling.Pool.CountOwned | Assets/Game/Scripts/Utility/Pooler.cs:53 | Count counts every owned instance exactly once: it equals the number of distinct instances in use or idle |
| Pooling.Pool.Init | Assets/Game/Scripts/Utility/Pooler.cs:55-64 | the pool clones the given object from now on; its lists are kept |
| Pooling.Pool.CreateInstance | Assets/Game/Scripts/Utility/Pooler.cs:113-126 | a fresh instance is registered to this pool and appended to the idle list; Count grows by one; the registry stays valid |
| Pooling.Pool.Create | Assets/Game/Scripts/Utility/Pooler.cs:66-72 | count creations, none for count <= 0: the old idle list is kept as a prefix and max(0, count) fresh instances follow it; Count grows by the same amount; the in-use list and every earlier registration are kept |
| Pooling.Pool.Grow | Assets/Game/Scripts/Utility/Pooler.cs:70-71 | one turn of the creation loop: one fresh instance appended to the idle list, earlier registrations kept |
| Pooling.Pool.Spawn | Assets/Game/Scripts/Utility/Pooler.cs:74-84 | the first idle instance is reused when there is one (Count kept); otherwise a fresh instance is created (Count + 1); either way it ends in use, not idle, and registered to this pool |
| Pooling.Pool.Despawn | Assets/Game/Scripts/Utility/Pooler.cs:86-92 | despawning an idle instance changes nothing; otherwise it moves from in use to idle; the lists stay duplicate-free and disjoint |
| Pooling.Pool.SetSpawned | Assets/Game/Scripts/Utility/Pooler.cs:94-103 | removed from the idle list and appended to the in-use list |
| Pooling.Pool.SetDespawned | Assets/Game/Scripts/Utility/Pooler.cs:105-111 | appended to the idle list and removed from the in-use list, keeping both duplicate-free and disjoint |
| Pooling.Pooler.constructor | Assets/Game/Scripts/Utility/Pooler.cs:22-23 | no pools and an empty registry |
| Pooling.Pooler.Register | Assets/Game/Scripts/Utility/Pooler.cs:25-28 | the object now resolves to the given pool; every other entry is kept |
| Pooling.Pooler.SpawnedNoDup | Assets/Game/Scripts/Utility/Pooler.cs:94-103 | the in-use list of any registered object's pool never repeats an instance |
| Pooling.Pooler.Exclusive | Assets/Game/Scripts/Utility/Pooler.cs:23 | no instance is held by two pools |
| Pooling.Pooler.SpawnKeepsIdle | Assets/Game/Scripts/Utility/Pooler.cs:136-139 | across a Spawn, an idle registered instance other than the one handed out stays idle |
| Pooling.Pooler.DespawnKeeps | Assets/Game/Scripts/Utility/Pooler.cs:147-151 | across a Despawn, every idle registered instance stays idle |
| Pooling.Pooler.GetPool | Assets/Game/Scripts/Utility/Pooler.cs:30-41 | lazy and stable: the first call for an object creates, initialises and registers a new empty pool; later calls return the same pool and change nothing |
| PoolingUtils.Spawn | Assets/Game/Scripts/Utility/Pooler.cs:136-139 | the instance is the first idle one of the object's pool, which loses it from the front of its idle list, or a fresh one when none is idle; it is appended to that pool's in-use list and registered to that pool; other pools are untouched and every other idle instance stays idle |
| PoolingUtils.Despawn | Assets/Game/Scripts/Utility/Pooler.cs:147-151 | null is ignored; otherwise the object ends idle and not in use in its pool: an already idle object changes nothing, a busy one leaves the in-use list (first occurrence) and joins the end of the idle list; other pools are untouched, no idle object becomes busy and no pool shrinks |
| PoolingUtils.Pool | Assets/Game/Scripts/Utility/Pooler.cs:158-162 | afterwards the pool owns max(old Count, count) instances, the old idle list is kept as a prefix followed by fresh instances, the in-use list is unchanged, earlier registrations and other pools are kept |
| Grid.GridGeneratorUI.constructor | Assets/Game/Scripts/Features/Grid/GridGeneratorUI.cs:21-24 | a 2 x 2 grid with nothing laid out |
| Grid.GridGeneratorUI.Start | Assets/Game/Scripts/Features/Grid/GridGeneratorUI.cs:54-66 | with prewarm > 0 the card pool owns at least prewarm instances; then the grid is built: rows x cols distinct in-use card instances; the size is kept |
| Grid.GridGeneratorUI.Prewarm | Assets/Game/Scripts/Features/Grid/GridGeneratorUI.cs:62-63 | the card pool owns at least prewarm instances afterwards |
| Grid.GridGeneratorUI.SetRows | Assets/Game/Scripts/Features/Grid/GridGeneratorUI.cs:26-38 | rows become the clamped value within [2, 10]; an unchanged value changes nothing, a changed one rebuilds |
| Grid.GridGeneratorUI.SetCols | Assets/Game/Scripts/Features/Grid/GridGeneratorUI.cs:40-52 | cols become the clamped value within [2, 10]; an unchanged value changes nothing, a changed one rebuilds |
| Grid.GridGeneratorUI.SetSize | Assets/Game/Scripts/Features/Grid/GridGeneratorUI.cs:131-136 | both dimensions clamped, and the grid always rebuilt |
| Grid.GridGeneratorUI.GetSize | Assets/Game/Scripts/Features/Grid/GridGeneratorUI.cs:126-129 | (cols, rows), each within [2, 10] |
| Grid.GridGeneratorUI.Rebuild | Assets/Game/Scripts/Features/Grid/GridGeneratorUI.cs:81-112 | afterwards the active list holds exactly rows x cols distinct instances of the card pool, all in use; every previously active object not handed out again is idle in its pool (none leaks); the card pool does not shrink |
| Grid.GridGeneratorUI.DespawnActive | Assets/Game/Scripts/Features/Grid/GridGeneratorUI.cs:83-93 | every active object is back in its pool's idle list and the card pool does not shrink |
| Grid.GridGeneratorUI.Release | Assets/Game/Scripts/Features/Grid/GridGeneratorUI.cs:85-91 | one Despawn of the loop: the object joins the idle objects after it |
| Grid.GridGeneratorUI.SpawnActive | Assets/Game/Scripts/Features/Grid/GridGeneratorUI.cs:95-109 | the active list is replaced by rows x cols distinct in-use card instances; of the formerly active cards, those not handed out again stay idle |
| Grid.GridGeneratorUI.SpawnCards | Assets/Game/Scripts/Features/Grid/GridGeneratorUI.cs:97-109 | count spawns, in order, give count distinct in-use card instances; the pool does not shrink; no idle card other than those spawned stops being idle |
| Grid.GridGeneratorUI.Take | Assets/Game/Scripts/Features/Grid/GridGeneratorUI.cs:100 | one Spawn: the card joins the end of the card pool's in-use list and no other idle card becomes busy |
| Grid.DealtFrom | Assets/Game/Scripts/Features/Grid/GridGeneratorUI.cs:97-109 | what a pool's in-use list gained are distinct in-use instances |
| Board.ProductParity | Assets/Game/Scripts/Gameplay/Controllers/CardBoard.cs:69-70 | the parity of a product is the product of the parities |
| Board.OddGridHasRoom | Assets/Game/Scripts/Gameplay/Controllers/CardBoard.cs:69-74 | an odd cols x rows in the [2, 10] bounds has both factors odd, so cols + 1 <= 10 and the widened grid is even |
| Board.DealtCols | Assets/Game/Scripts/Gameplay/Controllers/CardBoard.cs:69-74 | the dealt column count makes cols x rows even; it is cols or cols + 1, and cols + 1 exactly when cols x rows is odd |
| Board.SmallGrid | Assets/Game/Scripts/Gameplay/Controllers/CardBoard.cs:69-79 | a grid in the [2, 10] bounds holds 4 to 100 cells, a valid int, and an even count is its own rounded count |
| Board.CardBoard.constructor | Assets/Game/Scripts/Gameplay/Controllers/CardBoard.cs:28-54 | no cards, nothing picked, input open, a new stopped timer |
| Board.CardBoard.BuildBoard | Assets/Game/Scripts/Gameplay/Controllers/CardBoard.cs:67-92 | an odd grid is widened by one column and the factory rebuilds the grid, which then holds cols x rows in-use cards; the deck has cols x rows cards with every pair id in [0, total/2) exactly twice; card k shows deck entry k face down and unmatched; the pick is empty, input open and the timer reset |
| Board.CardBoard.EvenOutGrid | Assets/Game/Scripts/Gameplay/Controllers/CardBoard.cs:69-74 | the grid gains one column exactly when cols x rows was odd, and the total is then even |
| Board.CardBoard.PrepareGrid | Assets/Game/Scripts/Gameplay/Controllers/CardBoard.cs:69-77 | the grid is even, widened only when it was odd, and built by the factory; the total fits an int and needs no rounding |
| Board.CardBoard.FactoryBuild | Assets/Game/Scripts/Gameplay/Factories/GridCardFactory.cs:13-15 | the factory's SetSize on the grid's own size leaves it built: rows x cols distinct in-use cards, the size kept |
| Board.CardBoard.Deal | Assets/Game/Scripts/Gameplay/Controllers/CardBoard.cs:76-91 | the deck builder makes a deck of total cards, every pair id in [0, total/2) exactly twice; the dealt cards show it face down and unmatched, nothing is picked, input is open and the timer reset |
| Board.CardBoard.SetupCards | Assets/Game/Scripts/Gameplay/Controllers/CardBoard.cs:80-86 | card i carries deck[i]'s pair id and face, face down and unmatched |
| Board.CardBoard.OnCardClicked | Assets/Game/Scripts/Gameplay/Controllers/CardBoard.cs:94-115 | ignored when locked or null; otherwise the timer runs and the card is revealed; it becomes the first pick, or the second pick (which locks), and re-clicking the single pick adds nothing and does not lock; the pick never exceeds two and is locked exactly at two distinct cards |
| Board.CardBoard.ResolveSelection | Assets/Game/Scripts/Gameplay/Controllers/CardBoard.cs:117-147 | equal pair ids: both picks matched and a match broadcast (never a mismatch); different ids: a mismatch broadcast and both picks concealed (never a match); always cleared and unlocked |
| Board.CardBoard.ResolveMatch | Assets/Game/Scripts/Gameplay/Controllers/CardBoard.cs:124-136 | both picks matched, one match event, and when every card is matched the timer stopped and exactly one win scheduled |
| Board.CardBoard.ResolveMismatch | Assets/Game/Scripts/Gameplay/Controllers/CardBoard.cs:137-143 | one mismatch event; both picks keep their flags and have their conceal deferred |
| Board.CardBoard.IsAllMatched | Assets/Game/Scripts/Gameplay/Controllers/CardBoard.cs:149-155 | true exactly when no card is unmatched |
| Board.CardBoard.RaiseWin | Assets/Game/Scripts/Gameplay/Controllers/CardBoard.cs:134 | the scheduled win reports the timer's elapsed time and is delivered once |
| Board.CardBoard.Restart | Assets/Game/Scripts/Gameplay/Controllers/CardBoard.cs:157-160 | the same outcome as BuildBoard: an odd grid widened by one column and built, a deck of cols x rows cards with every pair id twice, card k showing deck entry k face down and unmatched, nothing picked, input open, the timer reset and no event raised |

## Left out

- Random.Range (DeckBuilder.cs:48, Extensions.cs:486) is a foreign random generator. The draws are parameters that satisfy Random.Range's range, so the model proves permutation and count facts but nothing about distribution.
- Deferred work (the scheduler calls at CardBoard.cs:64 and 134 and CardView.cs:53 and 63, plus the coroutine wait at CardBoard.cs:119) is kept as explicit pending steps. The scheduler's implementation is not part of this model, so no ordering between steps is assumed.
- Board.CardBoard.ResolveSelection requires a full pick. A restart between the second pick and the coroutine's wake-up clears the pick, which the source does not guard against, and that interleaving is not modelled.
- WaitAndBuildBoard's 0.1 s delay, Update's per-frame Tick and TimerUpdated broadcast, GetElapsedSeconds, the OnEnable/OnDisable event wiring and Awake's factory check are engine plumbing and are not modelled.
- The Clicked subscription juggling in BuildBoard, the audio calls and the CardMatchEvents bus are left out. Broadcasts are logged in `events` instead.
- Board.CardBoard.BuildBoard takes the cards the grid factory returns as the parameter `dealt`. It requires |dealt| <= the deck size because the source indexes the deck by card. The component lookup that links these cards to the grid's children is not modelled.
- Float becomes real: the timer's elapsed time does not model float rounding.
- Extensions: the float Sum, GetWeightedItemFromProbabilityMap, the angle, number-format, rounding, time-span and Roll helpers, GetRandom, and the Unity-only helpers (SnapTo, SetColor, GetOrAddComponent, DrawList) are left out.
- Extensions.ToCleanString: lower-cases ASCII letters only. Culture-sensitive ToLower over all of Unicode is not modelled, nor is the NullReference on a null string.
- Extensions.ToDictionary: keys are values of the key type and are never null, so the ArgumentNullException that ContainsKey raises for a null key (Extensions.cs:336) is not modelled.
- Extensions.ShuffleInPlace: the list is a non-null array. The NullReferenceException that a null list raises at `list.Count` or `list[j]` (Extensions.cs:482, 487) is not modelled; the out-of-range throws are.
- Extensions.ShuffleRange: stated for a start and end whose indices are in range. Out of range it throws as Extensions.ShuffleInPlace does.
- LegacyViews.CardView.ApplyVisuals: the `if (faceImage)` and `if (backImage)` guards (CardView.cs:38-39) are not modelled, because the model's images are always assigned.
- Views.CardView: the `if (faceImage)`, `if (backImage)` and `if (cardButton)` guards (CardView.cs:64 and 69-71) are not modelled, because the model's images and button are always assigned.
- Extensions.ElementAtOrDefault, Extensions.FirstOrDefault: default(T) is returned as `None`, so a stored default value and "nothing found" stay distinguishable.
- Pooling: Unity transforms, activation, parents, display names and renaming (Pooler.cs:57-63, 96-100, 107-108, 117-120) are engine calls, and the Spawn parent argument goes with them.
- Pooling: the Pooler.Instance singleton (Pooler.cs:9-20) is passed explicitly as the `owner`/`pooler` argument.
- Pooling: the Component overloads of PoolingUtils (Pooler.cs:131-134, 141-145, 153-156) act on `obj.gameObject` and are the same operations here.
- PoolingUtils.Spawn, PoolingUtils.Pool, Pooling.Pooler.GetPool: the object is never null. The ArgumentNullException that `_map.ContainsKey(null)` raises (Pooler.cs:32, reached from 138 and 160) is not modelled; only Despawn's explicit null check is.
- Pooling.Pool.CreateInstance requires the pool to be registered, and a registered pool always has its prefab. The null-prefab path of Create (Pooler.cs:125), which would make Spawn dereference null, is therefore excluded.
- Pooling.Pool.Create: states how many idle instances are added and that earlier registrations keep their pool. It does not name the new instances one by one; CreateInstance states that of a single step.
- Grid: RefreshCellSizeOnly, OnRectTransformDimensionsChange, OnValidate, SetSpacing, SetPadding and GridCalculator are layout geometry in floats and are left out.
- Grid: the IGridItem OnDespawn and ResetForReuse calls in Rebuild are not modelled, because the grid model does not know which component a pooled object carries. Neither are the `if (go)` destroyed-object check or the renaming of spawned objects.
- Grid: the `cardPrefab != null` guard in Start is not modelled, because the model's card prefab is always present.
- Animation (Flip90/Rotate90, CardView.cs:93-115) is float slerp; only its half-turn callback survives, as a pending ApplyVisuals step.

## Findings

| source | as written | input that shows it | evidently intended | confidence | as-written member | corrected member |
|---|---|---|---|---|---|---|
| Assets/Game/Scripts/Utility/Extensions.cs:486 | `ShuffleInPlace(list, start, end)` draws `j = Random.Range(0, i + 1)`, so j ranges over [0, i] and elements before `start` can be swapped into the range | list [10, 20, 30], start 1, end 2: the draw 0 for i = 2 puts 30 at index 0, which lies outside [1, 2] | j drawn from [start, i], so only indices in [start, end] are permuted | not executed | Extensions.ShuffleInPlaceLeavesRange | Extensions.ShuffleRange |
