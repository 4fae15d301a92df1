# Card hand: a verified model

A model of the card-hand component of a small card-game UI, in Dafny. Two
classes carry the state the game code updates in place:

- `Cards.Card` (from `CardController`): three integer stats, attack, health
  and mana. `SetInfo` overwrites all three. `ChangeStats` drives the stat
  chosen by a random index (0 attack, 1 health, 2 mana) to a new value. A
  health change that ends at 0 or below raises the card's "destroyed"
  event. The pure function `Cards.ChangeStat` states the completed effect,
  and the method is proved against it.
- `Hand.HandController` (from `CardHandController`): the ordered list of
  cards in the hand, a round-robin cursor, a busy flag, and the dragged
  card with its saved sibling index. It also keeps `siblings`, the live card
  objects under the cards' root in draw order. This gives "the saved sibling
  index is restored" a meaning. Cards dropped on the ground stay in
  `siblings`; destroyed cards leave it.

Engine inputs become parameters: the result of the sprite download, the
random card count, stat value and stat index, the mouse buttons, and the
raycast results. A stat animation is represented by its completed effect.
The layout keeps only the curve parameter of each slot, as an exact real.

`Lists` gives the two list operations the hand relies on: `Remove` (first
occurrence) and `IndexOf`. `Options` holds the nullable-reference type.

The hand subscribes to a card event `EventStatChangeComplete`
(Assets/Scripts/CardHandController.cs:71). `CardController.cs` declares only
`EventCardDestroyed` and never raises a completion event. So in this model
`OnCardStatChangeCompleted` is an independent input to the hand.
`Card.ChangeStats` reports only whether the card was destroyed. Nothing in
`CardController.cs` ever clears the hand's busy flag. Likewise, `SetSelected`
is called on a card (Assets/Scripts/CardHandController.cs:104, 127) but is not
declared in `CardController.cs`.

Two further behaviours of the code are easy to overlook, and the model
keeps them. Stats are not kept non-negative: a
stat change may settle attack, health or mana at any value, including the
configured minimum of -2. A drop on the ground removes the card from the
hand, so a drag can change the hand's size.

Unity's `selectedCard != null` is false for a destroyed object.
`HandController.HasSelection` models this check as "a card is selected and
is still among the live objects".

## Model

| member | source | states |
|---|---|---|
| `Cards.ChangeStat` | Assets/Scripts/CardController.cs:34-67 | For an index in 0..2, the chosen stat ends at the new value and the other two are unchanged. "Destroyed" fires if and only if the index is 1 (health) and the new value is ≤ 0, so never on attack or mana. Any other index changes no stat and fires nothing. |
| `Cards.DrawnIndexChangesIffDifferent` | Assets/Scripts/CardController.cs:36-38 | For every index Random.Range(0, 3) can draw, the three stats change if and only if the chosen stat's old value differs from the requested value. |
| `Cards.Card.constructor` | Assets/Scripts/CardController.cs:19-21 | A newly instantiated card has all three stats at the default 0. |
| `Cards.Card.SetInfo` | Assets/Scripts/CardController.cs:23-32 | Stores exactly the given attack, health and mana. |
| `Cards.Card.ChangeStats` | Assets/Scripts/CardController.cs:34-68 | The new stats and the "destroyed" result are those of `ChangeStat` applied to the old stats. |
| `Lists.IndexOf` | Assets/Scripts/CardHandController.cs:101 | The sibling index is the position of the first occurrence of the card. |
| `Lists.RemoveFirst` | Assets/Scripts/CardHandController.cs:157-163 | List.Remove on a missing element leaves the list unchanged. On a present one, the length drops by exactly one. |
| `Lists.RemoveFirstSplice` | Assets/Scripts/CardHandController.cs:160 | List.Remove deletes exactly the first occurrence and keeps everything before and after it, in order. |
| `Lists.InsertAt` | Assets/Scripts/CardHandController.cs:122 | Inserting puts the element at the given index, keeps what was before it and shifts the rest by one. An index past the end appends. |
| `Lists.RemoveFirstMembers` | Assets/Scripts/CardHandController.cs:115 | In a list without repetitions, after removing x the members are exactly the old members other than x. |
| `Lists.RemoveFirstDistinct` | Assets/Scripts/CardHandController.cs:160 | Removing from a list without repetitions leaves a list without repetitions. |
| `Hand.SlotParam` | Assets/Scripts/CardHandController.cs:60-63 | The curve parameter of slot i of n, computed as step + step·i with step 1/(n+1), equals (i+1)/(n+1). For i < n it lies strictly between 0 and 1. |
| `Hand.SlotParamIncreasing` | Assets/Scripts/CardHandController.cs:169-172 | A later slot in the list has a strictly larger curve parameter. |
| `Hand.Pick` | Assets/Scripts/CardHandController.cs:147-153 | The index used is always in [0, count). It is the cursor itself while the cursor is in range, and 0 once the cursor is at or past the end, as happens after a removal. |
| `Hand.Picks` | Assets/Scripts/CardHandController.cs:147-154 | k successive completed stat changes on a hand of constant size make exactly k picks. |
| `Hand.PicksGoRound` | Assets/Scripts/CardHandController.cs:147-154 | From a cursor no further than the end, the j-th pick is (cursor + j) mod count. |
| `Hand.RoundRobin` | Assets/Scripts/CardHandController.cs:140-155 | On a new hand of n cards, n changes pick 0, 1, …, n−1 in order, and the next one wraps to 0. |
| `Hand.MoveToLast` | Assets/Scripts/CardHandController.cs:102 | Raising a live card to the last sibling keeps the number of children and puts the card last. |
| `Hand.MoveToIndex` | Assets/Scripts/CardHandController.cs:122 | Setting a card's sibling index to k (k in range) puts it at position k and keeps the number of children. |
| `Hand.SiblingIndexRestored` | Assets/Scripts/CardHandController.cs:101-122 | Raising a card to the top and then setting it back to the sibling index saved at the press restores the original sibling order. |
| `Hand.MoveToIndexKeepsMembers` | Assets/Scripts/CardHandController.cs:122 | Moving a card among the children keeps the same objects, each exactly once. |
| `Hand.MoveToLastKeepsMembers` | Assets/Scripts/CardHandController.cs:102 | Raising a card to the top keeps the same objects, each exactly once. |
| `Hand.HandController.HasSelection` | Assets/Scripts/CardHandController.cs:108-130 | Unity's `selectedCard != null`: true only when a card is selected, and a selected card that has been destroyed counts as none. The release branch of `Update` is guarded by it. |
| `Hand.HandController.constructor` | Assets/Scripts/CardHandController.cs:28-34 | The component starts with no cards, cursor 0, not busy and nothing selected. |
| `Hand.HandController.Start` | Assets/Scripts/CardHandController.cs:38-74 | If the download failed, nothing is spawned. Otherwise the hand holds exactly `numberOfCards` new, distinct cards with stats (4, 5, 6), in spawn order and also as the root's children. Slot k is spawned at `SlotParam(k, n)`. |
| `Hand.HandController.RearrangeCards` | Assets/Scripts/CardHandController.cs:165-180 | Every card in the hand, index 0..count−1, gets a target. Slot i is at (i+1)/(count+1), strictly inside (0, 1) and strictly increasing along the list. |
| `Hand.HandController.ChangeCardInfo` | Assets/Scripts/CardHandController.cs:140-155 | On an empty or busy hand it is a no-op: the cursor, the busy flag and every card's stats are unchanged. Otherwise it picks `Pick(cursor, count)`, sets busy, and moves the cursor to pick + 1. Only the picked card's stats change, as `ChangeStat` says. The list and the selection are unchanged. |
| `Hand.HandController.OnCardStatChangeCompleted` | Assets/Scripts/CardHandController.cs:182-185 | Clears the busy flag and changes nothing else. |
| `Hand.HandController.OnCardDestroyed` | Assets/Scripts/CardHandController.cs:157-163 | Removes the first occurrence of the card from the hand and the card from the live objects, keeping the order of the rest. Cursor, busy flag and selection are unchanged. Every remaining card is re-laid out for the new count. |
| `Hand.HandController.Update` | Assets/Scripts/CardHandController.cs:85-138 | A press on a card selects it, saves its sibling index and raises it to the top. A release with a live selection clears it. Over the ground, the card leaves the hand (the rest is re-laid out) and the sibling order is kept. Elsewhere, the hand is unchanged and the card goes back to its saved sibling index. Any other frame changes nothing that is modelled. |
| `Hand.ChangeRounds` | Assets/Scripts/CardHandController.cs:140-155 | Calling ChangeCardInfo, each call followed by OnCardStatChangeCompleted, where no change drives a health value to 0 or below (so no card leaves the hand), picks exactly the round-robin sequence `Picks` from the starting cursor. The hand ends not busy, with its list and sibling order unchanged. |
| `Hand.DragAndCancel` | Assets/Scripts/CardHandController.cs:85-138 | A press on a card, any number of drag frames, and a release away from the ground leave the hand and the sibling order exactly as before, with no selection. |
| `Hand.RemoveKeepsValid` | Assets/Scripts/CardHandController.cs:157-163 | Removing a card keeps the hand and the live objects free of repetitions and the hand inside the live objects. The card is gone from both. |

## Left out

- Error logging (`Debug.LogError` for a failed sprite download and for a stat index outside 0..2): the log is not modelled. The two cases themselves are: nothing is spawned, or no stat changes.
- Sprite download and sprite creation (network I/O): the outcome is the `spriteDownloaded` parameter of `Start`, and no sprite is stored on a card.
- `Random.Range`: the card count, the stat value and the stat index are parameters. `Start` accepts any count, not only the configured 2..6. `ChangeCardInfo` accepts any stat value, not only the configured -2..9.
- Mouse input, camera projection and raycasts: they become the `buttonDown`, `buttonUp`, `cardHit` and `groundHit` parameters of `Update`. `cardHit` is required to be a live card, because a raycast can only hit a live collider.
- Positions, rotations, `AnimationCurve.Evaluate`, the rotation toward the rotation centre and the per-frame drag-follow `Vector3.Lerp`: floating-point geometry. Only the curve parameter of each slot is kept, as an exact real, so single-precision rounding is not modelled.
- DOTween scheduling: the timing, the intermediate values and the per-frame text refresh of a stat animation are not modelled, nor are move and rotate tweens. Only the completed effect of a stat change is kept.
- The "destroyed" event is reported as a result of `ChangeStats`. The hand receives it through a separate call to `OnCardDestroyed`, because the event fires later, when the animation completes.
- Event subscription and unsubscription (`+=`, `-=`, `OnDisable`) and the release of a destroyed card's game object: engine plumbing.
- `SetSelected` and the "stat change complete" event: neither is declared in `CardController.cs`.
- Transform.SetSiblingIndex with an out-of-range index is taken to put the card last. This only happens when the saved index has become stale.
- OnCardDestroyed does not adjust the cursor, as in the code. So no fairness is claimed after a removal.
- Hand.HandController.Update: the destruction of a game object is taken to happen at once. In the engine it happens at the end of the frame.
