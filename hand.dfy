/** The hand of cards (Assets/Scripts/CardHandController.cs): the ordered list
    of cards in the hand, the round-robin cursor that picks the next card whose
    stats change, the busy flag that keeps one stat change in flight at a time,
    and the drag selection with its saved sibling index.

    Engine plumbing is replaced by parameters: the result of the sprite
    download, the random card count, stat value and stat index, and the
    results of the raycasts. Positions and rotations are floating-point
    geometry and are not modelled; what is kept of the layout is the curve
    parameter each slot is evaluated at. */
module Hand {
  import opened Options
  import opened Lists
  import opened Cards

  /** Starting stats of a spawned card (CardStatsSO defaults). */
  const StartingAttack: int := 4
  const StartingHealth: int := 5
  const StartingMana: int := 6

  // ---------------------------------------------------------------- layout

  /** The placement-curve parameter of slot `i` in a hand of `count` cards:
      the step 1 / (count + 1), plus `i` more steps. Spawning and
      rearranging both use it. */
  function SlotParam(i: nat, count: nat): (s: real)
    ensures s == (i + 1) as real / (count + 1) as real
    ensures i < count ==> 0.0 < s < 1.0
  {
    var step := 1.0 / (count + 1) as real;
    step + step * i as real
  }

  /** Slots further right in the list are further along the curves. */
  lemma SlotParamIncreasing(i: nat, j: nat, count: nat)
    requires i < j
    ensures SlotParam(i, count) < SlotParam(j, count)
  {
    var d := (count + 1) as real;
    assert (i + 1) as real / d < (j + 1) as real / d by {
      assert (j + 1) as real / d - (i + 1) as real / d == (j - i) as real / d;
    }
  }

  // ----------------------------------------------------------- round robin

  /** The index ChangeCardInfo uses: the cursor, reset to 0 once it has run
      past the end of the list. */
  function Pick(cursor: nat, count: nat): (i: nat)
    requires count > 0
    ensures i < count
    ensures cursor < count ==> i == cursor
    ensures cursor >= count ==> i == 0
  {
    if cursor >= count then 0 else cursor
  }

  /** The indices picked by `calls` successive stat changes on a hand whose
      size stays `count`, each one completed before the next starts; after
      a pick the cursor is one past it. */
  ghost function Picks(cursor: nat, count: nat, calls: nat): (r: seq<nat>)
    requires count > 0
    ensures |r| == calls
    decreases calls
  {
    if calls == 0 then []
    else [Pick(cursor, count)] + Picks(Pick(cursor, count) + 1, count, calls - 1)
  }

  /** From any cursor that has not run past the end, the picks go round the
      hand in index order, wrapping to 0 after the last card. */
  lemma {:induction false} PicksGoRound(cursor: nat, count: nat, calls: nat)
    requires 0 < count && cursor <= count
    ensures forall j :: 0 <= j < calls ==> Picks(cursor, count, calls)[j] == (cursor + j) % count
    decreases calls
  {
    if calls > 0 {
      var p := Pick(cursor, count);
      var r := Picks(cursor, count, calls);
      var tail := Picks(p + 1, count, calls - 1);
      assert r == [p] + tail;
      PicksGoRound(p + 1, count, calls - 1);
      forall j | 0 <= j < calls ensures r[j] == (cursor + j) % count {
        if j > 0 {
          assert r[j] == tail[j - 1];
        }
        assert r[j] == (p + j) % count;
        PickThenStep(cursor, count, j);
      }
    }
  }

  /** Counting on from the index picked is counting on from the cursor,
      modulo the hand size. */
  lemma PickThenStep(cursor: nat, count: nat, j: nat)
    requires 0 < count && cursor <= count
    ensures (Pick(cursor, count) + j) % count == (cursor + j) % count
  {
    if cursor == count {
      ModAddCount(j, count);
    }
  }

  lemma ModAddCount(x: nat, count: nat)
    requires count > 0
    ensures (x + count) % count == x % count
  {
    var q, r := x / count, x % count;
    var q', r' := (x + count) / count, (x + count) % count;
    assert (q' - q - 1) * count == r - r' by {
      assert x + count == (q + 1) * count + r;
      assert x + count == q' * count + r';
    }
    var d := q' - q - 1;
    if d != 0 {
      NonzeroMultiple(d, count);
      assert false;
    }
  }

  lemma NonzeroMultiple(d: int, n: int)
    requires d != 0 && n > 0
    ensures d * n >= n || d * n <= -n
  {
  }

  /** On a fresh hand of n cards, n stat changes visit every card exactly
      once, in index order, and the next one wraps back to the first. */
  lemma RoundRobin(n: nat)
    requires n > 0
    ensures forall j :: 0 <= j < n ==> Picks(0, n, n)[j] == j
    ensures Picks(0, n, n + 1)[..n] == Picks(0, n, n) && Picks(0, n, n + 1)[n] == 0
  {
    var once, wrapped := Picks(0, n, n), Picks(0, n, n + 1);
    PicksGoRound(0, n, n);
    PicksGoRound(0, n, n + 1);
    forall j | 0 <= j < n ensures once[j] == j && wrapped[j] == j {
      assert j % n == j;
    }
    assert wrapped[..n] == once;
    assert wrapped[n] == n % n == 0;
  }

  // ------------------------------------------------------ sibling order

  /** Transform.SetAsLastSibling on the children of the cards' root. */
  function MoveToLast<T(==)>(s: seq<T>, x: T): (r: seq<T>)
    ensures x in s ==> |r| == |s| && r[|r| - 1] == x
    ensures x !in s ==> r == s
  {
    if x in s then RemoveFirst(s, x) + [x] else s
  }

  /** Transform.SetSiblingIndex: take `x` out and put it back before
      position `k` (an index past the end puts it last). */
  function MoveToIndex<T(==)>(s: seq<T>, x: T, k: nat): (r: seq<T>)
    ensures x in s && k < |s| ==> |r| == |s| && r[k] == x
    ensures x !in s ==> r == s
  {
    if x in s then InsertAt(RemoveFirst(s, x), k, x) else s
  }

  /** Putting a card back at the sibling index it had before it was raised
      to the top restores the original order. */
  lemma SiblingIndexRestored<T>(s: seq<T>, x: T)
    requires Distinct(s) && x in s
    ensures MoveToIndex(MoveToLast(s, x), x, IndexOf(s, x)) == s
  {
    var i := IndexOf(s, x);
    RaisedCardRemoved(s, x);
    RemoveFirstSplice(s, x);
    InsertAtSplicePoint(s, i);
  }

  /** Taking the raised card out again leaves what taking it out of the
      original order leaves. */
  lemma RaisedCardRemoved<T>(s: seq<T>, x: T)
    requires Distinct(s) && x in s
    ensures x in MoveToLast(s, x)
    ensures RemoveFirst(MoveToLast(s, x), x) == RemoveFirst(s, x)
  {
    var rest := RemoveFirst(s, x);
    RemoveFirstMembers(s, x, x);
    var raised := rest + [x];
    assert MoveToLast(s, x) == raised;
    LastOccurrenceAppended(rest, x);
    RemoveFirstSplice(raised, x);
    assert raised[..|rest|] == rest;
  }

  /** Putting element i back where it was cut out gives the sequence back. */
  lemma InsertAtSplicePoint<T>(s: seq<T>, i: nat)
    requires i < |s|
    ensures InsertAt(s[..i] + s[i + 1..], i, s[i]) == s
  {
    var rest := s[..i] + s[i + 1..];
    assert rest[..i] == s[..i] && rest[i..] == s[i + 1..];
    assert s == s[..i] + [s[i]] + s[i + 1..];
  }

  /** An element appended to a list that did not hold it is found at the end. */
  lemma LastOccurrenceAppended<T>(s: seq<T>, x: T)
    requires x !in s
    ensures IndexOf(s + [x], x) == |s|
  {
  }

  /** Moving a card within the children keeps the same objects, each once. */
  lemma MoveToIndexKeepsMembers<T>(s: seq<T>, x: T, k: nat)
    requires Distinct(s)
    ensures Distinct(MoveToIndex(s, x, k))
    ensures forall y :: y in MoveToIndex(s, x, k) <==> y in s
  {
    if x in s {
      var rest := RemoveFirst(s, x);
      RemoveFirstDistinct(s, x);
      forall y ensures y in rest <==> y in s && y != x {
        RemoveFirstMembers(s, x, y);
      }
      InsertAtDistinct(rest, k, x);
    }
  }

  lemma InsertAtDistinct<T>(s: seq<T>, k: nat, x: T)
    requires Distinct(s) && x !in s
    ensures Distinct(InsertAt(s, k, x))
    ensures forall y :: y in InsertAt(s, k, x) <==> y in s || y == x
  {
    var k' := if k <= |s| then k else |s|;
    var r := InsertAt(s, k, x);
    assert r == s[..k'] + [x] + s[k'..];
    forall a, b | 0 <= a < b < |r| ensures r[a] != r[b] {
      var a' := if a < k' then a else a - 1;
      var b' := if b < k' then b else b - 1;
      if a == k' {
        assert r[b] == s[b'];
      } else if b == k' {
        assert r[a] == s[a'];
      } else {
        assert r[a] == s[a'] && r[b] == s[b'];
      }
    }
  }

  lemma MoveToLastKeepsMembers<T>(s: seq<T>, x: T)
    requires Distinct(s)
    ensures Distinct(MoveToLast(s, x))
    ensures forall y :: y in MoveToLast(s, x) <==> y in s
  {
    if x in s {
      assert MoveToLast(s, x) == MoveToIndex(s, x, |s|);
      MoveToIndexKeepsMembers(s, x, |s|);
    }
  }

  // ------------------------------------------------------------ the hand

  class HandController {
    /** The cards in the hand, in slot order (the list of card controllers). */
    var cards: seq<Card>
    /** Every live card object under the cards' root, in sibling (draw) order.
        Cards dropped on the ground stay here; destroyed cards leave. */
    var siblings: seq<Card>
    /** The index after the one whose stats changed last. */
    var cursor: nat
    /** A stat change is in flight. */
    var busy: bool
    /** The card being dragged, if any. */
    var selected: Option<Card>
    /** The dragged card's sibling index before it was raised to the top. */
    var selectedSiblingIndex: nat

    ghost predicate Valid()
      reads this
    {
      Distinct(cards) && Distinct(siblings) &&
      (forall c :: c in cards ==> c in siblings)
    }

    /** Unity's `selectedCard != null`: a card is selected and has not been
        destroyed since (a destroyed object compares equal to null). */
    predicate HasSelection(): (r: bool)
      reads this
      ensures r ==> selected.Some?
      ensures selected.Some? ==> (r <==> selected.value in siblings)
    {
      selected.Some? && selected.value in siblings
    }

    /** The component before Start: no cards, cursor 0, not busy, nothing selected. */
    constructor ()
      ensures Valid()
      ensures cards == [] && siblings == [] && cursor == 0 && !busy && selected == None
    {
      cards, siblings := [], [];
      cursor, busy := 0, false;
      selected, selectedSiblingIndex := None, 0;
    }

    /** Start: if the sprite download failed, nothing is spawned. Otherwise
        `numberOfCards` fresh cards with the starting stats are appended to
        the hand and to the root's children, slot `i` placed at
        SlotParam(i, numberOfCards). */
    method Start(spriteDownloaded: bool, numberOfCards: nat) returns (spawnSlots: seq<real>)
      requires Valid() && cards == [] && siblings == []
      modifies this
      ensures Valid()
      ensures !spriteDownloaded ==> cards == [] && spawnSlots == []
      ensures spriteDownloaded ==> |cards| == numberOfCards
      ensures siblings == cards
      ensures forall k :: 0 <= k < |cards| ==>
        fresh(cards[k]) && cards[k].StatValues() == Stats(StartingAttack, StartingHealth, StartingMana)
      ensures |spawnSlots| == |cards|
      ensures forall k :: 0 <= k < |cards| ==> spawnSlots[k] == SlotParam(k, |cards|)
      ensures cursor == old(cursor) && busy == old(busy)
      ensures selected == old(selected) && selectedSiblingIndex == old(selectedSiblingIndex)
    {
      spawnSlots := [];
      if !spriteDownloaded {
        return;
      }
      var i := 0;
      while i < numberOfCards
        invariant 0 <= i <= numberOfCards
        invariant |cards| == i && siblings == cards && |spawnSlots| == i
        invariant Distinct(cards)
        invariant forall k :: 0 <= k < i ==>
          fresh(cards[k]) && cards[k].StatValues() == Stats(StartingAttack, StartingHealth, StartingMana)
        invariant forall k :: 0 <= k < i ==> spawnSlots[k] == SlotParam(k, numberOfCards)
        invariant cursor == old(cursor) && busy == old(busy)
        invariant selected == old(selected) && selectedSiblingIndex == old(selectedSiblingIndex)
      {
        var card := new Card();
        card.SetInfo(StartingAttack, StartingHealth, StartingMana);
        spawnSlots := spawnSlots + [SlotParam(i, numberOfCards)];
        cards := cards + [card];
        siblings := siblings + [card];
        i := i + 1;
      }
    }

    /** RearrangeCards: every card in the hand gets a new target, slot `i` of
        `n` at curve parameter (i + 1) / (n + 1): inside the curve, never at
        its ends, and in list order from left to right. */
    method RearrangeCards() returns (slots: seq<real>)
      ensures |slots| == |cards|
      ensures forall i :: 0 <= i < |slots| ==> slots[i] == (i + 1) as real / (|cards| + 1) as real
      ensures forall i :: 0 <= i < |slots| ==> 0.0 < slots[i] < 1.0
      ensures forall i, j :: 0 <= i < j < |slots| ==> slots[i] < slots[j]
    {
      slots := [];
      var i := 0;
      while i < |cards|
        invariant 0 <= i <= |cards|
        invariant |slots| == i
        invariant forall k :: 0 <= k < i ==> slots[k] == SlotParam(k, |cards|)
      {
        slots := slots + [SlotParam(i, |cards|)];
        i := i + 1;
      }
      forall a, b | 0 <= a < b < |slots| ensures slots[a] < slots[b] {
        SlotParamIncreasing(a, b, |cards|);
      }
    }

    /** ChangeCardInfo, with the random stat value and the random stat index
        as parameters. A no-op on an empty hand or while a change is in
        flight. Otherwise it picks the card at the cursor (reset to 0 past the
        end), marks the hand busy, moves the cursor one past the pick and
        changes that card's stats; `destroyed` says whether the card raised
        its "destroyed" event, which reaches the hand as OnCardDestroyed. */
    method ChangeCardInfo(newStatValue: int, statIndex: int) returns (picked: Option<nat>, destroyed: bool)
      requires Valid()
      modifies this, cards
      ensures Valid()
      ensures cards == old(cards) && siblings == old(siblings)
      ensures selected == old(selected) && selectedSiblingIndex == old(selectedSiblingIndex)
      ensures old(|cards| == 0 || busy) ==>
        picked == None && !destroyed && cursor == old(cursor) && busy == old(busy) &&
        forall k :: 0 <= k < |cards| ==> cards[k].StatValues() == old(cards[k].StatValues())
      ensures old(|cards| > 0 && !busy) ==>
        picked == Some(Pick(old(cursor), |cards|)) && busy && cursor == picked.value + 1 &&
        cards[picked.value].StatValues() == ChangeStat(old(cards[picked.value].StatValues()), statIndex, newStatValue).stats &&
        destroyed == ChangeStat(old(cards[picked.value].StatValues()), statIndex, newStatValue).destroyed &&
        forall k :: 0 <= k < |cards| && k != picked.value ==> cards[k].StatValues() == old(cards[k].StatValues())
    {
      if |cards| == 0 || busy {
        return None, false;
      }
      if cursor >= |cards| {
        cursor := 0;
      }
      busy := true;
      var card := cards[cursor];
      destroyed := card.ChangeStats(newStatValue, statIndex);
      picked := Some(cursor);
      cursor := cursor + 1;
    }

    /** OnCardStatChangeCompleted: clears the busy flag and nothing else. */
    method OnCardStatChangeCompleted()
      requires Valid()
      modifies this
      ensures Valid()
      ensures !busy
      ensures cards == old(cards) && siblings == old(siblings) && cursor == old(cursor)
      ensures selected == old(selected) && selectedSiblingIndex == old(selectedSiblingIndex)
    {
      busy := false;
    }

    /** OnCardDestroyed: the card leaves the hand (its first occurrence,
        keeping the others in order) and the scene, and every remaining card
        is re-laid out. The cursor is not adjusted. */
    method OnCardDestroyed(card: Card) returns (slots: seq<real>)
      requires Valid()
      modifies this
      ensures Valid()
      ensures cards == RemoveFirst(old(cards), card) && siblings == RemoveFirst(old(siblings), card)
      ensures card !in cards && card !in siblings
      ensures cursor == old(cursor) && busy == old(busy)
      ensures selected == old(selected) && selectedSiblingIndex == old(selectedSiblingIndex)
      ensures |slots| == |cards| && forall i :: 0 <= i < |slots| ==> slots[i] == SlotParam(i, |cards|)
    {
      RemoveKeepsValid(cards, siblings, card);
      cards := RemoveFirst(cards, card);
      siblings := RemoveFirst(siblings, card);
      slots := RearrangeCards();
    }

    /** One frame of Update, with the mouse state and the raycast results as
        parameters: `cardHit` is the card under the mouse (None when the
        ray hits no card), `groundHit` whether the mouse is over the ground.
        - Button pressed on a card: that card becomes the selection, its
          sibling index is saved and it is raised to the top of the siblings.
        - Button released with a selection: over the ground the card leaves
          the hand and the rest is re-laid out; elsewhere it goes back to its
          saved sibling index and the hand is unchanged. The selection is
          cleared either way.
        - Otherwise only the dragged card's position follows the mouse,
          which is not modelled. */
    method Update(buttonDown: bool, buttonUp: bool, cardHit: Option<Card>, groundHit: bool)
      returns (slots: Option<seq<real>>)
      requires Valid()
      requires cardHit.Some? ==> cardHit.value in siblings
      modifies this
      ensures Valid()
      ensures cursor == old(cursor) && busy == old(busy)
      ensures buttonDown && cardHit.Some? ==>
        selected == cardHit && HasSelection() && cards == old(cards) &&
        selectedSiblingIndex == IndexOf(old(siblings), cardHit.value) &&
        siblings == MoveToLast(old(siblings), cardHit.value) && slots == None
      ensures !buttonDown && buttonUp && old(HasSelection()) ==>
        selected == None && selectedSiblingIndex == old(selectedSiblingIndex) &&
        (groundHit ==>
          cards == RemoveFirst(old(cards), old(selected).value) && siblings == old(siblings) &&
          slots.Some? && |slots.value| == |cards| &&
          forall i :: 0 <= i < |cards| ==> slots.value[i] == SlotParam(i, |cards|)) &&
        (!groundHit ==>
          cards == old(cards) && slots == None &&
          siblings == MoveToIndex(old(siblings), old(selected).value, old(selectedSiblingIndex)))
      ensures (buttonDown && cardHit.None?) || (!buttonDown && !(buttonUp && old(HasSelection()))) ==>
        cards == old(cards) && siblings == old(siblings) && selected == old(selected) &&
        selectedSiblingIndex == old(selectedSiblingIndex) && slots == None
    {
      slots := None;
      if buttonDown {
        if cardHit.Some? {
          var card := cardHit.value;
          selected := cardHit;
          selectedSiblingIndex := IndexOf(siblings, card);
          MoveToLastKeepsMembers(siblings, card);
          siblings := MoveToLast(siblings, card);
        }
      } else if buttonUp && HasSelection() {
        var card := selected.value;
        if groundHit {
          RemoveKeepsValid(cards, siblings, card);
          cards := RemoveFirst(cards, card);
          var newSlots := RearrangeCards();
          slots := Some(newSlots);
        } else {
          MoveToIndexKeepsMembers(siblings, card, selectedSiblingIndex);
          siblings := MoveToIndex(siblings, card, selectedSiblingIndex);
        }
        selected := None;
      }
    }
  }

  /** Pressing on a card and releasing it away from the ground, with only
      drag frames in between, leaves the hand and the sibling order exactly
      as they were before the press. */
  method DragAndCancel(hand: HandController, card: Card, dragFrames: nat)
    requires hand.Valid() && card in hand.siblings
    modifies hand
    ensures hand.Valid() && !hand.HasSelection()
    ensures hand.cards == old(hand.cards) && hand.siblings == old(hand.siblings)
    ensures hand.cursor == old(hand.cursor) && hand.busy == old(hand.busy)
  {
    ghost var before := hand.siblings;
    var _ := hand.Update(true, false, Some(card), false);
    var frame := 0;
    while frame < dragFrames
      invariant hand.Valid() && hand.HasSelection() && hand.selected == Some(card)
      invariant hand.cards == old(hand.cards) && hand.siblings == MoveToLast(before, card)
      invariant hand.selectedSiblingIndex == IndexOf(before, card)
      invariant hand.cursor == old(hand.cursor) && hand.busy == old(hand.busy)
    {
      var _ := hand.Update(false, false, None, false);
      frame := frame + 1;
    }
    var _ := hand.Update(false, true, None, false);
    SiblingIndexRestored(before, card);
  }

  /** Successive stat changes, each followed by its completion, none of which
      drives a health value to zero or below (so no card leaves the hand): the
      cards picked are exactly the round-robin sequence `Picks` from the cursor
      the hand started with. */
  method ChangeRounds(hand: HandController, values: seq<int>, statIndices: seq<int>) returns (picks: seq<nat>)
    requires hand.Valid() && |hand.cards| > 0 && !hand.busy
    requires |statIndices| == |values|
    requires forall k :: 0 <= k < |values| ==> statIndices[k] != HealthIndex || values[k] > 0
    modifies hand, hand.cards
    ensures hand.Valid() && !hand.busy
    ensures hand.cards == old(hand.cards) && hand.siblings == old(hand.siblings)
    ensures picks == Picks(old(hand.cursor), |hand.cards|, |values|)
  {
    var n := |hand.cards|;
    picks := [];
    var i := 0;
    while i < |values|
      invariant 0 <= i <= |values|
      invariant hand.Valid() && !hand.busy
      invariant hand.cards == old(hand.cards) && hand.siblings == old(hand.siblings)
      invariant picks + Picks(hand.cursor, n, |values| - i) == Picks(old(hand.cursor), n, |values|)
    {
      ghost var remaining := Picks(hand.cursor, n, |values| - i);
      var picked, destroyed := hand.ChangeCardInfo(values[i], statIndices[i]);
      assert !destroyed;
      hand.OnCardStatChangeCompleted();
      assert remaining == [picked.value] + Picks(hand.cursor, n, |values| - i - 1);
      picks := picks + [picked.value];
      i := i + 1;
    }
  }

  /** Removing a card from both the hand and the siblings keeps both free of
      repetitions and the hand inside the siblings; removing it from the hand
      alone keeps the hand inside the siblings too. */
  lemma RemoveKeepsValid(cards: seq<Card>, siblings: seq<Card>, card: Card)
    requires Distinct(cards) && Distinct(siblings)
    requires forall c :: c in cards ==> c in siblings
    ensures Distinct(RemoveFirst(cards, card)) && Distinct(RemoveFirst(siblings, card))
    ensures forall c :: c in RemoveFirst(cards, card) ==> c in RemoveFirst(siblings, card) && c in siblings
    ensures card !in RemoveFirst(cards, card) && card !in RemoveFirst(siblings, card)
  {
    RemoveFirstDistinct(cards, card);
    RemoveFirstDistinct(siblings, card);
    forall c ensures c in RemoveFirst(cards, card) <==> c in cards && c != card {
      RemoveFirstMembers(cards, card, c);
    }
    forall c ensures c in RemoveFirst(siblings, card) <==> c in siblings && c != card {
      RemoveFirstMembers(siblings, card, c);
    }
  }
}
