/** A card of the hand (Assets/Scripts/CardController.cs): three integer stats,
    set all at once when the card is spawned, and one of them driven to a new
    value by a stat change. The animation that drives the value is represented
    by its completed effect; the random stat index is a parameter. */
module Cards {

  /** Random.Range(0, 3) draws the stat index; its upper bound is exclusive. */
  const StatCount: int := 3

  const AttackIndex: int := 0
  const HealthIndex: int := 1
  const ManaIndex: int := 2

  datatype Stats = Stats(attack: int, health: int, mana: int)

  /** The stat a (valid) index names: 0 attack, 1 health, 2 mana. */
  function StatAt(s: Stats, index: int): (v: int)
    requires 0 <= index < StatCount
    ensures v == s.attack || v == s.health || v == s.mana
  {
    if index == AttackIndex then s.attack
    else if index == HealthIndex then s.health
    else s.mana
  }

  /** The completed effect of a stat change: the settled stats and whether
      the card raised its "destroyed" event when the animation finished. */
  datatype StatChange = StatChange(stats: Stats, destroyed: bool)

  /** What ChangeStats leaves behind once its animation has completed, for the
      stat index that was drawn: the chosen stat ends at `newValue`, the other
      two are untouched, and only a health change that ends at zero or below
      destroys the card. An index outside 0..2 is only logged as an error. */
  function ChangeStat(s: Stats, statIndex: int, newValue: int): (r: StatChange)
    ensures 0 <= statIndex < StatCount ==> StatAt(r.stats, statIndex) == newValue
    ensures forall j :: 0 <= j < StatCount && j != statIndex ==> StatAt(r.stats, j) == StatAt(s, j)
    ensures r.destroyed <==> statIndex == HealthIndex && newValue <= 0
    ensures !(0 <= statIndex < StatCount) ==> r.stats == s
  {
    match statIndex
    case 0 => StatChange(s.(attack := newValue), false)
    case 1 => StatChange(s.(health := newValue), newValue <= 0)
    case 2 => StatChange(s.(mana := newValue), false)
    case _ => StatChange(s, false)
  }

  /** For every index Random.Range(0, StatCount) can draw, a stat change is
      observable exactly when the requested value differs from the chosen
      stat's old value: the three stats together change if and only if that
      one does. */
  lemma DrawnIndexChangesIffDifferent(s: Stats, statIndex: int, newValue: int)
    requires 0 <= statIndex < StatCount
    ensures ChangeStat(s, statIndex, newValue).stats != s <==> StatAt(s, statIndex) != newValue
  {
  }

  /** A card object; the fields are the three stat values the card shows. */
  class Card {
    var attack: int
    var health: int
    var mana: int

    function StatValues(): (s: Stats)
      reads this
      ensures s.attack == attack && s.health == health && s.mana == mana
    {
      Stats(attack, health, mana)
    }

    /** A freshly instantiated card, before SetInfo: C#'s default field values. */
    constructor ()
      ensures StatValues() == Stats(0, 0, 0)
    {
      attack, health, mana := 0, 0, 0;
    }

    /** SetInfo: stores exactly the given values (the sprite is not modelled). */
    method SetInfo(attackArg: int, healthArg: int, manaArg: int)
      modifies this
      ensures StatValues() == Stats(attackArg, healthArg, manaArg)
    {
      attack := attackArg;
      health := healthArg;
      mana := manaArg;
    }

    /** ChangeStats, at the completion of its animation: `statIndex` is the
        index drawn by Random.Range(0, 3). Returns whether the card raised
        its "destroyed" event. No "stat change complete" event exists on a
        card, so none is reported. */
    method ChangeStats(newStatValue: int, statIndex: int) returns (destroyed: bool)
      modifies this
      ensures StatValues() == ChangeStat(old(StatValues()), statIndex, newStatValue).stats
      ensures destroyed == ChangeStat(old(StatValues()), statIndex, newStatValue).destroyed
    {
      destroyed := false;
      match statIndex
      case 0 =>
        attack := newStatValue;
      case 1 =>
        health := newStatValue;
        if health <= 0 {
          destroyed := true;
        }
      case 2 =>
        mana := newStatValue;
      case _ =>
    }
  }
}
