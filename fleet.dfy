/**
 * The starships of 4_starwars. A ship is a record: the battle holds its ships by value and
 * overwrites a ship's shield in place, so a ship's damage is the record with a new shield.
 * Shield, speed and attack power are natural numbers.
 */
module Fleet {

  /** rebels_settings::kindOfShip */
  datatype Kind = Explorer | StarCruiser | XWing

  const MaxSpeedCruiser: nat := 299795
  const MinSpeedCruiser: nat := 99999
  const MaxSpeedRest: nat := 2997960
  const MinSpeedRest: nat := 299796

  /** rebels_settings::minSpeed */
  function MinSpeed(kind: Kind): nat
  {
    match kind
    case StarCruiser => MinSpeedCruiser
    case Explorer => MinSpeedRest
    case XWing => MinSpeedRest
  }

  /** rebels_settings::maxSpeed */
  function MaxSpeed(kind: Kind): nat
  {
    match kind
    case StarCruiser => MaxSpeedCruiser
    case Explorer => MaxSpeedRest
    case XWing => MaxSpeedRest
  }

  /**
   * The speed ranges: a StarCruiser flies below every Explorer and XWing, the two ranges
   * meeting without a gap, and every range is non-empty.
   */
  lemma SpeedRanges(kind: Kind)
    ensures MinSpeed(kind) < MaxSpeed(kind)
    ensures kind == StarCruiser ==> MinSpeed(kind) == 99999 && MaxSpeed(kind) == 299795
    ensures kind != StarCruiser ==> MinSpeed(kind) == 299796 && MaxSpeed(kind) == 2997960
    ensures MaxSpeed(StarCruiser) + 1 == MinSpeed(kind) <==> kind != StarCruiser
  {
  }

  /** RebelStarship::canCounterAttack: every rebel but an Explorer strikes back. */
  function CanCounterAttack(kind: Kind): bool
  {
    kind != Explorer
  }

  /**
   * A ship of the battle. An Explorer is built without an attack power; it is never read, and
   * the record holds 0 for it.
   */
  datatype Ship =
    | Rebel(kind: Kind, shield: nat, speed: nat, attackPower: nat)
    | Imperial(shield: nat, attackPower: nat)

  /** isRebelShip() */
  predicate IsRebel(s: Ship)
  {
    s.Rebel?
  }

  /** The assertion of the RebelStarship constructors: the speed fits the kind. */
  predicate WellFormed(s: Ship)
  {
    s.Rebel? ==> MinSpeed(s.kind) <= s.speed <= MaxSpeed(s.kind) && (s.kind == Explorer ==> s.attackPower == 0)
  }

  /** RebelStarship(shield, speed, attackPower), for a StarCruiser or an XWing. */
  function ArmedRebel(kind: Kind, shield: nat, speed: nat, attackPower: nat): (s: Ship)
    requires kind != Explorer
    requires MinSpeed(kind) <= speed <= MaxSpeed(kind)
    ensures WellFormed(s) && IsRebel(s) && CanCounterAttack(s.kind)
    ensures s.shield == shield && s.attackPower == attackPower
  {
    Rebel(kind, shield, speed, attackPower)
  }

  /** RebelStarship(shield, speed), for an Explorer. */
  function NewExplorer(shield: nat, speed: nat): (s: Ship)
    requires MinSpeed(Explorer) <= speed <= MaxSpeed(Explorer)
    ensures WellFormed(s) && IsRebel(s) && !CanCounterAttack(s.kind)
    ensures s.shield == shield
  {
    Rebel(Explorer, shield, speed, 0)
  }

  /**
   * takeDamage on a shield: lowered by the damage, and 0 when the damage is at least the
   * shield.
   */
  function Lowered(shield: nat, damage: nat): (r: nat)
    ensures r <= shield
    ensures r == 0 <==> damage >= shield
    ensures r > 0 ==> r + damage == shield
  {
    if shield > damage then shield - damage else 0
  }

  /** Two hits in a row do what one hit with their sum does. */
  lemma LoweredTwice(shield: nat, a: nat, b: nat)
    ensures Lowered(Lowered(shield, a), b) == Lowered(shield, a + b)
  {
  }

  /** More damage never leaves more shield. */
  lemma LoweredMonotone(shield: nat, a: nat, b: nat)
    requires a <= b
    ensures Lowered(shield, b) <= Lowered(shield, a)
  {
  }

  /** takeDamage: only the shield changes. */
  function TakeDamage(s: Ship, damage: nat): (r: Ship)
    ensures r.shield <= s.shield
    ensures r == s.(shield := Lowered(s.shield, damage))
  {
    s.(shield := Lowered(s.shield, damage))
  }

  /**
   * attack(imperialShip, rebelShip): the rebel loses the imperial's attack power; a rebel
   * that can counter-attack then takes the imperial down by its own attack power, even when
   * its shield has just reached 0. The results are the imperial and the rebel, in that order.
   */
  function Attack(imperial: Ship, rebel: Ship): (r: (Ship, Ship))
    requires imperial.Imperial? && rebel.Rebel?
    ensures r.1 == rebel.(shield := Lowered(rebel.shield, imperial.attackPower))
    ensures CanCounterAttack(rebel.kind) ==> r.0 == imperial.(shield := Lowered(imperial.shield, rebel.attackPower))
    ensures !CanCounterAttack(rebel.kind) ==> r.0 == imperial
    ensures r.0.Imperial? && r.1.Rebel?
  {
    var hit := TakeDamage(rebel, imperial.attackPower);
    if CanCounterAttack(rebel.kind) then (TakeDamage(imperial, hit.attackPower), hit) else (imperial, hit)
  }
}
