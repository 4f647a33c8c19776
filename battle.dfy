/**
 * SpaceBattle of 4_starwars: the ships in their tuple order, a counter of the rebel ships and
 * one of the imperial ships not yet destroyed, and the battle clock, which runs modulo t1 + 1.
 * On a tick whose time is a perfect square below t1, every imperial ship still standing
 * attacks every rebel ship still standing.
 *
 * The counters are size_t: a decrement is written with wrap-around modulo 2^64.
 */
module Battle {
  import opened Fleet

  const Two64: nat := 0x1_0000_0000_0000_0000

  /** size_t arithmetic: the value modulo 2^64. */
  function Wrap(x: int): (r: nat)
    ensures r < Two64
    ensures 0 <= x < Two64 ==> r == x
  {
    x % Two64
  }

  /** The number of ships standing on one side: rebels when rebel holds, imperials otherwise. */
  function Standing(ships: seq<Ship>, rebel: bool): (c: nat)
    ensures c <= |ships|
  {
    if ships == [] then 0
    else Standing(ships[..|ships| - 1], rebel) + (if Stands(ships[|ships| - 1], rebel) then 1 else 0)
  }

  predicate Stands(s: Ship, rebel: bool)
  {
    IsRebel(s) == rebel && s.shield != 0
  }

  /** Overwriting one ship changes the count by what that ship contributes. */
  lemma {:induction false} StandingUpdate(ships: seq<Ship>, m: nat, s: Ship, rebel: bool)
    requires m < |ships|
    ensures Standing(ships[m := s], rebel) + (if Stands(ships[m], rebel) then 1 else 0)
         == Standing(ships, rebel) + (if Stands(s, rebel) then 1 else 0)
  {
    var last := |ships| - 1;
    assert ships[m := s][..last] == if m == last then ships[..last] else ships[..last][m := s];
    if m < last {
      StandingUpdate(ships[..last], m, s, rebel);
    }
  }

  /** The state of a battle that its operations change; the bounds t0 and t1 are fixed. */
  datatype State = State(ships: seq<Ship>, rebels: nat, imperials: nat, time: nat)

  /** What tick reports before it attacks. */
  datatype Outcome = Undecided | Draw | ImperiumWon | RebelsWon

  function OutcomeOf(rebels: nat, imperials: nat): (o: Outcome)
    ensures o == Draw <==> rebels == 0 && imperials == 0
    ensures o == ImperiumWon <==> rebels == 0 && imperials != 0
    ensures o == RebelsWon <==> rebels != 0 && imperials == 0
    ensures o == Undecided <==> rebels != 0 && imperials != 0
  {
    if imperials == 0 && rebels == 0 then Draw
    else if rebels == 0 then ImperiumWon
    else if imperials == 0 then RebelsWon
    else Undecided
  }

  // ---------------------------------------------------------------------------------------
  // The attack schedule

  function Square(i: nat): nat
  {
    i * i
  }

  /** howMuchSquares from n on: the least k >= n whose square reaches t1. */
  function SquaresFrom(n: nat, t1: nat): (k: nat)
    requires forall i: nat :: i < n ==> Square(i) < t1
    ensures k >= n && Square(k) >= t1
    ensures forall i: nat :: i < k ==> Square(i) < t1
    decreases t1 - n
  {
    if Square(n) >= t1 then n
    else
      assert n < t1 by {
        if n > 0 {
          assert n <= n * n;
        }
      }
      SquaresFrom(n + 1, t1)
  }

  /** howMuchSquares: the number of entries of the attack schedule. */
  function HowMuchSquares(t1: nat): (k: nat)
    ensures Square(k) >= t1
    ensures forall i: nat :: i < k ==> Square(i) < t1
  {
    SquaresFrom(0, t1)
  }

  /** The attack schedule: the squares 0, 1, 4, ... of the first HowMuchSquares(t1) naturals. */
  function Schedule(t1: nat): seq<nat>
  {
    seq(HowMuchSquares(t1), i => i * i)
  }

  ghost predicate IsSquare(x: nat)
  {
    exists i: nat :: Square(i) == x
  }

  lemma SquareMonotone(a: nat, b: nat)
    requires a <= b
    ensures Square(a) <= Square(b)
  {
    assert a * a <= a * b <= b * b;
  }

  /**
   * A time is in the schedule exactly when it is a square strictly below t1: a square equal
   * to t1 is not attacked on.
   */
  lemma {:induction false} ScheduleIsSquaresBelow(t1: nat, time: nat)
    ensures time in Schedule(t1) <==> IsSquare(time) && time < t1
  {
    var n := HowMuchSquares(t1);
    if time in Schedule(t1) {
      var i :| 0 <= i < n && Schedule(t1)[i] == time;
      assert Square(i) == time;
    }
    if IsSquare(time) && time < t1 {
      var i: nat :| Square(i) == time;
      if i >= n {
        SquareMonotone(n, i);
        assert false;
      }
      assert Schedule(t1)[i] == time;
    }
  }

  /** squaresTable: fills the schedule into a fresh array. */
  method SquaresTable(t1: nat) returns (squares: array<nat>)
    ensures fresh(squares)
    ensures squares[..] == Schedule(t1)
  {
    var n := HowMuchSquares(t1);
    squares := new nat[n];
    for i := 0 to n
      invariant forall j :: 0 <= j < i ==> squares[j] == j * j
    {
      squares[i] := i * i;
    }
  }

  // ---------------------------------------------------------------------------------------
  // The attack, step by step

  /**
   * One step of rebelsGetAttacked: the imperial ship at n attacks the ship at m when it is a
   * rebel still standing. A counter drops each time the attack leaves its side's ship at 0;
   * for the attacker that is every attack it makes after being destroyed as well.
   */
  function Strike(st: State, n: nat, m: nat): (r: State)
    requires n < |st.ships| && m < |st.ships| && st.ships[n].Imperial?
    ensures |r.ships| == |st.ships| && r.ships[n].Imperial? && r.time == st.time
    ensures st.imperials < Two64 ==> r.imperials < Two64
  {
    if st.ships[m].Rebel? && st.ships[m].shield != 0 then
      var (imperial, rebel) := Attack(st.ships[n], st.ships[m]);
      State(st.ships[m := rebel][n := imperial],
            if rebel.shield == 0 then Wrap(st.rebels - 1) else st.rebels,
            if imperial.shield == 0 then Wrap(st.imperials - 1) else st.imperials,
            st.time)
    else
      st
  }

  /** rebelsGetAttacked with the imperial ship at n, over the first k ships. */
  function Volley(st: State, n: nat, k: nat): (r: State)
    requires n < |st.ships| && k <= |st.ships| && st.ships[n].Imperial?
    ensures |r.ships| == |st.ships| && r.ships[n].Imperial? && r.time == st.time
    ensures st.imperials < Two64 ==> r.imperials < Two64
  {
    if k == 0 then st else Strike(Volley(st, n, k - 1), n, k - 1)
  }

  /** imperiumAttacks over the first k ships: each imperial ship still standing fires a volley. */
  function Assault(st: State, k: nat): (r: State)
    requires k <= |st.ships|
    ensures |r.ships| == |st.ships| && r.time == st.time
    ensures st.imperials < Two64 ==> r.imperials < Two64
  {
    if k == 0 then st
    else
      var s := Assault(st, k - 1);
      if s.ships[k - 1].Imperial? && s.ships[k - 1].shield != 0 then Volley(s, k - 1, |s.ships|) else s
  }

  /** tick: the attack when the time is scheduled, then the clock advances modulo t1 + 1. */
  function TickState(st: State, t1: nat, step: nat): (r: State)
    ensures r.time == (st.time + step) % (t1 + 1) && r.time <= t1
    ensures st.imperials < Two64 ==> r.imperials < Two64
  {
    var s := if st.time in Schedule(t1) then Assault(st, |st.ships|) else st;
    s.(time := (st.time + step) % (t1 + 1))
  }

  // ---------------------------------------------------------------------------------------
  // What the attack keeps

  /** b is a of ships after some damage: the same ships, with no shield higher. */
  predicate Weakened(a: seq<Ship>, b: seq<Ship>)
  {
    |a| == |b| &&
    forall i :: 0 <= i < |a| ==> b[i] == a[i].(shield := b[i].shield) && b[i].shield <= a[i].shield
  }

  lemma WeakenedTransitive(a: seq<Ship>, b: seq<Ship>, c: seq<Ship>)
    requires Weakened(a, b) && Weakened(b, c)
    ensures Weakened(a, c)
  {
  }

  /** The rebel counter is the number of rebels standing (fewer than 2^64 ships take part). */
  predicate Counted(st: State)
  {
    |st.ships| < Two64 && st.rebels == Standing(st.ships, true)
  }

  lemma StrikeKeeps(st: State, n: nat, m: nat)
    requires n < |st.ships| && m < |st.ships| && st.ships[n].Imperial?
    ensures Weakened(st.ships, Strike(st, n, m).ships)
    ensures Counted(st) ==> Counted(Strike(st, n, m))
  {
    if st.ships[m].Rebel? && st.ships[m].shield != 0 {
      var pair := Attack(st.ships[n], st.ships[m]);
      var mid := st.ships[m := pair.1];
      assert mid[n] == st.ships[n];
      StandingUpdate(st.ships, m, pair.1, true);
      StandingUpdate(mid, n, pair.0, true);
      assert Strike(st, n, m).ships == mid[n := pair.0];
    }
  }

  lemma {:induction false} VolleyKeeps(st: State, n: nat, k: nat)
    requires n < |st.ships| && k <= |st.ships| && st.ships[n].Imperial?
    ensures Weakened(st.ships, Volley(st, n, k).ships)
    ensures Counted(st) ==> Counted(Volley(st, n, k))
  {
    if k > 0 {
      VolleyKeeps(st, n, k - 1);
      StrikeKeeps(Volley(st, n, k - 1), n, k - 1);
      WeakenedTransitive(st.ships, Volley(st, n, k - 1).ships, Volley(st, n, k).ships);
    }
  }

  lemma {:induction false} AssaultKeeps(st: State, k: nat)
    requires k <= |st.ships|
    ensures Weakened(st.ships, Assault(st, k).ships)
    ensures Counted(st) ==> Counted(Assault(st, k))
  {
    if k > 0 {
      AssaultKeeps(st, k - 1);
      var s := Assault(st, k - 1);
      if s.ships[k - 1].Imperial? && s.ships[k - 1].shield != 0 {
        VolleyKeeps(s, k - 1, |s.ships|);
        WeakenedTransitive(st.ships, s.ships, Assault(st, k).ships);
      }
    }
  }

  /**
   * No tick raises a shield or changes anything but shields, and the rebel counter stays the
   * number of rebels standing.
   */
  lemma TickKeeps(st: State, t1: nat, step: nat)
    ensures Weakened(st.ships, TickState(st, t1, step).ships)
    ensures Counted(st) ==> Counted(TickState(st, t1, step))
  {
    AssaultKeeps(st, |st.ships|);
  }

  /**
   * The imperial counter is not a count: a TIE fighter with shield 1 facing two XWings is
   * destroyed by the first and still attacks the second, so the counter of one ship is
   * decremented twice and wraps around.
   */
  lemma ImperialCounterWraps()
    ensures Volley(State([Imperial(1, 1), Rebel(XWing, 5, 299796, 1), Rebel(XWing, 5, 299796, 1)], 2, 1, 0), 0, 3)
         == State([Imperial(0, 1), Rebel(XWing, 4, 299796, 1), Rebel(XWing, 4, 299796, 1)], 2, Two64 - 1, 0)
  {
    var st := State([Imperial(1, 1), Rebel(XWing, 5, 299796, 1), Rebel(XWing, 5, 299796, 1)], 2, 1, 0);
    assert Volley(st, 0, 1) == st;
    assert Volley(st, 0, 2) == State([Imperial(0, 1), Rebel(XWing, 4, 299796, 1), Rebel(XWing, 5, 299796, 1)], 2, 0, 0);
  }

  // ---------------------------------------------------------------------------------------
  // The battle

  /** initializeCounters: counts the ships of each side with a nonzero shield. */
  method InitializeCounters(ships: seq<Ship>) returns (rebels: nat, imperials: nat)
    ensures rebels == Standing(ships, true) && imperials == Standing(ships, false)
  {
    rebels, imperials := 0, 0;
    for n := 0 to |ships|
      invariant rebels == Standing(ships[..n], true) && imperials == Standing(ships[..n], false)
    {
      assert ships[..n + 1][..n] == ships[..n];
      if IsRebel(ships[n]) {
        if ships[n].shield != 0 {
          rebels := rebels + 1;
        }
      } else {
        if ships[n].shield != 0 {
          imperials := imperials + 1;
        }
      }
    }
    assert ships[..|ships|] == ships;
  }

  class SpaceBattle {
    const t0: nat
    const t1: nat
    /** The squares the imperials attack on, computed once. */
    const attackTimes: array<nat>
    var ships: seq<Ship>
    var rebels: nat
    var imperials: nat
    var time: nat

    function Snapshot(): State
      reads this
    {
      State(ships, rebels, imperials, time)
    }

    /**
     * The clock is within [0, t1], the schedule is in place, the rebels are counted and the
     * imperial counter is a size_t.
     */
    predicate Valid()
      reads this, attackTimes
    {
      t0 < t1 && time <= t1 && attackTimes[..] == Schedule(t1) && Counted(Snapshot()) && imperials < Two64
    }

    /** SpaceBattle(ships...): the clock starts at t0 and the counters count standing ships. */
    constructor (t0: nat, t1: nat, ships: seq<Ship>)
      requires t0 < t1 && |ships| < Two64
      requires forall s :: s in ships ==> WellFormed(s)
      ensures this.t0 == t0 && this.t1 == t1 && this.ships == ships && time == t0
      ensures rebels == Standing(ships, true) && imperials == Standing(ships, false)
      ensures Valid()
    {
      var table := SquaresTable(t1);
      var r, i := InitializeCounters(ships);
      this.t0 := t0;
      this.t1 := t1;
      this.attackTimes := table;
      this.ships := ships;
      this.rebels := r;
      this.imperials := i;
      this.time := t0;
    }

    /** attack(std::get<n>(ships), std::get<m>(ships)), on the ships where they stand. */
    method AttackAt(n: nat, m: nat)
      requires n < |ships| && m < |ships| && ships[n].Imperial? && ships[m].Rebel?
      modifies this
      ensures ships == old(ships[m := Attack(ships[n], ships[m]).1][n := Attack(ships[n], ships[m]).0])
      ensures rebels == old(rebels) && imperials == old(imperials) && time == old(time)
    {
      var (imperial, rebel) := Attack(ships[n], ships[m]);
      ships := ships[m := rebel];
      ships := ships[n := imperial];
    }

    /** rebelsGetAttacked with the imperial ship at n as attacker. */
    method RebelsGetAttacked(n: nat)
      requires n < |ships| && ships[n].Imperial?
      modifies this
      ensures Snapshot() == Volley(old(Snapshot()), n, |old(ships)|)
    {
      ghost var st := Snapshot();
      var m := 0;
      while m < |ships|
        invariant |ships| == |st.ships| && m <= |ships|
        invariant Snapshot() == Volley(st, n, m)
      {
        if IsRebel(ships[m]) && ships[m].shield != 0 {
          AttackAt(n, m);
          if ships[m].shield == 0 {
            rebels := Wrap(rebels - 1);
          }
          if ships[n].shield == 0 {
            imperials := Wrap(imperials - 1);
          }
        }
        m := m + 1;
      }
    }

    /** imperiumAttacks: each imperial ship standing at its turn fires a volley. */
    method ImperiumAttacks()
      modifies this
      ensures Snapshot() == Assault(old(Snapshot()), |old(ships)|)
    {
      ghost var st := Snapshot();
      var n := 0;
      while n < |ships|
        invariant |ships| == |st.ships| && n <= |ships|
        invariant Snapshot() == Assault(st, n)
      {
        if !IsRebel(ships[n]) && ships[n].shield != 0 {
          RebelsGetAttacked(n);
        }
        n := n + 1;
      }
    }

    /**
     * tick: reports the outcome the counters show, attacks when the time is in the schedule,
     * then advances the clock by step modulo t1 + 1.
     */
    method Tick(step: nat) returns (outcome: Outcome)
      requires Valid()
      modifies this
      ensures outcome == OutcomeOf(old(rebels), old(imperials))
      ensures Snapshot() == TickState(old(Snapshot()), t1, step)
      ensures Valid()
    {
      outcome := OutcomeOf(rebels, imperials);
      TickKeeps(Snapshot(), t1, step);
      if time in attackTimes[..] {
        ImperiumAttacks();
      }
      time := (time + step) % (t1 + 1);
    }

    /** countRebelFleet */
    function CountRebelFleet(): (c: nat)
      requires Valid()
      reads this, attackTimes
      ensures c == Standing(ships, true)
    {
      rebels
    }

    /**
     * countImperialFleet: the imperial counter, a size_t. It starts as the number of imperial
     * ships standing but is not kept equal to it (see ImperialCounterWraps).
     */
    function CountImperialFleet(): (c: nat)
      requires Valid()
      reads this, attackTimes
      ensures c == imperials && c < Two64
    {
      imperials
    }
  }
}
