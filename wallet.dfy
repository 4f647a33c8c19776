/**
 * The Wallet class of 3_wallet: a balance in units (10^8 units make one B), a history of the
 * balances after each operation, and the static count of units in circulation, which may
 * never exceed 21 million B.
 *
 * The static Wallet::existing_units is the one field of a `Circulation` object that every
 * operation touching it receives. It is a uint64 in the source and every update of it is
 * written here with explicit wrap-around; a balance is a natural number. A history entry is the
 * balance after the operation, its timestamp being left out. Constructors that can throw are
 * static methods returning a `Result`.
 */
module WalletModel {
  import opened Wrappers
  import opened WalletText

  /** MAX_UNITS_IN_CIRCULATION: 21 million B. */
  const MaxUnits: nat := 21_000_000 * UnitsInB

  const Two64: nat := 0x1_0000_0000_0000_0000

  /** uint64 arithmetic: the value modulo 2^64. */
  function Wrap(x: int): (r: nat)
    ensures r < Two64
    ensures 0 <= x < Two64 ==> r == x
  {
    x % Two64
  }

  /** MAX_UNITS_IN_CIRCULATION - existing_units, computed in uint64. */
  function Headroom(existing: nat): (h: nat)
    ensures existing <= MaxUnits ==> h == MaxUnits - existing
  {
    Wrap(MaxUnits - existing)
  }

  /** Why an operation throws std::invalid_argument. */
  datatype Failure = NegativeBalance | CirculationLimit | BadInscription

  /**
   * The overflow guard of Wallet(int), `*` and `*=`: headroom / n < w, in floor division, holds
   * exactly when adding w * n units would pass the cap.
   */
  lemma CapCheckExact(existing: nat, n: nat, w: nat)
    requires existing <= MaxUnits && n > 0
    ensures Headroom(existing) / n < w <==> existing + w * n > MaxUnits
  {
    var h := MaxUnits - existing;
    assert h == h / n * n + h % n;
    if h / n < w {
      assert h / n + 1 <= w;
      MulMonotone(h / n + 1, w, n);
      assert (h / n + 1) * n == h / n * n + n;
    } else {
      MulMonotone(w, h / n, n);
    }
  }

  lemma MulMonotone(a: nat, b: nat, n: nat)
    requires a <= b
    ensures a * n <= b * n
  {
  }

  /**
   * The guard of `*=` for a negative factor: n - 1 converts to a uint64 larger than any headroom,
   * so the quotient is 0 and the call throws exactly when the balance is not 0.
   */
  lemma NegativeFactorGuard(existing: nat, n: int, w: nat)
    requires existing <= MaxUnits && IntMin <= n < 0
    ensures Headroom(existing) / Wrap(n - 1) < w <==> w > 0
  {
    assert Wrap(n - 1) == Two64 + n - 1;
    DivSmall(Headroom(existing), Wrap(n - 1));
  }

  lemma DivSmall(h: nat, d: nat)
    requires h < d
    ensures h / d == 0
  {
  }

  /**
   * The guard of the string constructors: headroom < u holds exactly when adding u units would
   * pass the cap, and otherwise the uint64 sum does not wrap.
   */
  lemma JoinCirculation(existing: nat, u: nat)
    requires existing <= MaxUnits
    ensures Headroom(existing) < u <==> existing + u > MaxUnits
    ensures existing + u <= MaxUnits ==> Wrap(existing + u) == existing + u
  {
  }

  /** Scaling a balance u by n after the `*=` guard keeps the circulation within the cap. */
  lemma ScaleWithinCap(existing: nat, u: nat, n: nat)
    requires u <= existing <= MaxUnits
    requires n <= 1 || existing + u * (n - 1) <= MaxUnits
    ensures existing - u + u * n <= MaxUnits
  {
    if n >= 1 {
      assert u * n == u * (n - 1) + u;
    }
  }

  /** Within the cap the uint64 arithmetic of `*=` is exact. */
  lemma ScaleExact(existing: nat, u: nat, n: int)
    requires u <= existing <= MaxUnits && 0 <= n <= IntMax
    requires n <= 1 || existing + u * (n - 1) <= MaxUnits
    ensures Wrap(u * Wrap(n)) == u * n
    ensures Wrap(Wrap(existing - u) + u * n) == existing - u + u * n <= MaxUnits
  {
    ScaleWithinCap(existing, u, n);
    assert Wrap(n) == n;
  }

  // ---------------------------------------------------------------------------------------
  // History of a merged wallet

  /** Wallet(w1, w2) as documented: both histories, then one entry with the sum. */
  function MergedHistory(h1: seq<nat>, h2: seq<nat>, sum: nat): (h: seq<nat>)
    ensures |h| == |h1| + |h2| + 1
    ensures multiset(h) == multiset(h1) + multiset(h2) + multiset{sum}
    ensures h[..|h1|] == h1 && h[|h1|..|h1| + |h2|] == h2 && h[|h| - 1] == sum
  {
    var h := h1 + h2 + [sum];
    assert h[..|h1|] == h1;
    assert h[|h1|..|h1| + |h2|] == h2;
    h
  }

  function Zeros(k: nat): (z: seq<nat>)
    ensures |z| == k && forall i :: 0 <= i < k ==> z[i] == 0
  {
    if k == 0 then [] else Zeros(k - 1) + [0]
  }

  /**
   * Wallet(w1, w2) as written: the buffer is sized 2 * |h1| before both histories are merged
   * into it, so a longer h2 is written past its end (None), and a shorter one leaves
   * default entries of 0 units before the new entry.
   */
  function MergedHistoryAsWritten(h1: seq<nat>, h2: seq<nat>, sum: nat): (r: Option<seq<nat>>)
    ensures r.None? <==> |h2| > |h1|
    ensures r.Some? ==> |r.value| == 2 * |h1| + 1
  {
    if |h2| > |h1| then None else Some(h1 + h2 + Zeros(|h1| - |h2|) + [sum])
  }

  /** The two agree exactly when the histories have the same length. */
  lemma MergedHistoryAsWrittenDiffers(h1: seq<nat>, h2: seq<nat>, sum: nat)
    ensures MergedHistoryAsWritten(h1, h2, sum) == Some(MergedHistory(h1, h2, sum)) <==> |h1| == |h2|
  {
    if |h1| == |h2| {
      assert Zeros(0) == [];
      assert h1 + h2 + Zeros(|h1| - |h2|) + [sum] == h1 + h2 + [sum];
    }
  }

  /** Merging a wallet with one entry into a wallet with two yields a stray zero entry. */
  lemma MergeLeavesStrayEntry()
    ensures MergedHistoryAsWritten([0, 5], [3], 8) == Some([0, 5, 3, 0, 8])
    ensures MergedHistory([0, 5], [3], 8) == [0, 5, 3, 8]
    ensures MergedHistoryAsWritten([3], [0, 5], 8) == None
  {
    assert Zeros(1) == [0];
    assert [0, 5] + [3] + [0] + [8] == [0, 5, 3, 0, 8];
    assert [0, 5] + [3] + [8] == [0, 5, 3, 8];
  }

  // ---------------------------------------------------------------------------------------
  // The counter of units in circulation

  class Circulation {
    /** Wallet::existing_units */
    var existing: nat

    /** Units in circulation never exceed 21 million B. */
    predicate Valid()
      reads this
    {
      existing <= MaxUnits
    }

    constructor ()
      ensures existing == 0 && Valid()
    {
      existing := 0;
    }
  }

  // ---------------------------------------------------------------------------------------
  // Wallets

  class Wallet {
    var units: nat
    var history: seq<nat>

    /** Wallet(): 0 units and a one-entry history. */
    constructor ()
      ensures units == 0 && history == [0]
    {
      units := 0;
      history := [0];
    }

    /** A wallet holding u units, the entry recording them; used by the checked factories. */
    constructor Holding(u: nat)
      ensures units == u && history == [u]
    {
      units := u;
      history := [u];
    }

    /**
     * Wallet(int n): n B with a one-entry history. It throws for a negative n, and when n B
     * would take the circulation past the cap; otherwise the units join the circulation.
     */
    static method FromInt(c: Circulation, n: int) returns (r: Result<Wallet, Failure>)
      requires IntMin <= n <= IntMax
      modifies c
      ensures n < 0 ==> r == Err(NegativeBalance)
      ensures r.Err? ==> c.existing == old(c.existing)
      ensures old(c.Valid()) ==> (r.Err? <==> n < 0 || old(c.existing) + n * UnitsInB > MaxUnits)
      ensures r.Ok? ==> fresh(r.value) && n >= 0 && r.value.units == n * UnitsInB && r.value.history == [n * UnitsInB]
      ensures r.Ok? ==> c.existing == Wrap(old(c.existing) + n * UnitsInB)
      ensures old(c.Valid()) ==> c.Valid()
    {
      if n < 0 {
        return Err(NegativeBalance);
      }
      if Headroom(c.existing) / UnitsInB < n {
        if c.Valid() {
          CapCheckExact(c.existing, UnitsInB, n);
        }
        return Err(CirculationLimit);
      }
      if c.Valid() {
        CapCheckExact(c.existing, UnitsInB, n);
      }
      var w := new Wallet.Holding(n * UnitsInB);
      c.existing := Wrap(c.existing + w.units);
      return Ok(w);
    }

    /**
     * The body shared by Wallet(const char*) and Wallet(const std::string&) once the inscription
     * is read: u units join the circulation unless they would take it past the cap.
     */
    static method Admit(c: Circulation, u: nat) returns (r: Result<Wallet, Failure>)
      modifies c
      ensures r.Err? ==> r.error == CirculationLimit && c.existing == old(c.existing)
      ensures old(c.Valid()) ==> (r.Err? <==> old(c.existing) + u > MaxUnits)
      ensures r.Ok? ==> fresh(r.value) && r.value.units == u && r.value.history == [u]
      ensures r.Ok? ==> c.existing == Wrap(old(c.existing) + u)
      ensures old(c.Valid()) && r.Ok? ==> c.existing == old(c.existing) + u
      ensures old(c.Valid()) ==> c.Valid()
    {
      if c.Valid() {
        JoinCirculation(c.existing, u);
      }
      if Headroom(c.existing) < u {
        return Err(CirculationLimit);
      }
      var w := new Wallet.Holding(u);
      c.existing := Wrap(c.existing + w.units);
      return Ok(w);
    }

    /**
     * Wallet(const char*) and Wallet(const std::string&): the units the inscription stands for.
     * It throws for an inscription the grammar refuses, and when the units would take the
     * circulation past the cap.
     */
    static method FromString(c: Circulation, s: string) returns (r: Result<Wallet, Failure>)
      modifies c
      ensures UnitsFromString(s).Err? ==> r == Err(BadInscription) && c.existing == old(c.existing)
      ensures old(c.Valid()) && UnitsFromString(s).Ok? ==>
                (r.Err? <==> old(c.existing) + UnitsFromString(s).value > MaxUnits)
      ensures r.Ok? ==>
                fresh(r.value) && UnitsFromString(s) == Ok(r.value.units) && r.value.history == [r.value.units]
      ensures old(c.Valid()) && r.Ok? ==> c.existing == old(c.existing) + r.value.units
      ensures old(c.Valid()) ==> c.Valid()
    {
      var parsed := UnitsFromString(s);
      if parsed.Err? {
        return Err(BadInscription);
      }
      r := Admit(c, parsed.value);
    }

    /** Wallet::fromBinary: the binary inscription, then Wallet(int) on its value. */
    static method FromBinary(c: Circulation, s: string) returns (r: Result<Wallet, Failure>)
      modifies c
      ensures ParseBinary(s).None? ==> r == Err(BadInscription)
      ensures ParseBinary(s).Some? && ParseBinary(s).value < 0 ==> r == Err(NegativeBalance)
      ensures r.Err? ==> c.existing == old(c.existing)
      ensures old(c.Valid()) && ParseBinary(s).Some? && ParseBinary(s).value >= 0 ==>
                (r.Err? <==> old(c.existing) + ParseBinary(s).value * UnitsInB > MaxUnits)
      ensures r.Ok? ==>
                fresh(r.value) && ParseBinary(s).Some? &&
                r.value.units == ParseBinary(s).value * UnitsInB && r.value.history == [r.value.units]
      ensures r.Ok? ==> c.existing == Wrap(old(c.existing) + r.value.units)
      ensures old(c.Valid()) && r.Ok? ==> c.existing == old(c.existing) + r.value.units
      ensures old(c.Valid()) ==> c.Valid()
    {
      var n := ParseBinary(s);
      if n.None? {
        return Err(BadInscription);
      }
      r := FromInt(c, n.value);
    }

    /**
     * Wallet(Wallet&&): takes w's balance and history, adding one entry; w is left empty. No
     * unit is created or lost.
     */
    static method MoveFrom(w: Wallet) returns (r: Wallet)
      modifies w
      ensures fresh(r)
      ensures r.units == old(w.units) && r.history == old(w.history) + [old(w.units)]
      ensures w.units == 0 && w.history == []
      ensures r.units + w.units == old(w.units)
    {
      r := new Wallet.Holding(w.units);
      r.history := w.history + [w.units];
      w.units := 0;
      w.history := [];
    }

    /**
     * Wallet(Wallet&&, Wallet&&): the sum of both balances, both histories plus one entry; both
     * wallets are emptied and keep their histories. The circulation is unchanged, and so is
     * the total held by the wallets involved.
     */
    static method Merge(w1: Wallet, w2: Wallet) returns (r: Wallet)
      modifies w1, w2
      ensures fresh(r)
      ensures r.units == old(w1.units) + old(w2.units)
      ensures r.history == MergedHistory(old(w1.history), old(w2.history), r.units)
      ensures w1.units == 0 && w2.units == 0
      ensures w1.history == old(w1.history) && w2.history == old(w2.history)
      ensures w1 != w2 ==> r.units + w1.units + w2.units == old(w1.units) + old(w2.units)
    {
      var sum := w1.units + w2.units;
      r := new Wallet.Holding(sum);
      r.history := MergedHistory(w1.history, w2.history, sum);
      w1.units := 0;
      w2.units := 0;
    }

    /** ~Wallet(): the balance leaves the circulation (a uint64 subtraction). */
    method Destroy(c: Circulation)
      modifies c
      ensures c.existing == Wrap(old(c.existing) - units)
      ensures old(c.Valid()) && units <= old(c.existing) ==> c.existing == old(c.existing) - units && c.Valid()
    {
      c.existing := Wrap(c.existing - units);
    }

    /**
     * operator=(Wallet&&): nothing for self-assignment; otherwise this takes rhs's balance and
     * history plus one entry, and rhs is left empty. The balance this held is overwritten
     * without leaving the circulation, so existing_units keeps counting it.
     */
    method MoveAssign(rhs: Wallet)
      modifies this, rhs
      ensures rhs == this ==> units == old(units) && history == old(history)
      ensures rhs != this ==> units == old(rhs.units) && history == old(rhs.history) + [old(rhs.units)]
      ensures rhs != this ==> rhs.units == 0 && rhs.history == []
    {
      if this != rhs {
        history := rhs.history + [rhs.units];
        units := rhs.units;
        rhs.units := 0;
        rhs.history := [];
      }
    }

    /**
     * operator+(Wallet&&, Wallet&&) and, with rhsNamed, operator+(Wallet&&, Wallet&): a new
     * wallet with both balances; both operands end with 0 units, and a named rhs gets an
     * entry. The total held by the wallets involved is unchanged.
     */
    static method Plus(lhs: Wallet, rhs: Wallet, rhsNamed: bool) returns (r: Wallet)
      modifies lhs, rhs
      ensures fresh(r)
      ensures r.units == old(lhs.units) + old(rhs.units) && r.history == [0, r.units]
      ensures lhs.units == 0 && rhs.units == 0
      ensures rhs.history == if rhsNamed then old(rhs.history) + [0] else old(rhs.history)
      ensures lhs != rhs ==> lhs.history == old(lhs.history)
      ensures lhs != rhs ==> r.units + lhs.units + rhs.units == old(lhs.units) + old(rhs.units)
    {
      r := new Wallet();
      r.units := lhs.units + rhs.units;
      lhs.units := 0;
      rhs.units := 0;
      if rhsNamed {
        rhs.history := rhs.history + [rhs.units];
      }
      r.history := r.history + [r.units];
    }

    /**
     * operator-(Wallet&&, Wallet&&) and, with rhsNamed, operator-(Wallet&&, Wallet&): throws
     * when lhs holds less than rhs, changing nothing; otherwise a new wallet with the
     * difference, rhs doubled and lhs emptied, and a named rhs gets an entry. What rhs gains
     * is what lhs lost beyond the difference, so the total is unchanged.
     */
    static method Minus(lhs: Wallet, rhs: Wallet, rhsNamed: bool) returns (r: Result<Wallet, Failure>)
      modifies lhs, rhs
      ensures old(lhs.units) < old(rhs.units) <==> r.Err?
      ensures r.Err? ==> r.error == NegativeBalance && unchanged(lhs, rhs)
      ensures r.Ok? ==>
                fresh(r.value) && r.value.units == old(lhs.units) - old(rhs.units) &&
                r.value.history == [0, r.value.units]
      ensures r.Ok? && lhs != rhs ==>
                lhs.units == 0 && rhs.units == 2 * old(rhs.units) && lhs.history == old(lhs.history) &&
                rhs.history == if rhsNamed then old(rhs.history) + [rhs.units] else old(rhs.history)
      ensures r.Ok? && lhs != rhs ==> r.value.units + lhs.units + rhs.units == old(lhs.units) + old(rhs.units)
      ensures r.Ok? && lhs == rhs ==>
                lhs.units == 0 && lhs.history == if rhsNamed then old(lhs.history) + [0] else old(lhs.history)
    {
      if lhs.units < rhs.units {
        return Err(NegativeBalance);
      }
      var w := new Wallet();
      w.units := lhs.units - rhs.units;
      rhs.units := 2 * rhs.units;
      lhs.units := 0;
      if rhsNamed {
        rhs.history := rhs.history + [rhs.units];
      }
      w.history := w.history + [w.units];
      return Ok(w);
    }

    /**
     * operator+=: this gains rhs's balance and rhs is emptied; each gets one entry, and the
     * total is unchanged.
     */
    method AddAssign(rhs: Wallet)
      modifies this, rhs
      ensures rhs != this ==> units == old(units) + old(rhs.units) && history == old(history) + [units]
      ensures rhs != this ==> rhs.units == 0 && rhs.history == old(rhs.history) + [0]
      ensures rhs != this ==> units + rhs.units == old(units) + old(rhs.units)
      ensures rhs == this ==> units == 0 && history == old(history) + [2 * old(units), 0]
    {
      units := units + rhs.units;
      history := history + [units];
      rhs.units := 0;
      rhs.history := rhs.history + [rhs.units];
    }

    /**
     * operator-=: throws when this holds less than rhs, changing nothing; otherwise this loses
     * rhs's balance and rhs doubles; each gets one entry, and the total is unchanged. A wallet
     * subtracted from itself ends empty with two entries of 0.
     */
    method SubAssign(rhs: Wallet) returns (r: Result<(), Failure>)
      modifies this, rhs
      ensures old(units) < old(rhs.units) <==> r.Err?
      ensures r.Err? ==> r.error == NegativeBalance && unchanged(this, rhs)
      ensures r.Ok? && rhs != this ==>
                units == old(units) - old(rhs.units) && history == old(history) + [units] &&
                rhs.units == 2 * old(rhs.units) && rhs.history == old(rhs.history) + [rhs.units]
      ensures rhs != this ==> units + rhs.units == old(units) + old(rhs.units)
      ensures rhs == this ==> units == 0 && history == old(history) + [0, 0]
    {
      if units < rhs.units {
        return Err(NegativeBalance);
      }
      units := units - rhs.units;
      history := history + [units];
      rhs.units := 2 * rhs.units;
      rhs.history := rhs.history + [rhs.units];
      return Ok(());
    }

    /**
     * operator*(Wallet&, uint64_t) and the other three overloads: a new wallet with w * n units
     * (a uint64 product), which join the circulation; it throws when they would take it past
     * the cap, and otherwise the product does not wrap.
     */
    static method Times(c: Circulation, w: Wallet, n: nat) returns (r: Result<Wallet, Failure>)
      requires n < Two64
      modifies c
      ensures r.Err? ==> r.error == CirculationLimit && c.existing == old(c.existing)
      ensures old(c.Valid()) ==> (r.Err? <==> old(c.existing) + w.units * n > MaxUnits)
      ensures r.Ok? ==>
                fresh(r.value) && r.value.units == Wrap(w.units * n) && r.value.history == [0, r.value.units]
      ensures r.Ok? ==> c.existing == Wrap(old(c.existing) + r.value.units)
      ensures old(c.Valid()) && r.Ok? ==>
                r.value.units == w.units * n && c.existing == old(c.existing) + w.units * n && c.Valid()
    {
      if c.Valid() && n != 0 {
        CapCheckExact(c.existing, n, w.units);
      }
      if n != 0 && Headroom(c.existing) / n < w.units {
        return Err(CirculationLimit);
      }
      var result := new Wallet();
      result.units := Wrap(w.units * n);
      c.existing := Wrap(c.existing + result.units);
      result.history := result.history + [result.units];
      return Ok(result);
    }

    /**
     * operator*=(Wallet&, int): the balance is multiplied by n in uint64 arithmetic and the
     * circulation changes by the difference; one entry is added. The guard is skipped for n
     * of 0 or 1; for a negative n it throws exactly when the balance is not 0.
     */
    method TimesAssign(c: Circulation, n: int) returns (r: Result<(), Failure>)
      requires IntMin < n <= IntMax
      modifies this, c
      ensures r.Err? ==> r.error == CirculationLimit && unchanged(this, c)
      ensures r.Ok? ==> units == Wrap(old(units) * Wrap(n)) && history == old(history) + [units]
      ensures r.Ok? ==> c.existing == Wrap(Wrap(old(c.existing) - old(units)) + units)
      ensures n == 0 || n == 1 ==> r.Ok?
      ensures n < 0 && old(c.Valid()) ==> (r.Err? <==> old(units) > 0)
      ensures n >= 2 && old(c.Valid()) ==> (r.Err? <==> old(c.existing) + old(units) * (n - 1) > MaxUnits)
      ensures n >= 0 && r.Ok? && old(c.Valid()) && old(units) <= old(c.existing) ==>
                units == old(units) * n && c.existing == old(c.existing) - old(units) + old(units) * n && c.Valid()
    {
      if n != 0 && n != 1 {
        var d := Wrap(n - 1);
        if n < 0 && c.Valid() {
          NegativeFactorGuard(c.existing, n, units);
        }
        if n >= 2 && c.Valid() {
          CapCheckExact(c.existing, n - 1, units);
        }
        if Headroom(c.existing) / d < units {
          return Err(CirculationLimit);
        }
      }
      var scaled := Wrap(units * Wrap(n));
      if n >= 0 && c.Valid() && units <= c.existing {
        ScaleExact(c.existing, units, n);
      }
      c.existing := Wrap(Wrap(c.existing - units) + scaled);
      units := scaled;
      history := history + [units];
      return Ok(());
    }

    /** operator==: wallets compare by balance only. */
    predicate Equal(other: Wallet)
      reads this, other
    {
      units == other.units
    }

    /** operator<: wallets compare by balance only. */
    predicate Less(other: Wallet)
      reads this, other
    {
      units < other.units
    }
  }

  /**
   * The two comparisons order wallets totally by balance: exactly one of a < b, a == b and
   * b < a holds, and wallets with equal balances are equal whatever their histories.
   */
  lemma ComparedByBalance(a: Wallet, b: Wallet)
    ensures a.Less(b) || a.Equal(b) || b.Less(a)
    ensures !(a.Less(b) && a.Equal(b)) && !(a.Less(b) && b.Less(a)) && !(a.Equal(b) && b.Less(a))
    ensures a.Equal(b) <==> a.units == b.units
  {
  }
}
