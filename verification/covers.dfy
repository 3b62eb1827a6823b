/** What `chooseMinimalCover` returns: given prime implicants that between
    them cover every minterm, exactly the covers of the minterms by primes
    of least cardinality.

    The essentials belong to every cover; the clauses of the p-function are
    the coverers of the minterms the essentials miss, none of which is
    essential; multiplying the clauses out yields, among its products, every
    least set of primes meeting all clauses. */
module MinimalCovers {
  import opened Wrappers
  import opened Masks
  import opened Minimizer
  import Util

  /** `chosen` is a set of primes that covers every minterm. */
  predicate IsCover(chosen: set<Mask>, primes: set<Mask>, minterms: set<int>) {
    chosen <= primes && forall j :: j in minterms ==> Covered(chosen, j)
  }

  /** `chosen` is a cover, and no cover has fewer primes. */
  ghost predicate IsMinimumCover(chosen: set<Mask>, primes: set<Mask>, minterms: set<int>) {
    IsCover(chosen, primes, minterms)
    && forall other: set<Mask> :: IsCover(other, primes, minterms) ==> |chosen| <= |other|
  }

  lemma MinimumBelow(chosen: set<Mask>, other: set<Mask>, primes: set<Mask>, minterms: set<int>)
    requires IsMinimumCover(chosen, primes, minterms) && IsCover(other, primes, minterms)
    ensures |chosen| <= |other|
  {
  }

  /** s meets every clause. */
  predicate Hits(s: set<Mask>, clauses: seq<set<Mask>>) {
    forall i :: 0 <= i < |clauses| ==> s * clauses[i] != {}
  }

  /** Every element of s comes from some clause. */
  predicate Drawn(s: set<Mask>, clauses: seq<set<Mask>>) {
    forall p :: p in s ==> exists i :: 0 <= i < |clauses| && p in clauses[i]
  }

  // ---------------------------------------------------------------------
  // Sets and cardinalities

  lemma DisjointUnionCardinality<T>(s: set<T>, t: set<T>)
    requires s * t == {}
    ensures |s + t| == |s| + |t|
  {
  }

  // ---------------------------------------------------------------------
  // Multiplying the clauses out

  /** Adding a pick from the last clause to a set that meets and draws from
      the other clauses meets and draws from them all. */
  lemma ExtendPick(clauses: seq<set<Mask>>, t: set<Mask>, p: Mask)
    requires |clauses| > 0
    requires Hits(t, clauses[..|clauses| - 1]) && Drawn(t, clauses[..|clauses| - 1])
    requires p in clauses[|clauses| - 1]
    ensures Hits(t + {p}, clauses) && Drawn(t + {p}, clauses)
  {
    var last := |clauses| - 1;
    var init := clauses[..last];
    var s := t + {p};
    forall i | 0 <= i < |clauses| ensures s * clauses[i] != {} {
      if i < last {
        assert init[i] == clauses[i];
        assert t * init[i] != {};
        var x :| x in t * init[i];
        assert x in s * clauses[i];
      } else {
        assert p in s * clauses[i];
      }
    }
    forall x | x in s ensures exists i :: 0 <= i < |clauses| && x in clauses[i] {
      if x in t {
        var i :| 0 <= i < |init| && x in init[i];
        assert x in clauses[i];
      } else {
        assert x in clauses[last];
      }
    }
  }

  /** Every product meets every clause and takes its masks from the
      clauses. */
  lemma {:induction false} ExpandMember(clauses: seq<set<Mask>>, s: set<Mask>)
    requires |clauses| > 0 && s in Expand(clauses)
    ensures Hits(s, clauses) && Drawn(s, clauses)
    decreases |clauses|
  {
    var last := |clauses| - 1;
    if |clauses| == 1 {
      var p :| p in clauses[0] && s == {p};
      assert p in s * clauses[0];
    } else {
      var init := clauses[..last];
      var t, p :| t in Expand(init) && p in clauses[last] && s == t + {p};
      ExpandMember(init, t);
      ExtendPick(clauses, t, p);
    }
  }

  /** Every set meeting all clauses contains a product. */
  lemma {:induction false} ExpandBelow(clauses: seq<set<Mask>>, h: set<Mask>) returns (s: set<Mask>)
    requires |clauses| > 0 && Hits(h, clauses)
    ensures s in Expand(clauses) && s <= h
    decreases |clauses|
  {
    var last := |clauses| - 1;
    assert h * clauses[last] != {};
    var p :| p in h * clauses[last];
    if |clauses| == 1 {
      s := {p};
    } else {
      var init := clauses[..last];
      assert Hits(h, init) by {
        forall i | 0 <= i < |init| ensures h * init[i] != {} {
          assert init[i] == clauses[i];
        }
      }
      var t := ExpandBelow(init, h);
      s := t + {p};
    }
  }

  /** A non-empty sequence of non-empty clauses of primes. */
  predicate ClausesOver(clauses: seq<set<Mask>>, primes: set<Mask>) {
    |clauses| > 0 && forall i :: 0 <= i < |clauses| ==> clauses[i] != {} && clauses[i] <= primes
  }

  /** The primes meet every clause, so some product exists and the least
      ones are found. */
  lemma LeastExist(clauses: seq<set<Mask>>, primes: set<Mask>)
    requires ClausesOver(clauses, primes)
    ensures FindMinimalSet(clauses).Ok? && FindMinimalSet(clauses).value != {}
    ensures forall s :: s in FindMinimalSet(clauses).value ==> s in Expand(clauses)
  {
    var products := Expand(clauses);
    assert Hits(primes, clauses) by {
      forall i | 0 <= i < |clauses| ensures primes * clauses[i] != {} {
        assert clauses[i] != {};
        var x :| x in clauses[i];
        assert x in primes * clauses[i];
      }
    }
    var some := ExpandBelow(clauses, primes);
    assert products != {};
    var m := MinCardinality(products);
    var s0 :| s0 in products && |s0| == m;
    assert s0 in FindMinimalSet(clauses).value;
  }

  /** No set meeting every clause is smaller than a least product. */
  lemma LeastBelow(clauses: seq<set<Mask>>, primes: set<Mask>, s: set<Mask>, h: set<Mask>)
    requires ClausesOver(clauses, primes)
    requires FindMinimalSet(clauses).Ok? && s in FindMinimalSet(clauses).value && Hits(h, clauses)
    ensures |s| <= |h|
  {
    var t := ExpandBelow(clauses, h);
    SubsetCardinality(t, h);
  }

  /** A set meeting every clause and no larger than a least product is a
      least product. */
  lemma LeastContains(clauses: seq<set<Mask>>, primes: set<Mask>, s: set<Mask>, h: set<Mask>)
    requires ClausesOver(clauses, primes)
    requires FindMinimalSet(clauses).Ok? && s in FindMinimalSet(clauses).value
    requires Hits(h, clauses) && |h| <= |s|
    ensures h in FindMinimalSet(clauses).value
  {
    var t := ExpandBelow(clauses, h);
    SubsetCardinality(t, h);
    assert t == h;
  }

  // ---------------------------------------------------------------------
  // Essentials and clauses

  /** Every cover contains every essential implicant. */
  lemma EssentialsInCover(primes: set<Mask>, minterms: set<int>, chosen: set<Mask>)
    requires IsCover(chosen, primes, minterms)
    ensures Essentials(primes, minterms) <= chosen
  {
    forall e | e in Essentials(primes, minterms) ensures e in chosen {
      var j :| j in minterms && e in primes && Coverers(primes, j) == {e};
      var c :| c in chosen && j in c.indexes;
      assert c in Coverers(primes, j);
    }
  }

  /** Each clause is the set of coverers of an uncovered minterm below k. */
  lemma {:induction false} ClauseOf(primes: set<Mask>, minterms: set<int>, essentials: set<Mask>, k: nat, i: int) returns (j: int)
    requires 0 <= i < |Clauses(primes, minterms, essentials, k)|
    ensures 0 <= j < k && j in minterms && !Covered(essentials, j)
    ensures Clauses(primes, minterms, essentials, k)[i] == Coverers(primes, j)
  {
    var prev := Clauses(primes, minterms, essentials, k - 1);
    if i < |prev| {
      j := ClauseOf(primes, minterms, essentials, k - 1, i);
    } else {
      j := k - 1;
    }
  }

  /** Each uncovered minterm below k has its clause. */
  lemma {:induction false} ClauseFor(primes: set<Mask>, minterms: set<int>, essentials: set<Mask>, k: nat, j: int) returns (i: int)
    requires 0 <= j < k && j in minterms && !Covered(essentials, j)
    ensures 0 <= i < |Clauses(primes, minterms, essentials, k)|
    ensures Clauses(primes, minterms, essentials, k)[i] == Coverers(primes, j)
  {
    var prev := Clauses(primes, minterms, essentials, k - 1);
    if j < k - 1 {
      i := ClauseFor(primes, minterms, essentials, k - 1, j);
      assert Clauses(primes, minterms, essentials, k)[i] == prev[i];
    } else {
      i := |prev|;
    }
  }

  /** A clause holds primes only, and none of the essentials. */
  lemma ClauseShape(primes: set<Mask>, minterms: set<int>, essentials: set<Mask>, k: nat, i: int)
    requires 0 <= i < |Clauses(primes, minterms, essentials, k)|
    ensures Clauses(primes, minterms, essentials, k)[i] * essentials == {}
    ensures Clauses(primes, minterms, essentials, k)[i] <= primes
  {
    var j := ClauseOf(primes, minterms, essentials, k, i);
  }

  /** A set meeting every clause covers every minterm the essentials
      miss. */
  lemma HitsCover(primes: set<Mask>, minterms: set<int>, essentials: set<Mask>, k: nat, h: set<Mask>)
    requires forall j :: j in minterms ==> 0 <= j < k
    requires Hits(h, Clauses(primes, minterms, essentials, k))
    ensures forall j :: j in minterms && !Covered(essentials, j) ==> Covered(h, j)
  {
    var clauses := Clauses(primes, minterms, essentials, k);
    forall j | j in minterms && !Covered(essentials, j) ensures Covered(h, j) {
      var i := ClauseFor(primes, minterms, essentials, k, j);
      assert h * clauses[i] != {};
      var c :| c in h * clauses[i];
    }
  }

  /** A set of primes covering every minterm the essentials miss meets every
      clause. */
  lemma CoverHits(primes: set<Mask>, minterms: set<int>, essentials: set<Mask>, k: nat, h: set<Mask>)
    requires h <= primes
    requires forall j :: j in minterms && !Covered(essentials, j) ==> Covered(h, j)
    ensures Hits(h, Clauses(primes, minterms, essentials, k))
  {
    var clauses := Clauses(primes, minterms, essentials, k);
    forall i | 0 <= i < |clauses| ensures h * clauses[i] != {} {
      var j := ClauseOf(primes, minterms, essentials, k, i);
      var c :| c in h && j in c.indexes;
      assert c in h * clauses[i];
    }
  }

  // ---------------------------------------------------------------------
  // The theorem

  /** A cover is the essentials plus a set meeting every clause. */
  lemma CoverSplit(primes: set<Mask>, minterms: set<int>, essentials: set<Mask>, k: nat, chosen: set<Mask>)
    requires forall j :: j in minterms ==> 0 <= j < k
    requires IsCover(chosen, primes, minterms) && essentials <= chosen
    ensures Hits(chosen - essentials, Clauses(primes, minterms, essentials, k))
    ensures |chosen| == |essentials| + |chosen - essentials|
  {
    var rest := chosen - essentials;
    forall j | j in minterms && !Covered(essentials, j) ensures Covered(rest, j) {
      var c :| c in chosen && j in c.indexes;
      assert c in rest;
    }
    CoverHits(primes, minterms, essentials, k, rest);
    assert chosen == essentials + rest && essentials * rest == {};
    DisjointUnionCardinality(essentials, rest);
  }

  /** A set drawn from the clauses holds primes and no essential. */
  lemma DrawnShape(primes: set<Mask>, minterms: set<int>, essentials: set<Mask>, k: nat, s: set<Mask>)
    requires Drawn(s, Clauses(primes, minterms, essentials, k))
    ensures s <= primes && s * essentials == {}
  {
    var clauses := Clauses(primes, minterms, essentials, k);
    forall p | p in s ensures p in primes && p !in essentials {
      var i :| 0 <= i < |clauses| && p in clauses[i];
      ClauseShape(primes, minterms, essentials, k, i);
      assert p !in clauses[i] * essentials;
    }
  }

  /** The essentials plus a set drawn from the clauses and meeting them all
      is a cover, the two parts disjoint. */
  lemma CoverJoin(primes: set<Mask>, minterms: set<int>, essentials: set<Mask>, k: nat, s: set<Mask>)
    requires forall j :: j in minterms ==> 0 <= j < k
    requires essentials <= primes
    requires Hits(s, Clauses(primes, minterms, essentials, k)) && Drawn(s, Clauses(primes, minterms, essentials, k))
    ensures IsCover(essentials + s, primes, minterms)
    ensures |essentials + s| == |essentials| + |s|
  {
    DrawnShape(primes, minterms, essentials, k, s);
    assert essentials * s == {};
    DisjointUnionCardinality(essentials, s);
    HitsCover(primes, minterms, essentials, k, s);
    forall j | j in minterms ensures Covered(essentials + s, j) {
      if !Covered(essentials, j) {
        var c :| c in s && j in c.indexes;
        assert c in essentials + s;
      } else {
        var c :| c in essentials && j in c.indexes;
        assert c in essentials + s;
      }
    }
  }

  lemma EssentialsArePrimes(primes: set<Mask>, minterms: set<int>)
    ensures Essentials(primes, minterms) <= primes
  {
  }

  /** When the essentials cover every minterm they are the one minimum
      cover. */
  lemma EssentialsSuffice(primes: set<Mask>, minterms: set<int>)
    requires forall j :: j in minterms ==> Covered(Essentials(primes, minterms), j)
    ensures forall chosen :: IsMinimumCover(chosen, primes, minterms) <==> chosen == Essentials(primes, minterms)
  {
    var essentials := Essentials(primes, minterms);
    EssentialsArePrimes(primes, minterms);
    assert IsCover(essentials, primes, minterms);
    forall other | IsCover(other, primes, minterms) ensures |essentials| <= |other| {
      EssentialsInCover(primes, minterms, other);
      SubsetCardinality(essentials, other);
    }
    forall chosen | IsMinimumCover(chosen, primes, minterms) ensures chosen == essentials {
      EssentialsInCover(primes, minterms, chosen);
      SubsetCardinality(essentials, chosen);
    }
  }

  /** Otherwise the clauses exist, none is empty and all hold primes. */
  lemma ClausesWellFormed(primes: set<Mask>, minterms: set<int>, essentials: set<Mask>, k: nat)
    requires forall j :: j in minterms ==> 0 <= j < k
    requires forall j :: j in minterms ==> Covered(primes, j)
    requires exists j :: j in minterms && !Covered(essentials, j)
    ensures ClausesOver(Clauses(primes, minterms, essentials, k), primes)
  {
    var clauses := Clauses(primes, minterms, essentials, k);
    var j :| j in minterms && !Covered(essentials, j);
    var i := ClauseFor(primes, minterms, essentials, k, j);
    forall i | 0 <= i < |clauses| ensures clauses[i] != {} && clauses[i] <= primes {
      var j := ClauseOf(primes, minterms, essentials, k, i);
      var c :| c in primes && j in c.indexes;
      assert c in clauses[i];
    }
  }

  /** The essentials completed by a least product form a minimum cover. */
  lemma CompletedIsMinimum(primes: set<Mask>, minterms: set<int>, essentials: set<Mask>, k: nat, s: set<Mask>)
    requires forall j :: j in minterms ==> 0 <= j < k
    requires essentials <= primes
    requires forall chosen :: IsCover(chosen, primes, minterms) ==> essentials <= chosen
    requires ClausesOver(Clauses(primes, minterms, essentials, k), primes)
    requires FindMinimalSet(Clauses(primes, minterms, essentials, k)).Ok?
    requires s in FindMinimalSet(Clauses(primes, minterms, essentials, k)).value
    ensures IsMinimumCover(essentials + s, primes, minterms)
  {
    var clauses := Clauses(primes, minterms, essentials, k);
    LeastExist(clauses, primes);
    ExpandMember(clauses, s);
    CoverJoin(primes, minterms, essentials, k, s);
    forall other | IsCover(other, primes, minterms) ensures |essentials + s| <= |other| {
      CoverSplit(primes, minterms, essentials, k, other);
      LeastBelow(clauses, primes, s, other - essentials);
    }
  }

  /** A minimum cover is the essentials completed by a least product. */
  lemma MinimumIsCompleted(primes: set<Mask>, minterms: set<int>, essentials: set<Mask>, k: nat, chosen: set<Mask>)
    requires forall j :: j in minterms ==> 0 <= j < k
    requires essentials <= primes && essentials <= chosen
    requires ClausesOver(Clauses(primes, minterms, essentials, k), primes)
    requires IsMinimumCover(chosen, primes, minterms)
    ensures FindMinimalSet(Clauses(primes, minterms, essentials, k)).Ok?
    ensures chosen - essentials in FindMinimalSet(Clauses(primes, minterms, essentials, k)).value
  {
    var clauses := Clauses(primes, minterms, essentials, k);
    LeastExist(clauses, primes);
    var s :| s in FindMinimalSet(clauses).value;
    ExpandMember(clauses, s);
    CoverJoin(primes, minterms, essentials, k, s);
    MinimumBelow(chosen, essentials + s, primes, minterms);
    CoverSplit(primes, minterms, essentials, k, chosen);
    LeastContains(clauses, primes, s, chosen - essentials);
  }

  lemma RejoinDifference<T>(a: set<T>, b: set<T>)
    requires a <= b
    ensures b == a + (b - a)
  {
  }

  /** One candidate set is the essentials completed by a least product
      exactly when it is a minimum cover. */
  lemma CompletedCoversAt(primes: set<Mask>, minterms: set<int>, essentials: set<Mask>, k: nat, chosen: set<Mask>)
    requires forall j :: j in minterms ==> 0 <= j < k
    requires essentials <= primes
    requires forall other :: IsCover(other, primes, minterms) ==> essentials <= other
    requires ClausesOver(Clauses(primes, minterms, essentials, k), primes)
    requires FindMinimalSet(Clauses(primes, minterms, essentials, k)).Ok?
    ensures (exists s :: s in FindMinimalSet(Clauses(primes, minterms, essentials, k)).value && chosen == essentials + s)
      <==> IsMinimumCover(chosen, primes, minterms)
  {
    var least := FindMinimalSet(Clauses(primes, minterms, essentials, k)).value;
    if s :| s in least && chosen == essentials + s {
      CompletedIsMinimum(primes, minterms, essentials, k, s);
    }
    if IsMinimumCover(chosen, primes, minterms) {
      MinimumIsCompleted(primes, minterms, essentials, k, chosen);
      RejoinDifference(essentials, chosen);
      assert chosen - essentials in least;
    }
  }

  /** With essentials that belong to every cover, the essentials completed
      by each least product are exactly the minimum covers. */
  lemma CompletedCovers(primes: set<Mask>, minterms: set<int>, essentials: set<Mask>, k: nat)
    requires forall j :: j in minterms ==> 0 <= j < k
    requires forall j :: j in minterms ==> Covered(primes, j)
    requires essentials <= primes
    requires forall chosen :: IsCover(chosen, primes, minterms) ==> essentials <= chosen
    requires exists j :: j in minterms && !Covered(essentials, j)
    ensures FindMinimalSet(Clauses(primes, minterms, essentials, k)).Ok?
    ensures forall chosen ::
      (exists s :: s in FindMinimalSet(Clauses(primes, minterms, essentials, k)).value && chosen == essentials + s)
      <==> IsMinimumCover(chosen, primes, minterms)
  {
    ClausesWellFormed(primes, minterms, essentials, k);
    LeastExist(Clauses(primes, minterms, essentials, k), primes);
    forall chosen
      ensures (exists s :: s in FindMinimalSet(Clauses(primes, minterms, essentials, k)).value && chosen == essentials + s)
        <==> IsMinimumCover(chosen, primes, minterms)
    {
      CompletedCoversAt(primes, minterms, essentials, k, chosen);
    }
  }

  /** `chooseMinimalCover` succeeds whenever the primes cover every
      minterm, and returns exactly the minimum covers. */
  lemma ChooseMinimalCoverTheorem(primes: set<Mask>, minterms: set<int>, n: nat)
    requires forall j :: j in minterms ==> 0 <= j < Util.Pow2(n)
    requires forall j :: j in minterms ==> Covered(primes, j)
    ensures ChooseMinimalCover(primes, minterms, n).Ok?
    ensures forall chosen :: chosen in ChooseMinimalCover(primes, minterms, n).value <==>
      IsMinimumCover(chosen, primes, minterms)
  {
    var essentials := Essentials(primes, minterms);
    if forall j :: j in minterms ==> Covered(essentials, j) {
      EssentialsSuffice(primes, minterms);
    } else {
      EssentialsArePrimes(primes, minterms);
      forall chosen | IsCover(chosen, primes, minterms) ensures essentials <= chosen {
        EssentialsInCover(primes, minterms, chosen);
      }
      CompletedCovers(primes, minterms, essentials, Util.Pow2(n));
    }
  }
}
