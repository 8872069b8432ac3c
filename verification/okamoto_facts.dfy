/**
 Properties of Okamoto-Uchiyama key generation: the generator search
 returns the outcome of the first draw that is not a rejected candidate,
 which candidates the test accepts (0) and rejects (1), and that every
 generated key is consistent.
 */
module OkamotoFacts {
  import opened Arith
  import opened Okamoto

  /** A draw the rejection loop passes over: a candidate whose power is exactly 1. */
  predicate Rejected(p: Prime, psquare: nat, d: Draw<nat>)
    requires psquare > 0
  {
    d.Drawn? && !Accepts(d.value, p, psquare)
  }

  /** The search stops at index i: every earlier draw was rejected, and draw i (if any) is not. */
  predicate StopsAt(p: Prime, psquare: nat, candidates: seq<Draw<nat>>, i: nat)
    requires psquare > 0
  {
    && i <= |candidates|
    && (forall j :: 0 <= j < i ==> Rejected(p, psquare, candidates[j]))
    && (i < |candidates| ==> !Rejected(p, psquare, candidates[i]))
  }

  /**
   The outcome of a search that stops at index i, read off that single
   draw: the end of the sequence, a failed draw, or an accepted candidate.
   */
  function OutcomeAt(p: Prime, psquare: nat, candidates: seq<Draw<nat>>, i: nat): Result<Generator>
    requires psquare > 0
    requires i <= |candidates|
  {
    if i == |candidates| then
      Failure(CandidatesExhausted)
    else
      match candidates[i]
      case DrawFailed(e) => Failure(SourceFailure(e))
      case Drawn(g) => Success(Generator(g, GeneratorPower(g, p, psquare)))
  }

  /** The search's result is the outcome of the draw it stops at. */
  lemma {:induction false} FindGeneratorStopsAt(p: Prime, psquare: nat, candidates: seq<Draw<nat>>, i: nat)
    requires psquare > 0
    requires StopsAt(p, psquare, candidates, i)
    ensures FindGenerator(p, psquare, candidates) == OutcomeAt(p, psquare, candidates, i)
    decreases i
  {
    if i > 0 {
      var rest := candidates[1..];
      assert Rejected(p, psquare, candidates[0]);
      assert FindGenerator(p, psquare, candidates) == FindGenerator(p, psquare, rest);
      forall j | 0 <= j < i - 1
        ensures Rejected(p, psquare, rest[j])
      {
        assert rest[j] == candidates[j + 1];
      }
      FindGeneratorStopsAt(p, psquare, rest, i - 1);
    }
  }

  /** Every draw sequence has a stopping index. */
  lemma {:induction false} StopIndexExists(p: Prime, psquare: nat, candidates: seq<Draw<nat>>) returns (i: nat)
    requires psquare > 0
    ensures StopsAt(p, psquare, candidates, i)
    decreases |candidates|
  {
    if |candidates| == 0 || !Rejected(p, psquare, candidates[0]) {
      i := 0;
    } else {
      var rest := candidates[1..];
      var k := StopIndexExists(p, psquare, rest);
      i := k + 1;
      forall j | 0 <= j < i
        ensures Rejected(p, psquare, candidates[j])
      {
        if j > 0 {
          assert candidates[j] == rest[j - 1];
        }
      }
      if i < |candidates| {
        assert candidates[i] == rest[k];
      }
    }
  }

  /** The stopping index is unique. */
  lemma StopIndexUnique(p: Prime, psquare: nat, candidates: seq<Draw<nat>>, i: nat, j: nat)
    requires psquare > 0
    requires StopsAt(p, psquare, candidates, i)
    requires StopsAt(p, psquare, candidates, j)
    ensures i == j
  {
  }

  /** The candidate 1 never passes the test: 1^(p-1) mod p^2 is 1. */
  lemma OneIsRejected(p: Prime)
    ensures !Accepts(1, p, p * p)
  {
    ModulusAtLeastEight(p, p);
    PowOfOne(p - 1);
    ModOfDecomposition(1, p * p, 0, 1);
  }

  /** The candidate 0 always passes the test: 0^(p-1) mod p^2 is 0. */
  lemma ZeroIsAccepted(p: Prime)
    ensures Accepts(0, p, p * p)
    ensures GeneratorPower(0, p, p * p) == 0
  {
    ModulusAtLeastEight(p, p);
    assert Pow(0, p - 1) == 0 * Pow(0, p - 2);
  }

  /** Drawing 1 only costs a draw: the search continues as if it had not happened. */
  lemma OneCandidateSkipped(p: Prime, rest: seq<Draw<nat>>)
    ensures FindGenerator(p, p * p, [Drawn(1)] + rest) == FindGenerator(p, p * p, rest)
  {
    ModulusAtLeastEight(p, p);
    OneIsRejected(p);
    assert ([Drawn(1)] + rest)[1..] == rest;
  }

  /**
   Drawing 0 ends generation at once with the key G = 0, H = 0, GD = 0:
   the draw range [0, N-1) admits 0, which the test cannot reject.
   */
  lemma ZeroCandidateGivesDegenerateKey(p: Prime, q: Prime, rest: seq<Draw<nat>>)
    ensures GenerateKey(Drawn(p), Drawn(q), [Drawn(0)] + rest)
            == Success(PrivateKey(PublicKey(p * p * q, 0, 0), 0, p, p * p))
  {
    ModulusAtLeastEight(p, q);
    ZeroIsAccepted(p);
    var n := p * p * q;
    assert Pow(0, n) == 0 * Pow(0, n - 1);
  }

  /** No consistent key has generator 1. */
  lemma ConsistentKeyGeneratorNotOne(k: PrivateKey, q: nat)
    requires KeyConsistent(k, q)
    ensures k.pub.G != 1
  {
    if k.pub.G == 1 {
      PowOfOne(k.P - 1);
      ModOfDecomposition(1, k.PSquared, 0, 1);
    }
  }

  /**
   A consistent key is fixed by P, q and G: N, PSquared, GD and H follow,
   so the six stored values carry no freedom beyond the three choices.
   */
  lemma ConsistentKeyDetermined(k1: PrivateKey, k2: PrivateKey, q: nat)
    requires KeyConsistent(k1, q) && KeyConsistent(k2, q)
    requires k1.P == k2.P && k1.pub.G == k2.pub.G
    ensures k1 == k2
  {
  }

  /**
   Key generation from successful prime draws ends where the search stops:
   with the key built on the first accepted candidate, with the error of the
   first failed draw, or with the candidates exhausted.
   */
  lemma GenerateKeyStopsAt(p: Prime, q: Prime, candidates: seq<Draw<nat>>, i: nat)
    requires StopsAt(p, p * p, candidates, i)
    ensures i == |candidates| ==> GenerateKey(Drawn(p), Drawn(q), candidates) == Failure(CandidatesExhausted)
    ensures i < |candidates| && candidates[i].DrawFailed? ==>
              GenerateKey(Drawn(p), Drawn(q), candidates) == Failure(SourceFailure(candidates[i].err))
    ensures i < |candidates| && candidates[i].Drawn? ==>
              && GenerateKey(Drawn(p), Drawn(q), candidates).Success?
              && GenerateKey(Drawn(p), Drawn(q), candidates).value.pub.G == candidates[i].value
  {
    ModulusAtLeastEight(p, q);
    FindGeneratorStopsAt(p, p * p, candidates, i);
  }

  /**
   A generated key's G is a candidate at some index i whose every
   predecessor was drawn successfully and had power exactly 1.
   */
  lemma AcceptedIndex(p: Prime, q: Prime, candidates: seq<Draw<nat>>) returns (i: nat)
    requires GenerateKey(Drawn(p), Drawn(q), candidates).Success?
    ensures i < |candidates|
    ensures candidates[i] == Drawn(GenerateKey(Drawn(p), Drawn(q), candidates).value.pub.G)
    ensures forall j :: 0 <= j < i ==>
              candidates[j].Drawn? && GeneratorPower(candidates[j].value, p, p * p) == 1
  {
    ModulusAtLeastEight(p, q);
    i := StopIndexExists(p, p * p, candidates);
    FindGeneratorStopsAt(p, p * p, candidates, i);
  }

  /** The tests the worked instance below performs, for p = 3 and p^2 = 9. */
  lemma SmallKeyPowers()
    ensures IsPrime(3)
    ensures GeneratorPower(8, 3, 9) == 1
    ensures GeneratorPower(1, 3, 9) == 1
    ensures GeneratorPower(2, 3, 9) == 4
  {
    assert !Divides(2, 3);
    assert Pow(8, 2) == 64 && Pow(1, 2) == 1 && Pow(2, 2) == 4;
  }

  /** A worked instance: p = q = 3, candidates 8 (rejected), 1 (rejected), 2 (accepted). */
  lemma SmallKeyExample()
    ensures GenerateKey(Drawn(3), Drawn(3), [Drawn(8), Drawn(1), Drawn(2)])
            == Success(PrivateKey(PublicKey(27, 2, 26), 4, 3, 9))
  {
    SmallKeyPowers();
    var cs: seq<Draw<nat>> := [Drawn(8), Drawn(1), Drawn(2)];
    assert cs[1..] == [Drawn(1), Drawn(2)];
    assert cs[1..][1..] == [Drawn(2)];
    assert FindGenerator(3, 9, cs) == Success(Generator(2, 4));
    assert Pow(2, 9) == 512;
    assert Pow(2, 18) == 262144;
    assert Pow(2, 27) == 134217728;
  }
}
