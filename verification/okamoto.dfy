/**
 Okamoto-Uchiyama key generation (okamoto.go). The three sources of
 randomness the generator reads are inputs: the outcome of drawing the
 prime p, the outcome of drawing the prime q, and the finite sequence of
 outcomes of drawing candidates for the generator g. Each outcome is
 either a value or a failure of the underlying reader.
 */
module Okamoto {
  import opened Arith

  /** d divides n. */
  predicate Divides(d: nat, n: nat)
    requires d > 0
  {
    n % d == 0
  }

  /** n is a prime number. */
  predicate IsPrime(n: nat) {
    n >= 2 && forall d :: 2 <= d < n ==> !Divides(d, n)
  }

  /** The values a successful prime draw yields. */
  type Prime = n: nat | 2 <= n && IsPrime(n) witness 2

  /** The error a random reader reports. */
  type RandError = string

  /** The outcome of one draw from a random source. */
  datatype Draw<T> = Drawn(value: T) | DrawFailed(err: RandError)

  /**
   Why key generation produced no key: a draw failed (the reader's error is
   passed on unchanged), or the finite sequence of generator candidates ran
   out, which stands in for the unbounded loop never finding a generator.
   */
  datatype KeyError = SourceFailure(cause: RandError) | CandidatesExhausted

  datatype Result<T> = Success(value: T) | Failure(error: KeyError)

  /** The public key {N, G, H}. */
  datatype PublicKey = PublicKey(N: nat, G: nat, H: nat)

  /** The private key: the embedded public key plus {GD, P, PSquared}. */
  datatype PrivateKey = PrivateKey(pub: PublicKey, GD: nat, P: nat, PSquared: nat)

  /** An accepted generator candidate and its cached power g^(p-1) mod p^2. */
  datatype Generator = Generator(g: nat, gd: nat)

  /** Every drawn candidate lies in [0, bound), the range rand.Int promises for bound `bound`. */
  predicate DrawsBelow(candidates: seq<Draw<nat>>, bound: int) {
    forall i :: 0 <= i < |candidates| && candidates[i].Drawn? ==> candidates[i].value < bound
  }

  /** N = p^2 q is at least 8, so the candidate bound N - 1 handed to rand.Int is positive. */
  lemma ModulusAtLeastEight(p: Prime, q: Prime)
    ensures p * p >= 4
    ensures p * p * q >= 8
    ensures p * p * q - 1 > 0
  {
    MultiplyAtLeast(p, p, 2, 2);
    MultiplyAtLeast(p * p, q, 4, 2);
  }

  /** Products are monotone in both factors. */
  lemma MultiplyAtLeast(a: nat, b: nat, x: nat, y: nat)
    requires a >= x && b >= y
    ensures a * b >= x * y
  {
    assert a * b == x * y + (a - x) * b + x * (b - y);
  }

  /**
   The power the rejection loop tests: g^(p-1) mod p^2, computed with a
   modular exponentiation and reduced once more, as the source does.
   */
  function GeneratorPower(g: nat, p: Prime, psquare: nat): (gd: nat)
    requires psquare > 0
    ensures gd < psquare
    ensures gd == Pow(g, p - 1) % psquare
  {
    ReduceExpModIsNoOp(g, p - 1, psquare);
    ExpMod(g, p - 1, psquare) % psquare
  }

  /** The loop accepts g when its power is not 1. */
  predicate Accepts(g: nat, p: Prime, psquare: nat)
    requires psquare > 0
  {
    GeneratorPower(g, p, psquare) != 1
  }

  /**
   The rejection-sampling search for g: take draws in order, stop with the
   first failure, or with the first candidate whose power is not 1.
   */
  function FindGenerator(p: Prime, psquare: nat, candidates: seq<Draw<nat>>): (r: Result<Generator>)
    requires psquare > 0
    ensures r.Success? ==> Drawn(r.value.g) in candidates
    ensures r.Success? ==> r.value.gd == Pow(r.value.g, p - 1) % psquare && r.value.gd != 1
    ensures r.Success? ==> r.value.gd < psquare
    ensures r.Failure? && r.error.SourceFailure? ==> DrawFailed(r.error.cause) in candidates
    ensures r == Failure(CandidatesExhausted) ==>
              forall i :: 0 <= i < |candidates| ==> candidates[i].Drawn? && !Accepts(candidates[i].value, p, psquare)
    decreases |candidates|
  {
    if |candidates| == 0 then
      Failure(CandidatesExhausted)
    else
      match candidates[0]
      case DrawFailed(e) => Failure(SourceFailure(e))
      case Drawn(g) =>
        var gd := GeneratorPower(g, p, psquare);
        if gd != 1 then Success(Generator(g, gd)) else FindGenerator(p, psquare, candidates[1..])
  }

  /**
   The same search as the source writes it: a loop that draws, tests and
   either returns or draws again.
   */
  method SampleGenerator(p: Prime, psquare: nat, candidates: seq<Draw<nat>>) returns (r: Result<Generator>)
    requires psquare > 0
    ensures r == FindGenerator(p, psquare, candidates)
  {
    var i := 0;
    while i < |candidates|
      invariant i <= |candidates|
      invariant FindGenerator(p, psquare, candidates[i..]) == FindGenerator(p, psquare, candidates)
    {
      assert candidates[i..][1..] == candidates[i + 1..];
      match candidates[i]
      case DrawFailed(e) =>
        return Failure(SourceFailure(e));
      case Drawn(g) =>
        var gd := GeneratorPower(g, p, psquare);
        if gd != 1 {
          return Success(Generator(g, gd));
        }
      i := i + 1;
    }
    r := Failure(CandidatesExhausted);
  }

  /**
   What every generated key satisfies, for the prime q that produced it
   (q itself is not stored in the key).
   */
  predicate KeyConsistent(k: PrivateKey, q: nat) {
    && IsPrime(k.P)
    && IsPrime(q)
    && k.PSquared == k.P * k.P
    && k.pub.N == k.PSquared * q
    && k.PSquared > 0
    && k.pub.N > 1
    && k.GD == Pow(k.pub.G, k.P - 1) % k.PSquared
    && k.GD != 1
    && k.pub.H == Pow(k.pub.G, k.pub.N) % k.pub.N
  }

  /**
   GenerateKey: draw p, then q, then generator candidates until one is
   accepted, and assemble the key. A failed draw ends generation with that
   draw's error; nothing after it is used.
   */
  function GenerateKey(pDraw: Draw<Prime>, qDraw: Draw<Prime>, candidates: seq<Draw<nat>>): (r: Result<PrivateKey>)
    ensures pDraw.DrawFailed? ==> r == Failure(SourceFailure(pDraw.err))
    ensures pDraw.Drawn? && qDraw.DrawFailed? ==> r == Failure(SourceFailure(qDraw.err))
    ensures r.Success? ==> pDraw.Drawn? && qDraw.Drawn? && KeyConsistent(r.value, qDraw.value)
    ensures r.Success? ==> r.value.P == pDraw.value && r.value.GD < r.value.PSquared && r.value.pub.H < r.value.pub.N
    ensures r.Success? ==> Drawn(r.value.pub.G) in candidates
    ensures r.Success? && DrawsBelow(candidates, r.value.pub.N - 1) ==> r.value.pub.G < r.value.pub.N - 1
    ensures pDraw.Drawn? && qDraw.Drawn? ==>
              var found := FindGenerator(pDraw.value, pDraw.value * pDraw.value, candidates);
              && (r.Success? <==> found.Success?)
              && (r.Success? ==> found.value == Generator(r.value.pub.G, r.value.GD))
              && (r.Failure? ==> r.error == found.error)
  {
    match pDraw
    case DrawFailed(e) => Failure(SourceFailure(e))
    case Drawn(p) =>
      match qDraw
      case DrawFailed(e) => Failure(SourceFailure(e))
      case Drawn(q) =>
        ModulusAtLeastEight(p, q);
        var psquare := p * p;
        var n := psquare * q;
        match FindGenerator(p, psquare, candidates)
        case Failure(e) => Failure(e)
        case Success(gen) =>
          ReduceExpModIsNoOp(gen.g, n, n);
          var h := ExpMod(gen.g, n, n) % n;
          Success(PrivateKey(PublicKey(n, gen.g, h), gen.gd, p, psquare))
  }
}
