# Okamoto-Uchiyama key generation in Dafny

This project models key generation for the Okamoto-Uchiyama public-key
cryptosystem as `GenerateKey` in `okamoto.go` performs it, and proves
properties of that model. Given primes `p` and `q`, key generation computes
`PSquared = p*p` and `N = PSquared*q`. It then draws candidates `g` until one
has `g^(p-1) mod p^2 != 1`, and caches that power as `GD`. Finally it
computes `H = g^N mod N` and returns the private key `{GD, P, PSquared}`
with its embedded public key `{N, G, H}`.

Files and modules:

- `arith.dfy`, module `Arith`: the power function `Pow` as a reference
  definition. `ExpMod` is modular exponentiation by square-and-multiply.
  It computes the value `big.Int.Exp(x, y, m)` returns for a positive
  modulus, though not by the same algorithm (Go uses windowed and
  Montgomery exponentiation for multi-word exponents). It is proved equal
  to `Pow(b, e) % m`, with supporting lemmas on modular products.
- `okamoto.dfy`, module `Okamoto`: the key records and the draw outcomes.
  It holds the generator test `GeneratorPower`/`Accepts` and the
  rejection-sampling search, both as a recursive function
  (`FindGenerator`) and as the loop the source writes (`SampleGenerator`).
  It also holds `GenerateKey` and the key invariant `KeyConsistent`.
- `okamoto_facts.dfy`, module `OkamotoFacts`: a non-recursive
  characterisation of the search (it stops at the unique index `StopsAt`
  and returns `OutcomeAt` there). It also covers the behaviour of the
  candidates 0 and 1, key consistency facts, and a worked instance.

Randomness is modelled as input. Drawing `p` and drawing `q` are each a
`Draw<Prime>`: a prime, or the reader's error. The generator candidates
are a finite `seq<Draw<nat>>`. They come from a different reader
(`rand.Reader`) than the primes (the caller's `random`), so they are a
separate input. When the sequence runs out, generation reports
`CandidatesExhausted`. This stands in for the source's unbounded loop
never finding a generator.

The comment at `okamoto.go:48-49` says `G` is chosen from
`{2, ..., N-1}`, but the code draws with `rand.Int(rand.Reader, N-1)`,
whose range is `[0, N-1)`. The model follows the code. As a consequence,
the candidate 1 is always rejected (`OneIsRejected`,
`OneCandidateSkipped`). The candidate 0 is always accepted, and it yields
the degenerate key `G = H = GD = 0` (`ZeroIsAccepted`,
`ZeroCandidateGivesDegenerateKey`).

## Model

| member | source | states |
|---|---|---|
| Arith.ExpMod | okamoto.go:58-61 | modular exponentiation with a positive modulus returns a value below the modulus that equals b^e mod m |
| Arith.ReduceExpModIsNoOp | okamoto.go:69-72 | the extra `Mod` applied after a modular `Exp` leaves the value unchanged |
| Okamoto.GeneratorPower | okamoto.go:58-61 | the tested power is g^(p-1) mod p^2 and lies below p^2 |
| Okamoto.FindGenerator | okamoto.go:50-66 | an accepted generator is one of the drawn candidates, and its cached power is g^(p-1) mod p^2, not 1 and below p^2. A draw failure reports an error that one of the draws produced. Running out means every candidate was drawn and rejected |
| Okamoto.SampleGenerator | okamoto.go:50-66 | the source's draw-test-repeat loop returns exactly what the recursive search returns |
| Okamoto.ModulusAtLeastEight | okamoto.go:44-53 | for primes p and q, p^2 >= 4 and N = p^2 q >= 8, so the bound N-1 passed to rand.Int is positive |
| Okamoto.GenerateKey | okamoto.go:30-83 | a failed p draw, then a failed q draw, ends generation with that draw's error. Otherwise the result succeeds exactly when the generator search does, and it carries the search's error or the search's G and GD. A key satisfies PSquared = P*P, N = PSquared*q, GD = G^(P-1) mod PSquared with GD != 1 and GD < PSquared, and H = G^N mod N with H < N. Its G is a drawn candidate, and G < N-1 when the draws honour rand.Int's range |
| OkamotoFacts.FindGeneratorStopsAt | okamoto.go:51-66 | when every draw before index i is a rejected candidate and draw i is not, the search returns the outcome of draw i. That outcome is a failure, an accepted generator, or exhaustion when i is the end |
| OkamotoFacts.StopIndexExists | okamoto.go:51-66 | every draw sequence has such a stopping index |
| OkamotoFacts.StopIndexUnique | okamoto.go:51-66 | the stopping index is unique, so the accepted G is the first candidate whose power is not 1 |
| OkamotoFacts.OneIsRejected | okamoto.go:58-65 | the candidate 1 fails the test for every prime p, because 1^(p-1) mod p^2 = 1 |
| OkamotoFacts.ZeroIsAccepted | okamoto.go:53-65 | the candidate 0, which the draw range [0, N-1) admits, passes the test with power 0 |
| OkamotoFacts.OneCandidateSkipped | okamoto.go:48-66 | drawing 1 leaves the search's result as if that draw had not happened |
| OkamotoFacts.ZeroCandidateGivesDegenerateKey | okamoto.go:48-82 | a first draw of 0 yields the key N = p^2 q, G = 0, H = 0, GD = 0 |
| OkamotoFacts.ConsistentKeyGeneratorNotOne | okamoto.go:58-79 | no consistent key has G = 1 |
| OkamotoFacts.ConsistentKeyDetermined | okamoto.go:73-82 | a consistent key is fixed by P, q and G, so its public part {N, G, H} and private part {GD, P, PSquared} are what those three choices dictate |
| OkamotoFacts.GenerateKeyStopsAt | okamoto.go:50-83 | with both primes drawn, generation ends at the search's stopping index. It yields the key on that candidate, that draw's error, or exhaustion |
| OkamotoFacts.AcceptedIndex | okamoto.go:51-77 | a generated key's G sits at some index of the candidates. Every earlier candidate was drawn successfully and had power exactly 1 |
| OkamotoFacts.SmallKeyExample | okamoto.go:30-83 | for p = q = 3 and candidates 8, 1, 2, the key is N = 27, G = 2, H = 26, GD = 4, P = 3, PSquared = 9 |

## Left out

- Prime generation (`rand.Prime`, okamoto.go:32 and 38) is a library call whose internals are not shown. The drawn primes are inputs of type `Prime`, and a failed draw is an input too.
- `Prime` means exact primality and admits 2. `rand.Prime` returns probable primes, always odd and with the top two bits set, so at least 3. No proof uses more than `p >= 2` and `q >= 2`, so the wider type only admits extra inputs.
- The `bits` parameter and its `bits/2` sizing act only inside `rand.Prime`, so they are not modelled. A too-small size surfaces as a failed prime draw.
- The readers themselves (`io.Reader`, `crypto/rand.Reader`) and the uniformity of `rand.Int` are not modelled. Draws are a given sequence of outcomes, and the range `[0, N-1)` appears only as the hypothesis `DrawsBelow`.
- Termination of the rejection loop holds only with high probability. A finite candidate sequence replaces it, and running out is reported as `CandidatesExhausted`, which the source cannot produce.
- The order in which one reader serves the p draw and then the q draw is not modelled. The two outcomes are independent inputs, and the q outcome is ignored when the p draw fails.
- `ErrLargeMessage` and `ErrLargeCipher` (okamoto.go:11-12) are declared but used by nothing in key generation.
- Encryption, decryption and homomorphic combination are not part of this model: okamoto.go contains only key generation.
- The cost of `big.Int` arithmetic and constant-time or side-channel behaviour are out of scope.
