/** The SRP-6a exchange of radxa/carplay/airplay/airplay_pair.c and the client of RFC 5054. */
module Srp {
  import opened Prelude

  function Pow(b: int, e: nat): int
  {
    if e == 0 then 1 else b * Pow(b, e - 1)
  }

  /** BN_mod_exp. */
  function ModExp(b: int, e: nat, N: nat): (r: nat)
    requires N > 0
    ensures r < N
  {
    Pow(b, e) % N
  }

  // ----- the server -----

  /** v = g^x mod N. */
  function Verifier(g: nat, x: nat, N: nat): nat
    requires N > 0
  {
    ModExp(g, x, N)
  }

  /** B = (kv + g^b) mod N, section 2.5.3 of RFC 5054, with the product reduced before the sum. */
  function ServerPublic(g: nat, b: nat, k: nat, v: nat, N: nat): nat
    requires N > 0
  {
    (k * v % N + ModExp(g, b, N)) % N
  }

  /** S = (A * v^u)^b mod N, reduced after every operation. */
  function ServerSecret(A: nat, v: nat, u: nat, b: nat, N: nat): nat
    requires N > 0
  {
    ModExp(A * ModExp(v, u, N) % N, b, N)
  }

  // ----- the client -----

  /** Section 2.6 of RFC 5054: (B - k * g^x) ^ (a + u * x) mod N. */
  function ClientSecret(B: nat, k: nat, g: nat, x: nat, a: nat, u: nat, N: nat): nat
    requires N > 0
  {
    ModExp(B - k * Pow(g, x), a + u * x, N)
  }

  // ----- laws of powers -----

  lemma {:induction false} PowAdd(b: int, m: nat, n: nat)
    ensures Pow(b, m + n) == Pow(b, m) * Pow(b, n)
  {
    if m > 0 {
      PowAdd(b, m - 1, n);
      Associate(b, Pow(b, m - 1), Pow(b, n));
    }
  }

  lemma Associate(a: int, b: int, c: int)
    ensures a * (b * c) == a * b * c
  {}

  lemma {:induction false} PowMul(b: int, m: nat, n: nat)
    ensures Pow(Pow(b, m), n) == Pow(b, m * n)
  {
    if n == 0 {
      assert m * n == 0;
    } else {
      PowMul(b, m, n - 1);
      assert m * n == m + m * (n - 1);
      PowAdd(b, m, m * (n - 1));
    }
  }

  /** The product of a list of numbers. */
  function Product(s: seq<int>): int
  {
    if s == [] then 1 else Product(s[..|s| - 1]) * s[|s| - 1]
  }

  function Copies(b: int, n: nat): (r: seq<int>)
    ensures |r| == n && forall i | 0 <= i < n :: r[i] == b
  {
    seq(n, i => b)
  }

  /** A power is what its name says. */
  lemma {:induction false} PowIsProduct(b: int, e: nat)
    ensures Pow(b, e) == Product(Copies(b, e))
    ensures Pow(b, 0) == 1 && Pow(b, 1) == b
  {
    assert Pow(b, 1) == b * Pow(b, 0);
    if e > 0 {
      PowIsProduct(b, e - 1);
      assert Copies(b, e)[..e - 1] == Copies(b, e - 1);
      assert b * Product(Copies(b, e - 1)) == Product(Copies(b, e - 1)) * b;
    }
  }

  // ----- congruence -----

  predicate Congruent(a: int, b: int, N: nat)
    requires N > 0
  {
    a % N == b % N
  }

  lemma MultipleSize(q: int, N: int)
    requires N > 0
    ensures q >= 1 ==> q * N >= N
    ensures q <= -1 ==> q * N <= -N
  {
    if q >= 1 {
      assert (q - 1) * N >= 0;
    } else if q <= -1 {
      assert (q + 1) * N <= 0;
    }
  }

  lemma SmallMultiple(q: int, N: int)
    requires N > 0 && -N < q * N < N
    ensures q == 0
  {
    MultipleSize(q, N);
  }

  lemma RemainderUnique(x: int, q: int, r: nat, N: nat)
    requires N > 0 && r < N && x == q * N + r
    ensures x % N == r
  {
    var q', r' := x / N, x % N;
    assert x == q' * N + r';
    assert (q - q') * N == r' - r;
    SmallMultiple(q - q', N);
  }

  /** Numbers that differ by a multiple of N are congruent. */
  lemma FromMultiple(a: int, b: int, q: int, N: nat)
    requires N > 0 && a == b + q * N
    ensures Congruent(a, b, N)
  {
    assert b == b / N * N + b % N;
    assert a == (b / N + q) * N + b % N;
    RemainderUnique(a, b / N + q, b % N, N);
  }

  /** Congruent numbers differ by a multiple of N. */
  lemma ToMultiple(a: int, b: int, N: nat) returns (q: int)
    requires N > 0 && Congruent(a, b, N)
    ensures a == b + q * N
  {
    q := a / N - b / N;
    assert a == a / N * N + a % N && b == b / N * N + b % N;
  }

  lemma ModIsCongruent(a: int, N: nat)
    requires N > 0
    ensures Congruent(a % N, a, N)
  {
    FromMultiple(a % N, a, -(a / N), N);
  }

  lemma SumCongruent(a: int, b: int, c: int, d: int, N: nat)
    requires N > 0 && Congruent(a, b, N) && Congruent(c, d, N)
    ensures Congruent(a + c, b + d, N) && Congruent(a - c, b - d, N)
  {
    var p := ToMultiple(a, b, N);
    var q := ToMultiple(c, d, N);
    assert a + c == b + d + (p + q) * N && a - c == b - d + (p - q) * N;
    FromMultiple(a + c, b + d, p + q, N);
    FromMultiple(a - c, b - d, p - q, N);
  }

  lemma ScaleCongruent(a: int, b: int, c: int, N: nat)
    requires N > 0 && Congruent(a, b, N)
    ensures Congruent(a * c, b * c, N)
  {
    var q := ToMultiple(a, b, N);
    assert a * c == b * c + q * N * c;
    assert q * N * c == q * c * N;
    FromMultiple(a * c, b * c, q * c, N);
  }

  lemma ProductCongruent(a: int, b: int, c: int, d: int, N: nat)
    requires N > 0 && Congruent(a, b, N) && Congruent(c, d, N)
    ensures Congruent(a * c, b * d, N)
  {
    ScaleCongruent(a, b, c, N);
    ScaleCongruent(c, d, b, N);
    assert c * b == b * c && d * b == b * d;
  }

  lemma {:induction false} PowCongruent(a: int, b: int, e: nat, N: nat)
    requires N > 0 && Congruent(a, b, N)
    ensures Congruent(Pow(a, e), Pow(b, e), N)
  {
    if e > 0 {
      PowCongruent(a, b, e - 1, N);
      ProductCongruent(a, b, Pow(a, e - 1), Pow(b, e - 1), N);
    }
  }

  // ----- agreement -----

  /** The server's secret is g^((a + ux) b). */
  lemma ServerSees(g: nat, A: nat, a: nat, b: nat, x: nat, u: nat, N: nat)
    requires N > 0 && Congruent(A, Pow(g, a), N)
    ensures ServerSecret(A, Verifier(g, x, N), u, b, N) == Pow(g, (a + u * x) * b) % N
  {
    var v, w := Verifier(g, x, N), Pow(g, u * x);
    ModIsCongruent(Pow(g, x), N);
    PowCongruent(v, Pow(g, x), u, N);
    PowMul(g, x, u);
    assert x * u == u * x;
    ModIsCongruent(Pow(v, u), N);
    assert Congruent(ModExp(v, u, N), w, N);
    ProductCongruent(A, Pow(g, a), ModExp(v, u, N), w, N);
    PowAdd(g, a, u * x);
    var base := A * ModExp(v, u, N);
    ModIsCongruent(base, N);
    PowCongruent(base % N, Pow(g, a + u * x), b, N);
    PowMul(g, a + u * x, b);
  }

  /** Taking k g^x away from B leaves g^b. */
  lemma ClientUncovers(g: nat, b: nat, k: nat, x: nat, N: nat)
    requires N > 0
    ensures Congruent(ServerPublic(g, b, k, Verifier(g, x, N), N) - k * Pow(g, x), Pow(g, b), N)
  {
    var v := Verifier(g, x, N);
    ModIsCongruent(Pow(g, x), N);
    ScaleCongruent(v, Pow(g, x), k, N);
    ModIsCongruent(k * v, N);
    ModIsCongruent(Pow(g, b), N);
    var kg := k * Pow(g, x);
    assert v * k == k * v && Pow(g, x) * k == kg;
    SumCongruent(k * v % N, kg, ModExp(g, b, N), Pow(g, b), N);
    var sum := k * v % N + ModExp(g, b, N);
    ModIsCongruent(sum, N);
    SumCongruent(sum % N, kg + Pow(g, b), kg, kg, N);
  }

  lemma PowTwice(g: int, b: nat, e: nat)
    ensures Pow(Pow(g, b), e) == Pow(g, e * b)
  {
    PowMul(g, b, e);
    assert b * e == e * b;
  }

  /** The client's secret is g^((a + ux) b) too. */
  lemma ClientSees(g: nat, a: nat, b: nat, x: nat, u: nat, k: nat, N: nat)
    requires N > 0
    ensures ClientSecret(ServerPublic(g, b, k, Verifier(g, x, N), N), k, g, x, a, u, N) == Pow(g, (a + u * x) * b) % N
  {
    var e := a + u * x;
    ClientUncovers(g, b, k, x, N);
    PowCongruent(ServerPublic(g, b, k, Verifier(g, x, N), N) - k * Pow(g, x), Pow(g, b), e, N);
    PowTwice(g, b, e);
  }

  /**
   * For every modulus and generator, all secrets a and b and all values of x, u and k, both ends compute the
   * same number.
   */
  lemma SecretsAgree(g: nat, A: nat, a: nat, b: nat, x: nat, u: nat, k: nat, N: nat)
    requires N > 0 && Congruent(A, Pow(g, a), N)
    ensures var v := Verifier(g, x, N);
      ServerSecret(A, v, u, b, N) == ClientSecret(ServerPublic(g, b, k, v, N), k, g, x, a, u, N)
  {
    ServerSees(g, A, a, b, x, u, N);
    ClientSees(g, a, b, x, u, k, N);
  }

  /** The public value is k g^x and the product of b copies of g, whatever was reduced on the way. */
  lemma PublicIsFormula(g: nat, b: nat, k: nat, x: nat, N: nat)
    requires N > 0
    ensures Congruent(
      ServerPublic(g, b, k, Verifier(g, x, N), N), k * Product(Copies(g, x)) + Product(Copies(g, b)), N)
  {
    var kg, gb := k * Pow(g, x), Pow(g, b);
    ClientUncovers(g, b, k, x, N);
    SumCongruent(ServerPublic(g, b, k, Verifier(g, x, N), N) - kg, gb, kg, kg, N);
    assert ServerPublic(g, b, k, Verifier(g, x, N), N) - kg + kg == ServerPublic(g, b, k, Verifier(g, x, N), N);
    assert gb + kg == kg + gb;
    PowIsProduct(g, x);
    PowIsProduct(g, b);
  }

  /** The secret is (A (g^x)^u)^b, for every A, a power of g or not. */
  lemma SecretIsFormula(A: nat, g: nat, x: nat, u: nat, b: nat, N: nat)
    requires N > 0
    ensures Congruent(
      ServerSecret(A, Verifier(g, x, N), u, b, N),
      Product(Copies(A * Product(Copies(Product(Copies(g, x)), u)), b)), N)
  {
    var gx, v := Pow(g, x), Verifier(g, x, N);
    var vu := Pow(gx, u);
    ModIsCongruent(gx, N);
    PowCongruent(v, gx, u, N);
    ModIsCongruent(Pow(v, u), N);
    assert Congruent(A, A, N) && Congruent(ModExp(v, u, N), vu, N);
    ProductCongruent(A, A, ModExp(v, u, N), vu, N);
    var base := A * ModExp(v, u, N);
    ModIsCongruent(base, N);
    PowCongruent(base % N, A * vu, b, N);
    ModIsCongruent(Pow(base % N, b), N);
    PowIsProduct(g, x);
    PowIsProduct(gx, u);
    PowIsProduct(A * vu, b);
  }

  // ----- the exchange -----

  datatype Exchange = Exchange(B: nat, S: nat)

  /**
   * Step M1 of pair_setup_process.  x and k come from hashes of values both ends know; u is a hash of A and B.
   * Any client that sent A = g^a, whatever its a, derives the server's S; a multiple of N is turned away.  B and S
   * are the two formulas written as products, for every A.
   */
  method SetupM1(A: nat, b: nat, x: nat, k: nat, scramble: (nat, nat) -> nat, g: nat, N: nat)
    returns (r: Option<Exchange>)
    requires N > 0
    ensures r == None <==> Congruent(A, 0, N)
    ensures r.Some? ==> r.value.B < N && r.value.S < N
    ensures r.Some? ==> Congruent(r.value.B, k * Product(Copies(g, x)) + Product(Copies(g, b)), N)
    ensures r.Some? ==>
      var u := scramble(A, r.value.B);
      Congruent(r.value.S, Product(Copies(A * Product(Copies(Product(Copies(g, x)), u)), b)), N)
    ensures r.Some? ==> forall a: nat :: Congruent(A, Pow(g, a), N) ==>
      r.value.S == ClientSecret(r.value.B, k, g, x, a, scramble(A, r.value.B), N)
  {
    if A % N == 0 {
      return None;
    }
    var raw := ModExp(g, b, N);
    var v := Verifier(g, x, N);
    var kv := k * v % N;
    var B := (kv + raw) % N;
    var u := scramble(A, B);
    var vu := ModExp(v, u, N);
    var Avu := A * vu % N;
    var S := ModExp(Avu, b, N);
    forall a: nat | Congruent(A, Pow(g, a), N)
      ensures S == ClientSecret(B, k, g, x, a, u, N)
    {
      SecretsAgree(g, A, a, b, x, u, k, N);
    }
    PublicIsFormula(g, b, k, x, N);
    SecretIsFormula(A, g, x, u, b, N);
    r := Some(Exchange(B, S));
  }
}
