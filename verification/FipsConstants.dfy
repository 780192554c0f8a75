/** Where the constants of FIPS 180-4 come from: the fractional parts of the roots of the first primes. */
module FipsConstants {
  import opened Words
  import opened Fips180
  import opened Division

  const PRIMES0: seq<nat> := [2, 3, 5, 7, 11, 13, 17, 19]
  const PRIMES1: seq<nat> := [23, 29, 31, 37, 41, 43, 47, 53]
  const PRIMES2: seq<nat> := [59, 61, 67, 71, 73, 79, 83, 89]
  const PRIMES3: seq<nat> := [97, 101, 103, 107, 109, 113, 127, 131]
  const PRIMES4: seq<nat> := [137, 139, 149, 151, 157, 163, 167, 173]
  const PRIMES5: seq<nat> := [179, 181, 191, 193, 197, 199, 211, 223]
  const PRIMES6: seq<nat> := [227, 229, 233, 239, 241, 251, 257, 263]
  const PRIMES7: seq<nat> := [269, 271, 277, 281, 283, 293, 307, 311]
  const PRIMES: seq<nat> :=
    ((PRIMES0 + PRIMES1) + (PRIMES2 + PRIMES3)) + ((PRIMES4 + PRIMES5) + (PRIMES6 + PRIMES7))

  ghost predicate Prime(n: nat) {
    n > 1 && forall d :: 1 < d < n ==> n % d != 0
  }

  /** q is the first prime behind p. */
  ghost predicate NextPrime(p: nat, q: nat) {
    p < q && Prime(q) && forall n :: p < n < q ==> !Prime(n)
  }

  /** n is the square root of p in units of 2^-32, rounded down. */
  predicate SquareRoot(n: nat, p: nat) {
    n * n <= p * 0x1_0000_0000_0000_0000 < (n + 1) * (n + 1)
  }

  predicate CubeRoot(n: nat, p: nat) {
    n * n * n <= p * 0x1_0000_0000_0000_0000_0000_0000 < (n + 1) * (n + 1) * (n + 1)
  }

  /** A word holds the first 32 bits of the fractional part of a root. */
  ghost predicate SquareFraction(w: word, p: nat) {
    exists n: nat :: SquareRoot(n, p) && n % 0x1_0000_0000 == w as int
  }

  ghost predicate CubeFraction(w: word, p: nat) {
    exists n: nat :: CubeRoot(n, p) && n % 0x1_0000_0000 == w as int
  }

  /** The primes that follow p, one for each word, and the words from their square or cube roots. */
  ghost predicate SquareTable(p: nat, ws: seq<word>, ps: seq<nat>) {
    |ws| == |ps|
    && forall i :: 0 <= i < |ws| ==> NextPrime(Before(p, ps, i), ps[i]) && SquareFraction(ws[i], ps[i])
  }

  ghost predicate CubeTable(p: nat, ws: seq<word>, ps: seq<nat>) {
    |ws| == |ps|
    && forall i :: 0 <= i < |ws| ==> NextPrime(Before(p, ps, i), ps[i]) && CubeFraction(ws[i], ps[i])
  }

  function Before(p: nat, ps: seq<nat>, i: nat): nat
    requires i <= |ps|
  {
    if i == 0 then p else ps[i - 1]
  }

  lemma {:induction false} TableConcat(p: nat, a: seq<word>, ps: seq<nat>, b: seq<word>, qs: seq<nat>)
    requires |ps| > 0 && CubeTable(p, a, ps) && CubeTable(ps[|ps| - 1], b, qs)
    ensures CubeTable(p, a + b, ps + qs)
  {
    hide NextPrime, CubeFraction;
    var ws, rs := a + b, ps + qs;
    forall i | 0 <= i < |ws|
      ensures NextPrime(Before(p, rs, i), rs[i]) && CubeFraction(ws[i], rs[i])
    {
      if i < |a| {
        assert ws[i] == a[i] && rs[i] == ps[i] && Before(p, rs, i) == Before(p, ps, i);
      } else {
        var k := i - |a|;
        assert ws[i] == b[k] && rs[i] == qs[k] && Before(p, rs, i) == Before(ps[|ps| - 1], qs, k);
      }
    }
  }

  /** Trial division decides primality below 19 * 19. */
  predicate Trial(n: nat) {
    && n > 1 && (n == 2 || n % 2 != 0) && (n == 3 || n % 3 != 0) && (n == 5 || n % 5 != 0) && (n == 7 || n % 7 != 0)
    && (n == 11 || n % 11 != 0) && (n == 13 || n % 13 != 0) && (n == 17 || n % 17 != 0)
  }

  lemma TrialDecides(n: nat)
    requires n < 361
    ensures Trial(n) <==> Prime(n)
  {
    if Trial(n) {
      forall d | 1 < d < n
        ensures n % d != 0
      {
        if n % d == 0 {
          SmallFactor(n, d, n / d);
        }
      }
    }
  }

  /** Of two factors one is below 19, and then it shows in the trial. */
  lemma SmallFactor(n: nat, d: nat, e: nat)
    requires n < 361 && n == d * e && d > 1 && e > 1
    ensures !Trial(n)
  {
    ProductLarge(d, e);
    if d < 19 {
      FactorShows(n, d, e);
    } else {
      assert n == e * d;
      FactorShows(n, e, d);
    }
  }

  lemma ProductLarge(d: nat, e: nat)
    ensures d >= 19 && e >= 19 ==> d * e >= 361
  {
    if d >= 19 && e >= 19 {
      MulMonotone(d, 19, e);
    }
  }

  /** What is left of a small number after one of the primes tried. */
  lemma SmallestFactor(d: nat) returns (f: nat, g: nat)
    requires 1 < d < 19
    ensures d == g * f && f in {2, 3, 5, 7, 11, 13, 17} && f <= d
  {
    if d % 2 == 0 {
      f, g := 2, d / 2;
    } else if d % 3 == 0 {
      f, g := 3, d / 3;
    } else if d % 5 == 0 {
      f, g := 5, d / 5;
    } else {
      f, g := d, 1;
    }
  }

  lemma FactorShows(n: nat, d: nat, e: nat)
    requires n == d * e && 1 < d < 19 && e > 1
    ensures !Trial(n)
  {
    var f, g := SmallestFactor(d);
    assert n == (g * e) * f;
    MultipleDivides(g * e, f);
    MulStep(d, 1, e);
  }

  predicate NoneBetween(p: nat, q: nat)
    decreases q - p
  {
    p + 1 >= q || (!Trial(p + 1) && NoneBetween(p + 1, q))
  }

  lemma {:induction false} NoneIs(p: nat, q: nat)
    requires NoneBetween(p, q)
    ensures forall k :: p < k < q ==> !Trial(k)
    decreases q - p
  {
    hide Trial;
    if p + 1 >= q {
    } else {
      NoneIs(p + 1, q);
    }
  }

  lemma Next(p: nat, q: nat)
    requires p < q < 361 && Trial(q) && NoneBetween(p, q)
    ensures NextPrime(p, q)
  {
    NoneIs(p, q);
    forall k | p < k <= q
      ensures Trial(k) <==> Prime(k)
    {
      TrialDecides(k);
    }
  }

  lemma RootOfSquare(p: nat, n: nat, w: word)
    requires SquareRoot(n, p) && n % 0x1_0000_0000 == w as int
    ensures SquareFraction(w, p)
  {
  }

  lemma RootOfCube(p: nat, n: nat, w: word)
    requires CubeRoot(n, p) && n % 0x1_0000_0000 == w as int
    ensures CubeFraction(w, p)
  {
  }

  lemma Primes0()
    ensures NextPrime(1, 2) && NextPrime(2, 3) && NextPrime(3, 5) && NextPrime(5, 7)
    ensures NextPrime(7, 11) && NextPrime(11, 13) && NextPrime(13, 17) && NextPrime(17, 19)
  {
    hide NextPrime;
    Next(1, 2);
    Next(2, 3);
    Next(3, 5);
    Next(5, 7);
    Next(7, 11);
    Next(11, 13);
    Next(13, 17);
    Next(17, 19);
  }

  lemma Row0()
    ensures CubeTable(1, K0, PRIMES0)
  {
    hide NextPrime, CubeFraction;
    Primes0();
    RootOfCube(2, 0x1_428a_2f98, K0[0]);
    RootOfCube(3, 0x1_7137_4491, K0[1]);
    RootOfCube(5, 0x1_b5c0_fbcf, K0[2]);
    RootOfCube(7, 0x1_e9b5_dba5, K0[3]);
    RootOfCube(11, 0x2_3956_c25b, K0[4]);
    RootOfCube(13, 0x2_59f1_11f1, K0[5]);
    RootOfCube(17, 0x2_923f_82a4, K0[6]);
    RootOfCube(19, 0x2_ab1c_5ed5, K0[7]);
  }

  lemma Primes1()
    ensures NextPrime(19, 23) && NextPrime(23, 29) && NextPrime(29, 31) && NextPrime(31, 37)
    ensures NextPrime(37, 41) && NextPrime(41, 43) && NextPrime(43, 47) && NextPrime(47, 53)
  {
    hide NextPrime;
    Next(19, 23);
    Next(23, 29);
    Next(29, 31);
    Next(31, 37);
    Next(37, 41);
    Next(41, 43);
    Next(43, 47);
    Next(47, 53);
  }

  lemma Row1()
    ensures CubeTable(19, K1, PRIMES1)
  {
    hide NextPrime, CubeFraction;
    Primes1();
    RootOfCube(23, 0x2_d807_aa98, K1[0]);
    RootOfCube(29, 0x3_1283_5b01, K1[1]);
    RootOfCube(31, 0x3_2431_85be, K1[2]);
    RootOfCube(37, 0x3_550c_7dc3, K1[3]);
    RootOfCube(41, 0x3_72be_5d74, K1[4]);
    RootOfCube(43, 0x3_80de_b1fe, K1[5]);
    RootOfCube(47, 0x3_9bdc_06a7, K1[6]);
    RootOfCube(53, 0x3_c19b_f174, K1[7]);
  }

  lemma Primes2()
    ensures NextPrime(53, 59) && NextPrime(59, 61) && NextPrime(61, 67) && NextPrime(67, 71)
    ensures NextPrime(71, 73) && NextPrime(73, 79) && NextPrime(79, 83) && NextPrime(83, 89)
  {
    hide NextPrime;
    Next(53, 59);
    Next(59, 61);
    Next(61, 67);
    Next(67, 71);
    Next(71, 73);
    Next(73, 79);
    Next(79, 83);
    Next(83, 89);
  }

  lemma Row2()
    ensures CubeTable(53, K2, PRIMES2)
  {
    hide NextPrime, CubeFraction;
    Primes2();
    RootOfCube(59, 0x3_e49b_69c1, K2[0]);
    RootOfCube(61, 0x3_efbe_4786, K2[1]);
    RootOfCube(67, 0x4_0fc1_9dc6, K2[2]);
    RootOfCube(71, 0x4_240c_a1cc, K2[3]);
    RootOfCube(73, 0x4_2de9_2c6f, K2[4]);
    RootOfCube(79, 0x4_4a74_84aa, K2[5]);
    RootOfCube(83, 0x4_5cb0_a9dc, K2[6]);
    RootOfCube(89, 0x4_76f9_88da, K2[7]);
  }

  lemma Primes3()
    ensures NextPrime(89, 97) && NextPrime(97, 101) && NextPrime(101, 103) && NextPrime(103, 107)
    ensures NextPrime(107, 109) && NextPrime(109, 113) && NextPrime(113, 127) && NextPrime(127, 131)
  {
    hide NextPrime;
    Next(89, 97);
    Next(97, 101);
    Next(101, 103);
    Next(103, 107);
    Next(107, 109);
    Next(109, 113);
    Next(113, 127);
    Next(127, 131);
  }

  lemma Row3()
    ensures CubeTable(89, K3, PRIMES3)
  {
    hide NextPrime, CubeFraction;
    Primes3();
    RootOfCube(97, 0x4_983e_5152, K3[0]);
    RootOfCube(101, 0x4_a831_c66d, K3[1]);
    RootOfCube(103, 0x4_b003_27c8, K3[2]);
    RootOfCube(107, 0x4_bf59_7fc7, K3[3]);
    RootOfCube(109, 0x4_c6e0_0bf3, K3[4]);
    RootOfCube(113, 0x4_d5a7_9147, K3[5]);
    RootOfCube(127, 0x5_06ca_6351, K3[6]);
    RootOfCube(131, 0x5_1429_2967, K3[7]);
  }

  lemma Primes4()
    ensures NextPrime(131, 137) && NextPrime(137, 139) && NextPrime(139, 149) && NextPrime(149, 151)
    ensures NextPrime(151, 157) && NextPrime(157, 163) && NextPrime(163, 167) && NextPrime(167, 173)
  {
    hide NextPrime;
    Next(131, 137);
    Next(137, 139);
    Next(139, 149);
    Next(149, 151);
    Next(151, 157);
    Next(157, 163);
    Next(163, 167);
    Next(167, 173);
  }

  lemma Row4()
    ensures CubeTable(131, K4, PRIMES4)
  {
    hide NextPrime, CubeFraction;
    Primes4();
    RootOfCube(137, 0x5_27b7_0a85, K4[0]);
    RootOfCube(139, 0x5_2e1b_2138, K4[1]);
    RootOfCube(149, 0x5_4d2c_6dfc, K4[2]);
    RootOfCube(151, 0x5_5338_0d13, K4[3]);
    RootOfCube(157, 0x5_650a_7354, K4[4]);
    RootOfCube(163, 0x5_766a_0abb, K4[5]);
    RootOfCube(167, 0x5_81c2_c92e, K4[6]);
    RootOfCube(173, 0x5_9272_2c85, K4[7]);
  }

  lemma Primes5()
    ensures NextPrime(173, 179) && NextPrime(179, 181) && NextPrime(181, 191) && NextPrime(191, 193)
    ensures NextPrime(193, 197) && NextPrime(197, 199) && NextPrime(199, 211) && NextPrime(211, 223)
  {
    hide NextPrime;
    Next(173, 179);
    Next(179, 181);
    Next(181, 191);
    Next(191, 193);
    Next(193, 197);
    Next(197, 199);
    Next(199, 211);
    Next(211, 223);
  }

  lemma Row5()
    ensures CubeTable(173, K5, PRIMES5)
  {
    hide NextPrime, CubeFraction;
    Primes5();
    RootOfCube(179, 0x5_a2bf_e8a1, K5[0]);
    RootOfCube(181, 0x5_a81a_664b, K5[1]);
    RootOfCube(191, 0x5_c24b_8b70, K5[2]);
    RootOfCube(193, 0x5_c76c_51a3, K5[3]);
    RootOfCube(197, 0x5_d192_e819, K5[4]);
    RootOfCube(199, 0x5_d699_0624, K5[5]);
    RootOfCube(211, 0x5_f40e_3585, K5[6]);
    RootOfCube(223, 0x6_106a_a070, K5[7]);
  }

  lemma Primes6()
    ensures NextPrime(223, 227) && NextPrime(227, 229) && NextPrime(229, 233) && NextPrime(233, 239)
    ensures NextPrime(239, 241) && NextPrime(241, 251) && NextPrime(251, 257) && NextPrime(257, 263)
  {
    hide NextPrime;
    Next(223, 227);
    Next(227, 229);
    Next(229, 233);
    Next(233, 239);
    Next(239, 241);
    Next(241, 251);
    Next(251, 257);
    Next(257, 263);
  }

  lemma Row6()
    ensures CubeTable(223, K6, PRIMES6)
  {
    hide NextPrime, CubeFraction;
    Primes6();
    RootOfCube(227, 0x6_19a4_c116, K6[0]);
    RootOfCube(229, 0x6_1e37_6c08, K6[1]);
    RootOfCube(233, 0x6_2748_774c, K6[2]);
    RootOfCube(239, 0x6_34b0_bcb5, K6[3]);
    RootOfCube(241, 0x6_391c_0cb3, K6[4]);
    RootOfCube(251, 0x6_4ed8_aa4a, K6[5]);
    RootOfCube(257, 0x6_5b9c_ca4f, K6[6]);
    RootOfCube(263, 0x6_682e_6ff3, K6[7]);
  }

  lemma Primes7()
    ensures NextPrime(263, 269) && NextPrime(269, 271) && NextPrime(271, 277) && NextPrime(277, 281)
    ensures NextPrime(281, 283) && NextPrime(283, 293) && NextPrime(293, 307) && NextPrime(307, 311)
  {
    hide NextPrime;
    Next(263, 269);
    Next(269, 271);
    Next(271, 277);
    Next(277, 281);
    Next(281, 283);
    Next(283, 293);
    Next(293, 307);
    Next(307, 311);
  }

  lemma Row7()
    ensures CubeTable(263, K7, PRIMES7)
  {
    hide NextPrime, CubeFraction;
    Primes7();
    RootOfCube(269, 0x6_748f_82ee, K7[0]);
    RootOfCube(271, 0x6_78a5_636f, K7[1]);
    RootOfCube(277, 0x6_84c8_7814, K7[2]);
    RootOfCube(281, 0x6_8cc7_0208, K7[3]);
    RootOfCube(283, 0x6_90be_fffa, K7[4]);
    RootOfCube(293, 0x6_a450_6ceb, K7[5]);
    RootOfCube(307, 0x6_bef9_a3f7, K7[6]);
    RootOfCube(311, 0x6_c671_78f2, K7[7]);
  }

  /** Section 5.3.3: the initial hash value is from the square roots of the first eight primes. */
  lemma InitialHash()
    ensures SquareTable(1, H0, PRIMES0)
  {
    hide NextPrime, SquareFraction;
    Primes0();
    RootOfSquare(2, 0x1_6a09_e667, H0[0]);
    RootOfSquare(3, 0x1_bb67_ae85, H0[1]);
    RootOfSquare(5, 0x2_3c6e_f372, H0[2]);
    RootOfSquare(7, 0x2_a54f_f53a, H0[3]);
    RootOfSquare(11, 0x3_510e_527f, H0[4]);
    RootOfSquare(13, 0x3_9b05_688c, H0[5]);
    RootOfSquare(17, 0x4_1f83_d9ab, H0[6]);
    RootOfSquare(19, 0x4_5be0_cd19, H0[7]);
  }

  /** Section 4.2.2: the constants are from the cube roots of the first sixty-four. */
  lemma RoundConstants()
    ensures CubeTable(1, K, PRIMES)
  {
    hide CubeTable;
    Row0();
    Row1();
    Row2();
    Row3();
    Row4();
    Row5();
    Row6();
    Row7();
    TableConcat(1, K0, PRIMES0, K1, PRIMES1);
    TableConcat(53, K2, PRIMES2, K3, PRIMES3);
    TableConcat(131, K4, PRIMES4, K5, PRIMES5);
    TableConcat(223, K6, PRIMES6, K7, PRIMES7);
    TableConcat(1, K0 + K1, PRIMES0 + PRIMES1, K2 + K3, PRIMES2 + PRIMES3);
    TableConcat(131, K4 + K5, PRIMES4 + PRIMES5, K6 + K7, PRIMES6 + PRIMES7);
    TableConcat(1, (K0 + K1) + (K2 + K3), (PRIMES0 + PRIMES1) + (PRIMES2 + PRIMES3),
                (K4 + K5) + (K6 + K7), (PRIMES4 + PRIMES5) + (PRIMES6 + PRIMES7));
  }
}
