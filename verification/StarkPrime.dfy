/**
  The modulus of the STARK field is prime. The two-adic root of unity of its parameters
  has 2^191-th power -1 modulo P, so its first 2^192 powers are different residues modulo every divisor of
  P other than 1. Such a divisor is therefore larger than the square root of P. That is also why the root
  of unity has the order that its name claims.
*/
module StarkPrime {
  import opened Arithmetic

  // 2^251 + 17 * 2^192 + 1
  const P: nat := 0x800000000000011000000000000000000000000000000000000000000000001
  const TWO_ADIC_ROOT_OF_UNITY: nat := 0x5282db87529cfa3f0464519c8b0fa5ad187148e11a61616070024f42f8ef94

  ghost predicate IsPrime(n: nat) {
    n > 1 && forall d: nat, e: nat :: d > 1 && e > 1 ==> d * e != n
  }

  // ------------------------------------------------------------------------
  // A modulus d > 2 for which some power g^(2^a) is -1
  // ------------------------------------------------------------------------

  lemma {:induction false} PowOfMinusOne(k: nat)
    ensures Pow(-1, k) == if k % 2 == 0 then 1 else -1
  {
    if k > 0 { PowOfMinusOne(k - 1); }
  }

  lemma {:induction false} PowOfOne(k: nat)
    ensures Pow(1, k) == 1
  {
    if k > 0 { PowOfOne(k - 1); }
  }

  lemma OneIsNotMinusOne(d: nat)
    requires d > 2
    ensures 1 % d != (-1) % d
  {
    QuotientIs(1, d, 0, 1);
    QuotientIs(-1, d, -1, d - 1);
  }

  lemma DoubleProduct(x: int, y: int)
    ensures (2 * x) * y == 2 * (x * y)
  {
  }

  /** Some multiple of `e` by a power of two is an odd multiple of 2^a. */
  lemma {:induction false} OddMultiple(e: nat, a: nat) returns (t: nat, o: nat)
    requires 0 < e < Pow(2, a + 1)
    ensures o % 2 == 1 && e * Pow(2, t) == Pow(2, a) * o
  {
    if e % 2 == 1 {
      t, o := a, e;
    } else {
      t, o := OddMultiple(e / 2, a - 1);
      DoubleProduct(e / 2, Pow(2, t));
      DoubleProduct(Pow(2, a - 1), o);
    }
  }

  /** The power of `g` is 1 for no exponent from 1 below 2^(a+1). */
  lemma NoSmallOrder(g: int, a: nat, d: nat, e: nat)
    requires d > 2 && Pow(g, Pow2(a)) % d == (-1) % d && 0 < e < Pow(2, a + 1)
    ensures Pow(g, e) % d != 1 % d
  {
    if Pow(g, e) % d == 1 % d {
      var t, o := OddMultiple(e, a);
      var twos, half := Pow2(t), Pow2(a);
      PowMul(g, e, twos);
      PowMul(g, half, o);
      PowMod(Pow(g, e), 1, twos, d);
      PowMod(Pow(g, half), -1, o, d);
      PowOfOne(twos);
      PowOfMinusOne(o);
      OneIsNotMinusOne(d);
    }
  }

  lemma PowersDiffer(g: int, a: nat, d: nat, i: nat, j: nat)
    requires d > 2 && Pow(g, Pow2(a)) % d == (-1) % d
    requires i < j < Pow2(a + 1)
    ensures Pow(g, i) % d != Pow(g, j) % d
  {
    if Pow(g, i) % d == Pow(g, j) % d {
      var all, e := Pow2(a + 1), j - i;
      var rest, whole := Pow(g, all - i), Pow(g, all);
      PowAdd(g, i, all - i);
      PowAdd(g, j, all - i);
      PowAdd(g, all, e);
      ModMul(Pow(g, i), rest, d);
      ModMul(Pow(g, j), rest, d);
      // the whole power is (-1)^2
      PowMul(g, Pow2(a), 2);
      PowMod(Pow(g, Pow2(a)), -1, 2, d);
      PowOfMinusOne(2);
      ModMul(whole, Pow(g, e), d);
      ModMul(1, Pow(g, e), d);
      NoSmallOrder(g, a, d, e);
    }
  }

  // ------------------------------------------------------------------------
  // Counting residues
  // ------------------------------------------------------------------------

  ghost function Powers(g: int, d: nat, n: nat): set<int>
    requires d > 0
  {
    if n == 0 then {} else Powers(g, d, n - 1) + {Pow(g, n - 1) % d}
  }

  lemma {:induction false} PowersMember(g: int, d: nat, n: nat, y: int)
    requires d > 0 && y in Powers(g, d, n)
    ensures 0 <= y < d && exists i: nat :: i < n && y == Pow(g, i) % d
  {
    if y != Pow(g, n - 1) % d { PowersMember(g, d, n - 1, y); }
  }

  lemma {:induction false} PowersCount(g: int, a: nat, d: nat, n: nat)
    requires d > 2 && Pow(g, Pow2(a)) % d == (-1) % d && n <= Pow2(a + 1)
    ensures |Powers(g, d, n)| == n
  {
    if n > 0 {
      PowersCount(g, a, d, n - 1);
      var y := Pow(g, n - 1) % d;
      if y in Powers(g, d, n - 1) {
        PowersMember(g, d, n - 1, y);
        var i: nat :| i < n - 1 && y == Pow(g, i) % d;
        PowersDiffer(g, a, d, i, n - 1);
      }
    }
  }

  ghost function Below(d: nat): set<int> {
    if d == 0 then {} else Below(d - 1) + {d - 1}
  }

  lemma {:induction false} BelowCount(d: nat)
    ensures |Below(d)| == d && forall i :: i in Below(d) <==> 0 <= i < d
  {
    if d > 0 { BelowCount(d - 1); }
  }

  lemma SubsetCount(a: set<int>, b: set<int>)
    requires a <= b
    ensures |a| <= |b|
  {
    assert b == a + (b - a);
  }

  /** Such a modulus is at least 2^(a+1). */
  lemma ModulusIsLarge(g: int, a: nat, d: nat)
    requires d > 2 && Pow(g, Pow2(a)) % d == (-1) % d
    ensures d >= Pow2(a + 1)
  {
    var n := Pow2(a + 1);
    PowersCount(g, a, d, n);
    BelowCount(d);
    forall y | y in Powers(g, d, n) ensures y in Below(d) { PowersMember(g, d, n, y); }
    SubsetCount(Powers(g, d, n), Below(d));
  }

  /** A criterion in the manner of Proth: an odd n below 4^(a+1) with g^(2^a) = -1 is prime. */
  lemma PrimeIfMinusOne(g: int, a: nat, n: nat)
    requires n > 1 && n % 2 == 1 && Pow(g, Pow2(a)) % n == n - 1
    requires n < Pow2(a + 1) * Pow2(a + 1)
    ensures IsPrime(n)
  {
    forall d: nat, e: nat | d > 1 && e > 1 ensures d * e != n {
      if d * e == n {
        DivisorIsLarge(g, a, n, d, e);
        DivisorIsLarge(g, a, n, e, d);
        ProductsGrow(d, e, Pow2(a + 1));
      }
    }
  }

  /** What is -1 modulo a product is -1 modulo its factors. */
  lemma ResidueOfFactor(x: int, n: nat, d: nat, e: nat)
    requires d > 0 && n > 0 && d * e == n && x % n == n - 1
    ensures x % d == (-1) % d
  {
    var q := x / n;
    assert x == q * n + (n - 1) == (q + 1) * n - 1;
    assert (q + 1) * (d * e) == ((q + 1) * e) * d;
    ModShift(-1, (q + 1) * e, d);
  }

  lemma DivisorIsLarge(g: int, a: nat, n: nat, d: nat, e: nat)
    requires d > 1 && e > 0 && d * e == n && n % 2 == 1 && Pow(g, Pow2(a)) % n == n - 1
    ensures d >= Pow2(a + 1)
  {
    hide Pow, Pow2;
    ResidueOfFactor(Pow(g, Pow2(a)), n, d, e);
    if d == 2 { ModShift(0, e, d); }
    ModulusIsLarge(g, a, d);
  }

  lemma ProductsGrow(d: nat, e: nat, k: nat)
    requires d >= k && e >= k
    ensures d * e >= k * k
  {
    assert d * e >= k * e >= k * k;
  }

  // ------------------------------------------------------------------------
  // The STARK modulus: 191 squarings of the root of unity reach -1
  // ------------------------------------------------------------------------

  ghost predicate Residue(b: int, n: nat, m: nat, y: int)
    requires m > 0
  {
    Pow(b, n) % m == y
  }

  lemma Square(b: int, k: nat, x: int, y: int)
    requires Residue(b, Pow2(k), P, x) && x * x % P == y
    ensures Residue(b, Pow2(k + 1), P, y)
  {
    SquareResidue(b, Pow2(k), P, x, y);
  }

  lemma SquareResidue(b: int, n: nat, m: nat, x: int, y: int)
    requires m > 0 && Residue(b, n, m, x) && x * x % m == y
    ensures Residue(b, 2 * n, m, y)
  {
    PowAdd(b, n, n);
    ModMul(Pow(b, n), Pow(b, n), m);
  }

  lemma Squarings0(b: int, k: nat)
    requires Residue(b, Pow2(k), P, 0x5282db87529cfa3f0464519c8b0fa5ad187148e11a61616070024f42f8ef94)
    ensures Residue(b, Pow2(k + 21), P, 0x3ddeed6ea43d59b7de04ce2d8febe775be86512856a1aefe378a012135e0ee9)
  {
    hide Residue, Pow2;
    Square(b, k, 0x5282db87529cfa3f0464519c8b0fa5ad187148e11a61616070024f42f8ef94,
      0xe0a5eb0a4995b37e2ab5fe2fad6e9ce43272dfda828f000fc5b93404173760);
    Square(b, k + 1, 0xe0a5eb0a4995b37e2ab5fe2fad6e9ce43272dfda828f000fc5b93404173760,
      0x5ac1ff12884c2d7f68488ddee5be5b657e36f459476eb5d567be37f09dc6b5c);
    Square(b, k + 2, 0x5ac1ff12884c2d7f68488ddee5be5b657e36f459476eb5d567be37f09dc6b5c,
      0x727b76a09563089053924d54bf6c31631c57cb6a2a1a8f22c8ed622c3bb6a8f);
    Square(b, k + 3, 0x727b76a09563089053924d54bf6c31631c57cb6a2a1a8f22c8ed622c3bb6a8f,
      0x7709cc3f421a10d914017ea2f0c24719ca9d2692beb71a6e040769692f8ac25);
    Square(b, k + 4, 0x7709cc3f421a10d914017ea2f0c24719ca9d2692beb71a6e040769692f8ac25,
      0x367f3841b487ae5108205191425ad9817e693462b58f45e767a1747b49b3a0a);
    Square(b, k + 5, 0x367f3841b487ae5108205191425ad9817e693462b58f45e767a1747b49b3a0a,
      0x61e359f379293ae0323845f87689930c777629391e2ede1d9446736bc46b8b4);
    Square(b, k + 6, 0x61e359f379293ae0323845f87689930c777629391e2ede1d9446736bc46b8b4,
      0x520c2d37e3f1e78c6185d3a0ab93ba14d44cff8db576ebc4b44764ed4ee8cf7);
    Square(b, k + 7, 0x520c2d37e3f1e78c6185d3a0ab93ba14d44cff8db576ebc4b44764ed4ee8cf7,
      0x22f575e112a2c4d946813e30f331903ef2990c6729d40e2123e992e31d48a82);
    Square(b, k + 8, 0x22f575e112a2c4d946813e30f331903ef2990c6729d40e2123e992e31d48a82,
      0x230b5c3d3f093925027e7d944793049f381ebbdbf87d840e4fa93cb9302ac44);
    Square(b, k + 9, 0x230b5c3d3f093925027e7d944793049f381ebbdbf87d840e4fa93cb9302ac44,
      0x7586d27b19255098be0ca5f918f0105924e189c653705209465d77c65375f6c);
    Square(b, k + 10, 0x7586d27b19255098be0ca5f918f0105924e189c653705209465d77c65375f6c,
      0x21dab447c48649aabcf2825aabe912be6406a78823ddf07191a2ea9cf287faf);
    Square(b, k + 11, 0x21dab447c48649aabcf2825aabe912be6406a78823ddf07191a2ea9cf287faf,
      0x26064139b92e036e3f5c599bbc94c16778ba471a45d785f664252897cc1083d);
    Square(b, k + 12, 0x26064139b92e036e3f5c599bbc94c16778ba471a45d785f664252897cc1083d,
      0x31531c6965c0cc47bf5af5390db4c797463b3f37e80093aad6794f2b94bc10e);
    Square(b, k + 13, 0x31531c6965c0cc47bf5af5390db4c797463b3f37e80093aad6794f2b94bc10e,
      0x2bc8b3028ec2dda77d60416fa86658a1f3c8f9650425ae8bc5915ae98c8db7f);
    Square(b, k + 14, 0x2bc8b3028ec2dda77d60416fa86658a1f3c8f9650425ae8bc5915ae98c8db7f,
      0x38e3b071e369b4f6fa736a5d498e3373efa8faeed5c136198cb241127105dae);
    Square(b, k + 15, 0x38e3b071e369b4f6fa736a5d498e3373efa8faeed5c136198cb241127105dae,
      0x4b9cb49b478c12a88ed5b7b848605cfd0744ddc522944901181eb951524ad8c);
    Square(b, k + 16, 0x4b9cb49b478c12a88ed5b7b848605cfd0744ddc522944901181eb951524ad8c,
      0x2708b052ff2ca5046d6fe3ce111d6ce5a337909375dc2407a5b3e7079bc6c86);
    Square(b, k + 17, 0x2708b052ff2ca5046d6fe3ce111d6ce5a337909375dc2407a5b3e7079bc6c86,
      0x68b3aaf00a4483b1a12a4257f01c5385127a167f0c137cd9513e0d4dd756b6d);
    Square(b, k + 18, 0x68b3aaf00a4483b1a12a4257f01c5385127a167f0c137cd9513e0d4dd756b6d,
      0x605f6a2ae0874e2c25b262fb99395f44234afd0c2069cba6c72bd401f4f0e85);
    Square(b, k + 19, 0x605f6a2ae0874e2c25b262fb99395f44234afd0c2069cba6c72bd401f4f0e85,
      0x3745ca5cc625a0b10b1b3db9be0aef564f4bbd26f29053dc04dc48c005a1d86);
    Square(b, k + 20, 0x3745ca5cc625a0b10b1b3db9be0aef564f4bbd26f29053dc04dc48c005a1d86,
      0x3ddeed6ea43d59b7de04ce2d8febe775be86512856a1aefe378a012135e0ee9);
  }

  lemma Squarings1(b: int, k: nat)
    requires Residue(b, Pow2(k), P, 0x3ddeed6ea43d59b7de04ce2d8febe775be86512856a1aefe378a012135e0ee9)
    ensures Residue(b, Pow2(k + 21), P, 0xd514fc5fd97ea169c1bfcf8ec507265586addb293ad856c002185cc993b168)
  {
    hide Residue, Pow2;
    Square(b, k, 0x3ddeed6ea43d59b7de04ce2d8febe775be86512856a1aefe378a012135e0ee9,
      0x6a550dfc8c22dd8e5e4a16b727e74b5d94f928d5d407ae80fbfd336edeaec42);
    Square(b, k + 1, 0x6a550dfc8c22dd8e5e4a16b727e74b5d94f928d5d407ae80fbfd336edeaec42,
      0xd109f294d2adea8bd91c558d4220dbb658c8c4e26b66b3ded3bc578b98bf40);
    Square(b, k + 2, 0xd109f294d2adea8bd91c558d4220dbb658c8c4e26b66b3ded3bc578b98bf40,
      0x247ecf52fe8be1fa8114ab3c94862af5a6b430dec205dcdbff2f4e60cc5cbf4);
    Square(b, k + 3, 0x247ecf52fe8be1fa8114ab3c94862af5a6b430dec205dcdbff2f4e60cc5cbf4,
      0xe34b3355ee9d49575950f37d1e82a86401b6d3cd08787a3a66ad86f976eb41);
    Square(b, k + 4, 0xe34b3355ee9d49575950f37d1e82a86401b6d3cd08787a3a66ad86f976eb41,
      0x5fb76bed5d75a88214d3134d01f3de968cd3f7a0173185873f8a435e404f6c5);
    Square(b, k + 5, 0x5fb76bed5d75a88214d3134d01f3de968cd3f7a0173185873f8a435e404f6c5,
      0x56db454a93340f5acba1990670f5d4e0f02915519dadcabbbafb3f6d8408a5);
    Square(b, k + 6, 0x56db454a93340f5acba1990670f5d4e0f02915519dadcabbbafb3f6d8408a5,
      0x7ce12e47503ddc334ca7cb60795844b7ee777e1736a1659e70206135bd84f3e);
    Square(b, k + 7, 0x7ce12e47503ddc334ca7cb60795844b7ee777e1736a1659e70206135bd84f3e,
      0xf4804c8e8b80825b24913bf17eb8d7b7cb0619f5952362ef7660f933f928b7);
    Square(b, k + 8, 0xf4804c8e8b80825b24913bf17eb8d7b7cb0619f5952362ef7660f933f928b7,
      0x4e3bf4420275950191382578f8530f2352eab2a421182c9e382756459824907);
    Square(b, k + 9, 0x4e3bf4420275950191382578f8530f2352eab2a421182c9e382756459824907,
      0x554f72a851739e0f74544f484883580f8a339cf887fd7e9d413afdf5707d134);
    Square(b, k + 10, 0x554f72a851739e0f74544f484883580f8a339cf887fd7e9d413afdf5707d134,
      0x4f4fae1524c29441dbfd6794692f803ddcf6d66be90d67e9412a9f3df1d9004);
    Square(b, k + 11, 0x4f4fae1524c29441dbfd6794692f803ddcf6d66be90d67e9412a9f3df1d9004,
      0x7f5f8017989c8fdbb172d28ca71e55107dbe55709f8e2fcb653c919e49749c9);
    Square(b, k + 12, 0x7f5f8017989c8fdbb172d28ca71e55107dbe55709f8e2fcb653c919e49749c9,
      0x4100303baee9a5842724e80dc3ed49ec0b192bec08b1798d3bd98334c264e97);
    Square(b, k + 13, 0x4100303baee9a5842724e80dc3ed49ec0b192bec08b1798d3bd98334c264e97,
      0x1df4a811feca6510bcf423c95272d01bafe9a1cf805fedfb085758e34fc5356);
    Square(b, k + 14, 0x1df4a811feca6510bcf423c95272d01bafe9a1cf805fedfb085758e34fc5356,
      0x2f187e162cfacb26b399ae073edc56f2d84c4c208f1b99b30e067ccab76a462);
    Square(b, k + 15, 0x2f187e162cfacb26b399ae073edc56f2d84c4c208f1b99b30e067ccab76a462,
      0x1b3031446d8156a9ba50868dd68405541ff4e1eac57ece3f9c1e3a3da25c9fd);
    Square(b, k + 16, 0x1b3031446d8156a9ba50868dd68405541ff4e1eac57ece3f9c1e3a3da25c9fd,
      0x3e0ddb6a81dbffa20b04218bfadddd31edf6a8360cf9603fabab7b8e2ddaacd);
    Square(b, k + 17, 0x3e0ddb6a81dbffa20b04218bfadddd31edf6a8360cf9603fabab7b8e2ddaacd,
      0x22a91cea99c704d27da5fbfa2a910a814634b999fa37e684adb59475585a6f0);
    Square(b, k + 18, 0x22a91cea99c704d27da5fbfa2a910a814634b999fa37e684adb59475585a6f0,
      0x51dbe40b55b06ccba80ffda2ae70678be651dd1cf739179cfe50d9005903be3);
    Square(b, k + 19, 0x51dbe40b55b06ccba80ffda2ae70678be651dd1cf739179cfe50d9005903be3,
      0x693e89afa69f0ec576adf96c3a87a889bd7746501d6ee0552d7a9a28866c747);
    Square(b, k + 20, 0x693e89afa69f0ec576adf96c3a87a889bd7746501d6ee0552d7a9a28866c747,
      0xd514fc5fd97ea169c1bfcf8ec507265586addb293ad856c002185cc993b168);
  }

  lemma Squarings2(b: int, k: nat)
    requires Residue(b, Pow2(k), P, 0xd514fc5fd97ea169c1bfcf8ec507265586addb293ad856c002185cc993b168)
    ensures Residue(b, Pow2(k + 21), P, 0x397b942bc3442eb1c3223aa5a250a06518db5cdc03af9765a0640f3ba0ea95e)
  {
    hide Residue, Pow2;
    Square(b, k, 0xd514fc5fd97ea169c1bfcf8ec507265586addb293ad856c002185cc993b168,
      0x15c5f15022748d28af5a7b79bcbfb57f77e35ad33d0fa70e24b552892d52444);
    Square(b, k + 1, 0x15c5f15022748d28af5a7b79bcbfb57f77e35ad33d0fa70e24b552892d52444,
      0x78679d63a3ecc280b51a085e58e209451f02e33e2e116095604b398a7dae551);
    Square(b, k + 2, 0x78679d63a3ecc280b51a085e58e209451f02e33e2e116095604b398a7dae551,
      0x53097d8687ba365b60c1f9388b6ecda283122287b18a9d00a1e223e324c6039);
    Square(b, k + 3, 0x53097d8687ba365b60c1f9388b6ecda283122287b18a9d00a1e223e324c6039,
      0x4ba49f25455acc3a7a2067eaf1bea485824a28560f8f9da8fa8385074d51c41);
    Square(b, k + 4, 0x4ba49f25455acc3a7a2067eaf1bea485824a28560f8f9da8fa8385074d51c41,
      0x24cfa5880eb8d60c68233b14395b70d86ba0504ee3fa47ece898b0d62d1ba57);
    Square(b, k + 5, 0x24cfa5880eb8d60c68233b14395b70d86ba0504ee3fa47ece898b0d62d1ba57,
      0x5cc1cc672a31ef19372af4e145cef8c5ee3ac6f3d52698169b8f4dfcbd4ba67);
    Square(b, k + 6, 0x5cc1cc672a31ef19372af4e145cef8c5ee3ac6f3d52698169b8f4dfcbd4ba67,
      0xf7af27641b3f3d746ded71bfb061d6b4cbecb77f25beea82a941c973a220ec);
    Square(b, k + 7, 0xf7af27641b3f3d746ded71bfb061d6b4cbecb77f25beea82a941c973a220ec,
      0x2b3732472327da653f3c5738dd76882e86db2fb81648127908e645057e7aeed);
    Square(b, k + 8, 0x2b3732472327da653f3c5738dd76882e86db2fb81648127908e645057e7aeed,
      0x7b9da96c5a7950576f427264afab47a7f3e3f90a6b0481cdb259a579f47496f);
    Square(b, k + 9, 0x7b9da96c5a7950576f427264afab47a7f3e3f90a6b0481cdb259a579f47496f,
      0x794ed388971b70e27a7ffeb9e9462dc616a47d66aa9c29a3ca61d9e046b49b2);
    Square(b, k + 10, 0x794ed388971b70e27a7ffeb9e9462dc616a47d66aa9c29a3ca61d9e046b49b2,
      0x6321b515f80f9920c911679ba6a027da5eb368f06fbef31d958e7261d4c3fec);
    Square(b, k + 11, 0x6321b515f80f9920c911679ba6a027da5eb368f06fbef31d958e7261d4c3fec,
      0x7ea9749876bd8c7c89f660e303b1f5ab24b664abafa937b8e9a6336df253531);
    Square(b, k + 12, 0x7ea9749876bd8c7c89f660e303b1f5ab24b664abafa937b8e9a6336df253531,
      0x52eeb982865a07ef78f890e220db8d8ab92043c7e70f7de7a5bead4ecd4c6f7);
    Square(b, k + 13, 0x52eeb982865a07ef78f890e220db8d8ab92043c7e70f7de7a5bead4ecd4c6f7,
      0x6309a6bc57feea2d228b1f9373f622223097a65768e2cb37ffa095dceb3dffd);
    Square(b, k + 14, 0x6309a6bc57feea2d228b1f9373f622223097a65768e2cb37ffa095dceb3dffd,
      0x37c79f6a0992ed5836ffd8094db1b389feefa06d40b6d0f1f4047ca72a30547);
    Square(b, k + 15, 0x37c79f6a0992ed5836ffd8094db1b389feefa06d40b6d0f1f4047ca72a30547,
      0x33dee7825ee51ffced58dd1d596cd51b3a834559493a6280eff7e6aecfb6f72);
    Square(b, k + 16, 0x33dee7825ee51ffced58dd1d596cd51b3a834559493a6280eff7e6aecfb6f72,
      0x3152c1d4c3842dd703949ee1d0db22695db523fcdecebc92a87c37ab9975332);
    Square(b, k + 17, 0x3152c1d4c3842dd703949ee1d0db22695db523fcdecebc92a87c37ab9975332,
      0xe1919f0c4bc4bebaa2335967f20d255a1787ba915c1c7047892f3b45aa1b58);
    Square(b, k + 18, 0xe1919f0c4bc4bebaa2335967f20d255a1787ba915c1c7047892f3b45aa1b58,
      0x41d6351df0a61c1e78d6c8d6510630c3e0f503757bbca048964ee489ff51bc7);
    Square(b, k + 19, 0x41d6351df0a61c1e78d6c8d6510630c3e0f503757bbca048964ee489ff51bc7,
      0xe94509d1e22f80dfaceff6d7264573386c232533eb6c0e164f0705acf14a4f);
    Square(b, k + 20, 0xe94509d1e22f80dfaceff6d7264573386c232533eb6c0e164f0705acf14a4f,
      0x397b942bc3442eb1c3223aa5a250a06518db5cdc03af9765a0640f3ba0ea95e);
  }

  lemma Squarings3(b: int, k: nat)
    requires Residue(b, Pow2(k), P, 0x397b942bc3442eb1c3223aa5a250a06518db5cdc03af9765a0640f3ba0ea95e)
    ensures Residue(b, Pow2(k + 21), P, 0x74ffc4d220fc7db571dbdb926e5d4354cf688cf5ac103a0cbadd8ada5c0dca4)
  {
    hide Residue, Pow2;
    Square(b, k, 0x397b942bc3442eb1c3223aa5a250a06518db5cdc03af9765a0640f3ba0ea95e,
      0x56c235baead3486249b2a4a489481f05ae32099ff8786899c46a0d82ccc89a);
    Square(b, k + 1, 0x56c235baead3486249b2a4a489481f05ae32099ff8786899c46a0d82ccc89a,
      0x5ac9917c7afafca64c137b0e338258ebff4af42aff370fd3b5a874072ef3623);
    Square(b, k + 2, 0x5ac9917c7afafca64c137b0e338258ebff4af42aff370fd3b5a874072ef3623,
      0x58fb800a320eca270b7ee88d5142cff73b4f714487e93c98fd405b2c520e3ea);
    Square(b, k + 3, 0x58fb800a320eca270b7ee88d5142cff73b4f714487e93c98fd405b2c520e3ea,
      0x367a3c7073c48b4893b09160b21ca7e6190d3f60fef654e07eda692e4b19319);
    Square(b, k + 4, 0x367a3c7073c48b4893b09160b21ca7e6190d3f60fef654e07eda692e4b19319,
      0x419cb7f7f7738114c64d050d7d21267f191fd60374be67a1da52b0aba4060a);
    Square(b, k + 5, 0x419cb7f7f7738114c64d050d7d21267f191fd60374be67a1da52b0aba4060a,
      0x63039de3f8123775b2fa771cfe9651528fd23fd2a9c6282270aa33a3b50645a);
    Square(b, k + 6, 0x63039de3f8123775b2fa771cfe9651528fd23fd2a9c6282270aa33a3b50645a,
      0x46de7bc8594b9246c646fe83be009f94ebe5506682ee17cba523265324228d8);
    Square(b, k + 7, 0x46de7bc8594b9246c646fe83be009f94ebe5506682ee17cba523265324228d8,
      0x2173582bc7171c7782f8b8e9f2008c937c1e6e10b6a1216c80848fd48e9b00);
    Square(b, k + 8, 0x2173582bc7171c7782f8b8e9f2008c937c1e6e10b6a1216c80848fd48e9b00,
      0x4b4757de1261bff7bd468872e4228034dcf39325d4233b0de558d1613ee028c);
    Square(b, k + 9, 0x4b4757de1261bff7bd468872e4228034dcf39325d4233b0de558d1613ee028c,
      0x33b74dd5c6620aaf28c83c99c0eea09b1cab3419049fd2d9604491931d9587e);
    Square(b, k + 10, 0x33b74dd5c6620aaf28c83c99c0eea09b1cab3419049fd2d9604491931d9587e,
      0x7986feaa4074faf4163a40136f0f7914c11ef2660e0b0c87b48a33beb0faad4);
    Square(b, k + 11, 0x7986feaa4074faf4163a40136f0f7914c11ef2660e0b0c87b48a33beb0faad4,
      0x886d2382e8fa75bbc12961947a00fdd7322ee9d24690f489b394f74decc603);
    Square(b, k + 12, 0x886d2382e8fa75bbc12961947a00fdd7322ee9d24690f489b394f74decc603,
      0x16b03c927c81bdd10d4a8d04f0bb72739d57dd675cfaa7ee42676b09583f023);
    Square(b, k + 13, 0x16b03c927c81bdd10d4a8d04f0bb72739d57dd675cfaa7ee42676b09583f023,
      0x8cd288bed4677427e6570a0f7e3e6be380dee704eac3cfd35f3e32a95e3cbf);
    Square(b, k + 14, 0x8cd288bed4677427e6570a0f7e3e6be380dee704eac3cfd35f3e32a95e3cbf,
      0x53b143cb298587d09716ad9d2c2590d2e4aea228cfd772f3a6299bd21bd655a);
    Square(b, k + 15, 0x53b143cb298587d09716ad9d2c2590d2e4aea228cfd772f3a6299bd21bd655a,
      0x4d12da8f698dd8f2c55534386839de74f0f9dc426fc2d5cc4dc0d201fda880f);
    Square(b, k + 16, 0x4d12da8f698dd8f2c55534386839de74f0f9dc426fc2d5cc4dc0d201fda880f,
      0x42c8871ea85f2ecbcba6ac1bdb3834a4e2e298fa484586841d351cd9065f8ee);
    Square(b, k + 17, 0x42c8871ea85f2ecbcba6ac1bdb3834a4e2e298fa484586841d351cd9065f8ee,
      0x4159becba288c0bef00dfa97c13e14560e6c3629ed293403cde2cdda828431e);
    Square(b, k + 18, 0x4159becba288c0bef00dfa97c13e14560e6c3629ed293403cde2cdda828431e,
      0xa8a188329f6855437c2fda73696a28da7456d290b17b01dcadfd2955205413);
    Square(b, k + 19, 0xa8a188329f6855437c2fda73696a28da7456d290b17b01dcadfd2955205413,
      0x25a425bcac574963eb8c3a0e4df06d84a959d5003821aa870b8043288740c3e);
    Square(b, k + 20, 0x25a425bcac574963eb8c3a0e4df06d84a959d5003821aa870b8043288740c3e,
      0x74ffc4d220fc7db571dbdb926e5d4354cf688cf5ac103a0cbadd8ada5c0dca4);
  }

  lemma Squarings4(b: int, k: nat)
    requires Residue(b, Pow2(k), P, 0x74ffc4d220fc7db571dbdb926e5d4354cf688cf5ac103a0cbadd8ada5c0dca4)
    ensures Residue(b, Pow2(k + 21), P, 0x5b8acbcc282db6f4cc157b472328369db5a705f9fc63b7f6ace9477f4910a60)
  {
    hide Residue, Pow2;
    Square(b, k, 0x74ffc4d220fc7db571dbdb926e5d4354cf688cf5ac103a0cbadd8ada5c0dca4,
      0x5d92ab7822107546e6eef0404badff62ca03fcb86946633c3eebe54443af109);
    Square(b, k + 1, 0x5d92ab7822107546e6eef0404badff62ca03fcb86946633c3eebe54443af109,
      0x50c8e5c3e50dfed7db961b024a4096ed5930255d99f7159962ceb6b1a264ab3);
    Square(b, k + 2, 0x50c8e5c3e50dfed7db961b024a4096ed5930255d99f7159962ceb6b1a264ab3,
      0x6bd0cde316cc0d39a112816deb0740d4f17674dc55f4455b2b074aeb3b67067);
    Square(b, k + 3, 0x6bd0cde316cc0d39a112816deb0740d4f17674dc55f4455b2b074aeb3b67067,
      0x7913b17c60939127aa46ad086b82de771329f695f3fb72adb150649bea42f88);
    Square(b, k + 4, 0x7913b17c60939127aa46ad086b82de771329f695f3fb72adb150649bea42f88,
      0x4bef156ed7788c133e089caa12773f25a2e6ea2c78f7dac1fbc42a3358cfcc2);
    Square(b, k + 5, 0x4bef156ed7788c133e089caa12773f25a2e6ea2c78f7dac1fbc42a3358cfcc2,
      0x10d235f41cf0a6b5d0e7af09fbda5e344370686cf0e1b883c3407a5b11706c9);
    Square(b, k + 6, 0x10d235f41cf0a6b5d0e7af09fbda5e344370686cf0e1b883c3407a5b11706c9,
      0xc962b1e5dd28e0e9aa6d504f6267c727cea5605ee6eb03af24ead266d7eb25);
    Square(b, k + 7, 0xc962b1e5dd28e0e9aa6d504f6267c727cea5605ee6eb03af24ead266d7eb25,
      0x36026557e531b52198de3470c8661cb0c37dca27bbe087de1462ca639759f39);
    Square(b, k + 8, 0x36026557e531b52198de3470c8661cb0c37dca27bbe087de1462ca639759f39,
      0x5f950ad12450edbc0746a1dcb004b32cdd8f78093a5a7ffebd2a8b6be27786);
    Square(b, k + 9, 0x5f950ad12450edbc0746a1dcb004b32cdd8f78093a5a7ffebd2a8b6be27786,
      0x6680f09add19a7d439bdda4e080e2ec6831da1df132ce21a848b2f255e39071);
    Square(b, k + 10, 0x6680f09add19a7d439bdda4e080e2ec6831da1df132ce21a848b2f255e39071,
      0x4c3a3a1cf78c5796af2b76d08451e3595490ca02a0fb7bd00e13c8e5e7c57a2);
    Square(b, k + 11, 0x4c3a3a1cf78c5796af2b76d08451e3595490ca02a0fb7bd00e13c8e5e7c57a2,
      0x19fa1f95266715130d97769c946ab30040470c480339f392810d2b47dac5d19);
    Square(b, k + 12, 0x19fa1f95266715130d97769c946ab30040470c480339f392810d2b47dac5d19,
      0x7a8faa16660a91230b003fd0c597ea738ec0386049c46e27f5c626d87086e50);
    Square(b, k + 13, 0x7a8faa16660a91230b003fd0c597ea738ec0386049c46e27f5c626d87086e50,
      0x240fc41f63c32ab8b51336fa9bed4f51540cf671c841a894ef9fe941c5a4861);
    Square(b, k + 14, 0x240fc41f63c32ab8b51336fa9bed4f51540cf671c841a894ef9fe941c5a4861,
      0xf1a46e52e5da6d359ddb459767a44a7a969b6235d2dfb668886b35b2bfa1ad);
    Square(b, k + 15, 0xf1a46e52e5da6d359ddb459767a44a7a969b6235d2dfb668886b35b2bfa1ad,
      0x5e88acbfdd73a36a2bd1d0671a0cdd222c99c9f5eac45882413e92cd772d637);
    Square(b, k + 16, 0x5e88acbfdd73a36a2bd1d0671a0cdd222c99c9f5eac45882413e92cd772d637,
      0x1775d669ad23eac9491173a78d7b607a258cfc7dbe5763de43439f14fa405aa);
    Square(b, k + 17, 0x1775d669ad23eac9491173a78d7b607a258cfc7dbe5763de43439f14fa405aa,
      0x6159e4a939b3ef32d89a7778091a28733cd57255d940684ea8cbefdd455f483);
    Square(b, k + 18, 0x6159e4a939b3ef32d89a7778091a28733cd57255d940684ea8cbefdd455f483,
      0x156d837457eabd3354e3bf711c1d565d4f52ed24664959b7f2e2048c608d246);
    Square(b, k + 19, 0x156d837457eabd3354e3bf711c1d565d4f52ed24664959b7f2e2048c608d246,
      0x3761a4f5990b523acda84182a069b18d04f1eebbfee24ac4c69edd957269216);
    Square(b, k + 20, 0x3761a4f5990b523acda84182a069b18d04f1eebbfee24ac4c69edd957269216,
      0x5b8acbcc282db6f4cc157b472328369db5a705f9fc63b7f6ace9477f4910a60);
  }

  lemma Squarings5(b: int, k: nat)
    requires Residue(b, Pow2(k), P, 0x5b8acbcc282db6f4cc157b472328369db5a705f9fc63b7f6ace9477f4910a60)
    ensures Residue(b, Pow2(k + 21), P, 0x3c53bf5826df846ce51a153d0b370a19a58fd99771da991a1826724ed992efc)
  {
    hide Residue, Pow2;
    Square(b, k, 0x5b8acbcc282db6f4cc157b472328369db5a705f9fc63b7f6ace9477f4910a60,
      0x57e48762d9291a47df85fbbf428c4b94b92533d961f56adec982f608770a4be);
    Square(b, k + 1, 0x57e48762d9291a47df85fbbf428c4b94b92533d961f56adec982f608770a4be,
      0x3b22830dbefe5e902102b55e7eed224d777abd5009b84dc384c5e8b91b88258);
    Square(b, k + 2, 0x3b22830dbefe5e902102b55e7eed224d777abd5009b84dc384c5e8b91b88258,
      0x31261d0ab40d7e4700766e17117c44a37c4a361aa690d1f82d06d783a41158a);
    Square(b, k + 3, 0x31261d0ab40d7e4700766e17117c44a37c4a361aa690d1f82d06d783a41158a,
      0x4b0b60385306d47ef09e227bc3ff5f7046910d3bcf85c7ec7cfc1f10bdb6cc);
    Square(b, k + 4, 0x4b0b60385306d47ef09e227bc3ff5f7046910d3bcf85c7ec7cfc1f10bdb6cc,
      0x6917cab04838ba13f6903d77d71ca2f64c25a072f53041307a4b921312f9080);
    Square(b, k + 5, 0x6917cab04838ba13f6903d77d71ca2f64c25a072f53041307a4b921312f9080,
      0x161444d63a080a007f123592544381e0ab73eefc55b1b6829617bad5b7be972);
    Square(b, k + 6, 0x161444d63a080a007f123592544381e0ab73eefc55b1b6829617bad5b7be972,
      0x6263e1e108eec6a19935b68cc9d9b24d43bcf85471f947e12680395c2ba0f23);
    Square(b, k + 7, 0x6263e1e108eec6a19935b68cc9d9b24d43bcf85471f947e12680395c2ba0f23,
      0x1c5ef1268c997228b8d87357b0de8803cac8839573b44d78cc1d845a86eec0c);
    Square(b, k + 8, 0x1c5ef1268c997228b8d87357b0de8803cac8839573b44d78cc1d845a86eec0c,
      0x5dd79b04d0a367d234d8639dbea4a69bfddf5c559086db15e3197fcb79a92b1);
    Square(b, k + 9, 0x5dd79b04d0a367d234d8639dbea4a69bfddf5c559086db15e3197fcb79a92b1,
      0x2259fe4059cb5f59e4dbd250edf7ead7e0dbb9f1b9f4119733e8df9dc50729);
    Square(b, k + 10, 0x2259fe4059cb5f59e4dbd250edf7ead7e0dbb9f1b9f4119733e8df9dc50729,
      0x69d8f0ce28baf8aeeedaa59b8183a1dc5daaff481ebc11719cd1b4e1824b92c);
    Square(b, k + 11, 0x69d8f0ce28baf8aeeedaa59b8183a1dc5daaff481ebc11719cd1b4e1824b92c,
      0x4f42d7f5d57bb23c1e326b312abaef5d0c3e0c67853b30dae703c5bcd9fedee);
    Square(b, k + 12, 0x4f42d7f5d57bb23c1e326b312abaef5d0c3e0c67853b30dae703c5bcd9fedee,
      0x3d296b9c387a3b5103ec3c817343c48cacd65df92a880891fb24e5e23088fc7);
    Square(b, k + 13, 0x3d296b9c387a3b5103ec3c817343c48cacd65df92a880891fb24e5e23088fc7,
      0x7acdde969bc866a8f4c1366fd6391750021a55ba96aeeab8ec7e11316334e1a);
    Square(b, k + 14, 0x7acdde969bc866a8f4c1366fd6391750021a55ba96aeeab8ec7e11316334e1a,
      0x712858b12d620d861aab25e0d732fdbd3616cb157a1cdecb9d70015f246c901);
    Square(b, k + 15, 0x712858b12d620d861aab25e0d732fdbd3616cb157a1cdecb9d70015f246c901,
      0x30762f8111f4192b174ad4623d95951709ca6c60430b01766d1942030408cb9);
    Square(b, k + 16, 0x30762f8111f4192b174ad4623d95951709ca6c60430b01766d1942030408cb9,
      0xb974a1f64289f793bae6507c287f58011853d8318277e80c4e7c07f966d24e);
    Square(b, k + 17, 0xb974a1f64289f793bae6507c287f58011853d8318277e80c4e7c07f966d24e,
      0x160e9529f3d7f85113b6071bb65576e6539ee52f5d787d2ef78ac4c062bd860);
    Square(b, k + 18, 0x160e9529f3d7f85113b6071bb65576e6539ee52f5d787d2ef78ac4c062bd860,
      0x13336c10fc8b5226f8987e37b429f7100f4a1285fd9edca448fff073e257b43);
    Square(b, k + 19, 0x13336c10fc8b5226f8987e37b429f7100f4a1285fd9edca448fff073e257b43,
      0x20a1b2f11cbcf62e9ab5d6ff94d9fcd408ae7db08ddfa23909aad7cc7bf8c3);
    Square(b, k + 20, 0x20a1b2f11cbcf62e9ab5d6ff94d9fcd408ae7db08ddfa23909aad7cc7bf8c3,
      0x3c53bf5826df846ce51a153d0b370a19a58fd99771da991a1826724ed992efc);
  }

  lemma Squarings6(b: int, k: nat)
    requires Residue(b, Pow2(k), P, 0x3c53bf5826df846ce51a153d0b370a19a58fd99771da991a1826724ed992efc)
    ensures Residue(b, Pow2(k + 21), P, 0x5f5cf394a0503588a81d1376b06db5cbcc17ccd153c3d28462b41fadd5ca525)
  {
    hide Residue, Pow2;
    Square(b, k, 0x3c53bf5826df846ce51a153d0b370a19a58fd99771da991a1826724ed992efc,
      0x15f291ac9c0fea66ef2c68c44140d6ebf152353b9fa9dcc0256d8e606051d55);
    Square(b, k + 1, 0x15f291ac9c0fea66ef2c68c44140d6ebf152353b9fa9dcc0256d8e606051d55,
      0x114a27896d1fe4c5be965ba8dd54dbe7d3eef8ba72b1f03b0a6628d72fb8b0d);
    Square(b, k + 2, 0x114a27896d1fe4c5be965ba8dd54dbe7d3eef8ba72b1f03b0a6628d72fb8b0d,
      0x592823dba66ff376dcfc3f204e3af6bdfdcae7a37e8a00691874856827caf53);
    Square(b, k + 3, 0x592823dba66ff376dcfc3f204e3af6bdfdcae7a37e8a00691874856827caf53,
      0x3b9eb75bbfb94911160b441d34b0aa6084214302c65c94e8a0b9d028229376d);
    Square(b, k + 4, 0x3b9eb75bbfb94911160b441d34b0aa6084214302c65c94e8a0b9d028229376d,
      0x3d70de4258c2f230bfa523a6e93f6f39a76a3127fa7c6c40175aa1c8a08756f);
    Square(b, k + 5, 0x3d70de4258c2f230bfa523a6e93f6f39a76a3127fa7c6c40175aa1c8a08756f,
      0x759502052fe197918729111f59deccccb704d0fd6fc96251d2b75385f65c188);
    Square(b, k + 6, 0x759502052fe197918729111f59deccccb704d0fd6fc96251d2b75385f65c188,
      0x71dd923ea63598d8a3a08baba82a050a566e7556861e2ce7f405a9f641826ac);
    Square(b, k + 7, 0x71dd923ea63598d8a3a08baba82a050a566e7556861e2ce7f405a9f641826ac,
      0x395e7fc89f15c6fa8d469d88a1c381707403ad4e3681a159e0392a5120edfab);
    Square(b, k + 8, 0x395e7fc89f15c6fa8d469d88a1c381707403ad4e3681a159e0392a5120edfab,
      0xf9ea29c819531b85b1f9bd5d1e2f0e82bc79b987969b48275e6b02f8133966);
    Square(b, k + 9, 0xf9ea29c819531b85b1f9bd5d1e2f0e82bc79b987969b48275e6b02f8133966,
      0x147819bc9a18a1cfd1de1f92c5db3a45327d617477d39beefa724771cc4133c);
    Square(b, k + 10, 0x147819bc9a18a1cfd1de1f92c5db3a45327d617477d39beefa724771cc4133c,
      0x36dd150a43bc89878c40b06cad54cf279d6de4827a1bbb138b8dc2ab6a791f1);
    Square(b, k + 11, 0x36dd150a43bc89878c40b06cad54cf279d6de4827a1bbb138b8dc2ab6a791f1,
      0x7ec89264e3003f84f4471d7dfbc1d9736feeeead45eb3f52755d6c2850fb317);
    Square(b, k + 12, 0x7ec89264e3003f84f4471d7dfbc1d9736feeeead45eb3f52755d6c2850fb317,
      0xc447edf93f2b505849ed84ad9302ddbb866a23200d367a2922d09e97bf51c);
    Square(b, k + 13, 0xc447edf93f2b505849ed84ad9302ddbb866a23200d367a2922d09e97bf51c,
      0x593fcefc33590efc565794d54acb87c99f4d1a0c71ccc0d39bc513194ceaf98);
    Square(b, k + 14, 0x593fcefc33590efc565794d54acb87c99f4d1a0c71ccc0d39bc513194ceaf98,
      0x59655bca59fd24212862a438a9a38b55582a9ff67455b5dc0cc855634db29f8);
    Square(b, k + 15, 0x59655bca59fd24212862a438a9a38b55582a9ff67455b5dc0cc855634db29f8,
      0x20895f803549e6077772f7c9ed55af88013dd5e588c8a511527727196934000);
    Square(b, k + 16, 0x20895f803549e6077772f7c9ed55af88013dd5e588c8a511527727196934000,
      0x28d98a5c724e0c5cb05b3daaa13ffe5d4f3510d99cdc2e0be23b78ff11422a0);
    Square(b, k + 17, 0x28d98a5c724e0c5cb05b3daaa13ffe5d4f3510d99cdc2e0be23b78ff11422a0,
      0x30a2e815081f7d927f73df497923b55d38dbf3801c203cee2bf6c4b68bc148c);
    Square(b, k + 18, 0x30a2e815081f7d927f73df497923b55d38dbf3801c203cee2bf6c4b68bc148c,
      0x9214cedbd56ba72ee2fccfb26a3811adfa956c86781a31852ba56e0643771f);
    Square(b, k + 19, 0x9214cedbd56ba72ee2fccfb26a3811adfa956c86781a31852ba56e0643771f,
      0x7f3796f1055c25d713383d44e17ff38978f978534d1905d374012a6cc60fb85);
    Square(b, k + 20, 0x7f3796f1055c25d713383d44e17ff38978f978534d1905d374012a6cc60fb85,
      0x5f5cf394a0503588a81d1376b06db5cbcc17ccd153c3d28462b41fadd5ca525);
  }

  lemma Squarings7(b: int, k: nat)
    requires Residue(b, Pow2(k), P, 0x5f5cf394a0503588a81d1376b06db5cbcc17ccd153c3d28462b41fadd5ca525)
    ensures Residue(b, Pow2(k + 21), P, 0x71a47b8174a8e80e643d3ead664f4da1ad6f3beddc0f211f6b1348877156db2)
  {
    hide Residue, Pow2;
    Square(b, k, 0x5f5cf394a0503588a81d1376b06db5cbcc17ccd153c3d28462b41fadd5ca525,
      0x41ed5ed684fdb65a4b4eb09a3db81cdcd942bbdbb11fb86b640956fc3111bcb);
    Square(b, k + 1, 0x41ed5ed684fdb65a4b4eb09a3db81cdcd942bbdbb11fb86b640956fc3111bcb,
      0x2c4d3fae555c739dbb200719df95366fadfc0509c9f7f04ad7108d3e6fcfdb2);
    Square(b, k + 2, 0x2c4d3fae555c739dbb200719df95366fadfc0509c9f7f04ad7108d3e6fcfdb2,
      0x39ccdaa2f14e2f1e4f1f15bad75d32a5a48d46994be15ba38eaa186140e5623);
    Square(b, k + 3, 0x39ccdaa2f14e2f1e4f1f15bad75d32a5a48d46994be15ba38eaa186140e5623,
      0x276097355446d35226f0a071a545f8b2319450aba5762ab5a896ef3b3bd8b7e);
    Square(b, k + 4, 0x276097355446d35226f0a071a545f8b2319450aba5762ab5a896ef3b3bd8b7e,
      0x66d3f613676644e7fd3b59b4d1be159d5c3359362a1db767d13e948f39cd3e8);
    Square(b, k + 5, 0x66d3f613676644e7fd3b59b4d1be159d5c3359362a1db767d13e948f39cd3e8,
      0x2b73cad6474b8f04f696cbaaceeb7f746aba1bcc7505f356966804cd990d491);
    Square(b, k + 6, 0x2b73cad6474b8f04f696cbaaceeb7f746aba1bcc7505f356966804cd990d491,
      0x772cb7af261b6de31150ac13481c4fe3fef7c1b224402352693b83400637050);
    Square(b, k + 7, 0x772cb7af261b6de31150ac13481c4fe3fef7c1b224402352693b83400637050,
      0x100fff97b116fb92aa7ae1b21254c395c2006273fab8962051093f0622478c4);
    Square(b, k + 8, 0x100fff97b116fb92aa7ae1b21254c395c2006273fab8962051093f0622478c4,
      0x685db923d7f5ae64f24ab196896a559860d442c8aea6ff765a19cf408a616fc);
    Square(b, k + 9, 0x685db923d7f5ae64f24ab196896a559860d442c8aea6ff765a19cf408a616fc,
      0x2399005571ddc34f58069e2cf93b2e59dca12d8ec14ba21081c31665dd8c4c3);
    Square(b, k + 10, 0x2399005571ddc34f58069e2cf93b2e59dca12d8ec14ba21081c31665dd8c4c3,
      0x7badc4b5d4ec2923c49a6302109fd561feb39d77d671a9d3ccd9d2b76b0a92e);
    Square(b, k + 11, 0x7badc4b5d4ec2923c49a6302109fd561feb39d77d671a9d3ccd9d2b76b0a92e,
      0x166c8e216a6e39cbd6ae1606340df6f95e231acd72200159aae0db32216f1c8);
    Square(b, k + 12, 0x166c8e216a6e39cbd6ae1606340df6f95e231acd72200159aae0db32216f1c8,
      0x50732ed0be8ced2fea566de48221e1a719252eb81c43de5c129d0f1d3ce8992);
    Square(b, k + 13, 0x50732ed0be8ced2fea566de48221e1a719252eb81c43de5c129d0f1d3ce8992,
      0x60ac0c4573f0c286fec2239a9565d986a788149b9b9f2c98265b62b5de74517);
    Square(b, k + 14, 0x60ac0c4573f0c286fec2239a9565d986a788149b9b9f2c98265b62b5de74517,
      0x22bde4080fb4ceae566a8e1c04b00b774a6431091af248d209745aaf81f58b4);
    Square(b, k + 15, 0x22bde4080fb4ceae566a8e1c04b00b774a6431091af248d209745aaf81f58b4,
      0x5e7decaf2b876575397e8e2f1ee840cae9c3f9a3a96c59ef42231bbb030713c);
    Square(b, k + 16, 0x5e7decaf2b876575397e8e2f1ee840cae9c3f9a3a96c59ef42231bbb030713c,
      0x57a797181c06d8427145cb66056f032751615d8617c5468258e96d2bb6422f9);
    Square(b, k + 17, 0x57a797181c06d8427145cb66056f032751615d8617c5468258e96d2bb6422f9,
      0x1f05206a93b28f3ce0bc0d9fee282e4102e16b264c12e72eac5be9eea5f81cf);
    Square(b, k + 18, 0x1f05206a93b28f3ce0bc0d9fee282e4102e16b264c12e72eac5be9eea5f81cf,
      0x3d8d2c79e51225ca679e36b4795d34603148f22aa2da68432609f1d4586dbc3);
    Square(b, k + 19, 0x3d8d2c79e51225ca679e36b4795d34603148f22aa2da68432609f1d4586dbc3,
      0x6e8e7695c437763ce9a0d37f5fa46656e3398e68ef9a25ab86b03a44ca88ffc);
    Square(b, k + 20, 0x6e8e7695c437763ce9a0d37f5fa46656e3398e68ef9a25ab86b03a44ca88ffc,
      0x71a47b8174a8e80e643d3ead664f4da1ad6f3beddc0f211f6b1348877156db2);
  }

  lemma Squarings8(b: int, k: nat)
    requires Residue(b, Pow2(k), P, 0x71a47b8174a8e80e643d3ead664f4da1ad6f3beddc0f211f6b1348877156db2)
    ensures Residue(b, Pow2(k + 21), P, 0x63365fe0de874d9c90adb1e2f9c676e98c62155e4412e873ada5e1dee6feebb)
  {
    hide Residue, Pow2;
    Square(b, k, 0x71a47b8174a8e80e643d3ead664f4da1ad6f3beddc0f211f6b1348877156db2,
      0x1054544afb3df1a81cb2e43cd0be360d7c9c0a1b32a3b2301af11c3b40bdbe8);
    Square(b, k + 1, 0x1054544afb3df1a81cb2e43cd0be360d7c9c0a1b32a3b2301af11c3b40bdbe8,
      0x3e4383531eeac7c9822fb108d24a344d841544dd6482f17ead331453e3a2f4b);
    Square(b, k + 2, 0x3e4383531eeac7c9822fb108d24a344d841544dd6482f17ead331453e3a2f4b,
      0x1f4c2bfbeea04f127e46d76ecbf157b030530a6e7c1b2fd006547440e5ffcb8);
    Square(b, k + 3, 0x1f4c2bfbeea04f127e46d76ecbf157b030530a6e7c1b2fd006547440e5ffcb8,
      0x594beafca8a00d9581d81caee93dc85c727c9af7fc4c648e3d47b998574e81f);
    Square(b, k + 4, 0x594beafca8a00d9581d81caee93dc85c727c9af7fc4c648e3d47b998574e81f,
      0x2d25658f71614e33e277fa0223f6558858f5918f973dc221727fce0bffaa9db);
    Square(b, k + 5, 0x2d25658f71614e33e277fa0223f6558858f5918f973dc221727fce0bffaa9db,
      0x4768803ef85256034f67453635f87997ff61841e411ee63ce7b0a8b9745a046);
    Square(b, k + 6, 0x4768803ef85256034f67453635f87997ff61841e411ee63ce7b0a8b9745a046,
      0x6a6f98dc9761a8a0eeadedd3109e6119ec8116ceb7aa1c1a7b1f98c2755bfac);
    Square(b, k + 7, 0x6a6f98dc9761a8a0eeadedd3109e6119ec8116ceb7aa1c1a7b1f98c2755bfac,
      0x1eb6d849978ee09b9d2cd854901fab81646d633f51eddbc80ee9837309d9da9);
    Square(b, k + 8, 0x1eb6d849978ee09b9d2cd854901fab81646d633f51eddbc80ee9837309d9da9,
      0x34b5d5d611b72061c3a6e5c8bdbd9b393898bc862ef8a01e3efc75d13a77460);
    Square(b, k + 9, 0x34b5d5d611b72061c3a6e5c8bdbd9b393898bc862ef8a01e3efc75d13a77460,
      0x393a32b34832dbad650df250f673d7c5edd09f076fc314a3e5a42f0606082e1);
    Square(b, k + 10, 0x393a32b34832dbad650df250f673d7c5edd09f076fc314a3e5a42f0606082e1,
      0x363d70a6538624f68c341845689b2325c4564ebadf9bf788171e1da3112b02d);
    Square(b, k + 11, 0x363d70a6538624f68c341845689b2325c4564ebadf9bf788171e1da3112b02d,
      0x3d14df6ec477cfc061f4256749ae3ddb5375bc91ee171f9273dbbc7afd187f);
    Square(b, k + 12, 0x3d14df6ec477cfc061f4256749ae3ddb5375bc91ee171f9273dbbc7afd187f,
      0x10f4d91b5d9a6deed5ebbf4a3492c1ed439f57211b54c6c453916920fa30710);
    Square(b, k + 13, 0x10f4d91b5d9a6deed5ebbf4a3492c1ed439f57211b54c6c453916920fa30710,
      0x659d83946a03edd72406af6711825f5653d9e35dc125289a206c054ec89c4f1);
    Square(b, k + 14, 0x659d83946a03edd72406af6711825f5653d9e35dc125289a206c054ec89c4f1,
      0x11d07d97880b4dc0234b46e6d4b9bd4a1f811a9e3bc8e32cc4074a0c13a1d0b);
    Square(b, k + 15, 0x11d07d97880b4dc0234b46e6d4b9bd4a1f811a9e3bc8e32cc4074a0c13a1d0b,
      0xc92ecbfd121b58bc7924d5dd51a717c4d78992d0e87cd59f1bc8d7ff0cb347);
    Square(b, k + 16, 0xc92ecbfd121b58bc7924d5dd51a717c4d78992d0e87cd59f1bc8d7ff0cb347,
      0xfcad19556f9b8587781ce1b03a097efa6682256f9ddbcfdab65dbdd4af20f);
    Square(b, k + 17, 0xfcad19556f9b8587781ce1b03a097efa6682256f9ddbcfdab65dbdd4af20f,
      0x128f0fee82b2bb55e869a0710826800d09bd064f9e225ecd6871506b2703765);
    Square(b, k + 18, 0x128f0fee82b2bb55e869a0710826800d09bd064f9e225ecd6871506b2703765,
      0x789ad459ecd5c85fcdca219ce6246af26da375d1a8e79812225638f9b48a8ab);
    Square(b, k + 19, 0x789ad459ecd5c85fcdca219ce6246af26da375d1a8e79812225638f9b48a8ab,
      0x5ec467b88826aba4537602d514425f3b0bdf467bbf302458337c45f6021e539);
    Square(b, k + 20, 0x5ec467b88826aba4537602d514425f3b0bdf467bbf302458337c45f6021e539,
      0x63365fe0de874d9c90adb1e2f9c676e98c62155e4412e873ada5e1dee6feebb);
  }

  lemma Squarings9(b: int, k: nat)
    requires Residue(b, Pow2(k), P, 0x63365fe0de874d9c90adb1e2f9c676e98c62155e4412e873ada5e1dee6feebb)
    ensures Residue(b, Pow2(k + 2), P, 0x800000000000011000000000000000000000000000000000000000000000000)
  {
    hide Residue, Pow2;
    Square(b, k, 0x63365fe0de874d9c90adb1e2f9c676e98c62155e4412e873ada5e1dee6feebb,
      0x625023929a2995b533120664329f8c7c5268e56ac8320da2a616626f41337e3);
    Square(b, k + 1, 0x625023929a2995b533120664329f8c7c5268e56ac8320da2a616626f41337e3,
      0x800000000000011000000000000000000000000000000000000000000000000);
  }

  lemma RootReachesMinusOne(b: int)
    requires b == TWO_ADIC_ROOT_OF_UNITY
    ensures Residue(b, Pow2(191), P, P - 1)
  {
    FirstPower(b);
    hide Residue, Pow2;
    Squarings0(b, 0);
    Squarings1(b, 21);
    Squarings2(b, 42);
    Squarings3(b, 63);
    Squarings4(b, 84);
    Squarings5(b, 105);
    Squarings6(b, 126);
    Squarings7(b, 147);
    Squarings8(b, 168);
    Squarings9(b, 189);
  }

  lemma FirstPower(b: int)
    requires b == TWO_ADIC_ROOT_OF_UNITY
    ensures Residue(b, Pow2(0), P, b)
  {
    assert Pow(b, 1) == b * Pow(b, 0) == b;
  }

  lemma TwoPowers(a: nat, b: nat, x: int, y: int)
    requires Pow2(a) == x && Pow2(b) == y
    ensures Pow2(a + b) == x * y
  {
    PowAdd(2, a, b);
  }

  lemma SizeOfModulus()
    ensures P < Pow2(192) * Pow2(192)
  {
    assert Pow2(1) == 2 * Pow2(0) == 2;
    TwoPowers(1, 1, 2, 2);
    TwoPowers(1, 2, 2, 4);
    TwoPowers(2, 2, 4, 4);
    TwoPowers(3, 4, 8, 16);
    TwoPowers(4, 4, 16, 16);
    TwoPowers(7, 8, 0x80, 0x100);
    TwoPowers(8, 8, 0x100, 0x100);
    TwoPowers(15, 16, 0x8000, 0x1_0000);
    TwoPowers(16, 16, 0x1_0000, 0x1_0000);
    TwoPowers(31, 32, 0x8000_0000, 0x1_0000_0000);
    TwoPowers(32, 32, 0x1_0000_0000, 0x1_0000_0000);
    TwoPowers(63, 64, 0x8000_0000_0000_0000, 0x1_0000_0000_0000_0000);
    TwoPowers(127, 65, Pow2(127), Pow2(65));
    ProductsGrow(Pow2(192), Pow2(192), Pow2(127));
  }

  lemma StarkModulusIsPrime()
    ensures IsPrime(P)
  {
    var b := TWO_ADIC_ROOT_OF_UNITY;
    RootReachesMinusOne(b);
    SizeOfModulus();
    ModulusIsPrime(b, 191, P);
  }

  lemma ModulusIsPrime(b: int, a: nat, n: nat)
    requires n > 1 && n % 2 == 1 && n < Pow2(a + 1) * Pow2(a + 1) && Residue(b, Pow2(a), n, n - 1)
    ensures IsPrime(n)
  {
    PrimeIfMinusOne(b, a, n);
  }
}
