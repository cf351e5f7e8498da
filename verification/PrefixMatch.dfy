/** What matching means: bit by bit, and for prefix masks as the equality of leading bits. */
module PrefixMatch {
  import opened Checksum
  import opened Options
  import opened Routes
  import opened LongestPrefix

  /** Bit `k` of a number. */
  function BitOf(a: nat, k: nat): nat {
    if k == 0 then a % 2 else BitOf(a / 2, k - 1)
  }

  /** A bit of the conjunction is set exactly when it is set in both. */
  lemma {:induction false} BitAndBits(a: nat, b: nat, k: nat)
    ensures BitOf(BitAnd(a, b), k) == 1 <==> BitOf(a, k) == 1 && BitOf(b, k) == 1
    decreases k
  {
    if a == 0 || b == 0 {
      ZeroBits(k);
    } else if k > 0 {
      BitAndBits(a / 2, b / 2, k - 1);
    }
  }

  lemma {:induction false} ZeroBits(k: nat)
    ensures BitOf(0, k) == 0
  {
    if k > 0 {
      ZeroBits(k - 1);
    }
  }

  // ---------- Byte order ----------

  lemma {:induction false} AndCommutes(a: nat, b: nat)
    ensures BitAnd(a, b) == BitAnd(b, a)
  {
    if a != 0 && b != 0 {
      AndCommutes(a / 2, b / 2);
    }
  }

  /** The last `n` bits of `x` put behind `y`. */
  function Put(x: nat, n: nat, y: nat): nat {
    if n == 0 then y else x % 2 + 2 * Put(x / 2, n - 1, y)
  }

  lemma {:induction false} PutIs(x: nat, n: nat, y: nat)
    requires x < Pow2(n)
    ensures Put(x, n, y) == x + Pow2(n) * y
    decreases n
  {
    if n > 0 {
      PutIs(x / 2, n - 1, y);
      Doubled(Pow2(n - 1), y);
    }
  }

  lemma Doubled(p: int, y: int)
    ensures (2 * p) * y == 2 * (p * y)
  {
  }

  /** Conjunction works on leading and last bits apart; */
  lemma {:induction false} AndOfPut(x: nat, z: nat, n: nat, y: nat, w: nat)
    ensures BitAnd(Put(x, n, y), Put(z, n, w)) == Put(BitAnd(x, z), n, BitAnd(y, w))
    decreases n
  {
    if n > 0 {
      AndOfPut(x / 2, z / 2, n - 1, y, w);
      AndHalves(x, z);
      AndHalves(Put(x, n, y), Put(z, n, w));
    }
  }

  lemma AndHalves(a: nat, b: nat)
    ensures BitAnd(a, b) / 2 == BitAnd(a / 2, b / 2)
    ensures BitAnd(a, b) % 2 == if a % 2 == 1 && b % 2 == 1 then 1 else 0
  {
  }

  /** so it works on the bytes of a word. */
  function Word(b0: nat, b1: nat, b2: nat, b3: nat): nat {
    Put(b0, 8, Put(b1, 8, Put(b2, 8, b3)))
  }

  lemma PutByte(x: nat, y: nat)
    requires x < 256
    ensures Put(x, 8, y) == x + 256 * y
  {
    assert Pow2(4) == 16 && Pow2(8) == 256;
    PutIs(x, 8, y);
  }

  lemma WordIs(b0: nat, b1: nat, b2: nat, b3: nat)
    requires b0 < 256 && b1 < 256 && b2 < 256
    ensures Word(b0, b1, b2, b3) == b0 + 256 * (b1 + 256 * (b2 + 256 * b3))
  {
    PutByte(b2, b3);
    PutByte(b1, Put(b2, 8, b3));
    PutByte(b0, Put(b1, 8, Put(b2, 8, b3)));
  }

  lemma AndOfWords(a0: nat, a1: nat, a2: nat, a3: nat, b0: nat, b1: nat, b2: nat, b3: nat)
    ensures BitAnd(Word(a0, a1, a2, a3), Word(b0, b1, b2, b3)) ==
            Word(BitAnd(a0, b0), BitAnd(a1, b1), BitAnd(a2, b2), BitAnd(a3, b3))
  {
    AndOfPut(a2, b2, 8, a3, b3);
    AndOfPut(a1, b1, 8, Put(a2, 8, a3), Put(b2, 8, b3));
    AndOfPut(a0, b0, 8, Put(a1, 8, Put(a2, 8, a3)), Put(b1, 8, Put(b2, 8, b3)));
  }

  lemma SwappedWord(b0: nat, b1: nat, b2: nat, b3: nat)
    requires b0 < 256 && b1 < 256 && b2 < 256 && b3 < 256
    ensures Word(b0, b1, b2, b3) < 0x1_0000_0000 && Ntohl(Word(b0, b1, b2, b3)) == Word(b3, b2, b1, b0)
  {
    WordIs(b0, b1, b2, b3);
    WordIs(b3, b2, b1, b0);
    assert Load32([b0, b1, b2, b3]) == Word(b0, b1, b2, b3);
    SwapLoaded([b0, b1, b2, b3]);
  }

  lemma AsWord(a: uint32) returns (b0: nat, b1: nat, b2: nat, b3: nat)
    ensures b0 < 256 && b1 < 256 && b2 < 256 && b3 < 256 && a == Word(b0, b1, b2, b3)
  {
    b0, b1, b2, b3 := a % 256, a / 256 % 256, a / 256 / 256 % 256, a / 256 / 256 / 256;
    WordIs(b0, b1, b2, b3);
  }

  /** Conjunction commutes with the byte order. */
  lemma AndInHostOrder(a: uint32, b: uint32)
    ensures Ntohl(BitAnd(a, b)) == BitAnd(Ntohl(a), Ntohl(b))
  {
    var a0, a1, a2, a3 := AsWord(a);
    var b0, b1, b2, b3 := AsWord(b);
    SwappedWord(a0, a1, a2, a3);
    SwappedWord(b0, b1, b2, b3);
    AndOfWords(a0, a1, a2, a3, b0, b1, b2, b3);
    AndOfWords(a3, a2, a1, a0, b3, b2, b1, b0);
    SwappedWord(BitAnd(a0, b0), BitAnd(a1, b1), BitAnd(a2, b2), BitAnd(a3, b3));
  }

  lemma NtohlTwice(a: uint32)
    ensures Ntohl(Ntohl(a)) == a
  {
    var a0, a1, a2, a3 := AsWord(a);
    SwappedWord(a0, a1, a2, a3);
    SwappedWord(a3, a2, a1, a0);
  }

  // ---------- Prefix masks ----------

  /** A number without its last `m` bits. */
  function Leading(a: nat, m: nat): nat {
    if m == 0 then a else Leading(a / 2, m - 1)
  }

  lemma {:induction false} AndAllOnes(a: nat, j: nat)
    requires a < Pow2(j)
    ensures BitAnd(a, Pow2(j) - 1) == a
    decreases j
  {
    if j > 0 && a > 0 {
      AndAllOnes(a / 2, j - 1);
      assert (2 * Pow2(j - 1) - 1) / 2 == Pow2(j - 1) - 1;
    }
  }

  /** Under a mask of `len` ones and `m` zeros, numbers are the same exactly when all but their last `m` bits are. */
  lemma {:induction false} AndPrefix(a: nat, b: nat, len: nat, m: nat)
    requires a < Pow2(len + m) && b < Pow2(len + m) && Pow2(m) <= Pow2(len + m)
    ensures var mask := Pow2(len + m) - Pow2(m);
            BitAnd(a, mask) == BitAnd(b, mask) <==> Leading(a, m) == Leading(b, m)
    decreases m
  {
    var mask := Pow2(len + m) - Pow2(m);
    if m == 0 {
      AndAllOnes(a, len);
      AndAllOnes(b, len);
    } else {
      var half := Pow2(len + m - 1) - Pow2(m - 1);
      assert mask == 2 * half;
      AndPrefix(a / 2, b / 2, len, m - 1);
      SameUnderEven(a, b, half);
    }
  }

  lemma SameUnderEven(a: nat, b: nat, half: nat)
    ensures BitAnd(a, 2 * half) == BitAnd(b, 2 * half) <==> BitAnd(a / 2, half) == BitAnd(b / 2, half)
  {
    AndEven(a, half);
    AndEven(b, half);
  }

  lemma AndEven(a: nat, b: nat)
    ensures BitAnd(a, 2 * b) == 2 * BitAnd(a / 2, b)
  {
    if a != 0 && b != 0 {
      assert 2 * b / 2 == b && 2 * b % 2 == 0;
    } else if b != 0 {
      assert BitAnd(a / 2, b) == 0;
    }
  }

  lemma Pow2Is32()
    ensures Pow2(32) == 0x1_0000_0000
  {
    assert Pow2(8) == 0x100;
    assert Pow2(16) == 0x1_0000;
    assert Pow2(24) == 0x100_0000;
  }

  lemma PrefixesUnderMask(a: uint32, b: uint32, len: nat)
    requires len <= 32 && NetMask(len) >= 0
    ensures BitAnd(a, NetMask(len)) == BitAnd(b, NetMask(len)) <==> Leading(a, 32 - len) == Leading(b, 32 - len)
  {
    Pow2Is32();
    AndPrefix(a, b, len, 32 - len);
  }

  lemma MatchesInHostOrder(r: Route, dest: Addr)
    ensures Matches(r, dest) <==> BitAnd(Ntohl(dest), Ntohl(r.mask)) == BitAnd(Ntohl(r.prefix), Ntohl(r.mask))
  {
    AndInHostOrder(dest, r.mask);
    AndInHostOrder(r.mask, r.prefix);
    NtohlTwice(BitAnd(dest, r.mask));
    NtohlTwice(Key(r));
    AndCommutes(Ntohl(r.mask), Ntohl(r.prefix));
  }

  /**
    A route whose mask is a prefix mask of length `len` matches a destination exactly when
    the first `len` of their 32 bits, in host order, are the same.
   */
  lemma MatchesIsPrefix(r: Route, dest: Addr, len: nat)
    requires len <= 32 && Ntohl(r.mask) == NetMask(len)
    ensures Matches(r, dest) <==> Leading(Ntohl(dest), 32 - len) == Leading(Ntohl(r.prefix), 32 - len)
  {
    MatchesInHostOrder(r, dest);
    PrefixesUnderMask(Ntohl(dest), Ntohl(r.prefix), len);
  }
}
