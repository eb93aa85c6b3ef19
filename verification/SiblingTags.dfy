/** Which field numbers the tags of sibling columns tell apart: those below 2^26,
    under every parent, and no more.

    Two numbers are followed through the four rounds of the hash. A round mixes
    one byte in, which keeps a word within its block of 256, and multiplies by
    the prime, so the difference of two hashes is a combination of small numbers
    with powers of the prime as weights. */
module SiblingTags {

  import opened LittleEndian
  import opened PathHash

  const PRIME_INVERSE: int := 0x359c449b
  const INVERSE_SQUARE: int := 0x5d4ab5d9

  /** The prime is odd, so it has an inverse modulo 2^31. */
  lemma UndoRound(word: nat, product: nat, r: int) returns (k: int)
    requires product == word * FNV_PRIME % U32_LIMIT
    requires (product - r) % TAG_LIMIT == 0
    ensures word == r * PRIME_INVERSE + k * TAG_LIMIT
  {
    var i, j := word * FNV_PRIME / U32_LIMIT, (product - r) / TAG_LIMIT;
    var q := FNV_PRIME * PRIME_INVERSE / TAG_LIMIT;
    assert FNV_PRIME * PRIME_INVERSE == q * TAG_LIMIT + 1;
    assert word * FNV_PRIME == r + (2 * i + j) * TAG_LIMIT;
    assert word * FNV_PRIME * PRIME_INVERSE == word + word * q * TAG_LIMIT;
    k := (2 * i + j) * PRIME_INVERSE - word * q;
  }

  /** Words in the same blocks of 256 as two others differ as those do, but for
      less than two blocks. */
  lemma SameBlocks(a: nat, b: nat, u: nat, v: nat)
    requires u / 256 == a / 256 && v / 256 == b / 256
    ensures -511 < (u - v) - (a - b) < 511
    ensures a == b ==> -256 < u - v < 256
  {
  }

  /** Small numbers that, weighted by the square of the prime, the prime and one,
      are c modulo 2^24, with a carry m. */
  predicate LowDigits(d: int, e: int, f: int, c: int, m: int) {
    -256 < d < 256 && -511 < e < 511 && -511 < f < 511 && 162409 * d + 403 * e + f - c == 0x100_0000 * m
  }

  /** And they are c in the seven bits above. */
  predicate HighDigits(d: int, e: int, c: int, m: int, s: int) {
    38 * d + e + m - c == 128 * s
  }

  /** The first number from the others, and the second from the third. */
  lemma Narrow(d: int, e: int, f: int, c: int, m: int)
    requires LowDigits(d, e, f, c, m)
    ensures -206040 <= 0x100_0000 * m + c - 162409 * d <= 206040
    ensures -510 <= 0x100_0000 * m + c - 162409 * d - 403 * e <= 510
  {
  }

  lemma SameResidues0(d: int, e: int, f: int, m: int, s: int)
    requires LowDigits(d, e, f, 0, m)
    ensures HighDigits(d, e, 0, m, s) ==> d == 0 && e == 0 && f == 0
  {
    Narrow(d, e, f, 0, m);
    assert -2 <= m <= 2;
    assert m == -2 ==> (d == -207 && 159 <= e <= 160) || (d == -206 && -244 <= e <= -243);
    assert m == -1 ==> (d == -104 && 280 <= e <= 282) || (d == -103 && -123 <= e <= -121);
    assert m == 0 ==> (d == -1 && 402 <= e <= 404) || (d == 0 && -1 <= e <= 1) || (d == 1 && -404 <= e <= -402);
    assert m == 1 ==> (d == 103 && 121 <= e <= 123) || (d == 104 && -282 <= e <= -280);
    assert m == 2 ==> (d == 206 && 243 <= e <= 244) || (d == 207 && -160 <= e <= -159);
  }

  lemma SameResidues1(d: int, e: int, f: int, m: int, s: int)
    requires LowDigits(d, e, f, 6536037, m)
    ensures HighDigits(d, e, 74, m, s) ==> d == -166 && e == -144 && f == -469
  {
    Narrow(d, e, f, 6536037, m);
    assert -2 <= m <= 2;
    assert m == -2 ==> (d == -167 && 257 <= e <= 259) || (d == -166 && -146 <= e <= -144);
    assert m == -1 ==> (d == -64 && 379 <= e <= 380) || (d == -63 && -24 <= e <= -23) || (d == -62 && -427 <= e <= -426);
    assert m == 0 ==> (d == 39 && 501 <= e <= 502) || (d == 40 && 98 <= e <= 99) || (d == 41 && -305 <= e <= -304);
    assert m == 1 ==> (d == 143 && 219 <= e <= 221) || (d == 144 && -184 <= e <= -182);
    assert m == 2 ==> (d == 246 && 341 <= e <= 343) || (d == 247 && -62 <= e <= -60) || (d == 248 && -465 <= e <= -463);
  }

  lemma SameResidues2(d: int, e: int, f: int, m: int, s: int)
    requires LowDigits(d, e, f, 13072074, m)
    ensures !HighDigits(d, e, 20, m, s)
  {
    Narrow(d, e, f, 13072074, m);
    assert -3 <= m <= 1;
    assert m == -3 ==> (d == -230 && 234 <= e <= 235) || (d == -229 && -169 <= e <= -168);
    assert m == -2 ==> (d == -127 && 356 <= e <= 357) || (d == -126 && -47 <= e <= -46) || (d == -125 && -450 <= e <= -449);
    assert m == -1 ==> (d == -24 && 477 <= e <= 479) || (d == -23 && 74 <= e <= 76) || (d == -22 && -329 <= e <= -327);
    assert m == 0 ==> (d == 80 && 196 <= e <= 198) || (d == 81 && -207 <= e <= -205);
    assert m == 1 ==> (d == 183 && 318 <= e <= 319) || (d == 184 && -85 <= e <= -84) || (d == 185 && -488 <= e <= -487);
  }

  lemma SameResidues3(d: int, e: int, f: int, m: int, s: int)
    requires LowDigits(d, e, f, 2830895, m)
    ensures !HighDigits(d, e, 95, m, s)
  {
    Narrow(d, e, f, 2830895, m);
    assert -2 <= m <= 2;
    assert m == -2 ==> (d == -190 && 332 <= e <= 334) || (d == -189 && -71 <= e <= -69) || (d == -188 && -474 <= e <= -472);
    assert m == -1 ==> (d == -87 && 454 <= e <= 456) || (d == -86 && 51 <= e <= 53) || (d == -85 && -352 <= e <= -350);
    assert m == 0 ==> (d == 17 && 173 <= e <= 174) || (d == 18 && -230 <= e <= -229);
    assert m == 1 ==> (d == 120 && 295 <= e <= 296) || (d == 121 && -108 <= e <= -107) || (d == 122 && -511 <= e <= -510);
    assert m == 2 ==> (d == 223 && 416 <= e <= 418) || (d == 224 && 13 <= e <= 15) || (d == 225 && -390 <= e <= -388);
  }

  lemma MetResidues0(d: int, e: int, f: int, m: int, s: int)
    requires LowDigits(d, e, f, 4896217, m)
    ensures !HighDigits(d, e, 93, m, s)
  {
    Narrow(d, e, f, 4896217, m);
    assert -2 <= m <= 2;
    assert m == -2 ==> (d == -177 && 218 <= e <= 220) || (d == -176 && -185 <= e <= -183);
    assert m == -1 ==> (d == -74 && 340 <= e <= 341) || (d == -73 && -63 <= e <= -62) || (d == -72 && -466 <= e <= -465);
    assert m == 0 ==> (d == 29 && 462 <= e <= 463) || (d == 30 && 59 <= e <= 60) || (d == 31 && -344 <= e <= -343);
    assert m == 1 ==> (d == 133 && 180 <= e <= 182) || (d == 134 && -223 <= e <= -221);
    assert m == 2 ==> (d == 236 && 302 <= e <= 304) || (d == 237 && -101 <= e <= -99) || (d == 238 && -504 <= e <= -502);
  }

  lemma MetResidues1(d: int, e: int, f: int, m: int, s: int)
    requires LowDigits(d, e, f, 11432254, m)
    ensures !HighDigits(d, e, 39, m, s)
  {
    Narrow(d, e, f, 11432254, m);
    assert -3 <= m <= 1;
    assert m == -3 ==> (d == -240 && 195 <= e <= 196) || (d == -239 && -208 <= e <= -207);
    assert m == -2 ==> (d == -137 && 316 <= e <= 318) || (d == -136 && -87 <= e <= -85) || (d == -135 && -490 <= e <= -488);
    assert m == -1 ==> (d == -34 && 438 <= e <= 440) || (d == -33 && 35 <= e <= 37) || (d == -32 && -368 <= e <= -366);
    assert m == 0 ==> (d == 70 && 157 <= e <= 159) || (d == 71 && -246 <= e <= -244);
    assert m == 1 ==> (d == 173 && 279 <= e <= 280) || (d == 174 && -124 <= e <= -123);
  }

  lemma MetResidues2(d: int, e: int, f: int, m: int, s: int)
    requires LowDigits(d, e, f, 1191075, m)
    ensures !HighDigits(d, e, 114, m, s)
  {
    Narrow(d, e, f, 1191075, m);
    assert -2 <= m <= 2;
    assert m == -2 ==> (d == -200 && 293 <= e <= 295) || (d == -199 && -110 <= e <= -108);
    assert m == -1 ==> (d == -97 && 415 <= e <= 416) || (d == -96 && 12 <= e <= 13) || (d == -95 && -391 <= e <= -390);
    assert m == 0 ==> (d == 7 && 134 <= e <= 135) || (d == 8 && -269 <= e <= -268);
    assert m == 1 ==> (d == 110 && 256 <= e <= 257) || (d == 111 && -147 <= e <= -146);
    assert m == 2 ==> (d == 213 && 377 <= e <= 379) || (d == 214 && -26 <= e <= -24) || (d == 215 && -429 <= e <= -427);
  }

  lemma MetResidues3(d: int, e: int, f: int, m: int, s: int)
    requires LowDigits(d, e, f, 7727112, m)
    ensures HighDigits(d, e, 60, m, s) ==> d == 151 && e == -47 && f == -490
  {
    Narrow(d, e, f, 7727112, m);
    assert -2 <= m <= 2;
    assert m == -2 ==> (d == -160 && 392 <= e <= 393) || (d == -159 && -11 <= e <= -10) || (d == -158 && -414 <= e <= -413);
    assert m == -1 ==> (d == -56 && 110 <= e <= 112) || (d == -55 && -293 <= e <= -291);
    assert m == 0 ==> (d == 47 && 232 <= e <= 234) || (d == 48 && -171 <= e <= -169);
    assert m == 1 ==> (d == 150 && 354 <= e <= 356) || (d == 151 && -49 <= e <= -47) || (d == 152 && -452 <= e <= -450);
    assert m == 2 ==> (d == 253 && 476 <= e <= 477) || (d == 254 && 73 <= e <= 74) || (d == 255 && -330 <= e <= -329);
  }

  lemma MetResidues4(d: int, e: int, f: int, m: int, s: int)
    requires LowDigits(d, e, f, 14263149, m)
    ensures !HighDigits(d, e, 6, m, s)
  {
    Narrow(d, e, f, 14263149, m);
    assert -3 <= m <= 1;
    assert m == -3 ==> (d == -223 && 368 <= e <= 370) || (d == -222 && -35 <= e <= -33) || (d == -221 && -438 <= e <= -436);
    assert m == -2 ==> (d == -120 && 490 <= e <= 492) || (d == -119 && 87 <= e <= 89) || (d == -118 && -316 <= e <= -314);
    assert m == -1 ==> (d == -16 && 209 <= e <= 210) || (d == -15 && -194 <= e <= -193);
    assert m == 0 ==> (d == 87 && 331 <= e <= 332) || (d == 88 && -72 <= e <= -71) || (d == 89 && -475 <= e <= -474);
    assert m == 1 ==> (d == 190 && 452 <= e <= 454) || (d == 191 && 49 <= e <= 51) || (d == 192 && -354 <= e <= -352);
  }

  lemma MetResidues5(d: int, e: int, f: int, m: int, s: int)
    requires LowDigits(d, e, f, 4021970, m)
    ensures !HighDigits(d, e, 81, m, s)
  {
    Narrow(d, e, f, 4021970, m);
    assert -2 <= m <= 2;
    assert m == -2 ==> (d == -183 && 467 <= e <= 468) || (d == -182 && 64 <= e <= 65) || (d == -181 && -339 <= e <= -338);
    assert m == -1 ==> (d == -79 && 185 <= e <= 187) || (d == -78 && -218 <= e <= -216);
    assert m == 0 ==> (d == 24 && 307 <= e <= 309) || (d == 25 && -96 <= e <= -94) || (d == 26 && -499 <= e <= -497);
    assert m == 1 ==> (d == 127 && 429 <= e <= 431) || (d == 128 && 26 <= e <= 28) || (d == 129 && -377 <= e <= -375);
    assert m == 2 ==> (d == 231 && 148 <= e <= 149) || (d == 232 && -255 <= e <= -254);
  }

  lemma MetResidues6(d: int, e: int, f: int, m: int, s: int)
    requires LowDigits(d, e, f, 10558007, m)
    ensures !HighDigits(d, e, 27, m, s)
  {
    Narrow(d, e, f, 10558007, m);
    assert -3 <= m <= 1;
    assert m == -3 ==> (d == -246 && 443 <= e <= 445) || (d == -245 && 40 <= e <= 42) || (d == -244 && -363 <= e <= -361);
    assert m == -2 ==> (d == -142 && 162 <= e <= 164) || (d == -141 && -241 <= e <= -239);
    assert m == -1 ==> (d == -39 && 284 <= e <= 285) || (d == -38 && -119 <= e <= -118);
    assert m == 0 ==> (d == 64 && 406 <= e <= 407) || (d == 65 && 3 <= e <= 4) || (d == 66 && -400 <= e <= -399);
    assert m == 1 ==> (d == 168 && 125 <= e <= 126) || (d == 169 && -278 <= e <= -277);
  }

  lemma MetCombination(d: int, e: int, f: int, g: int, m: int, s: int)
    requires 0 <= g <= 6
    requires var c := (INVERSE_SQUARE - g * PRIME_INVERSE) % TAG_LIMIT;
             LowDigits(d, e, f, c % 0x100_0000, m) && HighDigits(d, e, c / 0x100_0000, m, s)
    ensures g == 3 && f == -490
  {
    hide LowDigits, HighDigits;
    if g <= 3 {
      if g == 0 {
        MetResidues0(d, e, f, m, s);
      } else if g == 1 {
        MetResidues1(d, e, f, m, s);
      } else if g == 2 {
        MetResidues2(d, e, f, m, s);
      } else {
        MetResidues3(d, e, f, m, s);
      }
    } else if g == 4 {
      MetResidues4(d, e, f, m, s);
    } else if g == 5 {
      MetResidues5(d, e, f, m, s);
    } else {
      MetResidues6(d, e, f, m, s);
    }
  }

  lemma SameTarget(g: int)
    requires 0 <= g <= 3
    ensures var c := (-g * PRIME_INVERSE) % TAG_LIMIT;
            && (g == 0 ==> c % 0x100_0000 == 0 && c / 0x100_0000 == 0)
            && (g == 1 ==> c % 0x100_0000 == 6536037 && c / 0x100_0000 == 74)
            && (g == 2 ==> c % 0x100_0000 == 13072074 && c / 0x100_0000 == 20)
            && (g == 3 ==> c % 0x100_0000 == 2830895 && c / 0x100_0000 == 95)
  {
    assert g == 0 || g == 1 || g == 2 || g == 3;
  }

  lemma SameCombination(d: int, e: int, f: int, g: int, m: int, s: int)
    requires 0 <= g <= 3
    requires var c := (-g * PRIME_INVERSE) % TAG_LIMIT;
             LowDigits(d, e, f, c % 0x100_0000, m) && HighDigits(d, e, c / 0x100_0000, m, s)
    ensures (g == 0 && d == 0 && e == 0 && f == 0) || (g == 1 && f == -469)
  {
    hide LowDigits, HighDigits;
    SameTarget(g);
    if g == 0 {
      SameResidues0(d, e, f, m, s);
    } else if g == 1 {
      SameResidues1(d, e, f, m, s);
    } else if g == 2 {
      SameResidues2(d, e, f, m, s);
    } else {
      SameResidues3(d, e, f, m, s);
    }
  }

  /** A combination that is c modulo 2^31, in digits. */
  lemma Digits(d: int, e: int, f: int, target: int, k: int) returns (m: int, s: int)
    requires -256 < d < 256 && -511 < e < 511 && -511 < f < 511
    requires (d * FNV_PRIME + e) * FNV_PRIME + f == target + k * TAG_LIMIT
    ensures var c := target % TAG_LIMIT;
            LowDigits(d, e, f, c % 0x100_0000, m) && HighDigits(d, e, c / 0x100_0000, m, s)
  {
    var c, q := target % TAG_LIMIT, target / TAG_LIMIT;
    s := k + q - 131072 * d - 6 * d;
    m := 128 * s - 38 * d - e + c / 0x100_0000;
  }

  /** The words of the four rounds, each before its multiplication. */
  datatype Rounds = Rounds(first: nat, second: nat, third: nat, last: nat)

  function Product(word: nat): U32 {
    word * FNV_PRIME % U32_LIMIT
  }

  function RoundsOf(h: U32, n: U32): Rounds {
    var first := Xor(h, n % 256);
    var second := Xor(Product(first), n / 256 % 256);
    var third := Xor(Product(second), n / 65536 % 256);
    Rounds(first, second, third, Xor(Product(third), n / 16777216 % 256))
  }

  lemma HashOfRounds(h: U32, n: U32)
    ensures ExtendPathHash(h, n) == Product(RoundsOf(h, n).last)
  {
    hide Xor;
  }

  /** The first three rounds stay in blocks of 256; the last, with a byte below
      4, in blocks of 4. */
  lemma RoundsInBlocks(h: U32, n: U32)
    requires n < 0x400_0000
    ensures var r := RoundsOf(h, n);
            && r.first / 256 == h / 256 && r.second / 256 == Product(r.first) / 256
            && r.third / 256 == Product(r.second) / 256 && r.last / 4 == Product(r.third) / 4
  {
    hide Xor, Product;
    var r := RoundsOf(h, n);
    XorByteKeepsBlock(h, n % 256);
    XorByteKeepsBlock(Product(r.first), n / 256 % 256);
    XorByteKeepsBlock(Product(r.second), n / 65536 % 256);
    XorKeepsQuarter(Product(r.third), n / 16777216 % 256);
  }

  lemma XorKeepsQuarter(a: nat, v: nat)
    requires v < 4
    ensures Xor(a, v) / 4 == a / 4
  {
    DropTwo(v, 0);
    DropTwo(a, 0);
    DropTwo(Xor(a, v), 0);
    assert v / 4 == 0;
    XorKeepsHighBits(a, v, 2);
  }

  lemma ProductDifference(a: nat, b: nat) returns (i: int)
    ensures Product(a) - Product(b) == (a - b) * FNV_PRIME + i * TAG_LIMIT
  {
    i := 2 * (b * FNV_PRIME / U32_LIMIT) - 2 * (a * FNV_PRIME / U32_LIMIT);
  }

  /** The combination that the rounds of two numbers make. */
  lemma RoundsCombine(h: U32, a: U32, b: U32) returns (d: int, e: int, f: int, k: int)
    requires a < 0x400_0000 && b < 0x400_0000
    ensures var x, y := RoundsOf(h, a), RoundsOf(h, b);
            && d == x.first - y.first
            && e == (x.second - y.second) - (Product(x.first) - Product(y.first))
            && f == (x.third - y.third) - (Product(x.second) - Product(y.second))
            && x.third - y.third == (d * FNV_PRIME + e) * FNV_PRIME + f + k * TAG_LIMIT
    ensures -256 < d < 256 && -511 < e < 511 && -511 < f < 511
  {
    var x, y := RoundsOf(h, a), RoundsOf(h, b);
    RoundsInBlocks(h, a);
    RoundsInBlocks(h, b);
    hide RoundsOf, Product;
    SameBlocks(h, h, x.first, y.first);
    SameBlocks(Product(x.first), Product(y.first), x.second, y.second);
    SameBlocks(Product(x.second), Product(y.second), x.third, y.third);
    var i := ProductDifference(x.first, y.first);
    var j := ProductDifference(x.second, y.second);
    d := x.first - y.first;
    e := (x.second - y.second) - (Product(x.first) - Product(y.first));
    f := (x.third - y.third) - (Product(x.second) - Product(y.second));
    k := i * FNV_PRIME + j;
  }

  /** The last words, from the residues r and q of the hashes, and the products
      before them, from those. */
  lemma UndoLast(x: Rounds, r: int) returns (i: int, j: int)
    requires Product(x.last) % TAG_LIMIT == r
    ensures x.last == r * PRIME_INVERSE + i * TAG_LIMIT
    ensures x.third == Product(x.third) * PRIME_INVERSE + j * TAG_LIMIT
  {
    i := UndoRound(x.last, Product(x.last), r);
    j := UndoRound(x.third, Product(x.third), Product(x.third));
  }

  lemma AddFours(y: int, m: int)
    ensures (y + 4 * m) % 4 == y % 4
  {
  }

  /** Multiples of 2^31 are multiples of four. */
  lemma FourDivides(y: int, k: int)
    ensures (y + k * TAG_LIMIT) % 4 == y % 4
  {
    var m := k * 0x2000_0000;
    AddFours(y, m);
    assert y + k * TAG_LIMIT == y + 4 * m;
  }

  lemma WithinFours(x: int, u: int)
    requires x / 4 == u / 4
    ensures x - u == x % 4 - u % 4
  {
  }

  /** How far the last words differ from the products before them. */
  lemma LastBlocks(x: int, y: int, u: int, v: int, t: int, i: int, j: int)
    requires x / 4 == u / 4 && y / 4 == v / 4
    requires (t == 0 && x - y == (i - j) * TAG_LIMIT)
             || (t == 1 && x == PRIME_INVERSE + i * TAG_LIMIT && y == j * TAG_LIMIT)
    ensures var g := (x - y) - (u - v);
            (t == 0 && -3 <= g <= 3) || (t == 1 && 0 <= g <= 6)
  {
    WithinFours(x, u);
    WithinFours(y, v);
    if t == 0 {
      FourDivides(y, i - j);
    } else {
      FourDivides(PRIME_INVERSE, i);
      FourDivides(0, j);
    }
  }

  /** A difference of 469 or more, behind two words and two others in the same
      blocks of 256, needs low bytes near the ends. */
  lemma LowBytes(x: nat, y: nat, u: nat, v: nat)
    requires x / 256 == u / 256 && y / 256 == v / 256
    ensures (x - y) - (u - v) == -469 ==> x % 256 - y % 256 <= -214
    ensures (x - y) - (u - v) == -490 ==> y % 256 >= 235
  {
    assert x - u == x % 256 - u % 256 && y - v == y % 256 - v % 256;
  }

  lemma LowByteDifference(x: nat, y: nat, n: int)
    requires x - y == -PRIME_INVERSE + n * TAG_LIMIT
    ensures x % 256 - y % 256 in {101, -155}
  {
    var q := x / 256 - y / 256;
    assert x % 256 - y % 256 == -155 + 256 * (8388608 * n - 0x359c44 - q);
  }

  /** Numbers whose third words differ by a small multiple of the inverse have
      equal words in every round. */
  lemma NoneSame(h: U32, a: U32, b: U32, g: int, n: int)
    requires a < 0x400_0000 && b < 0x400_0000 && 0 <= g <= 3
    requires RoundsOf(h, a).third - RoundsOf(h, b).third == -g * PRIME_INVERSE + n * TAG_LIMIT
    ensures var x, y := RoundsOf(h, a), RoundsOf(h, b);
            g == 0 && x.first == y.first && x.second == y.second && x.third == y.third
  {
    var x, y := RoundsOf(h, a), RoundsOf(h, b);
    var d, e, f, k := RoundsCombine(h, a, b);
    RoundsInBlocks(h, a);
    RoundsInBlocks(h, b);
    hide RoundsOf, Product;
    var m, s := Digits(d, e, f, -g * PRIME_INVERSE, n - k);
    SameCombination(d, e, f, g, m, s);
    if g == 1 {
      LowBytes(x.third, y.third, Product(x.second), Product(y.second));
      LowByteDifference(x.third, y.third, n);
    }
  }

  /** Third words that differ by the inverse square and such a multiple are of
      numbers the second of which has a large low byte there. */
  lemma NoneMet(h: U32, a: U32, b: U32, g: int, n: int)
    requires a < 0x400_0000 && b < 0x400_0000 && 0 <= g <= 6
    requires RoundsOf(h, a).third - RoundsOf(h, b).third == INVERSE_SQUARE - g * PRIME_INVERSE + n * TAG_LIMIT
    ensures RoundsOf(h, b).third % 256 >= 235
  {
    var x, y := RoundsOf(h, a), RoundsOf(h, b);
    var d, e, f, k := RoundsCombine(h, a, b);
    RoundsInBlocks(h, a);
    RoundsInBlocks(h, b);
    hide RoundsOf, Product;
    var m, s := Digits(d, e, f, INVERSE_SQUARE - g * PRIME_INVERSE, n - k);
    MetCombination(d, e, f, g, m, s);
    LowBytes(x.third, y.third, Product(x.second), Product(y.second));
  }

  /** But a number whose hash is 0 modulo 2^31 has a small one. */
  lemma ZeroHashLowByte(y: Rounds, j: int, k: int)
    requires y.last == j * TAG_LIMIT && y.last / 4 == Product(y.third) / 4
    requires y.third == Product(y.third) * PRIME_INVERSE + k * TAG_LIMIT
    ensures y.third % 256 < 235
  {
    hide Product;
    var low := Product(y.third) - y.last;
    assert 0 <= low < 4;
    assert y.third == low * 155 + 256 * (low * 0x359c44 + (j * PRIME_INVERSE + k) * 8388608);
  }

  lemma ThirdDifference(x: Rounds, y: Rounds, t: int, g: int, l: int, i: int, j: int) returns (n: int)
    requires x.third == Product(x.third) * PRIME_INVERSE + i * TAG_LIMIT
    requires y.third == Product(y.third) * PRIME_INVERSE + j * TAG_LIMIT
    requires x.last - y.last == t * PRIME_INVERSE + l * TAG_LIMIT
    requires g == (x.last - y.last) - (Product(x.third) - Product(y.third))
    ensures x.third - y.third == t * INVERSE_SQUARE - g * PRIME_INVERSE + n * TAG_LIMIT
  {
    hide Product;
    n := l * PRIME_INVERSE + i - j + t * ((PRIME_INVERSE * PRIME_INVERSE - INVERSE_SQUARE) / TAG_LIMIT);
  }

  lemma FourBytes(n: nat)
    requires n < U32_LIMIT
    ensures n == n % 256 + 256 * (n / 256 % 256) + 65536 * (n / 65536 % 256) + 16777216 * (n / 16777216 % 256)
  {
    assert n / 65536 == n / 256 / 256 && n / 16777216 == n / 65536 / 256;
  }

  lemma RoundsTellBytes(h: U32, a: U32, b: U32)
    requires RoundsOf(h, a) == RoundsOf(h, b)
    ensures a == b
  {
    var r := RoundsOf(h, a);
    XorInjective(h, a % 256, b % 256);
    XorInjective(Product(r.first), a / 256 % 256, b / 256 % 256);
    XorInjective(Product(r.second), a / 65536 % 256, b / 65536 % 256);
    XorInjective(Product(r.third), a / 16777216 % 256, b / 16777216 % 256);
    hide Product, RoundsOf, Xor;
    FourBytes(a);
    FourBytes(b);
  }

  /** Two different numbers below 2^26 have hashes that, cut to 31 bits, are
      neither equal nor 1 and 0. */
  lemma SiblingResidues(h: U32, a: U32, b: U32, r: int, q: int)
    requires a < 0x400_0000 && b < 0x400_0000
    requires ExtendPathHash(h, a) % TAG_LIMIT == r && ExtendPathHash(h, b) % TAG_LIMIT == q
    requires r == q || (r == 1 && q == 0)
    ensures a == b
  {
    var x, y := RoundsOf(h, a), RoundsOf(h, b);
    HashOfRounds(h, a);
    HashOfRounds(h, b);
    RoundsInBlocks(h, a);
    RoundsInBlocks(h, b);
    hide ExtendPathHash, RoundsOf, Product;
    var i, i3 := UndoLast(x, r);
    var j, j3 := UndoLast(y, q);
    var t, g := r - q, (x.last - y.last) - (Product(x.third) - Product(y.third));
    LastBlocks(x.last, y.last, Product(x.third), Product(y.third), t, i, j);
    var n := ThirdDifference(x, y, t, g, i - j, i3, j3);
    if t == 1 {
      NoneMet(h, a, b, g, n);
      ZeroHashLowByte(y, j, j3);
    } else if g >= 0 {
      NoneSame(h, a, b, g, n);
      RoundsTellBytes(h, a, b);
    } else {
      NoneSame(h, b, a, -g, -n);
    }
  }

  /** Two different numbers below the bound never share a tag, nor a hash cut to
      31 bits, under any parent. */
  ghost predicate Separated(bound: nat) {
    forall h: U32, a: U32, b: U32 :: a < bound && b < bound && a != b ==>
      FieldTag(h, a) != FieldTag(h, b) && ExtendPathHash(h, a) % TAG_LIMIT != ExtendPathHash(h, b) % TAG_LIMIT
  }

  lemma SiblingsDiffer(h: U32, a: U32, b: U32)
    requires a < 0x400_0000 && b < 0x400_0000 && a != b
    ensures FieldTag(h, a) != FieldTag(h, b) && ExtendPathHash(h, a) % TAG_LIMIT != ExtendPathHash(h, b) % TAG_LIMIT
  {
    var r, q := ExtendPathHash(h, a) % TAG_LIMIT, ExtendPathHash(h, b) % TAG_LIMIT;
    if r == q || (r == 1 && q == 0) {
      SiblingResidues(h, a, b, r, q);
    } else if q == 1 && r == 0 {
      SiblingResidues(h, b, a, q, r);
    }
  }

  // ----- numbers that meet -----

  /** A round on a hash with these upper and lower bits. */
  lemma Round(h: U32, v: Byte, q: nat, r: Byte, mixed: nat, hash: U32)
    requires h == 256 * q + r && mixed == 256 * q + Xor(r, v) && hash == mixed * FNV_PRIME % U32_LIMIT
    ensures Fnv(h, v) == hash
  {
    XorByte(q, r, v);
  }

  lemma Bytes(n: nat, b0: Byte, b1: Byte, b2: Byte, b3: Byte)
    requires n == b0 + 256 * b1 + 65536 * b2 + 16777216 * b3
    ensures n % 256 == b0 && n / 256 % 256 == b1 && n / 65536 % 256 == b2 && n / 16777216 % 256 == b3
  {
  }

  lemma HashOfBytes(h: U32, n: U32, b0: Byte, b1: Byte, b2: Byte, b3: Byte)
    requires n == b0 + 256 * b1 + 65536 * b2 + 16777216 * b3
    ensures ExtendPathHash(h, n) == Fnv(Fnv(Fnv(Fnv(h, b0), b1), b2), b3)
  {
    hide Fnv, Xor;
    Bytes(n, b0, b1, b2, b3);
  }

  lemma XorBits(a7: Bit, a6: Bit, a5: Bit, a4: Bit, a3: Bit, a2: Bit, a1: Bit, a0: Bit,
                b7: Bit, b6: Bit, b5: Bit, b4: Bit, b3: Bit, b2: Bit, b1: Bit, b0: Bit)
    ensures Xor(128 * a7 + 64 * a6 + 32 * a5 + 16 * a4 + 8 * a3 + 4 * a2 + 2 * a1 + a0,
                128 * b7 + 64 * b6 + 32 * b5 + 16 * b4 + 8 * b3 + 4 * b2 + 2 * b1 + b0)
            == 128 * ((a7 + b7) % 2) + 64 * ((a6 + b6) % 2) + 32 * ((a5 + b5) % 2) + 16 * ((a4 + b4) % 2)
               + 8 * ((a3 + b3) % 2) + 4 * ((a2 + b2) % 2) + 2 * ((a1 + b1) % 2) + (a0 + b0) % 2
  {
    hide Xor;
    XorZero(0);
    XorNibble(0, 0, a7, a6, a5, a4, b7, b6, b5, b4);
    XorNibble(8 * a7 + 4 * a6 + 2 * a5 + a4, 8 * b7 + 4 * b6 + 2 * b5 + b4, a3, a2, a1, a0, b3, b2, b1, b0);
  }

  lemma FirstXors()
    ensures Xor(0xc5, 0x19) == 0xdc && Xor(0xc0, 0x1c) == 0xdc && Xor(0x54, 0xf7) == 0xa3
  {
    hide Xor;
    XorBits(1, 1, 0, 0, 0, 1, 0, 1, 0, 0, 0, 1, 1, 0, 0, 1);
    XorBits(1, 1, 0, 0, 0, 0, 0, 0, 0, 0, 0, 1, 1, 1, 0, 0);
    XorBits(0, 1, 0, 1, 0, 1, 0, 0, 1, 1, 1, 1, 0, 1, 1, 1);
  }

  lemma NextXors()
    ensures Xor(0x99, 0x64) == 0xfd && Xor(0x47, 0x03) == 0x44
  {
    hide Xor;
    XorBits(1, 0, 0, 1, 1, 0, 0, 1, 0, 1, 1, 0, 0, 1, 0, 0);
    XorBits(0, 1, 0, 0, 0, 1, 1, 1, 0, 0, 0, 0, 0, 0, 1, 1);
  }

  lemma OtherXors()
    ensures Xor(0xc5, 0x05) == 0xc0 && Xor(0x40, 0x04) == 0x44
  {
    hide Xor;
    XorBits(1, 1, 0, 0, 0, 1, 0, 1, 0, 0, 0, 0, 0, 1, 0, 1);
    XorBits(0, 1, 0, 0, 0, 0, 0, 0, 0, 0, 0, 0, 0, 1, 0, 0);
  }

  /** The hashes under the root, and under another parent. */
  const OTHER_PARENT: U32 := 0x811c9dc0

  lemma FirstNumber()
    ensures ExtendPathHash(ROOT_PATH_HASH, 0x364f719) == 0xbeb8c00c == ExtendPathHash(OTHER_PARENT, 0x364f71c)
  {
    FirstXors();
    NextXors();
    hide Xor, Fnv, ExtendPathHash;
    Round(ROOT_PATH_HASH, 0x19, 0x811c9d, 0xc5, 0x811c9ddc, 0x1c0c8154);
    Round(OTHER_PARENT, 0x1c, 0x811c9d, 0xc0, 0x811c9ddc, 0x1c0c8154);
    Round(0x1c0c8154, 0xf7, 0x1c0c81, 0x54, 0x1c0c81a3, 0xcab01399);
    Round(0xcab01399, 0x64, 0xcab013, 0x99, 0xcab013fd, 0x102f7747);
    Round(0x102f7747, 0x03, 0x102f77, 0x47, 0x102f7744, 0xbeb8c00c);
    HashOfBytes(ROOT_PATH_HASH, 0x364f719, 0x19, 0xf7, 0x64, 0x03);
    HashOfBytes(OTHER_PARENT, 0x364f71c, 0x1c, 0xf7, 0x64, 0x03);
  }

  lemma SecondNumber()
    ensures ExtendPathHash(ROOT_PATH_HASH, 0x4000005) == 0xbeb8c00c == ExtendPathHash(OTHER_PARENT, 0x4000000)
  {
    OtherXors();
    hide Xor, Fnv, ExtendPathHash;
    XorZero(0x40);
    XorZero(0xc0);
    Round(ROOT_PATH_HASH, 0x05, 0x811c9d, 0xc5, 0x811c9dc0, 0x000c5540);
    Round(OTHER_PARENT, 0x00, 0x811c9d, 0xc0, 0x811c9dc0, 0x000c5540);
    Round(0x000c5540, 0x00, 0x000c55, 0x40, 0x000c5540, 0x536a33c0);
    Round(0x536a33c0, 0x00, 0x536a33, 0xc0, 0x536a33c0, 0x102f7740);
    Round(0x102f7740, 0x04, 0x102f77, 0x40, 0x102f7744, 0xbeb8c00c);
    HashOfBytes(ROOT_PATH_HASH, 0x4000005, 0x05, 0x00, 0x00, 0x04);
    HashOfBytes(OTHER_PARENT, 0x4000000, 0x00, 0x00, 0x00, 0x04);
  }

  /** Larger fields meet already at the top of a message: two of them have one
      hash and so one tag. */
  lemma LargeSiblingsCollide()
    ensures ExtendPathHash(ROOT_PATH_HASH, 56948505) == ExtendPathHash(ROOT_PATH_HASH, 67108869)
    ensures FieldTag(ROOT_PATH_HASH, 56948505) == FieldTag(ROOT_PATH_HASH, 67108869)
  {
    FirstNumber();
    SecondNumber();
  }

  /** Main result. Sibling fields are told apart under every parent exactly if
      their numbers are below 2^26. */
  lemma SeparatedExactly(bound: nat)
    ensures Separated(bound) <==> bound <= 0x400_0000
  {
    hide FieldTag, ExtendPathHash;
    if bound <= 0x400_0000 {
      forall h: U32, a: U32, b: U32 | a < bound && b < bound && a != b
        ensures FieldTag(h, a) != FieldTag(h, b) && ExtendPathHash(h, a) % TAG_LIMIT != ExtendPathHash(h, b) % TAG_LIMIT
      {
        SiblingsDiffer(h, a, b);
      }
    } else {
      FirstNumber();
      SecondNumber();
      assert ExtendPathHash(OTHER_PARENT, 0x364f71c) == ExtendPathHash(OTHER_PARENT, 0x4000000);
    }
  }
}
