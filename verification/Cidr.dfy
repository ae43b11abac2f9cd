/**
 * CIDR membership with JavaScript's signed 32-bit operators, against the meaning of a prefix in
 * section 3.1 of RFC 4632.
 */
module Cidr {
  import opened Text

  function Pow2(n: nat): (r: nat)
    ensures r > 0
  {
    if n == 0 then 1 else 2 * Pow2(n - 1)
  }

  const WORD: nat := 0x1_0000_0000

  // ------------------------------------------------------- JavaScript's 32-bit operators

  function ToUint32(x: int): (r: nat)
    ensures r < WORD
  {
    x % WORD
  }

  function ToInt32(x: int): int {
    var u := ToUint32(x);
    if u < 0x8000_0000 then u else u - WORD
  }

  /** Bitwise and, or over the low n bits. */
  function AndBits(n: nat, x: nat, y: nat): nat {
    if n == 0 then 0 else (if x % 2 == 1 && y % 2 == 1 then 1 else 0) + 2 * AndBits(n - 1, x / 2, y / 2)
  }

  function OrBits(n: nat, x: nat, y: nat): nat {
    if n == 0 then 0 else (if x % 2 == 1 || y % 2 == 1 then 1 else 0) + 2 * OrBits(n - 1, x / 2, y / 2)
  }

  function And(x: int, y: int): int { ToInt32(AndBits(32, ToUint32(x), ToUint32(y))) }

  function Or(x: int, y: int): int { ToInt32(OrBits(32, ToUint32(x), ToUint32(y))) }

  function Not(x: int): int { ToInt32(-ToInt32(x) - 1) }

  function ShiftLeft(x: int, n: nat): int { ToInt32(x * Pow2(n)) }

  // ------------------------------------------------------------------- isIPInCIDR

  /** Number(text), if that is an integer from 0 to 255. */
  type OctetReader = string -> Option<Octet>

  type Octet = n: nat | n <= 255

  /** What is used of Number: it gives a run of digits its value, nothing the value zero. */
  ghost predicate ReadsDigits(number: OctetReader) {
    forall s :: AllDigits(s) ==> number(s) == if DigitsValue(s) <= 255 then Some(DigitsValue(s)) else None
  }

  function DigitsOnly(s: string): Option<Octet> {
    if AllDigits(s) && DigitsValue(s) <= 255 then Some(DigitsValue(s)) else None
  }

  /** The first four dot-separated parts, if all are octets. */
  function Octets(number: OctetReader, s: string): (r: Option<seq<nat>>)
    ensures r.Some? ==> |r.value| == 4 && forall i :: 0 <= i < 4 ==> r.value[i] <= 255
  {
    var parts := Split(s, '.');
    if |parts| < 4 then None
    else
      var a, b, c, d := number(parts[0]), number(parts[1]), number(parts[2]), number(parts[3]);
      if a.None? || b.None? || c.None? || d.None? then None
      else Some([a.value, b.value, c.value, d.value])
  }

  function Pack(o: seq<nat>): int
    requires |o| == 4
  {
    Or(Or(Or(ShiftLeft(o[0], 24), ShiftLeft(o[1], 16)), ShiftLeft(o[2], 8)), o[3])
  }

  function Mask(prefixLength: nat): int
    requires prefixLength <= 32
  {
    if prefixLength == 0 then 0 else Not(Pow2(32 - prefixLength) - 1)
  }

  function IsIPInCIDR(number: OctetReader, ip: string, cidr: string): bool {
    var parts := Split(cidr, '/');
    if |parts| < 2 || parts[1] == "" then false
    else match ParseInt(parts[1])
      case None => false
      case Some(p) =>
        if p < 0 || p > 32 then false
        else
          var a, r := Octets(number, ip), Octets(number, parts[0]);
          a.Some? && r.Some?
          && And(Pack(a.value), Mask(p)) == And(Pack(r.value), Mask(p))
  }

  // ------------------------------------------------------------------ the bit lemmas

  lemma {:induction false} HalfModulus(x: nat, k: nat)
    requires k > 0
    ensures x % Pow2(k) == x % 2 + 2 * ((x / 2) % Pow2(k - 1))
  {
    var m := Pow2(k - 1);
    var q, r := (x / 2) / m, (x / 2) % m;
    assert x / 2 == q * m + r;
    assert x == q * (2 * m) + (2 * r + x % 2) by { assert q * (2 * m) == 2 * (q * m); }
    ModUnique(x, 2 * m, q, 2 * r + x % 2);
  }

  lemma ModUnique(x: nat, m: nat, q: nat, r: nat)
    requires m > 0 && x == q * m + r && r < m
    ensures x % m == r && x / m == q
  {
    var q', r' := x / m, x % m;
    assert x == q' * m + r';
    assert (q - q') * m == q * m - q' * m;
    NoSmallMultiple(q - q', m);
  }

  lemma NoSmallMultiple(d: int, m: int)
    requires m > 0 && 0 - m < d * m < m
    ensures d == 0
  {
    assert d >= 1 ==> d * m >= 1 * m;
    assert d <= -1 ==> d * m <= -1 * m;
  }

  lemma MulMonotone(a: nat, b: nat, m: nat)
    requires a <= b
    ensures a * m <= b * m
  {
  }

  lemma {:induction false} PowMonotone(k: nat, n: nat)
    requires k <= n
    ensures Pow2(k) <= Pow2(n)
  {
    if k < n {
      PowMonotone(k, n - 1);
    }
  }

  lemma AndEven(n: nat, x: nat, half: nat)
    requires n > 0
    ensures AndBits(n, x, 2 * half) == 2 * AndBits(n - 1, x / 2, half)
  {
    assert 2 * half / 2 == half;
  }

  lemma AndOdd(n: nat, x: nat, half: nat)
    requires n > 0
    ensures AndBits(n, x, 2 * half + 1) == x % 2 + 2 * AndBits(n - 1, x / 2, half)
  {
    assert (2 * half + 1) / 2 == half;
  }

  lemma {:induction false} AndKeepsAll(n: nat, x: nat)
    requires x < Pow2(n)
    ensures AndBits(n, x, Pow2(n) - 1) == x
    decreases n
  {
    if n > 0 {
      AndKeepsAll(n - 1, x / 2);
      AndOdd(n, x, Pow2(n - 1) - 1);
    }
  }

  /** The low k bits. */
  function Low(k: nat, x: nat): nat {
    if k == 0 then 0 else x % 2 + 2 * Low(k - 1, x / 2)
  }

  lemma {:induction false} LowIsRemainder(k: nat, x: nat)
    ensures Low(k, x) == x % Pow2(k)
    decreases k
  {
    if k > 0 {
      LowIsRemainder(k - 1, x / 2);
      HalfModulus(x, k);
    }
  }

  lemma {:induction false} AndDropsLow(n: nat, x: nat, k: nat)
    requires k <= n && x < Pow2(n)
    ensures Pow2(k) <= Pow2(n)
    ensures AndBits(n, x, Pow2(n) - Pow2(k)) == x - Low(k, x)
    decreases n
  {
    PowMonotone(k, n);
    if k == 0 {
      AndKeepsAll(n, x);
    } else {
      PowMonotone(k - 1, n - 1);
      AndDropsLow(n - 1, x / 2, k - 1);
      AndEven(n, x, Pow2(n - 1) - Pow2(k - 1));
    }
  }

  /** Masking with all but the low k bits drops the remainder by 2^k. */
  lemma AndDropsRemainder(n: nat, x: nat, k: nat)
    requires k <= n && x < Pow2(n)
    ensures Pow2(k) <= Pow2(n)
    ensures AndBits(n, x, Pow2(n) - Pow2(k)) == x - x % Pow2(k)
  {
    AndDropsLow(n, x, k);
    LowIsRemainder(k, x);
  }

  /** Or of a multiple of 2^k and a number below 2^k is their sum. */
  lemma {:induction false} OrAdds(n: nat, h: nat, k: nat, y: nat)
    requires k <= n && y < Pow2(k) && h * Pow2(k) + y < Pow2(n)
    ensures OrBits(n, h * Pow2(k), y) == h * Pow2(k) + y
    decreases n
  {
    if k == 0 {
      OrZero(n, h);
    } else {
      var x := h * Pow2(k);
      assert x == 2 * (h * Pow2(k - 1));
      assert x / 2 == h * Pow2(k - 1);
      OrAdds(n - 1, h, k - 1, y / 2);
    }
  }

  lemma {:induction false} OrZero(n: nat, x: nat)
    requires x < Pow2(n)
    ensures OrBits(n, x, 0) == x
    decreases n
  {
    if n > 0 {
      OrZero(n - 1, x / 2);
    }
  }

  lemma SignedIsInjective(x: nat, y: nat)
    requires x < WORD && y < WORD
    ensures ToInt32(x) == ToInt32(y) <==> x == y
  {
  }

  /** The address as an unsigned 32-bit number, first octet highest. */
  function Address(o: seq<nat>): (n: nat)
    requires |o| == 4 && forall i :: 0 <= i < 4 ==> o[i] <= 255
    ensures n < WORD
  {
    o[0] * 0x100_0000 + o[1] * 0x1_0000 + o[2] * 0x100 + o[3]
  }

  lemma Powers()
    ensures Pow2(8) == 0x100 && Pow2(16) == 0x1_0000 && Pow2(24) == 0x100_0000 && Pow2(32) == WORD
  {
    assert Pow2(8) == 0x100;
    assert Pow2(12) == 0x1000;
    assert Pow2(16) == 0x1_0000;
    assert Pow2(20) == 0x10_0000;
    assert Pow2(24) == 0x100_0000;
    assert Pow2(28) == 0x1000_0000;
  }

  lemma Resigned(n: nat)
    requires n < WORD
    ensures ToUint32(ToInt32(n)) == n
  {
  }

  lemma Word()
    ensures Pow2(32) == WORD
  {
    Powers();
  }

  /** Or-ing a signed multiple of 2^k and a signed number below 2^k adds them, modulo the word. */
  lemma OrStep(x: int, h: nat, k: nat, z: int, y: nat)
    requires k <= 32 && y < Pow2(k) && h * Pow2(k) + y < WORD
    requires ToUint32(x) == h * Pow2(k) && ToUint32(z) == y
    ensures ToUint32(Or(x, z)) == h * Pow2(k) + y
  {
    Word();
    OrAdds(32, h, k, y);
    Resigned(h * Pow2(k) + y);
  }

  lemma ShiftStep(o: nat, k: nat)
    requires o * Pow2(k) < WORD
    ensures ToUint32(ShiftLeft(o, k)) == o * Pow2(k)
  {
    Resigned(o * Pow2(k));
  }

  lemma PackBytes(a: nat, b: nat, c: nat, d: nat)
    requires a <= 255 && b <= 255 && c <= 255 && d <= 255
    ensures ToUint32(Or(Or(Or(ShiftLeft(a, 24), ShiftLeft(b, 16)), ShiftLeft(c, 8)), d))
            == a * 0x100_0000 + b * 0x1_0000 + c * 0x100 + d
  {
    Powers();
    ShiftStep(a, 24);
    ShiftStep(b, 16);
    ShiftStep(c, 8);
    OrStep(ShiftLeft(a, 24), a, 24, ShiftLeft(b, 16), b * 0x1_0000);
    var ab := Or(ShiftLeft(a, 24), ShiftLeft(b, 16));
    OrStep(ab, a * 0x100 + b, 16, ShiftLeft(c, 8), c * 0x100);
    OrStep(Or(ab, ShiftLeft(c, 8)), a * 0x1_0000 + b * 0x100 + c, 8, d, d);
  }

  /** Shifting and or-ing the octets gives the address, as a signed number. */
  lemma PackIsAddress(o: seq<nat>)
    requires |o| == 4 && forall i :: 0 <= i < 4 ==> o[i] <= 255
    ensures ToUint32(Pack(o)) == Address(o)
  {
    PackBytes(o[0], o[1], o[2], o[3]);
  }

  lemma NotLow(m: nat)
    requires 1 <= m <= 0x8000_0000
    ensures ToUint32(Not(m - 1)) == WORD - m
  {
  }

  lemma MaskBits(p: nat)
    requires p <= 32
    ensures Pow2(32 - p) <= WORD && ToUint32(Mask(p)) == if p == 0 then 0 else WORD - Pow2(32 - p)
  {
    Word();
    PowMonotone(32 - p, 32);
    if p > 0 {
      PowMonotone(32 - p, 31);
      NotLow(Pow2(32 - p));
    }
  }

  lemma MaskedAddress(x: nat, p: nat)
    requires p <= 32 && x < WORD
    ensures AndBits(32, x, ToUint32(Mask(p))) == x - x % Pow2(32 - p)
  {
    Word();
    MaskBits(p);
    AndDropsRemainder(32, x, 32 - p);
  }

  lemma SameQuotient(x: nat, y: nat, m: nat)
    requires m > 0
    ensures x - x % m == y - y % m <==> x / m == y / m
  {
    var q, r := x / m, y / m;
    assert x - x % m == q * m && y - y % m == r * m;
    assert (q - r) * m == q * m - r * m;
    if x - x % m == y - y % m {
      NoSmallMultiple(q - r, m);
    }
  }

  // ---------------------------------------------------------------------- membership

  function Quad(o: seq<nat>): string
    requires |o| == 4
  {
    Decimal(o[0]) + ['.'] + (Decimal(o[1]) + ['.'] + (Decimal(o[2]) + ['.'] + Decimal(o[3])))
  }

  lemma DecimalParts(n: nat)
    ensures '.' !in Decimal(n) && '/' !in Decimal(n) && DigitsValue(Decimal(n)) == n
    ensures ParseInt(Decimal(n)) == Some(n)
  {
    DigitsValueOfDecimal(n);
    ParseIntOfIntText(n);
  }

  lemma SplitFour(a: string, b: string, c: string, d: string, sep: char)
    requires sep !in a && sep !in b && sep !in c && sep !in d
    ensures Split(a + [sep] + (b + [sep] + (c + [sep] + d)), sep) == [a, b, c, d]
  {
    SplitOfWhole(d, sep);
    SplitOfHead(c, d, sep);
    SplitOfHead(b, c + [sep] + d, sep);
    SplitOfHead(a, b + [sep] + (c + [sep] + d), sep);
    assert [a] + ([b] + ([c] + [d])) == [a, b, c, d];
  }

  lemma OctetsOfParts(number: OctetReader, s: string, a: nat, b: nat, c: nat, d: nat)
    requires ReadsDigits(number) && a <= 255 && b <= 255 && c <= 255 && d <= 255
    requires Split(s, '.') == [Decimal(a), Decimal(b), Decimal(c), Decimal(d)]
    ensures Octets(number, s) == Some([a, b, c, d])
  {
    DecimalParts(a);
    DecimalParts(b);
    DecimalParts(c);
    DecimalParts(d);
  }

  lemma OctetsOfQuad(number: OctetReader, o: seq<nat>)
    requires ReadsDigits(number) && |o| == 4 && forall i :: 0 <= i < 4 ==> o[i] <= 255
    ensures Octets(number, Quad(o)) == Some(o) && '/' !in Quad(o)
  {
    QuadIsJoin(o);
    QuadHasNoSlash(o);
    OctetsOfParts(number, Quad(o), o[0], o[1], o[2], o[3]);
    assert o == [o[0], o[1], o[2], o[3]];
  }

  lemma QuadHasNoSlash(o: seq<nat>)
    requires |o| == 4
    ensures '/' !in Quad(o)
  {
    DecimalParts(o[0]);
    DecimalParts(o[1]);
    DecimalParts(o[2]);
    DecimalParts(o[3]);
    var tail := Decimal(o[2]) + ['.'] + Decimal(o[3]);
    assert '/' !in tail;
    assert '/' !in Decimal(o[1]) + ['.'] + tail;
  }

  lemma QuadIsJoin(o: seq<nat>)
    requires |o| == 4
    ensures Quad(o) == Join([Decimal(o[0]), Decimal(o[1]), Decimal(o[2]), Decimal(o[3])], '.')
    ensures Split(Quad(o), '.') == [Decimal(o[0]), Decimal(o[1]), Decimal(o[2]), Decimal(o[3])]
  {
    DecimalParts(o[0]);
    DecimalParts(o[1]);
    DecimalParts(o[2]);
    DecimalParts(o[3]);
    var a, b, c, d := Decimal(o[0]), Decimal(o[1]), Decimal(o[2]), Decimal(o[3]);
    SplitFour(a, b, c, d, '.');
    JoinFour(a, b, c, d, '.');
  }

  lemma JoinFour(a: string, b: string, c: string, d: string, sep: char)
    ensures Join([a, b, c, d], sep) == a + [sep] + (b + [sep] + (c + [sep] + d))
  {
    assert [c, d][1..] == [d] && Join([c, d], sep) == c + [sep] + d;
    assert [b, c, d][1..] == [c, d] && Join([b, c, d], sep) == b + [sep] + Join([c, d], sep);
    assert [a, b, c, d][1..] == [b, c, d];
  }

  /** For valid dotted quads and any prefix length, membership holds exactly when the prefix is at
      most 32 and both addresses have the same quotient by 2^(32 - prefix). */
  lemma MembershipIsPrefixEquality(number: OctetReader, ip: seq<nat>, range: seq<nat>, prefix: nat)
    requires ReadsDigits(number)
    requires |ip| == 4 && forall i :: 0 <= i < 4 ==> ip[i] <= 255
    requires |range| == 4 && forall i :: 0 <= i < 4 ==> range[i] <= 255
    ensures IsIPInCIDR(number, Quad(ip), Quad(range) + ['/'] + Decimal(prefix))
            <==> prefix <= 32 && Address(ip) / Pow2(32 - prefix) == Address(range) / Pow2(32 - prefix)
  {
    var cidr := Quad(range) + ['/'] + Decimal(prefix);
    OctetsOfQuad(number, ip);
    OctetsOfQuad(number, range);
    DecimalParts(prefix);
    SplitOfHead(Quad(range), Decimal(prefix), '/');
    SplitOfWhole(Decimal(prefix), '/');
    assert Split(cidr, '/') == [Quad(range), Decimal(prefix)];
    if prefix <= 32 {
      MaskedEquality(ip, range, prefix);
    }
  }

  lemma MaskedEquality(ip: seq<nat>, range: seq<nat>, prefix: nat)
    requires |ip| == 4 && forall i :: 0 <= i < 4 ==> ip[i] <= 255
    requires |range| == 4 && forall i :: 0 <= i < 4 ==> range[i] <= 255
    requires prefix <= 32
    ensures And(Pack(ip), Mask(prefix)) == And(Pack(range), Mask(prefix))
            <==> Address(ip) / Pow2(32 - prefix) == Address(range) / Pow2(32 - prefix)
  {
    var x, y, m := Address(ip), Address(range), Pow2(32 - prefix);
    PackIsAddress(ip);
    PackIsAddress(range);
    MaskedAddress(x, prefix);
    MaskedAddress(y, prefix);
    SignedIsInjective(x - x % m, y - y % m);
    SameQuotient(x, y, m);
  }

  lemma {:induction false} PowSplit(a: nat, b: nat)
    ensures Pow2(a + b) == Pow2(a) * Pow2(b)
  {
    if a > 0 {
      PowSplit(a - 1, b);
      assert Pow2(a - 1 + b) == Pow2(a - 1) * Pow2(b);
    }
  }

  lemma DivideTwice(x: nat, a: nat, b: nat)
    requires a > 0 && b > 0
    ensures a * b > 0 && (x / a) / b == x / (a * b)
  {
    var q, r := x / a, x % a;
    var q', r' := q / b, q % b;
    assert x == (q' * b + r') * a + r;
    assert (q' * b + r') * a == q' * (a * b) + r' * a;
    assert r' * a <= (b - 1) * a == a * b - a by { MulMonotone(r', b - 1, a); }
    ModUnique(x, a * b, q', r' * a + r);
  }

  lemma EqualQuotientsDivide(x: nat, y: nat, longer: nat, shorter: nat)
    requires shorter <= longer <= 32 && x / Pow2(32 - longer) == y / Pow2(32 - longer)
    ensures x / Pow2(32 - shorter) == y / Pow2(32 - shorter)
  {
    var a, b := Pow2(32 - longer), Pow2(longer - shorter);
    PowSplit(32 - longer, longer - shorter);
    assert 32 - longer + (longer - shorter) == 32 - shorter;
    DivideTwice(x, a, b);
    DivideTwice(y, a, b);
  }

  /** Belonging to a longer prefix of a range implies belonging to every shorter one. */
  lemma LongerPrefixIsNarrower(number: OctetReader, ip: seq<nat>, range: seq<nat>, shorter: nat, longer: nat)
    requires ReadsDigits(number)
    requires |ip| == 4 && forall i :: 0 <= i < 4 ==> ip[i] <= 255
    requires |range| == 4 && forall i :: 0 <= i < 4 ==> range[i] <= 255
    requires shorter <= longer
    ensures IsIPInCIDR(number, Quad(ip), Quad(range) + ['/'] + Decimal(longer))
            ==> IsIPInCIDR(number, Quad(ip), Quad(range) + ['/'] + Decimal(shorter))
  {
    MembershipIsPrefixEquality(number, ip, range, longer);
    MembershipIsPrefixEquality(number, ip, range, shorter);
    if longer <= 32 && Address(ip) / Pow2(32 - longer) == Address(range) / Pow2(32 - longer) {
      EqualQuotientsDivide(Address(ip), Address(range), longer, shorter);
    }
  }

  // --------------------------------------------------------- which texts are addresses

  /** ReadsDigits is inhabited: the results that require it hold of a reader that takes plain digits. */
  lemma DigitsOnlyReadsDigits()
    ensures ReadsDigits(DigitsOnly)
  {
  }

  ghost predicate SpelledBy(number: OctetReader, parts: seq<string>, o: seq<nat>) {
    |o| == 4 && |parts| >= 4 && SepFree(parts, '.') && forall i :: 0 <= i < 4 ==> number(parts[i]) == Some(o[i])
  }

  /** A text is read as an address exactly when it is four octets and any further parts, joined by dots. */
  lemma ReadAsAddressIff(number: OctetReader, s: string, o: seq<nat>)
    ensures Octets(number, s) == Some(o) <==> exists parts :: SpelledBy(number, parts, o) && s == Join(parts, '.')
  {
    if Octets(number, s) == Some(o) {
      SplitIsSepFree(s, '.');
      JoinOfSplit(s, '.');
      assert SpelledBy(number, Split(s, '.'), o);
    }
    if parts :| SpelledBy(number, parts, o) && s == Join(parts, '.') {
      SplitOfJoin(parts, '.');
      assert o == [o[0], o[1], o[2], o[3]];
    }
  }

  lemma OctetOfCanonical(number: OctetReader, p: string, n: nat)
    requires ReadsDigits(number) && number(p) == Some(n)
    ensures p == Decimal(n) <==> Canonical(p)
  {
    DecimalIsCanonical(n);
    if Canonical(p) {
      CanonicalIsDecimal(p);
    }
  }

  /** A text read as an address is its dotted quad exactly when it has four parts, each a numeral
      without leading zeros. */
  lemma DottedQuadIff(number: OctetReader, s: string, o: seq<nat>)
    requires ReadsDigits(number) && Octets(number, s) == Some(o)
    ensures s == Quad(o) <==> |Split(s, '.')| == 4 && forall i :: 0 <= i < 4 ==> Canonical(Split(s, '.')[i])
  {
    var parts := Split(s, '.');
    QuadIsJoin(o);
    OctetOfCanonical(number, parts[0], o[0]);
    OctetOfCanonical(number, parts[1], o[1]);
    OctetOfCanonical(number, parts[2], o[2]);
    OctetOfCanonical(number, parts[3], o[3]);
    JoinOfSplit(s, '.');
    if |parts| == 4 && forall i :: 0 <= i < 4 ==> Canonical(parts[i]) {
      assert parts == [Decimal(o[0]), Decimal(o[1]), Decimal(o[2]), Decimal(o[3])];
    }
  }

  lemma OctetsFromParts(number: OctetReader, s: string, t: string)
    requires |Split(s, '.')| >= 4 && |Split(t, '.')| >= 4
    requires forall i :: 0 <= i < 4 ==> Split(s, '.')[i] == Split(t, '.')[i]
    ensures Octets(number, s) == Octets(number, t)
  {
  }

  /** Whatever follows a dotted quad and a dot is ignored. */
  lemma FurtherPartsAreIgnored(number: OctetReader, o: seq<nat>, more: string)
    requires ReadsDigits(number) && |o| == 4 && forall i :: 0 <= i < 4 ==> o[i] <= 255
    ensures Octets(number, Quad(o) + ['.'] + more) == Some(o)
  {
    OctetsOfQuad(number, o);
    QuadIsJoin(o);
    SplitOfConcat(Quad(o), more, '.');
    OctetsFromParts(number, Quad(o) + ['.'] + more, Quad(o));
  }

  lemma {:induction false} SplitOfConcat(s: string, t: string, sep: char)
    ensures Split(s + [sep] + t, sep) == Split(s, sep) + Split(t, sep)
    decreases |s|
  {
    var whole := s + [sep] + t;
    if s == [] {
      assert whole[1..] == t;
    } else {
      assert whole[1..] == s[1..] + [sep] + t;
      SplitOfConcat(s[1..], t, sep);
    }
  }

  /** Any of the four parts left empty reads as zero. */
  lemma EmptyPartsReadAsZero(number: OctetReader, parts: seq<string>, o: seq<nat>, i: nat)
    requires ReadsDigits(number) && SpelledBy(number, parts, o) && i < 4
    ensures Octets(number, Join(parts[i := ""], '.')) == Some(o[i := 0])
  {
    assert number("") == Some(0) by { assert AllDigits("") && DigitsValue("") == 0; }
    assert SpelledBy(number, parts[i := ""], o[i := 0]);
    ReadAsAddressIff(number, Join(parts[i := ""], '.'), o[i := 0]);
  }

  // ------------------------------------------------------------------ allowlist, decision

  /** The text is a range and a prefix length with one slash between them; a second slash and what
      follows it are ignored. */
  ghost predicate RangeText(cidr: string, range: string, bits: string) {
    && '/' !in range && '/' !in bits
    && (cidr == range + ['/'] + bits || exists more :: cidr == range + ['/'] + (bits + ['/'] + more))
  }

  /** The first p bits of two addresses of four octets agree. */
  predicate SameBits(a: seq<nat>, r: seq<nat>, p: nat)
    requires |a| == 4 && |r| == 4 && p <= 32
  {
    (a[0] * 0x100_0000 + a[1] * 0x1_0000 + a[2] * 0x100 + a[3]) / Pow2(32 - p)
    == (r[0] * 0x100_0000 + r[1] * 0x1_0000 + r[2] * 0x100 + r[3]) / Pow2(32 - p)
  }

  /** Both texts read as addresses whose first p bits agree. */
  predicate SamePrefix(number: OctetReader, ip: string, range: string, p: int) {
    && 0 <= p <= 32 && Octets(number, ip).Some? && Octets(number, range).Some?
    && SameBits(Octets(number, ip).value, Octets(number, range).value, p)
  }

  /** The entry is a range that holds the address. */
  ghost predicate InRange(number: OctetReader, ip: string, cidr: string) {
    exists range, bits :: RangeText(cidr, range, bits) && bits != ""
      && ParseInt(bits).Some? && SamePrefix(number, ip, range, ParseInt(bits).value)
  }

  lemma RangeTextIff(cidr: string, range: string, bits: string)
    ensures RangeText(cidr, range, bits)
            <==> |Split(cidr, '/')| >= 2 && Split(cidr, '/')[0] == range && Split(cidr, '/')[1] == bits
  {
    var parts := Split(cidr, '/');
    SplitIsSepFree(cidr, '/');
    JoinOfSplit(cidr, '/');
    if |parts| >= 2 && parts[0] == range && parts[1] == bits {
      var rest := parts[1..];
      assert cidr == range + ['/'] + Join(rest, '/');
      assert |rest| > 1 ==> Join(rest, '/') == bits + ['/'] + Join(rest[1..], '/');
    }
    if RangeText(cidr, range, bits) {
      if cidr == range + ['/'] + bits {
        SplitOfHead(range, bits, '/');
        SplitOfWhole(bits, '/');
      } else {
        var more :| cidr == range + ['/'] + (bits + ['/'] + more);
        SplitOfHead(range, bits + ['/'] + more, '/');
        SplitOfHead(bits, more, '/');
      }
    }
  }

  lemma SameBitsIff(a: seq<nat>, r: seq<nat>, p: nat)
    requires |a| == 4 && forall i :: 0 <= i < 4 ==> a[i] <= 255
    requires |r| == 4 && forall i :: 0 <= i < 4 ==> r[i] <= 255
    requires p <= 32
    ensures SameBits(a, r, p) <==> And(Pack(a), Mask(p)) == And(Pack(r), Mask(p))
  {
    MaskedEquality(a, r, p);
  }

  lemma SamePrefixIff(number: OctetReader, ip: string, range: string, p: nat)
    requires p <= 32 && Octets(number, ip).Some? && Octets(number, range).Some?
    ensures SamePrefix(number, ip, range, p)
            <==> And(Pack(Octets(number, ip).value), Mask(p)) == And(Pack(Octets(number, range).value), Mask(p))
  {
    SameBitsIff(Octets(number, ip).value, Octets(number, range).value, p);
  }

  /** For all texts and every reading of numbers as octets: an address is in an entry exactly when the
      entry has a slash, the part after it is not empty and is read as a prefix length from 0 to 32,
      and the address and the part before it are read as addresses that agree in that prefix. */
  lemma InCidrIff(number: OctetReader, ip: string, cidr: string)
    ensures IsIPInCIDR(number, ip, cidr) <==> InRange(number, ip, cidr)
  {
    var parts := Split(cidr, '/');
    if |parts| >= 2 && parts[1] != "" && ParseInt(parts[1]).Some? {
      var p := ParseInt(parts[1]).value;
      if 0 <= p <= 32 && Octets(number, ip).Some? && Octets(number, parts[0]).Some? {
        SamePrefixIff(number, ip, parts[0], p);
      }
      RangeTextIff(cidr, parts[0], parts[1]);
    }
    forall range, bits | RangeText(cidr, range, bits) ensures |parts| >= 2 && parts[0] == range && parts[1] == bits {
      RangeTextIff(cidr, range, bits);
    }
  }

  ghost predicate Allowlisted(number: OctetReader, ip: string, allowed: seq<string>) {
    ip in allowed || exists i :: 0 <= i < |allowed| && InRange(number, ip, allowed[i])
  }

  /** Where no entry has a slash, only the addresses listed literally are allowlisted. */
  lemma WithoutRangesOnlyListed(number: OctetReader, ip: string, allowed: seq<string>)
    requires forall i :: 0 <= i < |allowed| ==> '/' !in allowed[i]
    ensures Allowlisted(number, ip, allowed) <==> ip in allowed
  {
    forall i | 0 <= i < |allowed| ensures !InRange(number, ip, allowed[i]) {
      SplitOfWhole(allowed[i], '/');
      forall range, bits ensures !RangeText(allowed[i], range, bits) {
        RangeTextIff(allowed[i], range, bits);
      }
    }
  }

  method IsIPAllowlisted(number: OctetReader, ip: string, allowed: seq<string>) returns (yes: bool)
    ensures yes <==> Allowlisted(number, ip, allowed)
  {
    if ip in allowed {
      return true;
    }
    for i := 0 to |allowed|
      invariant forall j :: 0 <= j < i ==> !InRange(number, ip, allowed[j])
    {
      InCidrIff(number, ip, allowed[i]);
      if IsIPInCIDR(number, ip, allowed[i]) {
        return true;
      }
    }
    yes := false;
  }

  /** shouldBlock: the address allowlist, then the state of the lookup, then the country lists. */
  method ShouldBlock(number: OctetReader, ip: string, allowed: seq<string>, country: Option<string>, initialized: bool,
                     strict: bool, allowedCountries: set<string>, blockedCountries: set<string>) returns (block: bool)
    ensures Allowlisted(number, ip, allowed) ==> !block
    ensures !Allowlisted(number, ip, allowed) && country.None? ==>
              (block <==> !initialized && strict && (allowed != [] || allowedCountries != {} || blockedCountries != {}))
    ensures !Allowlisted(number, ip, allowed) && country.Some? ==>
              (block <==> country.value in blockedCountries && country.value !in allowedCountries)
  {
    var listed := IsIPAllowlisted(number, ip, allowed);
    if listed {
      return false;
    }
    if country.None? {
      var active := allowed != [] || allowedCountries != {} || blockedCountries != {};
      if !initialized && active {
        return strict;
      }
      return false;
    }
    if country.value in allowedCountries {
      return false;
    }
    block := country.value in blockedCountries;
  }
}
