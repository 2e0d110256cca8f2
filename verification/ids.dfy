/** Numbers written in a base, most significant digit first. */
module Numerals {

  function Numeral(base: nat, d: seq<nat>): nat {
    if d == [] then 0 else Numeral(base, d[..|d| - 1]) * base + d[|d| - 1]
  }

  function Pow(base: nat, k: nat): nat {
    if k == 0 then 1 else base * Pow(base, k - 1)
  }

  predicate InBase(base: nat, d: seq<nat>) {
    forall k :: 0 <= k < |d| ==> d[k] < base
  }

  lemma NumeralSnoc(base: nat, d: seq<nat>, x: nat)
    ensures Numeral(base, d + [x]) == Numeral(base, d) * base + x
  {
    assert (d + [x])[..|d|] == d;
  }

  lemma Regroup(a: int, p: int, base: int)
    ensures a * p * base == a * (base * p)
  {
  }

  lemma {:induction false} NumeralBounded(base: nat, d: seq<nat>)
    requires InBase(base, d)
    ensures Numeral(base, d) < Pow(base, |d|)
    decreases |d|
  {
    if d != [] {
      var d', x := d[..|d| - 1], d[|d| - 1];
      NumeralBounded(base, d');
      Carried(Numeral(base, d'), Pow(base, |d'|), base, x);
    }
  }

  lemma Carried(n: nat, p: nat, base: nat, x: nat)
    requires n < p && x < base
    ensures n * base + x < base * p
  {
    assert (n + 1) * base <= p * base;
  }

  lemma {:induction false} NumeralConcat(base: nat, a: seq<nat>, b: seq<nat>)
    ensures Numeral(base, a + b) == Numeral(base, a) * Pow(base, |b|) + Numeral(base, b)
    decreases |b|
  {
    if b == [] {
      assert a + b == a;
    } else {
      var b', x := b[..|b| - 1], b[|b| - 1];
      NumeralConcat(base, a, b');
      assert a + b == (a + b') + [x] && b == b' + [x];
      ConcatSnoc(base, a, b', x);
    }
  }

  lemma ConcatSnoc(base: nat, a: seq<nat>, b: seq<nat>, x: nat)
    requires Numeral(base, a + b) == Numeral(base, a) * Pow(base, |b|) + Numeral(base, b)
    ensures Numeral(base, (a + b) + [x]) == Numeral(base, a) * Pow(base, |b + [x]|) + Numeral(base, b + [x])
  {
    hide Numeral, Pow;
    NumeralSnoc(base, a + b, x);
    NumeralSnoc(base, b, x);
    PowNext(base, |b|);
    Regroup(Numeral(base, a), Pow(base, |b|), base);
    Distribute(Numeral(base, a) * Pow(base, |b|), Numeral(base, b), base);
  }

  lemma PowNext(base: nat, k: nat)
    ensures Pow(base, k + 1) == base * Pow(base, k)
  {
  }

  lemma Distribute(a: int, b: int, base: int)
    ensures (a + b) * base == a * base + b * base
  {
  }

  /** The last digit decides only when the rest is equal. */
  lemma LastDigitDecides(base: nat, a: nat, c: nat, b: nat, d: nat)
    requires c < base && d < base
    ensures a * base + c < b * base + d <==> a < b || (a == b && c < d)
    ensures a * base + c == b * base + d <==> a == b && c == d
  {
    if a < b { Carried(a, b, base, c); assert b * base == base * b; }
    if b < a { Carried(b, a, base, d); assert a * base == base * a; }
  }

  ghost predicate DiffersAt(a: seq<nat>, b: seq<nat>, k: nat) {
    k < |a| && k < |b| && a[..k] == b[..k] && a[k] < b[k]
  }

  /** The order of digit strings of one length: by the first digit that differs. */
  ghost predicate Below(a: seq<nat>, b: seq<nat>) {
    exists k: nat :: DiffersAt(a, b, k)
  }

  lemma BelowSnoc(a: seq<nat>, b: seq<nat>, c: nat, d: nat)
    requires |a| == |b|
    ensures Below(a + [c], b + [d]) <==> Below(a, b) || (a == b && c < d)
  {
    var a', b' := a + [c], b + [d];
    if Below(a', b') {
      var k: nat :| DiffersAt(a', b', k);
      if k < |a| {
        assert a[..k] == a'[..k] && b[..k] == b'[..k];
        assert DiffersAt(a, b, k);
      } else {
        assert a'[..k] == a && b'[..k] == b;
      }
    }
    if Below(a, b) {
      var k: nat :| DiffersAt(a, b, k);
      assert a[..k] == a'[..k] && b[..k] == b'[..k];
      assert DiffersAt(a', b', k);
    } else if a == b && c < d {
      assert a'[..|a|] == b'[..|a|];
      assert DiffersAt(a', b', |a|);
    }
  }

  /** Digit strings of one length are ordered, and told apart, as their numbers are. */
  lemma {:induction false} NumeralOrder(base: nat, a: seq<nat>, b: seq<nat>)
    requires |a| == |b| && InBase(base, a) && InBase(base, b)
    ensures Below(a, b) <==> Numeral(base, a) < Numeral(base, b)
    ensures a == b <==> Numeral(base, a) == Numeral(base, b)
    decreases |a|
  {
    if a == [] {
      assert a == b;
    } else {
      var n := |a| - 1;
      var a', b', c, d := a[..n], b[..n], a[n], b[n];
      NumeralOrder(base, a', b');
      assert a == a' + [c] && b == b' + [d];
      hide Numeral, Below;
      OrderSnoc(base, a', b', c, d);
    }
  }

  lemma OrderSnoc(base: nat, a: seq<nat>, b: seq<nat>, c: nat, d: nat)
    requires |a| == |b| && c < base && d < base
    requires Below(a, b) <==> Numeral(base, a) < Numeral(base, b)
    requires a == b <==> Numeral(base, a) == Numeral(base, b)
    ensures Below(a + [c], b + [d]) <==> Numeral(base, a + [c]) < Numeral(base, b + [d])
    ensures a + [c] == b + [d] <==> Numeral(base, a + [c]) == Numeral(base, b + [d])
  {
    BelowSnoc(a, b, c, d);
    NumeralSnoc(base, a, c);
    NumeralSnoc(base, b, d);
    hide Numeral, Below;
    LastDigitDecides(base, Numeral(base, a), c, Numeral(base, b), d);
    assert (a + [c])[..|a|] == a && (b + [d])[..|b|] == b && (a + [c])[|a|] == c && (b + [d])[|b|] == d;
  }
}

/** ULIDs: 48 bits of milliseconds and 80 of entropy, in lowercase Crockford base 32. */
module Ids {
  import opened Wrappers
  import opened Numerals
  import opened Bits

  const ALPHABET := "0123456789abcdefghjkmnpqrstvwxyz"
  const LENGTH := 26
  const MAX_TIME := 0xFFFF_FFFF_FFFF
  const TWO_80 := 0x1_0000_0000_0000_0000_0000
  const NANOS_PER_MILLI := 1_000_000

  // ---------------------------------------------------------------------
  // The alphabet
  // ---------------------------------------------------------------------

  lemma AlphabetAscends(i: int, j: int)
    requires 0 <= i < j < 32
    ensures |ALPHABET| == 32 && ALPHABET[i] < ALPHABET[j]
    decreases j
  {
    if i + 1 < j { AlphabetAscends(i, j - 1); }
  }

  ghost predicate IsDigit(c: char) {
    exists i :: 0 <= i < |ALPHABET| && ALPHABET[i] == c
  }

  /** The place of a character in the alphabet, which has each of them once. */
  ghost function Digit(c: char): (i: nat)
    requires IsDigit(c)
    ensures i < 32 && ALPHABET[i] == c
  {
    assert |ALPHABET| == 32;
    var i :| 0 <= i < |ALPHABET| && ALPHABET[i] == c;
    i
  }

  lemma DigitsOrdered(c: char, d: char)
    requires IsDigit(c) && IsDigit(d)
    ensures Digit(c) < Digit(d) <==> c < d
    ensures Digit(c) == Digit(d) <==> c == d
  {
    if Digit(c) < Digit(d) { AlphabetAscends(Digit(c), Digit(d)); }
    if Digit(d) < Digit(c) { AlphabetAscends(Digit(d), Digit(c)); }
  }

  lemma DigitOf(i: int)
    requires 0 <= i < 32
    ensures |ALPHABET| == 32 && IsDigit(ALPHABET[i]) && Digit(ALPHABET[i]) == i
  {
    assert |ALPHABET| == 32;
    assert IsDigit(ALPHABET[i]);
    var j := Digit(ALPHABET[i]);
    if j < i { AlphabetAscends(j, i); }
    if i < j { AlphabetAscends(i, j); }
  }

  /** The letters left out are those that look like digits, and u. */
  function CodeAt(i: nat): int {
    if i < 10 then '0' as int + i
    else if i < 18 then 'a' as int + i - 10
    else if i < 20 then 'j' as int + i - 18
    else if i < 22 then 'm' as int + i - 20
    else if i < 27 then 'p' as int + i - 22
    else 'v' as int + i - 27
  }

  lemma AlphabetAt(i: nat)
    requires i < 32
    ensures |ALPHABET| == 32 && ALPHABET[i] as int == CodeAt(i)
  {
  }

  ghost predicate Allowed(c: char) {
    '0' <= c <= '9' || ('a' <= c <= 'z' && c != 'i' && c != 'l' && c != 'o' && c != 'u')
  }

  function PlaceOf(c: char): (i: int) {
    var n := c as int;
    if c <= '9' then n - '0' as int
    else if c <= 'h' then n - 'a' as int + 10
    else if c <= 'k' then n - 'j' as int + 18
    else if c <= 'n' then n - 'm' as int + 20
    else if c <= 't' then n - 'p' as int + 22
    else n - 'v' as int + 27
  }

  lemma CodesAreAllowed(i: nat, c: char)
    requires i < 32 && c as int == CodeAt(i)
    ensures Allowed(c)
  {
  }

  lemma AllowedHaveCodes(c: char)
    requires Allowed(c)
    ensures 0 <= PlaceOf(c) < 32 && CodeAt(PlaceOf(c)) == c as int
  {
  }

  /** The digits are the decimal ones and the small letters but i, l, o and u. */
  lemma CrockfordDigits(c: char)
    ensures IsDigit(c) <==> Allowed(c)
  {
    hide ALPHABET, CodeAt, PlaceOf, Allowed;
    AlphabetAt(0);
    if IsDigit(c) {
      var i :| 0 <= i < |ALPHABET| && ALPHABET[i] == c;
      AlphabetAt(i);
      CodesAreAllowed(i, c);
    }
    if Allowed(c) {
      AllowedHaveCodes(c);
      AlphabetAt(PlaceOf(c));
      assert ALPHABET[PlaceOf(c)] == c;
    }
  }

  /** The scan that finds a character's value, or -1. */
  method ValueOf(c: char) returns (v: int)
    ensures v == if IsDigit(c) then Digit(c) else -1
  {
    for i := 0 to |ALPHABET|
      invariant forall j :: 0 <= j < i ==> ALPHABET[j] != c
    {
      if ALPHABET[i] == c {
        DigitOf(i);
        return i;
      }
    }
    v := -1;
  }

  // ---------------------------------------------------------------------
  // Strings of digits
  // ---------------------------------------------------------------------

  ghost predicate AllDigits(s: string) {
    forall k :: 0 <= k < |s| ==> IsDigit(s[k])
  }

  ghost function Places(s: string): (d: seq<nat>)
    requires AllDigits(s)
    ensures |d| == |s| && InBase(32, d)
    ensures forall k :: 0 <= k < |s| ==> d[k] == Digit(s[k])
  {
    seq(|s|, k requires 0 <= k < |s| => Digit(s[k]))
  }

  /** The number a string of digits denotes. */
  ghost function Value(s: string): nat
    requires AllDigits(s)
  {
    Numeral(32, Places(s))
  }

  lemma ValueSnoc(s: string, c: char)
    requires AllDigits(s) && IsDigit(c)
    ensures AllDigits(s + [c]) && Value(s + [c]) == Value(s) * 32 + Digit(c)
  {
    hide IsDigit, Digit;
    assert Places(s + [c]) == Places(s) + [Digit(c)];
    NumeralSnoc(32, Places(s), Digit(c));
  }

  lemma ValueSplit(s: string, k: nat)
    requires k <= |s| && AllDigits(s)
    ensures AllDigits(s[..k]) && AllDigits(s[k..])
    ensures Value(s) == Value(s[..k]) * Pow(32, |s| - k) + Value(s[k..])
    ensures Value(s[k..]) < Pow(32, |s| - k)
  {
    hide IsDigit, Digit;
    PlacesSplit(s, k);
    hide AllDigits, Places;
    NumeralConcat(32, Places(s[..k]), Places(s[k..]));
    NumeralBounded(32, Places(s[k..]));
    hide Numeral, Pow;
  }

  lemma PlacesSplit(s: string, k: nat)
    requires k <= |s| && AllDigits(s)
    ensures AllDigits(s[..k]) && AllDigits(s[k..]) && Places(s) == Places(s[..k]) + Places(s[k..])
  {
    hide IsDigit, Digit;
  }

  // ---------------------------------------------------------------------
  // Order
  // ---------------------------------------------------------------------

  ghost predicate CharsDifferAt(s: string, t: string, k: nat) {
    k < |s| && k < |t| && s[..k] == t[..k] && s[k] < t[k]
  }

  /** Byte-wise order of strings of one length. */
  ghost predicate LexLess(s: string, t: string)
    requires |s| == |t|
  {
    exists k: nat :: CharsDifferAt(s, t, k)
  }

  lemma PlacesPrefix(s: string, t: string, k: nat)
    requires |s| == |t| && AllDigits(s) && AllDigits(t) && k <= |s|
    ensures Places(s)[..k] == Places(t)[..k] <==> s[..k] == t[..k]
  {
    hide IsDigit, Digit;
    if Places(s)[..k] == Places(t)[..k] {
      forall i | 0 <= i < k ensures s[i] == t[i] {
        assert Places(s)[..k][i] == Places(t)[..k][i];
        DigitsOrdered(s[i], t[i]);
      }
    } else if s[..k] == t[..k] {
      forall i | 0 <= i < k ensures Places(s)[i] == Places(t)[i] {
        assert s[..k][i] == t[..k][i];
      }
    }
  }

  lemma DiffersAlike(s: string, t: string, k: nat)
    requires |s| == |t| && AllDigits(s) && AllDigits(t)
    ensures CharsDifferAt(s, t, k) <==> DiffersAt(Places(s), Places(t), k)
  {
    hide IsDigit, Digit;
    if k < |s| {
      PlacesPrefix(s, t, k);
      DigitsOrdered(s[k], t[k]);
    }
  }

  /** Strings of digits of one length are ordered, and told apart, as their numbers are. */
  lemma OrderIsNumeric(s: string, t: string)
    requires |s| == |t| && AllDigits(s) && AllDigits(t)
    ensures LexLess(s, t) <==> Value(s) < Value(t)
    ensures s == t <==> Value(s) == Value(t)
  {
    hide IsDigit, Digit, CharsDifferAt, DiffersAt;
    NumeralOrder(32, Places(s), Places(t));
    forall k: nat ensures CharsDifferAt(s, t, k) <==> DiffersAt(Places(s), Places(t), k) {
      DiffersAlike(s, t, k);
    }
    PlacesPrefix(s, t, |s|);
    assert s[..|s|] == s && t[..|s|] == t;
    assert Places(s)[..|s|] == Places(s) && Places(t)[..|s|] == Places(t);
  }

  // ---------------------------------------------------------------------
  // Well-formedness
  // ---------------------------------------------------------------------

  lemma Powers()
    ensures Pow(32, 16) == TWO_80 == Pow(256, 10)
    ensures Pow(256, 8) == TWO_64 && Pow(256, 6) == MAX_TIME + 1 && Pow(256, 16) == TWO_64 * TWO_64
    ensures Pow(32, 25) * 8 == TWO_64 * TWO_64 && Pow(32, 26) == TWO_64 * TWO_64 * 4
  {
    assert Pow(32, 4) == 0x10_0000;
    assert Pow(32, 8) == 0x100_0000_0000;
    assert Pow(32, 12) == 0x1000_0000_0000_0000;
    assert Pow(32, 16) == TWO_80;
    assert Pow(32, 20) == 0x10_0000 * TWO_80;
    assert Pow(32, 25) == 0x200_0000 * 0x10_0000 * TWO_80;
    assert Pow(256, 4) == 0x1_0000_0000;
    assert Pow(256, 8) == TWO_64;
    assert Pow(256, 12) == TWO_64 * 0x1_0000_0000;
  }

  /** Twenty-six digits, the first of them no more than 7. */
  ghost predicate Valid(s: string) {
    |s| == LENGTH && s[0] <= '7' && AllDigits(s)
  }

  lemma FirstDigit(s: string)
    requires |s| == LENGTH && AllDigits(s)
    ensures IsDigit(s[0]) && AllDigits(s[1..])
    ensures Value(s) == Digit(s[0]) * Pow(32, 25) + Value(s[1..]) && Value(s[1..]) < Pow(32, 25)
  {
    hide Digit, IsDigit, Value, Pow;
    ValueSplit(s, 1);
    assert s[..1] == "" + [s[0]];
    ValueSnoc("", s[0]);
    NoDigits();
  }

  /** The first digit is what keeps the number within 128 bits, exactly. */
  lemma ValidIs128Bits(s: string)
    requires |s| == LENGTH && AllDigits(s)
    ensures Valid(s) <==> Value(s) < TWO_64 * TWO_64
  {
    hide Digit, IsDigit, Value, AllDigits, Pow;
    FirstDigit(s);
    SevenIsDigitSeven(s[0]);
    Powers();
    LeadingDigit(Digit(s[0]), Pow(32, 25), Value(s[1..]));
  }

  lemma SevenIsDigitSeven(c: char)
    requires IsDigit(c)
    ensures c <= '7' <==> Digit(c) < 8
  {
    hide IsDigit, Digit;
    DigitOf(7);
    DigitsOrdered(c, '7');
  }

  lemma LeadingDigit(d: nat, p: nat, rest: nat)
    requires rest < p
    ensures d * p + rest < 8 * p <==> d < 8
  {
    if d >= 8 {
      assert d * p >= 8 * p;
    } else {
      assert d * p <= 7 * p;
    }
  }

  method IsValid(s: string) returns (ok: bool)
    ensures ok <==> Valid(s)
  {
    if |s| != LENGTH || s[0] > '7' {
      return false;
    }
    for i := 0 to |s|
      invariant forall k :: 0 <= k < i ==> IsDigit(s[k])
    {
      var v := ValueOf(s[i]);
      if v < 0 {
        return false;
      }
    }
    ok := true;
  }

  // ---------------------------------------------------------------------
  // Encoding
  // ---------------------------------------------------------------------

  /** The lowest k digits of n. */
  ghost function DigitsOf(n: nat, k: nat): (s: string)
    ensures |s| == k
  {
    assert |ALPHABET| == 32;
    if k == 0 then "" else DigitsOf(n / 32, k - 1) + [ALPHABET[n % 32]]
  }

  lemma {:induction false} DigitsDenote(n: nat, k: nat)
    ensures AllDigits(DigitsOf(n, k))
    ensures n < Pow(32, k) ==> Value(DigitsOf(n, k)) == n
    decreases k
  {
    if k > 0 {
      DigitsDenote(n / 32, k - 1);
      DigitOf(n % 32);
      hide Digit, IsDigit;
      ValueSnoc(DigitsOf(n / 32, k - 1), ALPHABET[n % 32]);
    }
  }

  lemma DivUnique(x: nat, v: nat)
    requires v < 32
    ensures (32 * x + v) / 32 == x && (32 * x + v) % 32 == v
  {
  }

  /** Dropping the low five bits of a 128-bit number held in two words. */
  lemma DropDigit(hi: nat, lo: nat)
    requires hi < TWO_64 && lo < TWO_64
    ensures var n := hi * TWO_64 + lo;
            && n % 32 == lo % 32
            && n / 32 == (hi / 32) * TWO_64 + (lo / 32 + (hi % 32) * TWO_59)
            && lo / 32 + (hi % 32) * TWO_59 < TWO_64
  {
    var p, q, u, v := hi / 32, hi % 32, lo / 32, lo % 32;
    var x := p * TWO_64 + (u + q * TWO_59);
    assert hi == 32 * p + q && lo == 32 * u + v;
    assert hi * TWO_64 + lo == 32 * x + v;
    DivUnique(x, v);
  }

  function Wide(x: bv8): bv64 {
    x as bv64
  }

  function Octet(x: bv8): nat {
    Num(Wide(x))
  }

  /** The numbers some bytes denote. */
  function Octets(b: seq<bv8>): (d: seq<nat>)
    ensures |d| == |b| && forall k :: 0 <= k < |d| ==> d[k] == Octet(b[k])
  {
    seq(|b|, k requires 0 <= k < |b| => Octet(b[k]))
  }

  /** The big-endian number of some bytes. */
  function Number(b: seq<bv8>): nat {
    Numeral(256, Octets(b))
  }

  lemma OctetsInBase(b: seq<bv8>)
    ensures InBase(256, Octets(b))
  {
    hide Octet;
    forall k | 0 <= k < |b| ensures Octets(b)[k] < 256 {
      OctetSmall(b[k]);
    }
  }

  lemma OctetSmall(x: bv8)
    ensures Octet(x) < 256 && Wide(x) < 256
  {
    hide Num;
    Small(Wide(x));
  }

  lemma NumberSnoc(b: seq<bv8>, x: bv8)
    ensures Number(b + [x]) == Number(b) * 256 + Octet(x)
  {
    hide Octet;
    assert Octets(b + [x]) == Octets(b) + [Octet(x)];
    NumeralSnoc(256, Octets(b), Octet(x));
  }

  /** The loop has room for the next byte while it has read fewer than eight. */
  lemma Room(b: seq<bv8>, w: bv64)
    requires |b| < 8 && Num(w) == Number(b)
    ensures w < 0x0100_0000_0000_0000
  {
    OctetsInBase(b);
    NumeralBounded(256, Octets(b));
    PowGrows(|b|);
    hide *;
    TopByte(w);
  }

  lemma {:induction false} PowGrows(k: nat)
    requires k < 8
    ensures Pow(256, k) <= 0x0100_0000_0000_0000
  {
    assert Pow(256, 3) == 0x100_0000 && Pow(256, 5) == 0x100_0000 * 0x1_0000;
    assert Pow(256, 7) == 0x0100_0000_0000_0000;
    assert Pow(256, 1) == 256 && Pow(256, 2) == 0x1_0000 && Pow(256, 4) == 0x1_0000_0000;
    assert Pow(256, 6) == 0x1_0000_0000_0000 && Pow(256, 0) == 1;
    assert k == 0 || k == 1 || k == 2 || k == 3 || k == 4 || k == 5 || k == 6 || k == 7;
  }

  /** Eight bytes, most significant first, in a word. */
  method Word(b: seq<bv8>) returns (w: bv64)
    requires |b| == 8
    ensures Num(w) == Number(b) < TWO_64
  {
    hide *;
    w := 0;
    NothingRead();
    assert b[..0] == [];
    for i := 0 to 8
      invariant Num(w) == Number(b[..i])
    {
      Room(b[..i], w);
      OctetSmall(b[i]);
      AddByte(w, Wide(b[i]));
      OctetIs(b[i]);
      NumberSnoc(b[..i], b[i]);
      assert b[..i + 1] == b[..i] + [b[i]];
      w := (w << 8) | Wide(b[i]);
    }
    assert b[..8] == b;
    EightBytes(b);
  }

  lemma OctetIs(x: bv8)
    ensures Octet(x) == Num(Wide(x))
  {
  }

  lemma NothingRead()
    ensures Num(0) == 0 && Number([]) == 0
  {
    ZeroNum();
  }

  lemma EightBytes(b: seq<bv8>)
    requires |b| == 8
    ensures Number(b) < TWO_64
  {
    OctetsInBase(b);
    NumeralBounded(256, Octets(b));
    Powers();
  }

  /** The 128 bits as 26 characters, the low five bits last. */
  method Encode(b: seq<bv8>) returns (s: string)
    requires |b| == 16
    ensures Valid(s) && Value(s) == Number(b)
  {
    hide *;
    var hi := Word(b[..8]);
    var lo := Word(b[8..]);
    TwoWords(b);
    var out := Spell(hi, lo);
    s := out[..];
    Spelled(Num(hi) * TWO_64 + Num(lo));
  }

  lemma TwoWords(b: seq<bv8>)
    requires |b| == 16
    ensures Number(b) == Number(b[..8]) * TWO_64 + Number(b[8..]) < TWO_64 * TWO_64
  {
    OctetsInBase(b);
    NumeralBounded(256, Octets(b));
    assert Octets(b) == Octets(b[..8]) + Octets(b[8..]);
    NumeralConcat(256, Octets(b[..8]), Octets(b[8..]));
    Powers();
  }

  lemma Spelled(n: nat)
    requires n < TWO_64 * TWO_64
    ensures Valid(DigitsOf(n, LENGTH)) && Value(DigitsOf(n, LENGTH)) == n
  {
    hide DigitsOf, Value;
    Powers();
    DigitsDenote(n, LENGTH);
    ValidIs128Bits(DigitsOf(n, LENGTH));
  }

  /** Writes the digits from the last to the first, shifting the pair of words right. */
  method Spell(high: bv64, low: bv64) returns (out: array<char>)
    requires Num(high) < TWO_64 && Num(low) < TWO_64
    ensures fresh(out) && out[..] == DigitsOf(Num(high) * TWO_64 + Num(low), LENGTH)
  {
    hide Num, DigitsOf;
    var hi, lo := high, low;
    out := new char[LENGTH];
    var i := LENGTH;
    assert out[LENGTH..] == [];
    while i > 0
      invariant 0 <= i <= LENGTH && Num(hi) < TWO_64 && Num(lo) < TWO_64
      invariant DigitsOf(Num(hi) * TWO_64 + Num(lo), i) + out[i..] == DigitsOf(Num(high) * TWO_64 + Num(low), LENGTH)
    {
      i := i - 1;
      ghost var was := out[i + 1..];
      DigitStep(hi, lo, i);
      out[i] := ALPHABET[Lowest(lo)];
      assert out[i..] == [ALPHABET[Lowest(lo)]] + was;
      lo := (lo >> 5) | (hi << 59);
      hi := hi >> 5;
    }
    NoDigitsLeft(hi, lo);
    assert out[0..] == out[..];
  }

  lemma NoDigitsLeft(hi: bv64, lo: bv64)
    ensures DigitsOf(Num(hi) * TWO_64 + Num(lo), 0) == ""
  {
  }

  /** The value of the low five bits. */
  function Lowest(w: bv64): int {
    (w & 0x1f) as int
  }

  lemma LowIndex(lo: bv64)
    ensures |ALPHABET| == 32 && 0 <= Lowest(lo) < 32 && Lowest(lo) == Num(lo) % 32
  {
    assert |ALPHABET| == 32 && lo & 0x1f < 32;
    hide Num;
    IndexOf(lo & 0x1f);
    LowFive(lo);
  }

  /** The loop's two shifts divide the pair of words by 32. */
  lemma PairDivided(hi: bv64, lo: bv64)
    requires Num(hi) < TWO_64 && Num(lo) < TWO_64
    ensures var n := Num(hi) * TWO_64 + Num(lo);
            var hi', lo' := hi >> 5, (lo >> 5) | (hi << 59);
            && Num(hi') < TWO_64 && Num(lo') < TWO_64 && n % 32 == Num(lo) % 32
            && n / 32 == Num(hi') * TWO_64 + Num(lo')
  {
    hide *;
    ShiftPair(hi, lo);
    DropDigit(Num(hi), Num(lo));
  }

  /** One turn of the loop takes the lowest digit off the number in the two words. */
  lemma DigitStep(hi: bv64, lo: bv64, k: nat)
    requires Num(hi) < TWO_64 && Num(lo) < TWO_64
    ensures |ALPHABET| == 32 && 0 <= Lowest(lo) < 32
    ensures var hi', lo' := hi >> 5, (lo >> 5) | (hi << 59);
            && Num(hi') < TWO_64 && Num(lo') < TWO_64
            && DigitsOf(Num(hi) * TWO_64 + Num(lo), k + 1)
               == DigitsOf(Num(hi') * TWO_64 + Num(lo'), k) + [ALPHABET[Lowest(lo)]]
  {
    hide *;
    LowIndex(lo);
    PairDivided(hi, lo);
    LowestDigit(Num(hi) * TWO_64 + Num(lo), k);
  }

  lemma LowestDigit(n: nat, k: nat)
    ensures |ALPHABET| == 32 && DigitsOf(n, k + 1) == DigitsOf(n / 32, k) + [ALPHABET[n % 32]]
  {
    assert |ALPHABET| == 32;
  }

  // ---------------------------------------------------------------------
  // Minting and reading back
  // ---------------------------------------------------------------------

  datatype Error = TimeRange | Entropy | NotULID

  /** The milliseconds a uid carries. */
  ghost function Timestamp(s: string): nat
    requires Valid(s)
  {
    Value(s) / TWO_80
  }

  /** The instant t, in nanoseconds since the epoch, and ten bytes of entropy if there are any. */
  method New(t: int, entropy: Option<seq<bv8>>) returns (r: Result<string, Error>)
    requires entropy.Some? ==> |entropy.value| == 10
    ensures r == Err(TimeRange) <==> !(0 <= t / NANOS_PER_MILLI <= MAX_TIME)
    ensures r == Err(Entropy) <==> 0 <= t / NANOS_PER_MILLI <= MAX_TIME && entropy.None?
    ensures r.Ok? ==> Valid(r.value) && Timestamp(r.value) == t / NANOS_PER_MILLI
    ensures r.Ok? ==> Value(r.value) % TWO_80 == Number(entropy.value)
  {
    var ms := t / NANOS_PER_MILLI;
    if ms < 0 || ms > MAX_TIME {
      return Err(TimeRange);
    }
    if entropy.None? {
      return Err(Entropy);
    }
    hide *;
    var stamp := Stamp(WordOf(ms));
    StampDenotes(ms);
    StampedBytes(stamp, entropy.value);
    var s := Encode(stamp + entropy.value);
    TimestampOf(s);
    r := Ok(s);
  }

  lemma TimestampOf(s: string)
    requires Valid(s)
    ensures Timestamp(s) == Value(s) / TWO_80
  {
  }

  /** The six low bytes of a word, most significant first. */
  function Stamp(ms: bv64): (b: seq<bv8>)
    ensures |b| == 6
  {
    [((ms >> 40) & 0xff) as bv8, ((ms >> 32) & 0xff) as bv8, ((ms >> 24) & 0xff) as bv8,
     ((ms >> 16) & 0xff) as bv8, ((ms >> 8) & 0xff) as bv8, (ms & 0xff) as bv8]
  }

  function LastByte(w: bv64): bv8 {
    (w & 0xff) as bv8
  }

  lemma ByteAgain(w: bv64)
    ensures Wide(LastByte(w)) == Last(w)
  {
  }

  lemma LastByteIs(w: bv64)
    ensures Octet(LastByte(w)) == Num(w) % 256 && Num(Eighth(w)) == Num(w) / 256
  {
    hide *;
    ByteAgain(w);
    OctetIs(LastByte(w));
    LowByte(w);
  }

  lemma StampBytes(w: bv64)
    ensures var w1 := Eighth(w); var w2 := Eighth(w1); var w3 := Eighth(w2); var w4 := Eighth(w3);
            Stamp(w) == [LastByte(Eighth(w4)), LastByte(w4), LastByte(w3), LastByte(w2), LastByte(w1), LastByte(w)]
  {
    assert (w >> 8) >> 8 == w >> 16 && (w >> 16) >> 8 == w >> 24 && (w >> 24) >> 8 == w >> 32 && (w >> 32) >> 8 == w >> 40;
  }

  /** What each byte of a stamp is, as arithmetic on the number it was taken from. */
  lemma StampDigits(w: bv64)
    ensures var n, d := Num(w), Octets(Stamp(w));
            && d[5] == n % 256 && d[4] == n / 256 % 256 && d[3] == n / 256 / 256 % 256
            && d[2] == n / 256 / 256 / 256 % 256 && d[1] == n / 256 / 256 / 256 / 256 % 256
            && d[0] == n / 256 / 256 / 256 / 256 / 256 % 256
  {
    hide *;
    StampBytes(w);
    var w1 := Eighth(w);
    var w2 := Eighth(w1);
    var w3 := Eighth(w2);
    var w4 := Eighth(w3);
    LastByteIs(w);
    LastByteIs(w1);
    LastByteIs(w2);
    LastByteIs(w3);
    LastByteIs(w4);
    LastByteIs(Eighth(w4));
  }

  lemma Reassembles(n: nat, n1: nat, n2: nat, n3: nat, n4: nat)
    requires n <= MAX_TIME && n1 == n / 256 && n2 == n1 / 256 && n3 == n2 / 256 && n4 == n3 / 256
    ensures ((((n4 / 256 % 256 * 256 + n4 % 256) * 256 + n3 % 256) * 256 + n2 % 256) * 256 + n1 % 256) * 256 + n % 256 == n
  {
    assert n4 / 256 < 256;
  }

  lemma SixDigits(d: seq<nat>)
    requires |d| == 6
    ensures Numeral(256, d) == ((((d[0] * 256 + d[1]) * 256 + d[2]) * 256 + d[3]) * 256 + d[4]) * 256 + d[5]
  {
    assert forall k :: 0 <= k < 6 ==> d[..k + 1] == d[..k] + [d[k]];
    NumeralSnoc(256, d[..0], d[0]);
    NumeralSnoc(256, d[..1], d[1]);
    NumeralSnoc(256, d[..2], d[2]);
    NumeralSnoc(256, d[..3], d[3]);
    NumeralSnoc(256, d[..4], d[4]);
    NumeralSnoc(256, d[..5], d[5]);
    assert d[..6] == d;
  }

  lemma StampDenotes(ms: nat)
    requires ms <= MAX_TIME
    ensures Number(Stamp(WordOf(ms))) == ms
  {
    hide Num, WordOf, Number, Octets, Stamp, Numeral;
    WordHolds(ms);
    StampDigits(WordOf(ms));
    SixDigits(Octets(Stamp(WordOf(ms))));
    Reassembles(ms, ms / 256, ms / 256 / 256, ms / 256 / 256 / 256, ms / 256 / 256 / 256 / 256);
    NumberIs(Stamp(WordOf(ms)));
  }

  lemma NumberIs(b: seq<bv8>)
    ensures Number(b) == Numeral(256, Octets(b))
  {
  }

  lemma StampedBytes(stamp: seq<bv8>, entropy: seq<bv8>)
    requires |stamp| == 6 && |entropy| == 10
    ensures var n := Number(stamp + entropy);
            n / TWO_80 == Number(stamp) && n % TWO_80 == Number(entropy)
  {
    assert Octets(stamp + entropy) == Octets(stamp) + Octets(entropy);
    NumeralConcat(256, Octets(stamp), Octets(entropy));
    OctetsInBase(entropy);
    NumeralBounded(256, Octets(entropy));
    Powers();
    hide Numeral, Pow;
  }

  /** The instant a uid was minted at, to the millisecond. */
  method Time(s: string) returns (r: Result<int, Error>)
    ensures r.Ok? <==> Valid(s)
    ensures Valid(s) ==> r.value == Timestamp(s) * NANOS_PER_MILLI
  {
    hide IsDigit, Digit, Value, Timestamp;
    var ok := IsValid(s);
    if !ok {
      return Err(NotULID);
    }
    var ms := 0;
    TenDigits(s);
    assert s[..0] == "";
    NoDigits();
    for i := 0 to 10
      invariant AllDigits(s[..i]) && ms == Value(s[..i])
    {
      var v := ValueOf(s[i]);
      ValueSnoc(s[..i], s[i]);
      assert s[..i + 1] == s[..i] + [s[i]];
      ms := ms * 32 + v;
    }
    r := Ok(ms * NANOS_PER_MILLI);
  }

  lemma NoDigits()
    ensures AllDigits("") && Value("") == 0
  {
  }

  /** The first ten digits hold exactly the timestamp. */
  lemma TenDigits(s: string)
    requires Valid(s)
    ensures AllDigits(s[..10]) && Value(s[..10]) == Timestamp(s)
  {
    hide IsDigit, Digit;
    ValueSplit(s, 10);
    Powers();
    hide Value, AllDigits, Pow;
  }

  /** A uid minted in an earlier millisecond sorts first. */
  lemma EarlierSortsFirst(s: string, t: string)
    requires Valid(s) && Valid(t) && Timestamp(s) < Timestamp(t)
    ensures LexLess(s, t)
  {
    OrderIsNumeric(s, t);
  }

  ghost predicate BytesDifferAt(a: seq<bv8>, b: seq<bv8>, k: nat) {
    k < |a| && k < |b| && a[..k] == b[..k] && a[k] < b[k]
  }

  lemma WideOrder(x: bv8, y: bv8)
    ensures Wide(x) < 256 && Wide(y) < 256
    ensures Before(Wide(x), Wide(y)) <==> x < y
    ensures Wide(x) == Wide(y) <==> x == y
  {
  }

  lemma OctetOrder(x: bv8, y: bv8)
    ensures Octet(x) < Octet(y) <==> x < y
    ensures Octet(x) == Octet(y) <==> x == y
  {
    WideOrder(x, y);
    hide *;
    OctetIs(x);
    OctetIs(y);
    ByteOrder(Wide(x), Wide(y));
  }

  lemma OctetsPrefix(a: seq<bv8>, b: seq<bv8>, k: nat)
    requires |a| == |b| && k <= |a|
    ensures Octets(a)[..k] == Octets(b)[..k] <==> a[..k] == b[..k]
  {
    hide Octet;
    if Octets(a)[..k] == Octets(b)[..k] {
      forall i | 0 <= i < k ensures a[i] == b[i] {
        assert Octets(a)[..k][i] == Octets(b)[..k][i];
        OctetOrder(a[i], b[i]);
      }
    } else if a[..k] == b[..k] {
      forall i | 0 <= i < k ensures Octets(a)[i] == Octets(b)[i] {
        assert a[..k][i] == b[..k][i];
      }
    }
  }

  /** Encoding keeps the order of the bytes, and tells apart what they tell apart. */
  lemma EncodingKeepsOrder(a: seq<bv8>, b: seq<bv8>, s: string, t: string)
    requires |a| == |b| == 16
    requires Valid(s) && Value(s) == Number(a) && Valid(t) && Value(t) == Number(b)
    ensures LexLess(s, t) <==> exists k: nat :: BytesDifferAt(a, b, k)
    ensures s == t <==> a == b
  {
    hide Octet, Value, IsDigit, Digit, BytesDifferAt, DiffersAt, LexLess, Numeral;
    OrderIsNumeric(s, t);
    OctetsInBase(a);
    OctetsInBase(b);
    NumeralOrder(256, Octets(a), Octets(b));
    forall k: nat ensures BytesDifferAt(a, b, k) <==> DiffersAt(Octets(a), Octets(b), k) {
      BytesDifferAlike(a, b, k);
    }
    OctetsPrefix(a, b, 16);
    assert a[..16] == a && b[..16] == b && Octets(a)[..16] == Octets(a) && Octets(b)[..16] == Octets(b);
  }

  lemma BytesDifferAlike(a: seq<bv8>, b: seq<bv8>, k: nat)
    requires |a| == |b|
    ensures BytesDifferAt(a, b, k) <==> DiffersAt(Octets(a), Octets(b), k)
  {
    hide Octet;
    if k < |a| {
      OctetsPrefix(a, b, k);
      OctetOrder(a[k], b[k]);
    }
  }
}
