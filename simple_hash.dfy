/**
 * The password digest of the authentication context: a left fold over the
 * UTF-16 code units of the password that maps the running value `h` to
 * `(h << 5) - h + c` and truncates it to a signed 32-bit integer after each
 * unit, rendered at the end with `toString()`.
 */
module SimpleHash {
  import opened NumberText

  /** A UTF-16 code unit, as returned by `String.prototype.charCodeAt`. */
  type CodeUnit = c: int | 0 <= c < 0x1_0000

  const Two32: int := 0x1_0000_0000
  const Two31: int := 0x8000_0000

  predicate IsInt32(x: int) {
    -Two31 <= x < Two31
  }

  /** ECMAScript ToInt32: reduce modulo 2^32, then read the result as signed. */
  function ToInt32(x: int): (r: int)
    ensures IsInt32(r)
    ensures (x - r) % Two32 == 0
    ensures IsInt32(x) ==> r == x
  {
    var m := x % Two32;
    if m >= Two31 then m - Two32 else m
  }

  /** `x << 5` on a JavaScript number: ToInt32 of the operand, shifted, read as int32. */
  function ShiftLeft5(x: int): (r: int)
    ensures IsInt32(r)
  {
    ToInt32(ToInt32(x) * 32)
  }

  /**
   * One iteration of the loop body: `hash = (hash << 5) - hash + code; hash |= 0`.
   * The shift-and-subtract is multiplication by 31, modulo 2^32.
   */
  function Step(h: int, c: CodeUnit): (r: int)
    ensures r == ToInt32(31 * h + c)
  {
    var shifted := ShiftLeft5(h);
    ShiftLeft5Congruent(h);
    assert (shifted - h + c) - (31 * h + c) == shifted - 32 * h;
    ToInt32Congruent(shifted - h + c, 31 * h + c);
    ToInt32(shifted - h + c)
  }

  /** The value of `hash` after the loop has consumed all of `s`. */
  function Hash(s: seq<CodeUnit>): (h: int)
    ensures IsInt32(h)
  {
    if s == [] then 0 else Step(Hash(s[..|s| - 1]), s[|s| - 1])
  }

  /** The digest text that the source stores and compares: the int32 value of the polynomial. */
  function HashText(s: seq<CodeUnit>): (t: string)
    ensures t == IntToString(ToInt32(Poly(s)))
  {
    HashIsPolynomial(s);
    IntToString(Hash(s))
  }

  /** The un-truncated polynomial `sum of s[i] * 31^(|s|-1-i)`. */
  function Poly(s: seq<CodeUnit>): int {
    if s == [] then 0 else 31 * Poly(s[..|s| - 1]) + s[|s| - 1]
  }

  lemma ToInt32Congruent(x: int, y: int)
    requires (x - y) % Two32 == 0
    ensures ToInt32(x) == ToInt32(y)
  {
    assert Two32 == 0x1_0000_0000;
    var k := (x - y) / 0x1_0000_0000;
    assert x == y + k * 0x1_0000_0000;
    assert x % 0x1_0000_0000 == y % 0x1_0000_0000;
  }

  /** Multiplying a multiple of 2^32 keeps it a multiple of 2^32. */
  lemma ScaledCongruence(a: int, b: int, m: int, c: int)
    requires (a - b) % Two32 == 0
    ensures (m * a + c - (m * b + c)) % Two32 == 0
  {
    assert Two32 == 0x1_0000_0000;
    var k := (a - b) / 0x1_0000_0000;
    assert a - b == k * 0x1_0000_0000;
    assert m * a + c - (m * b + c) == m * (a - b);
    assert m * (a - b) == (m * k) * 0x1_0000_0000;
  }

  /** A whole number of 2^32 steps leaves no remainder. */
  lemma MultipleHasNoRemainder(k: int)
    ensures (k * 0x1_0000_0000) % Two32 == 0
  {
    assert Two32 == 0x1_0000_0000;
  }

  lemma MultipleSum(p: int, q: int)
    requires p % Two32 == 0 && q % Two32 == 0
    ensures (p + q) % Two32 == 0 && (0 - p) % Two32 == 0
  {
    assert Two32 == 0x1_0000_0000;
    var i, j := p / 0x1_0000_0000, q / 0x1_0000_0000;
    assert p == i * 0x1_0000_0000 && q == j * 0x1_0000_0000;
    MultipleHasNoRemainder(i + j);
    MultipleHasNoRemainder(0 - i);
    assert p + q == (i + j) * 0x1_0000_0000;
    assert 0 - p == (0 - i) * 0x1_0000_0000;
  }

  /** Shifting left by five multiplies by 32, modulo 2^32. */
  lemma ShiftLeft5Congruent(x: int)
    ensures (ShiftLeft5(x) - 32 * x) % Two32 == 0
  {
    var a := ToInt32(x);
    var r := ToInt32(a * 32);
    ScaledCongruence(x, a, 32, 0);
    assert (32 * x - 32 * a) % Two32 == 0;
    assert (a * 32 - r) % Two32 == 0;
    MultipleSum(32 * x - 32 * a, a * 32 - r);
    MultipleSum((32 * x - 32 * a) + (a * 32 - r), 0);
    assert r - 32 * x == 0 - ((32 * x - 32 * a) + (a * 32 - r));
  }

  /** Truncating after every step equals truncating the exact polynomial once. */
  lemma {:induction false} HashIsPolynomial(s: seq<CodeUnit>)
    ensures Hash(s) == ToInt32(Poly(s))
  {
    if s != [] {
      var p, c := s[..|s| - 1], s[|s| - 1];
      HashIsPolynomial(p);
      // Hash(p) and Poly(p) agree modulo 2^32, and so do 31 * _ + c of them.
      assert (Poly(p) - Hash(p)) % Two32 == 0;
      ScaledCongruence(Poly(p), Hash(p), 31, c);
      ToInt32Congruent(31 * Poly(p) + c, 31 * Hash(p) + c);
    }
  }

  /** The empty password hashes to `"0"`. */
  lemma EmptyHashText()
    ensures HashText([]) == "0"
  {
  }

  /** Two passwords are accepted as the same exactly when their 32-bit values agree. */
  lemma HashTextEqualIff(p: seq<CodeUnit>, q: seq<CodeUnit>)
    ensures HashText(p) == HashText(q) <==> ToInt32(Poly(p)) == ToInt32(Poly(q))
  {
    IntToStringInjective(Hash(p), Hash(q));
    HashIsPolynomial(p);
    HashIsPolynomial(q);
  }

  /** The source's `simpleHash(str)`: the loop over the code units of `str`. */
  method Digest(str: seq<CodeUnit>) returns (text: string)
    ensures text == HashText(str)
    ensures text == IntToString(ToInt32(Poly(str)))
  {
    var hash := 0;
    var i := 0;
    while i < |str|
      invariant 0 <= i <= |str|
      invariant hash == Hash(str[..i])
    {
      var code := str[i];
      hash := ShiftLeft5(hash) - hash + code;
      hash := ToInt32(hash);
      assert str[..i + 1][..i] == str[..i];
      i := i + 1;
    }
    assert str[..|str|] == str;
    HashIsPolynomial(str);
    text := IntToString(hash);
  }
}
