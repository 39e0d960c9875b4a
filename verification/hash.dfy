/** `AuthenticationManager.hashPassword`: a 31-multiplier fold over the
    password's UTF-16 code units in signed 32-bit arithmetic, rendered as a
    decimal string. It is the same function as Java's `String.hashCode`, and
    it is not a cryptographic hash. */
module PasswordHash {
  import Text

  const TwoTo31: int := 0x8000_0000
  const TwoTo32: int := 0x1_0000_0000

  predicate IsInt32(x: int) {
    -TwoTo31 <= x < TwoTo31
  }

  /** ECMAScript ToInt32: the 32-bit two's-complement value congruent to `x`. */
  function ToInt32(x: int): (r: int)
    ensures IsInt32(r)
    ensures (x - r) % TwoTo32 == 0
    ensures IsInt32(x) ==> r == x
  {
    (x + TwoTo31) % TwoTo32 - TwoTo31
  }

  lemma ModAddMultiple(a: int, k: int)
    ensures (a + k * TwoTo32) % TwoTo32 == a % TwoTo32
  {
  }

  /** One iteration of the source loop as written: `hash << 5` takes ToInt32
      of the 32-fold product, the difference and the added code unit are exact,
      and `hash & hash` wraps the sum back to 32 bits. */
  function StepAsWritten(h: int, unit: int): int {
    ToInt32(ToInt32(h * 32) - h + unit)
  }

  /** The loop's value after the given code units, starting from `hash = 0`. */
  function HashCode(units: seq<int>): (r: int)
    ensures IsInt32(r)
  {
    if |units| == 0 then 0
    else StepAsWritten(HashCode(units[..|units| - 1]), units[|units| - 1])
  }

  /** Reference definition: the unbounded polynomial
      u0*31^(n-1) + ... + u(n-1), computed by Horner's rule. */
  function Poly(units: seq<int>): int {
    if |units| == 0 then 0
    else 31 * Poly(units[..|units| - 1]) + units[|units| - 1]
  }

  /** Wrapping after every step is the same as wrapping once at the end. */
  lemma StepWraps(x: int, unit: int)
    ensures StepAsWritten(ToInt32(x), unit) == ToInt32(31 * x + unit)
  {
    var h := ToInt32(x);
    var shifted := ToInt32(h * 32);
    var a := (h * 32 - shifted) / 0x1_0000_0000;
    var b := (x - h) / 0x1_0000_0000;
    assert h * 32 == shifted + a * 0x1_0000_0000;
    assert x == h + b * 0x1_0000_0000;
    assert 31 * x + unit == (shifted - h + unit) + (a + 31 * b) * 0x1_0000_0000;
    ModAddMultiple(shifted - h + unit + TwoTo31, a + 31 * b);
  }

  /** The as-written loop computes the 32-bit wrap of the polynomial hash. */
  lemma {:induction false} HashCodeIsWrappedPoly(units: seq<int>)
    ensures HashCode(units) == ToInt32(Poly(units))
  {
    if |units| > 0 {
      var init := units[..|units| - 1];
      HashCodeIsWrappedPoly(init);
      StepWraps(Poly(init), units[|units| - 1]);
    }
  }

  /** The `for` loop of `hashPassword`, statement by statement. */
  method HashLoop(password: string) returns (hash: int)
    ensures hash == ToInt32(Poly(Text.Utf16(password)))
    ensures IsInt32(hash)
  {
    var units := Text.Utf16(password);
    hash := 0;
    var i := 0;
    while i < |units|
      invariant 0 <= i <= |units|
      invariant hash == ToInt32(Poly(units[..i]))
    {
      var ch := units[i];
      StepWraps(Poly(units[..i]), ch);
      assert units[..i + 1][..i] == units[..i];
      hash := ToInt32(ToInt32(hash * 32) - hash + ch);
      i := i + 1;
    }
    assert units[..i] == units;
  }

  function DigitChar(d: int): char
    requires 0 <= d < 10
  {
    ('0' as int + d) as char
  }

  /** `n.toString()` for a non-negative integer. */
  function NatToDecimal(n: nat): (r: string)
    ensures |r| >= 1
    ensures '0' <= r[0] <= '9'
    ensures r[|r| - 1] == DigitChar(n % 10)
    decreases n
  {
    if n < 10 then [DigitChar(n)] else NatToDecimal(n / 10) + [DigitChar(n % 10)]
  }

  /** `x.toString()` for an integer. */
  function IntToDecimal(x: int): string {
    if x < 0 then "-" + NatToDecimal(-x) else NatToDecimal(x)
  }

  lemma {:induction false} NatToDecimalInjective(a: nat, b: nat)
    requires NatToDecimal(a) == NatToDecimal(b)
    ensures a == b
    decreases a
  {
    var sa, sb := NatToDecimal(a), NatToDecimal(b);
    if a < 10 && b < 10 {
      assert DigitChar(a) == sa[0] == sb[0] == DigitChar(b);
    } else if a >= 10 && b >= 10 {
      assert sa[..|sa| - 1] == NatToDecimal(a / 10);
      assert sb[..|sb| - 1] == NatToDecimal(b / 10);
      NatToDecimalInjective(a / 10, b / 10);
      assert DigitChar(a % 10) == DigitChar(b % 10);
    }
  }

  /** Distinct integers print differently, so comparing stored hash strings
      compares the hash values. */
  lemma IntToDecimalInjective(x: int, y: int)
    ensures IntToDecimal(x) == IntToDecimal(y) <==> x == y
  {
    if IntToDecimal(x) == IntToDecimal(y) {
      if x < 0 && y < 0 {
        assert NatToDecimal(-x) == IntToDecimal(x)[1..];
        assert NatToDecimal(-y) == IntToDecimal(y)[1..];
        NatToDecimalInjective(-x, -y);
      } else if x >= 0 && y >= 0 {
        NatToDecimalInjective(x, y);
      }
    }
  }

  /** `hashPassword(password)`: the stored credential string. */
  function HashPassword(password: string): string {
    IntToDecimal(HashCode(Text.Utf16(password)))
  }

  /** Two passwords are accepted interchangeably exactly when their 32-bit
      polynomial hashes agree. */
  lemma HashPasswordMatch(p: string, q: string)
    ensures HashPassword(p) == HashPassword(q)
        <==> ToInt32(Poly(Text.Utf16(p))) == ToInt32(Poly(Text.Utf16(q)))
  {
    HashCodeIsWrappedPoly(Text.Utf16(p));
    HashCodeIsWrappedPoly(Text.Utf16(q));
    IntToDecimalInjective(HashCode(Text.Utf16(p)), HashCode(Text.Utf16(q)));
  }

  /** The empty password hashes to "0". */
  lemma EmptyPasswordHash()
    ensures HashPassword("") == "0"
  {
  }

  /** The hash of a string is decided by the hash of any prefix and the
      rest of the string: prefixes with equal hashes stay equal under the
      same suffix. */
  lemma {:induction false} HashCodeSameSuffix(p: seq<int>, q: seq<int>, w: seq<int>)
    requires HashCode(p) == HashCode(q)
    ensures HashCode(p + w) == HashCode(q + w)
    decreases |w|
  {
    if |w| == 0 {
      assert p + w == p && q + w == q;
    } else {
      var init := w[..|w| - 1];
      HashCodeSameSuffix(p, q, init);
      assert (p + w)[..|p + w| - 1] == p + init;
      assert (q + w)[..|q + w| - 1] == q + init;
    }
  }

  lemma TwoUnitHash(u0: int, u1: int)
    requires 0 <= u0 < 0x1_0000 && 0 <= u1 < 0x1_0000
    ensures HashCode([u0, u1]) == 31 * u0 + u1
  {
    assert [u0, u1][..1] == [u0];
    assert [u0][..0] == [];
    assert HashCode([u0]) == ToInt32(ToInt32(0) - 0 + u0) == u0;
    assert ToInt32(u0 * 32) == u0 * 32;
  }

  lemma Decimal2112()
    ensures IntToDecimal(2112) == "2112"
  {
    assert NatToDecimal(2) == "2";
    assert NatToDecimal(21) == "21";
    assert NatToDecimal(211) == "211";
  }

  /** The hash is not injective: "Aa" and "BB" share the hash 2112. */
  lemma CollidingPasswords()
    ensures "Aa" != "BB" && HashPassword("Aa") == HashPassword("BB") == "2112"
  {
    assert Text.Utf16("Aa") == [65, 97];
    assert Text.Utf16("BB") == [66, 66];
    TwoUnitHash(65, 97);
    TwoUnitHash(66, 66);
    Decimal2112();
  }

  lemma AaAaUnits()
    ensures Text.Utf16("AaAa") == [65, 97, 65, 97]
  {
    assert "AaAa" == "Aa" + "Aa";
    Text.Utf16Append("Aa", "Aa");
    assert Text.Utf16("Aa") == [65, 97];
  }

  lemma LongUnits()
    ensures Text.Utf16("AaAaAa") == [65, 97] + [65, 97, 65, 97]
    ensures Text.Utf16("BBAaAa") == [66, 66] + [65, 97, 65, 97]
  {
    AaAaUnits();
    assert "AaAaAa" == "Aa" + "AaAa";
    assert "BBAaAa" == "BB" + "AaAa";
    Text.Utf16Append("Aa", "AaAa");
    Text.Utf16Append("BB", "AaAa");
    assert Text.Utf16("Aa") == [65, 97];
    assert Text.Utf16("BB") == [66, 66];
  }

  /** Colliding prefixes give colliding passwords of any length:
      "AaAaAa" and "BBAaAa" hash alike. */
  lemma CollidingLongPasswords()
    ensures HashPassword("AaAaAa") == HashPassword("BBAaAa")
    ensures Text.Length16("AaAaAa") == 6 && Text.Length16("BBAaAa") == 6
  {
    LongUnits();
    var w := [65, 97, 65, 97];
    TwoUnitHash(65, 97);
    TwoUnitHash(66, 66);
    HashCodeSameSuffix([65, 97], [66, 66], w);
  }
}
