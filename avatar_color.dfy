/**
 * `stringToColor`: an avatar colour picked from a 12-entry palette by a
 * rolling hash of the name's UTF-16 code units.
 *
 * JavaScript numbers are doubles; the hash is modelled with exact integers.
 * Only `<<` wraps to 32 bits (ToInt32, section 7.1.6 of ECMA-262); the
 * addition and subtraction around it do not, so the hash is not confined to
 * 32 bits. HashBound shows it stays far below 2^53 for any realistic name,
 * where double arithmetic on integers is exact.
 */
module AvatarColor {
  import opened Wrappers

  const TwoTo31 := 0x8000_0000
  const TwoTo32 := 0x1_0000_0000
  const TwoTo53 := 0x20_0000_0000_0000

  /** A UTF-16 code unit, what `charCodeAt` returns. */
  type CodeUnit = x: int | 0 <= x < 0x1_0000

  /** ToInt32 of an integral number: wrap modulo 2^32 into [-2^31, 2^31). */
  function ToInt32(x: int): (r: int)
    ensures -TwoTo31 <= r < TwoTo31
    ensures (x - r) % TwoTo32 == 0
  {
    var m := x % TwoTo32;
    if m >= TwoTo31 then m - TwoTo32 else m
  }

  /** Numbers already in the signed 32-bit range are left alone. */
  lemma ToInt32OfInt32(x: int)
    requires -TwoTo31 <= x < TwoTo31
    ensures ToInt32(x) == x
  {
  }

  /** `x << 5` (section 13.9.1 of ECMA-262): ToInt32(x), shifted, wrapped again. */
  function ShiftLeft5(x: int): (r: int)
    ensures -TwoTo31 <= r < TwoTo31
  {
    ToInt32(ToInt32(x) * 32)
  }

  /** Wrapping before the shift changes nothing: `x << 5` is ToInt32(32 * x). */
  lemma ShiftLeft5Wraps(x: int)
    ensures ShiftLeft5(x) == ToInt32(x * 32)
  {
    var w := ToInt32(x);
    var q := (x - w) / TwoTo32;
    assert x - w == q * TwoTo32;
    assert x * 32 == w * 32 + (q * 32) * TwoTo32;
    ToInt32Congruent(w * 32, q * 32);
  }

  /** ToInt32 ignores multiples of 2^32. */
  lemma ToInt32Congruent(x: int, k: int)
    ensures ToInt32(x + k * TwoTo32) == ToInt32(x)
  {
  }

  /** Values below 2^26 in magnitude are shifted without wrapping. */
  lemma ShiftLeft5Small(x: int)
    requires -0x400_0000 <= x < 0x400_0000
    ensures ShiftLeft5(x) == x * 32
  {
  }

  /** One round of the loop: `hash = str.charCodeAt(i) + ((hash << 5) - hash)`. */
  function Step(hash: int, c: CodeUnit): int {
    c + (ShiftLeft5(hash) - hash)
  }

  /** The value of `hash` after the loop has consumed all of `s`. */
  function Hash(s: seq<CodeUnit>): int {
    if s == [] then 0 else Step(Hash(s[..|s| - 1]), s[|s| - 1])
  }

  function Abs(x: int): nat {
    if x < 0 then -x else x
  }

  const Palette: seq<string> := [
    "#667eea", "#764ba2", "#f093fb", "#f5576c",
    "#4facfe", "#00f2fe", "#43e97b", "#38f9d7",
    "#fa709a", "#fee140", "#a8edea", "#fed6e3"
  ]

  /** `Math.abs(hash) % colors.length`; JavaScript's `%` on a non-negative left side. */
  function ColorIndex(hash: int): (k: nat)
    ensures k < |Palette| == 12
    ensures (Abs(hash) - k) % 12 == 0
  {
    Abs(hash) % |Palette|
  }

  /** The colour `stringToColor` returns for `s`. */
  function ColorOf(s: seq<CodeUnit>): (color: string)
    ensures color in Palette
  {
    Palette[ColorIndex(Hash(s))]
  }

  /** The loop of `stringToColor`, then the palette look-up. */
  method StringToColor(str: seq<CodeUnit>) returns (color: string)
    ensures color == ColorOf(str)
    ensures color in Palette
  {
    var hash := 0;
    for i := 0 to |str|
      invariant hash == Hash(str[..i])
    {
      assert str[..i + 1][..i] == str[..i];
      hash := str[i] + (ShiftLeft5(hash) - hash);
    }
    assert str[..|str|] == str;
    color := Palette[ColorIndex(hash)];
  }

  /** One round grows the hash by at most 2^31 + 0xFFFF in magnitude. */
  lemma StepBound(hash: int, c: CodeUnit)
    ensures Abs(Step(hash, c)) <= Abs(hash) + TwoTo31 + 0xFFFF
  {
  }

  /** After n code units the hash has magnitude at most n * (2^31 + 0xFFFF). */
  lemma {:induction false} HashBound(s: seq<CodeUnit>)
    ensures Abs(Hash(s)) <= |s| * (TwoTo31 + 0xFFFF)
  {
    if s != [] {
      HashBound(s[..|s| - 1]);
      StepBound(Hash(s[..|s| - 1]), s[|s| - 1]);
    }
  }

  /**
   * For names of up to four million code units every value the loop
   * computes is an integer below 2^53 in magnitude, so the double
   * arithmetic of the source agrees with this exact model.
   */
  lemma ExactInDoubles(s: seq<CodeUnit>)
    requires |s| <= 4_000_000
    ensures Abs(Hash(s)) < TwoTo53
    ensures Abs(ShiftLeft5(Hash(s)) - Hash(s)) < TwoTo53
  {
    HashBound(s);
  }

  /** The hash of a longer name continues from the hash of its prefix. */
  lemma HashAppend(s: seq<CodeUnit>, c: CodeUnit)
    ensures Hash(s + [c]) == Step(Hash(s), c)
  {
  }

  lemma Examples()
    ensures Hash([]) == 0 && ColorOf([]) == "#667eea"
    ensures Hash([65]) == 65 && ColorOf([65]) == "#00f2fe"
  {
  }

  /** The rounds of the loop on "Haerul Amin", one by one. */
  lemma ExampleSteps()
    ensures Step(0, 72) == 72 &&
      Step(72, 97) == 2329 &&
      Step(2329, 101) == 72300 &&
      Step(72300, 114) == 2241414 &&
      Step(2241414, 117) == 69483951 &&
      Step(69483951, 108) == -2140964707 &&
      Step(-2140964707, 32) == 2349570851 &&
      Step(2349570851, 65) == -4472714882 &&
      Step(-4472714882, 109) == 3079759535 &&
      Step(3079759535, 105) == -3311702118 &&
      Step(-3311702118, 110) == 4711416852
  {
  }

  lemma HashPrefix(s: seq<CodeUnit>, k: nat)
    requires k < |s|
    ensures Hash(s[..k + 1]) == Step(Hash(s[..k]), s[k])
  {
    assert s[..k + 1][..k] == s[..k];
  }

  /**
   * "Haerul Amin" (code units H a e r u l, space, A m i n): the hash leaves
   * the 32-bit range (4711416852 > 2^32).
   */
  lemma ExampleBeyond32Bits(name: seq<CodeUnit>)
    requires |name| == 11
    requires name[0] == 72 && name[1] == 97 && name[2] == 101 && name[3] == 114 && name[4] == 117 && name[5] == 108
    requires name[6] == 32 && name[7] == 65 && name[8] == 109 && name[9] == 105 && name[10] == 110
    ensures Hash(name) == 4711416852 && Hash(name) >= TwoTo32
  {
    ExampleSteps();
    assert name[..0] == [];
    HashPrefix(name, 0);
    HashPrefix(name, 1);
    HashPrefix(name, 2);
    HashPrefix(name, 3);
    HashPrefix(name, 4);
    HashPrefix(name, 5);
    HashPrefix(name, 6);
    HashPrefix(name, 7);
    HashPrefix(name, 8);
    HashPrefix(name, 9);
    HashPrefix(name, 10);
    assert name[..11] == name;
  }

  /** 4711416852 = 12 * 392618071, so "Haerul Amin" gets the first colour. */
  lemma ExampleColor(name: seq<CodeUnit>)
    requires Hash(name) == 4711416852
    ensures ColorOf(name) == "#667eea"
  {
  }

  /**
   * JavaScript strings are UTF-16: a character above U+FFFF is stored as a
   * surrogate pair, and `charCodeAt` sees the two halves.
   */
  function Utf16(s: string): (units: seq<CodeUnit>)
    ensures |s| <= |units| <= 2 * |s|
  {
    if s == [] then [] else EncodeChar(s[0]) + Utf16(s[1..])
  }

  /** The code units of one character: itself, or a surrogate pair. */
  function EncodeChar(ch: char): (units: seq<CodeUnit>)
    ensures 1 <= |units| <= 2
  {
    var c := ch as int;
    if c < 0x1_0000 then [c as CodeUnit]
    else [(0xD800 + (c - 0x1_0000) / 0x400) as CodeUnit, (0xDC00 + (c - 0x1_0000) % 0x400) as CodeUnit]
  }

  /** A high surrogate, the first half of a pair. */
  predicate IsHighSurrogate(u: CodeUnit) { 0xD800 <= u < 0xDC00 }

  /** A low surrogate, the second half of a pair. */
  predicate IsLowSurrogate(u: CodeUnit) { 0xDC00 <= u < 0xE000 }

  /** The character a surrogate pair stands for. */
  function PairValue(hi: CodeUnit, lo: CodeUnit): int {
    (hi as int - 0xD800) * 0x400 + (lo as int - 0xDC00) + 0x1_0000
  }

  /**
   * Reading UTF-16 back into characters: a unit outside the surrogate range
   * is a character of its own, a high surrogate followed by a low one is the
   * character the pair encodes, and a lone surrogate is ill-formed.
   */
  function FromUtf16(units: seq<CodeUnit>): (r: Option<string>)
    ensures r.Some? ==> |r.value| <= |units|
    decreases |units|
  {
    if units == [] then Some([])
    else if !IsHighSurrogate(units[0]) && !IsLowSurrogate(units[0]) then
      match FromUtf16(units[1..])
      case None => None
      case Some(rest) => Some([units[0] as char] + rest)
    else if IsHighSurrogate(units[0]) && |units| >= 2 && IsLowSurrogate(units[1]) then
      var c := PairValue(units[0], units[1]);
      match FromUtf16(units[2..])
      case None => None
      case Some(rest) => Some([c as char] + rest)
    else None
  }

  /** Encoding a concatenation encodes the parts one after the other. */
  lemma {:induction false} Utf16Concat(a: string, b: string)
    ensures Utf16(a + b) == Utf16(a) + Utf16(b)
    decreases |a|
  {
    if a == [] {
      assert a + b == b;
    } else {
      assert (a + b)[0] == a[0];
      assert (a + b)[1..] == a[1..] + b;
      calc {
        Utf16(a + b);
        EncodeChar(a[0]) + Utf16(a[1..] + b);
        { Utf16Concat(a[1..], b); }
        EncodeChar(a[0]) + (Utf16(a[1..]) + Utf16(b));
        (EncodeChar(a[0]) + Utf16(a[1..])) + Utf16(b);
        Utf16(a) + Utf16(b);
      }
    }
  }

  /**
   * A character above U+FFFF becomes a high surrogate followed by a low
   * one, and the pair gives the character back.
   */
  lemma SurrogatePair(c: char)
    requires c as int >= 0x1_0000
    ensures |EncodeChar(c)| == 2
    ensures IsHighSurrogate(EncodeChar(c)[0]) && IsLowSurrogate(EncodeChar(c)[1])
    ensures PairValue(EncodeChar(c)[0], EncodeChar(c)[1]) == c as int
  {
  }

  /** One character's encoding is its code units. */
  lemma Utf16Single(c: char)
    ensures Utf16([c]) == EncodeChar(c)
  {
    assert [c][1..] == [];
  }

  /**
   * In a string with no character above U+FFFF, each character is one code
   * unit, so `charCodeAt(i)` is the code of the i-th character.
   */
  lemma {:induction false} Utf16Bmp(s: string)
    requires forall i :: 0 <= i < |s| ==> s[i] as int < 0x1_0000
    ensures |Utf16(s)| == |s|
    ensures forall i :: 0 <= i < |s| ==> Utf16(s)[i] == s[i] as int
    decreases |s|
  {
    if s != [] {
      Utf16Bmp(s[1..]);
    }
  }

  /** Decoding undoes encoding: no two strings share a UTF-16 form. */
  lemma {:induction false} Utf16RoundTrip(s: string)
    ensures FromUtf16(Utf16(s)) == Some(s)
    decreases |s|
  {
    if s != [] {
      Utf16RoundTrip(s[1..]);
      var u := Utf16(s);
      var c := s[0] as int;
      if c < 0x1_0000 {
        assert u[1..] == Utf16(s[1..]);
        assert [u[0] as char] + s[1..] == s;
      } else {
        var hi := (0xD800 + (c - 0x1_0000) / 0x400) as CodeUnit;
        var lo := (0xDC00 + (c - 0x1_0000) % 0x400) as CodeUnit;
        assert u[2..] == Utf16(s[1..]);
        assert PairValue(hi, lo) == c;
        assert [c as char] + s[1..] == s;
      }
    }
  }
}
