/**
 * Phone numbers: `formatPhoneNumber` removes every character the regular
 * expression class `\D` matches (everything except '0'..'9'), and
 * `isValidIndonesianPhone` accepts a number whose cleaned form has 10 to 14
 * digits.
 */
module Phone {
  import opened Decimal

  const MinDigits := 10
  const MaxDigits := 14

  /** `phone.replace(/\D/g, '')`: the digits of `phone`, nothing else. */
  function FormatPhoneNumber(phone: string): (r: string)
    ensures |r| <= |phone|
    ensures AllDigits(r)
  {
    if phone == [] then []
    else (if IsDigit(phone[0]) then [phone[0]] else []) + FormatPhoneNumber(phone[1..])
  }

  /** Cleaning works piece by piece: it keeps the order of the digits. */
  lemma {:induction false} FormatConcat(a: string, b: string)
    ensures FormatPhoneNumber(a + b) == FormatPhoneNumber(a) + FormatPhoneNumber(b)
  {
    if a == [] {
      assert a + b == b;
    } else {
      assert (a + b)[0] == a[0];
      assert (a + b)[1..] == a[1..] + b;
      FormatConcat(a[1..], b);
    }
  }

  /** A single character is kept exactly when it is a digit. */
  lemma FormatSingle(c: char)
    ensures FormatPhoneNumber([c]) == if IsDigit(c) then [c] else []
  {
  }

  /** A string of digits is left as it is. */
  lemma {:induction false} FormatKeepsDigits(p: string)
    requires AllDigits(p)
    ensures FormatPhoneNumber(p) == p
  {
    if p != [] {
      FormatKeepsDigits(p[1..]);
    }
  }

  lemma FormatIdempotent(p: string)
    ensures FormatPhoneNumber(FormatPhoneNumber(p)) == FormatPhoneNumber(p)
  {
    FormatKeepsDigits(FormatPhoneNumber(p));
  }

  /** Every digit of the input survives, as often as it occurs; nothing else does. */
  lemma {:induction false} FormatCountsDigits(p: string, c: char)
    ensures multiset(FormatPhoneNumber(p))[c] == if IsDigit(c) then multiset(p)[c] else 0
  {
    if p != [] {
      assert p == [p[0]] + p[1..];
      FormatCountsDigits(p[1..], c);
    }
  }

  /** Removing a separator (a non-digit) leaves the cleaned number unchanged. */
  lemma FormatIgnoresSeparator(a: string, c: char, b: string)
    requires !IsDigit(c)
    ensures FormatPhoneNumber(a + [c] + b) == FormatPhoneNumber(a + b)
  {
    FormatConcat(a + [c], b);
    FormatConcat(a, [c]);
    FormatSingle(c);
    FormatConcat(a, b);
  }

  /** The positions of the input that hold a digit. */
  ghost function DigitPositions(phone: string): set<int> {
    set i | 0 <= i < |phone| && IsDigit(phone[i])
  }

  /** The cleaned number is as long as the input has digit positions. */
  lemma {:induction false} FormatLengthCountsDigits(phone: string)
    ensures |FormatPhoneNumber(phone)| == |DigitPositions(phone)|
    decreases |phone|
  {
    if phone != [] {
      var n := |phone| - 1;
      var init := phone[..n];
      FormatLengthCountsDigits(init);
      assert phone == init + [phone[n]];
      FormatConcat(init, [phone[n]]);
      FormatSingle(phone[n]);
      assert n !in DigitPositions(init);
      assert DigitPositions(phone) == DigitPositions(init) + (if IsDigit(phone[n]) then {n} else {});
    }
  }

  /** `isValidIndonesianPhone`: the input holds 10 to 14 digits, wherever they stand. */
  function IsValidIndonesianPhone(phone: string): (ok: bool)
    ensures ok <==> MinDigits <= |DigitPositions(phone)| <= MaxDigits
  {
    var cleaned := FormatPhoneNumber(phone);
    FormatLengthCountsDigits(phone);
    |cleaned| >= MinDigits && |cleaned| <= MaxDigits
  }

  /** Validity depends only on the digits: separators do not matter, ... */
  lemma ValidIgnoresSeparator(a: string, c: char, b: string)
    requires !IsDigit(c)
    ensures IsValidIndonesianPhone(a + [c] + b) == IsValidIndonesianPhone(a + b)
  {
    FormatIgnoresSeparator(a, c, b);
  }

  /** ... and a number is valid exactly when its cleaned form is. */
  lemma ValidIffCleanedValid(p: string)
    ensures IsValidIndonesianPhone(FormatPhoneNumber(p)) == IsValidIndonesianPhone(p)
  {
    FormatIdempotent(p);
  }

  /** A string of n digits is valid exactly when 10 <= n <= 14. */
  lemma ValidDigitString(p: string)
    requires AllDigits(p)
    ensures IsValidIndonesianPhone(p) <==> MinDigits <= |p| <= MaxDigits
  {
    FormatKeepsDigits(p);
  }

  /** 10 and 14 digits are accepted. */
  lemma ValidExamples(ten: string, fourteen: string)
    requires ten == "0812345678" && fourteen == "62812345678901"
    ensures IsValidIndonesianPhone(ten) && IsValidIndonesianPhone(fourteen)
  {
    ValidDigitString(ten);
    ValidDigitString(fourteen);
  }

  /** 9 and 15 digits are rejected. */
  lemma InvalidExamples()
    ensures !IsValidIndonesianPhone("081234567") && !IsValidIndonesianPhone("081234567890123")
  {
    ValidDigitString("081234567");
    ValidDigitString("081234567890123");
  }
}
