/**
 IBAN check digits, MOD 97-10 of ISO/IEC 7064 as ISO 13616-1 uses it. A string here is over
 ASCII; a letter outside `A`..`Z` is the KeyError of the table lookup.
 */
module Iban {
  import opened Wrappers

  predicate IsDigit(c: char) { '0' <= c <= '9' }

  predicate IsUpper(c: char) { 'A' <= c <= 'Z' }

  predicate IsAlpha(c: char) { IsUpper(c) || 'a' <= c <= 'z' }

  predicate IsAlnum(c: char) { IsDigit(c) || IsUpper(c) }

  predicate AllAlnum(s: string) { forall i :: 0 <= i < |s| ==> IsAlnum(s[i]) }

  predicate AllDigits(s: string) { forall i :: 0 <= i < |s| ==> IsDigit(s[i]) }

  function DigitChar(n: nat): char
    requires n < 10
  {
    '0' + n as char
  }

  /** `str(10 + code - 65)` */
  function LetterValue(c: char): string
    requires IsUpper(c)
  {
    var n := 10 + (c as int - 65);
    [DigitChar(n / 10), DigitChar(n % 10)]
  }

  /** No letter is missing from the table. */
  predicate AllMapped(s: string) { forall i :: 0 <= i < |s| ==> !(IsAlpha(s[i]) && !IsUpper(s[i])) }

  function Expand1(c: char): string {
    if IsUpper(c) then LetterValue(c) else [c]
  }

  /** The numeral that an alphanumeric string stands for. */
  function Expand(s: string): string {
    if s == [] then [] else Expand(s[..|s| - 1]) + Expand1(s[|s| - 1])
  }

  /** `_iban_numeric_value(iban)`: `None` is the KeyError for a letter missing from the table. */
  method NumericValue(iban: string) returns (r: Option<string>)
    ensures r == if AllMapped(iban) then Some(Expand(iban)) else None
  {
    var result := [];
    for i := 0 to |iban|
      invariant forall j :: 0 <= j < i ==> !(IsAlpha(iban[j]) && !IsUpper(iban[j]))
      invariant result == Expand(iban[..i])
    {
      var ch := iban[i];
      assert iban[..i + 1][..i] == iban[..i];
      if IsAlpha(ch) {
        if !IsUpper(ch) { return None; }
        result := result + LetterValue(ch);
      } else {
        result := result + [ch];
      }
    }
    assert iban[..|iban|] == iban;
    return Some(result);
  }

  // ---------- numerals as integers ----------

  /** `int(s)` for a string of decimal digits. */
  function Num(s: string): nat
    requires AllDigits(s)
  {
    if s == [] then 0 else Num(s[..|s| - 1]) * 10 + (s[|s| - 1] as int - '0' as int)
  }

  /** The value of one character, and the power of ten by which it shifts what precedes it. */
  function Value(c: char): nat
    requires IsAlnum(c)
  {
    if IsUpper(c) then c as int - 55 else c as int - 48
  }

  function Base(c: char): nat
    requires IsAlnum(c)
  {
    if IsUpper(c) then 100 else 10
  }

  /** `int(_iban_numeric_value(s))`, by the characters of `s`. */
  function IbanNum(s: string): nat
    requires AllAlnum(s)
  {
    if s == [] then 0 else IbanNum(s[..|s| - 1]) * Base(s[|s| - 1]) + Value(s[|s| - 1])
  }

  /** The remainder, reduced after every character, so that no long numeral is formed. */
  function Mod97(s: string): nat
    requires AllAlnum(s)
  {
    if s == [] then 0 else (Mod97(s[..|s| - 1]) * Base(s[|s| - 1]) + Value(s[|s| - 1])) % 97
  }

  lemma Num2(s: string, c: char, d: char)
    requires AllDigits(s) && IsDigit(c) && IsDigit(d)
    ensures AllDigits(s + [c, d])
    ensures Num(s + [c, d]) == Num(s) * 100 + (c as int - 48) * 10 + (d as int - 48)
  {
    var t := s + [c, d];
    assert t[..|t| - 1] == s + [c];
    assert (s + [c])[..|s|] == s;
  }

  lemma Num1(s: string, c: char)
    requires AllDigits(s) && IsDigit(c)
    ensures AllDigits(s + [c])
    ensures Num(s + [c]) == Num(s) * 10 + (c as int - 48)
  {
    assert (s + [c])[..|s|] == s;
  }

  lemma LetterNum(s: string, c: char)
    requires AllDigits(s) && IsUpper(c)
    ensures AllDigits(s + LetterValue(c)) && Num(s + LetterValue(c)) == Num(s) * 100 + Value(c)
  {
    var n := 10 + (c as int - 65);
    Num2(s, DigitChar(n / 10), DigitChar(n % 10));
    assert (DigitChar(n / 10) as int - 48) * 10 + (DigitChar(n % 10) as int - 48) == n;
  }

  /** A letter is written as two digits, `A` as ten and each next letter as one more. */
  lemma LetterExactly(c: char)
    requires IsUpper(c)
    ensures |Expand1(c)| == 2 && AllDigits(Expand1(c)) && Num(Expand1(c)) == 10 + (c as int - 'A' as int)
  {
    LetterNum("", c);
    assert "" + LetterValue(c) == LetterValue(c);
  }

  /** The decimal numeral that the code builds denotes `IbanNum`. */
  lemma {:induction false} ExpandNum(s: string)
    requires AllAlnum(s)
    ensures AllDigits(Expand(s)) && Num(Expand(s)) == IbanNum(s)
  {
    if s != [] {
      var init, c := s[..|s| - 1], s[|s| - 1];
      ExpandNum(init);
      if IsUpper(c) {
        LetterNum(Expand(init), c);
      } else {
        Num1(Expand(init), c);
      }
    }
  }

  lemma ModStep(a: nat, r: nat, b: nat, v: nat)
    requires a % 97 == r % 97
    ensures (a * b + v) % 97 == (r * b + v) % 97
  {
    var q := a / 97 - r / 97;
    assert a - r == 97 * q;
    assert (a * b + v) - (r * b + v) == 97 * (q * b);
    ModShift(r * b + v, q * b);
  }

  lemma ModShift(x: int, q: int)
    ensures (x + 97 * q) % 97 == x % 97
  {
  }

  /** Reducing character by character gives `int(numeric) % 97`. */
  lemma {:induction false} Mod97IsRemainder(s: string)
    requires AllAlnum(s)
    ensures AllDigits(Expand(s)) && Mod97(s) == Num(Expand(s)) % 97
  {
    ExpandNum(s);
    Mod97IbanNum(s);
  }

  lemma {:induction false} Mod97IbanNum(s: string)
    requires AllAlnum(s)
    ensures Mod97(s) == IbanNum(s) % 97
  {
    if s != [] {
      var init, c := s[..|s| - 1], s[|s| - 1];
      Mod97IbanNum(init);
      ModStep(IbanNum(init), Mod97(init), Base(c), Value(c));
    }
  }

  // ---------- the check digits ----------

  predicate AllLettersOrDigits(s: string) { forall i :: 0 <= i < |s| ==> IsAlpha(s[i]) || IsDigit(s[i]) }

  /** `_compute_iban_check_digits(country_code, bban)`; `None` is the KeyError for a small letter. */
  method CheckDigits(country: string, bban: string) returns (r: Option<string>)
    requires AllLettersOrDigits(country) && AllLettersOrDigits(bban)
    ensures r.Some? <==> AllAlnum(country) && AllAlnum(bban)
    ensures r.Some? ==> r.value == Check(country, bban)
  {
    var rearranged := bban + country + "00";
    var numeric := NumericValue(rearranged);
    RearrangedClass(country, bban);
    if numeric.None? { return None; }
    ExpandNum(rearranged);
    var remainder := Num(numeric.value) % 97;
    var check := 98 - remainder;
    r := Some([DigitChar(check / 10), DigitChar(check % 10)]);
  }

  lemma RearrangedClass(country: string, bban: string)
    requires AllLettersOrDigits(country) && AllLettersOrDigits(bban)
    ensures var s := bban + country + "00";
      && (AllAlnum(s) <==> AllAlnum(country) && AllAlnum(bban))
      && (AllAlnum(s) <==> forall i :: 0 <= i < |s| ==> !(IsAlpha(s[i]) && !IsUpper(s[i])))
  {
    var s := bban + country + "00";
    assert forall i :: 0 <= i < |bban| ==> s[i] == bban[i];
    assert forall i :: 0 <= i < |country| ==> s[|bban| + i] == country[i];
  }

  function CheckValue(country: string, bban: string): int
    requires AllAlnum(country) && AllAlnum(bban)
  {
    98 - IbanNum(bban + country + "00") % 97
  }

  function Check(country: string, bban: string): string
    requires AllAlnum(country) && AllAlnum(bban)
  {
    var c := CheckValue(country, bban);
    [DigitChar(c / 10), DigitChar(c % 10)]
  }

  /** The string whose numeral is checked: the first four characters go to the end. */
  function Rearranged(country: string, check: string, bban: string): string {
    bban + country + check
  }

  lemma {:induction false} IbanNumPair(s: string, c: char, d: char)
    requires AllAlnum(s) && IsDigit(c) && IsDigit(d)
    ensures AllAlnum(s + [c, d])
    ensures IbanNum(s + [c, d]) == IbanNum(s) * 100 + Value(c) * 10 + Value(d)
  {
    var t := s + [c, d];
    assert t[..|t| - 1] == s + [c];
    assert (s + [c])[..|s|] == s;
  }

  /** The check value is in 2..98, prints as two digits, and makes the numeral 1 modulo 97. */
  lemma CheckIsValid(country: string, bban: string)
    requires AllAlnum(country) && AllAlnum(bban)
    ensures 2 <= CheckValue(country, bban) <= 98
    ensures |Check(country, bban)| == 2 && AllDigits(Check(country, bban))
    ensures Num(Check(country, bban)) == CheckValue(country, bban)
    ensures var s := bban + country + Check(country, bban);
      AllAlnum(s) && AllDigits(Expand(s)) && Num(Expand(s)) % 97 == 1
  {
    CheckMakesOne(country, bban);
    Mod97IsRemainder(bban + country + Check(country, bban));
    assert Rearranged(country, Check(country, bban), bban) == bban + country + Check(country, bban);
  }

  lemma CheckMakesOne(country: string, bban: string)
    requires AllAlnum(country) && AllAlnum(bban)
    ensures 2 <= CheckValue(country, bban) <= 98
    ensures |Check(country, bban)| == 2 && AllDigits(Check(country, bban))
    ensures Num(Check(country, bban)) == CheckValue(country, bban)
    ensures var s := Rearranged(country, Check(country, bban), bban); AllAlnum(s) && Mod97(s) == 1
  {
    var prefix := bban + country;
    var check := Check(country, bban);
    var c := CheckValue(country, bban);
    assert prefix + "00" == prefix + ['0', '0'];
    IbanNumPair(prefix, '0', '0');
    IbanNumPair(prefix, check[0], check[1]);
    assert prefix + check == prefix + [check[0], check[1]];
    Num2("", check[0], check[1]);
    assert "" + [check[0], check[1]] == check;
    var s := Rearranged(country, check, bban);
    Mod97IbanNum(s);
    Complement(IbanNum(prefix) * 100, c);
  }

  lemma Complement(n: nat, c: nat)
    requires c == 98 - n % 97
    ensures (n + c) % 97 == 1
  {
    assert n + c == 1 + 97 * (n / 97 + 1);
    ModShift(1, n / 97 + 1);
  }

  lemma UniqueValue(a: nat, v: nat)
    requires (a + v) % 97 == 1 && 2 <= v <= 98
    ensures v == 98 - a % 97
  {
  }

  lemma TwoDigits(x: char, y: char)
    requires IsDigit(x) && IsDigit(y)
    ensures Num([x, y]) == (x as int - 48) * 10 + (y as int - 48) < 100
    ensures x == DigitChar(Num([x, y]) / 10) && y == DigitChar(Num([x, y]) % 10)
  {
    Num2("", x, y);
    assert "" + [x, y] == [x, y];
  }

  /** No other two digits with a value in 2..98 make the numeral valid. */
  lemma CheckIsUnique(country: string, bban: string, x: char, y: char)
    requires AllAlnum(country) && AllAlnum(bban) && IsDigit(x) && IsDigit(y)
    requires 2 <= Num([x, y]) <= 98
    requires var s := bban + country + [x, y]; AllAlnum(s) && Mod97(s) == 1
    ensures [x, y] == Check(country, bban)
  {
    var prefix := bban + country;
    TwoDigits(x, y);
    IbanNumPair(prefix, '0', '0');
    IbanNumPair(prefix, x, y);
    assert prefix + "00" == prefix + ['0', '0'];
    Mod97IbanNum(prefix + [x, y]);
    UniqueValue(IbanNum(prefix) * 100, Num([x, y]));
  }

  // ---------- error detection ----------

  predicate SameClass(c: char, d: char) {
    (IsDigit(c) && IsDigit(d)) || (IsUpper(c) && IsUpper(d))
  }

  /** The power of ten by which `s` shifts what precedes it. */
  function Shift(s: string): nat
    requires AllAlnum(s)
  {
    if s == [] then 1 else Shift(s[..|s| - 1]) * Base(s[|s| - 1])
  }

  lemma {:induction false} IbanNumApp(a: string, b: string)
    requires AllAlnum(a) && AllAlnum(b)
    ensures AllAlnum(a + b) && IbanNum(a + b) == IbanNum(a) * Shift(b) + IbanNum(b)
    decreases |b|
  {
    if b == [] {
      assert a + b == a;
    } else {
      var init, c := b[..|b| - 1], b[|b| - 1];
      IbanNumApp(a, init);
      assert (a + b)[..|a + b| - 1] == a + init;
      assert IbanNum(a + b) == (IbanNum(a) * Shift(init) + IbanNum(init)) * Base(c) + Value(c);
      Distribute(IbanNum(a), Shift(init), IbanNum(init), Base(c));
    }
  }

  lemma Distribute(a: int, b: int, c: int, d: int)
    ensures (a * b + c) * d == a * (b * d) + c * d
  {
  }

  /** 10 is invertible modulo 97 (its inverse is 68), so multiplying by it loses nothing. */
  lemma TenCancels(x: int)
    requires (10 * x) % 97 == 0
    ensures x % 97 == 0
  {
    var q := 10 * x / 97;
    assert x == 97 * (68 * q - 7 * x);
  }

  lemma {:induction false} ShiftCancels(x: int, s: string)
    requires AllAlnum(s) && (x * Shift(s)) % 97 == 0
    ensures x % 97 == 0
    decreases |s|
  {
    if s != [] {
      var init, c := s[..|s| - 1], s[|s| - 1];
      var y := x * Shift(init);
      assert x * Shift(s) == y * Base(c) by { Distribute(x, Shift(init), 0, Base(c)); }
      if IsUpper(c) {
        assert (10 * (10 * y)) % 97 == 0;
        TenCancels(10 * y);
      }
      TenCancels(y);
      ShiftCancels(x, init);
    }
  }

  lemma SameRemainder(a: nat, b: nat)
    requires a % 97 == b % 97
    ensures (a - b) % 97 == 0
  {
  }

  lemma PrefixDifference(pre: string, u: string, v: string)
    requires AllAlnum(pre) && AllAlnum(u) && AllAlnum(v) && Shift(u) == Shift(v)
    ensures AllAlnum(pre + u) && AllAlnum(pre + v)
    ensures IbanNum(pre + u) - IbanNum(pre + v) == IbanNum(u) - IbanNum(v)
  {
    IbanNumApp(pre, u);
    IbanNumApp(pre, v);
  }

  lemma Factor(a: int, b: int, k: int, d: int)
    requires a - b == d
    ensures a * k - b * k == d * k
  {
    assert a == b + d;
  }

  lemma SuffixDifference(a: string, b: string, post: string, d: int)
    requires AllAlnum(a) && AllAlnum(b) && AllAlnum(post) && IbanNum(a) - IbanNum(b) == d
    ensures AllAlnum(a + post) && AllAlnum(b + post)
    ensures IbanNum(a + post) - IbanNum(b + post) == d * Shift(post)
  {
    IbanNumApp(a, post);
    IbanNumApp(b, post);
    Factor(IbanNum(a), IbanNum(b), Shift(post), d);
  }

  lemma CongruentDifference(s: string, t: string)
    requires AllAlnum(s) && AllAlnum(t) && Mod97(s) == Mod97(t)
    ensures (IbanNum(s) - IbanNum(t)) % 97 == 0
  {
    Mod97IbanNum(s);
    Mod97IbanNum(t);
    SameRemainder(IbanNum(s), IbanNum(t));
  }

  /** Two strings that differ in one infix of equal shift clash only if the infixes clash. */
  lemma InfixDecides(pre: string, u: string, v: string, post: string)
    requires AllAlnum(pre) && AllAlnum(u) && AllAlnum(v) && AllAlnum(post)
    requires Shift(u) == Shift(v)
    requires AllAlnum(pre + u + post) && AllAlnum(pre + v + post)
    requires Mod97(pre + u + post) == Mod97(pre + v + post)
    ensures (IbanNum(u) - IbanNum(v)) % 97 == 0
  {
    PrefixDifference(pre, u, v);
    SuffixCancels(pre + u, pre + v, post, IbanNum(u) - IbanNum(v));
  }

  lemma SuffixCancels(a: string, b: string, post: string, d: int)
    requires AllAlnum(a) && AllAlnum(b) && AllAlnum(post) && IbanNum(a) - IbanNum(b) == d
    requires AllAlnum(a + post) && AllAlnum(b + post) && Mod97(a + post) == Mod97(b + post)
    ensures d % 97 == 0
  {
    CongruentDifference(a + post, b + post);
    SuffixDifference(a, b, post, d);
    ShiftCancels(d, post);
  }

  lemma AlnumAround(pre: string, u: string, post: string)
    requires AllAlnum(pre) && AllAlnum(u) && AllAlnum(post)
    ensures AllAlnum(pre + u + post)
  {
  }

  /** Replacing one character by another of its class always changes the remainder. */
  lemma SubstitutionDetected(pre: string, c: char, d: char, post: string)
    requires AllAlnum(pre) && AllAlnum(post) && SameClass(c, d) && c != d
    ensures AllAlnum(pre + [c] + post) && AllAlnum(pre + [d] + post)
    ensures Mod97(pre + [c] + post) != Mod97(pre + [d] + post)
  {
    OneChar(c);
    OneChar(d);
    AlnumAround(pre, [c], post);
    AlnumAround(pre, [d], post);
    if Mod97(pre + [c] + post) == Mod97(pre + [d] + post) {
      InfixDecides(pre, [c], [d], post);
    }
  }

  lemma SwapDiffers(c: char, d: char)
    requires SameClass(c, d) && c != d
    ensures (IbanNum([c, d]) - IbanNum([d, c])) % 97 != 0
  {
    TwoChars(c, d);
    TwoChars(d, c);
    NotMultiple(Value(c) - Value(d));
  }

  lemma NotMultiple(k: int)
    requires -97 < k < 97 && k != 0
    ensures (99 * k) % 97 != 0 && (9 * k) % 97 != 0
  {
    assert 99 * k - 97 * k == 2 * k;
  }

  /** Swapping two different neighbours of one class always changes the remainder. */
  lemma SwapDetected(pre: string, c: char, d: char, post: string)
    requires AllAlnum(pre) && AllAlnum(post) && SameClass(c, d) && c != d
    ensures AllAlnum(pre + [c, d] + post) && AllAlnum(pre + [d, c] + post)
    ensures Mod97(pre + [c, d] + post) != Mod97(pre + [d, c] + post)
  {
    TwoChars(c, d);
    TwoChars(d, c);
    SwapDiffers(c, d);
    AlnumAround(pre, [c, d], post);
    AlnumAround(pre, [d, c], post);
    if Mod97(pre + [c, d] + post) == Mod97(pre + [d, c] + post) {
      InfixDecides(pre, [c, d], [d, c], post);
    }
  }

  lemma TwoChars(c: char, d: char)
    requires IsAlnum(c) && IsAlnum(d)
    ensures IbanNum([c, d]) == Value(c) * Base(d) + Value(d)
    ensures Shift([c, d]) == Base(c) * Base(d)
  {
    assert [c, d][..1] == [c];
    OneChar(c);
  }

  lemma OneChar(c: char)
    requires IsAlnum(c)
    ensures IbanNum([c]) == Value(c) && Shift([c]) == Base(c)
  {
    assert [c][..0] == [];
    assert IbanNum([]) == 0 && Shift([]) == 1;
  }

  // ---------- a new Pakistani IBAN ----------

  /** `new_iban()`, for the sixteen digits drawn. */
  method NewIban(account: string) returns (iban: string)
    requires |account| == 16 && AllDigits(account)
    ensures |iban| == 24 && iban[..2] == "PK" && iban[4..8] == "SCBL" && iban[8..] == account
    ensures AllAlnum(iban[4..] + iban[..4]) && Mod97(iban[4..] + iban[..4]) == 1
  {
    var bban := "SCBL" + account;
    var check := CheckDigits("PK", bban);
    CheckMakesOne("PK", bban);
    iban := "PK" + check.value + bban;
    NewIbanShape(check.value, account);
  }

  lemma NewIbanShape(check: string, account: string)
    requires |check| == 2 && |account| == 16
    ensures var iban := "PK" + check + ("SCBL" + account);
      && |iban| == 24 && iban[..2] == "PK" && iban[4..8] == "SCBL" && iban[8..] == account
      && iban[4..] + iban[..4] == Rearranged("PK", check, "SCBL" + account)
  {
    var bban := "SCBL" + account;
    var iban := "PK" + check + bban;
    assert iban[4..] == bban;
    assert iban[..4] == "PK" + check;
    assert bban + ("PK" + check) == bban + "PK" + check;
  }
}
