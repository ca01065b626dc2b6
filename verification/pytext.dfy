/** The two Python string operations the filters rely on: `str.lower()` and
    `int(str)` (base 10), both restricted to ASCII text. */
module PyText {
  import opened Wrappers

  predicate IsUpper(c: char) { 'A' <= c <= 'Z' }

  predicate IsDigit(c: char) { '0' <= c <= '9' }

  /** The ASCII characters `int()` skips around a number: tab, line feed,
      vertical tab, form feed, carriage return and space. */
  predicate IsSpace(c: char) { c == ' ' || 9 <= c as int <= 13 }

  function LowerChar(c: char): char
  {
    if IsUpper(c) then (c as int + 32) as char else c
  }

  /** No upper-case letter anywhere in `s`. */
  predicate IsLowerCase(s: string)
  {
    forall i :: 0 <= i < |s| ==> !IsUpper(s[i])
  }

  /** `a` and `b` are the same text up to the case of letters. */
  predicate EqualFold(a: string, b: string)
  {
    |a| == |b| && forall i :: 0 <= i < |a| ==> LowerChar(a[i]) == LowerChar(b[i])
  }

  /** `str.lower()`: the lower-case text that equals `s` up to case. */
  function Lower(s: string): (r: string)
    ensures IsLowerCase(r)
    ensures EqualFold(r, s)
  {
    seq(|s|, i requires 0 <= i < |s| => LowerChar(s[i]))
  }

  /** Lower-casing is determined by its contract: the only lower-case text
      equal to `s` up to case is `Lower(s)`. */
  lemma LowerUnique(s: string, t: string)
    requires IsLowerCase(t) && EqualFold(s, t)
    ensures Lower(s) == t
  {
  }

  /** Lower-casing twice is lower-casing once. */
  lemma LowerIdempotent(s: string)
    ensures Lower(Lower(s)) == Lower(s)
  {
  }

  /** Text that differs only in case lower-cases to the same text. */
  lemma LowerFold(a: string, b: string)
    requires EqualFold(a, b)
    ensures Lower(a) == Lower(b)
  {
  }

  /** `s` without its leading white space. */
  function TrimLeft(s: string): (r: string)
    ensures |r| <= |s| && r == s[|s| - |r|..]
    ensures r != [] ==> !IsSpace(r[0])
    ensures forall i :: 0 <= i < |s| - |r| ==> IsSpace(s[i])
  {
    if s != [] && IsSpace(s[0]) then TrimLeft(s[1..]) else s
  }

  /** `s` without its trailing white space. */
  function TrimRight(s: string): (r: string)
    ensures |r| <= |s| && r == s[..|r|]
    ensures r != [] ==> !IsSpace(r[|r| - 1])
    ensures forall i :: |r| <= i < |s| ==> IsSpace(s[i])
  {
    if s != [] && IsSpace(s[|s| - 1]) then TrimRight(s[..|s| - 1]) else s
  }

  /** `s` with the white space `int()` skips removed at both ends. */
  function Strip(s: string): string
  {
    TrimRight(TrimLeft(s))
  }

  predicate AllDigits(s: string) { forall i :: 0 <= i < |s| ==> IsDigit(s[i]) }

  /** A character `int()` can accept somewhere in its argument. */
  predicate AllowedInInt(c: char) { IsSpace(c) || IsDigit(c) || c == '_' || c == '+' || c == '-' }

  /** The digit string that `int()` accepts: digits, where a single `_` may
      stand between two digits. */
  predicate WellFormedDigits(u: string)
  {
    |u| > 0 && IsDigit(u[0]) && IsDigit(u[|u| - 1]) &&
    (forall i :: 0 <= i < |u| ==> IsDigit(u[i]) || u[i] == '_') &&
    (forall i :: 0 < i < |u| ==> u[i - 1] != '_' || u[i] != '_')
  }

  function RemoveUnderscores(u: string): (r: string)
    ensures |r| <= |u|
    ensures (forall i :: 0 <= i < |u| ==> IsDigit(u[i]) || u[i] == '_') ==> AllDigits(r)
  {
    if u == [] then []
    else (if u[0] == '_' then [] else [u[0]]) + RemoveUnderscores(u[1..])
  }

  function DigitValue(c: char): nat
    requires IsDigit(c)
  {
    c as int - '0' as int
  }

  /** The value of a decimal digit string, most significant digit first. */
  function Value(ds: string): nat
    requires AllDigits(ds)
  {
    if ds == [] then 0 else 10 * Value(ds[..|ds| - 1]) + DigitValue(ds[|ds| - 1])
  }

  /** The most digits `int()` converts from text (Python's default
      `sys.get_int_max_str_digits()` since Python 3.11 and the 3.10.7, 3.9.14,
      3.8.14 and 3.7.14 security releases); longer digit strings,
      leading zeros included, are a ValueError. */
  const MaxStrDigits: nat := 4300

  function ParseDigits(u: string): Option<nat>
  {
    if WellFormedDigits(u) && |RemoveUnderscores(u)| <= MaxStrDigits then
      Some(Value(RemoveUnderscores(u)))
    else None
  }

  /** Stripping removes only white space. */
  lemma StripKeeps(s: string)
    ensures forall c :: c in s ==> IsSpace(c) || c in Strip(s)
  {
  }

  lemma WellFormedChars(u: string)
    requires WellFormedDigits(u)
    ensures forall c :: c in u ==> IsDigit(c) || c == '_'
  {
  }

  /** Text whose stripped form is a digit string holds only characters
      `int()` can accept. */
  lemma UnsignedChars(s: string)
    requires WellFormedDigits(Strip(s))
    ensures forall c :: c in s ==> AllowedInInt(c)
  {
    StripKeeps(s);
    WellFormedChars(Strip(s));
  }

  /** Likewise for a sign followed by a digit string. */
  lemma SignedChars(s: string)
    requires Strip(s) != [] && (Strip(s)[0] == '+' || Strip(s)[0] == '-')
    requires WellFormedDigits(Strip(s)[1..])
    ensures forall c :: c in s ==> AllowedInInt(c)
  {
    var t := Strip(s);
    StripKeeps(s);
    WellFormedChars(t[1..]);
    assert t == [t[0]] + t[1..];
  }

  /** `int(s)`: surrounding white space is ignored, an optional sign is
      followed by a well-formed digit string of at most `MaxStrDigits`
      digits; anything else is a ValueError, here `None`. So text holding
      any character other than white space, a digit, `_` or a sign (a
      letter, say) is rejected. */
  function ParseInt(s: string): (r: Option<int>)
    ensures r.Some? ==> forall c :: c in s ==> AllowedInInt(c)
  {
    var t := Strip(s);
    if t != [] && (t[0] == '+' || t[0] == '-') then
      match ParseDigits(t[1..])
      case None => None
      case Some(n) =>
        SignedChars(s);
        var v: int := n;
        Some(if t[0] == '-' then -v else v)
    else
      match ParseDigits(t)
      case None => None
      case Some(n) =>
        UnsignedChars(s);
        Some(n)
  }

  /** The word `all`, in any case, is not a number. */
  lemma AllIsNotANumber(s: string)
    ensures EqualFold(s, "all") ==> ParseInt(s).None?
  {
    if EqualFold(s, "all") {
      var c := s[0];
      assert LowerChar(c) == 'a';
      assert c in s && !AllowedInInt(c);
    }
  }

  /** Lower-casing gives a lower-case word exactly for that word in some case. */
  lemma LowerIsWord(s: string, w: string)
    requires IsLowerCase(w)
    ensures Lower(s) == w <==> EqualFold(s, w)
  {
    if EqualFold(s, w) {
      LowerUnique(s, w);
    }
  }

  /** Lower-casing gives `all` exactly for `all` in some case. */
  lemma LowerIsAll(s: string)
    ensures Lower(s) == "all" <==> EqualFold(s, "all")
  {
    if EqualFold(s, "all") {
      LowerUnique(s, "all");
    }
  }

  /** Decimal text of a natural number, as `str(n)` writes it. */
  function ShowNat(n: nat): (r: string)
    ensures r != [] && forall i :: 0 <= i < |r| ==> IsDigit(r[i])
  {
    (if n < 10 then [] else ShowNat(n / 10)) + ['0' + (n % 10) as char]
  }

  /** Decimal text of an integer, with `-` before a negative one. */
  function ShowInt(n: int): (r: string)
    ensures r != [] && (r[0] == '-' <==> n < 0)
    ensures forall i :: 0 <= i < |r| ==> IsDigit(r[i]) || (i == 0 && n < 0)
  {
    if n < 0 then "-" + ShowNat(-n) else ShowNat(n)
  }

  lemma {:induction false} ValueShowNat(n: nat)
    ensures Value(ShowNat(n)) == n
  {
    var r := ShowNat(n);
    assert r[..|r| - 1] == if n < 10 then [] else ShowNat(n / 10);
    if n >= 10 {
      ValueShowNat(n / 10);
    }
  }

  lemma {:induction false} RemoveUnderscoresOfDigits(ds: string)
    requires AllDigits(ds)
    ensures RemoveUnderscores(ds) == ds
  {
    if ds != [] {
      RemoveUnderscoresOfDigits(ds[1..]);
    }
  }

  lemma StripNoop(s: string)
    requires s != [] && !IsSpace(s[0]) && !IsSpace(s[|s| - 1])
    ensures Strip(s) == s
  {
  }

  lemma ParseDigitsOfDigits(ds: string)
    requires ds != [] && AllDigits(ds)
    ensures ParseDigits(ds) == if |ds| <= MaxStrDigits then Some(Value(ds)) else None
  {
    assert WellFormedDigits(ds);
    RemoveUnderscoresOfDigits(ds);
  }

  lemma ParseUnsigned(ds: string)
    requires ds != [] && AllDigits(ds)
    ensures ParseInt(ds) == if |ds| <= MaxStrDigits then Some(Value(ds)) else None
  {
    ParseDigitsOfDigits(ds);
    assert IsDigit(ds[0]) && IsDigit(ds[|ds| - 1]);
    StripNoop(ds);
    assert ds[0] != '+' && ds[0] != '-';
    if |ds| <= MaxStrDigits {
      assert ParseDigits(Strip(ds)) == Some(Value(ds));
    } else {
      assert ParseDigits(Strip(ds)).None?;
    }
  }

  /** A minus sign followed by digits reads as the negated digits, as long
      as there are at most `MaxStrDigits` of them. */
  lemma ParseNegative(s: string)
    requires |s| >= 2 && s[0] == '-' && AllDigits(s[1..])
    ensures ParseInt(s) == if |s| - 1 <= MaxStrDigits then Some(0 - Value(s[1..]) as int) else None
  {
    ParseDigitsOfDigits(s[1..]);
    assert IsDigit(s[1..][|s| - 2]);
    StripNoop(s);
  }

  function Zeros(k: nat): (r: string)
    ensures |r| == k && AllDigits(r)
  {
    seq(k, _ => '0')
  }

  lemma {:induction false} ValueZeros(k: nat)
    ensures Value(Zeros(k)) == 0
  {
    if k > 0 {
      assert Zeros(k)[..k - 1] == Zeros(k - 1);
      ValueZeros(k - 1);
    }
  }

  /** The digit limit counts leading zeros: `5` written with `k` zeros in
      front reads as 5 only while the whole digit string fits the limit. */
  lemma LeadingZerosCount(k: nat)
    ensures ParseInt(Zeros(k) + "5") == if k < MaxStrDigits then Some(5) else None
  {
    var ds := Zeros(k) + "5";
    forall i | 0 <= i < |ds|
      ensures IsDigit(ds[i])
    {
      if i < k { assert ds[i] == Zeros(k)[i]; }
    }
    assert ds[..|ds| - 1] == Zeros(k);
    ValueZeros(k);
    assert Value(ds) == 5;
    ParseUnsigned(ds);
  }

  function Abs(n: int): nat { if n < 0 then -n else n }

  /** `int(str(n)) == n` for every integer whose decimal text has at most
      `MaxStrDigits` digits; a longer one is a ValueError. */
  lemma ParseShowInt(n: int)
    ensures ParseInt(ShowInt(n)) == if |ShowNat(Abs(n))| <= MaxStrDigits then Some(n) else None
  {
    ValueShowNat(Abs(n));
    if n < 0 {
      assert ShowInt(n)[1..] == ShowNat(Abs(n));
      ParseNegative(ShowInt(n));
    } else {
      ParseUnsigned(ShowNat(Abs(n)));
    }
  }
}
