/** Printing and parsing integers (src/include/Poco/NumericString.h). */
module NumericText {
  import opened Basics

  /** The range of an integer type; unsigned types start at zero. */
  datatype Range = Range(min: int, max: int)

  ghost predicate IsType(t: Range) {
    t.max > 0 && (t.min == 0 || t.min == -t.max - 1)
  }

  // ----- Arithmetic of one digit

  function Quotient(n: nat, base: int): (q: nat)
    requires base >= 2
    ensures q < n || q == n == 0
  {
    QuotientSmaller(n, base);
    n / base
  }

  lemma QuotientSmaller(n: nat, base: int)
    requires base >= 2
    ensures n / base < n || n / base == n == 0
  {
    var q := n / base;
    assert n == q * base + n % base;
    assert q * base == 2 * q + q * (base - 2);
    Product(q, base - 2);
  }

  function Remainder(n: nat, base: int): (d: nat)
    requires base >= 2
    ensures d < base
  {
    n % base
  }

  /** The value of a text that is one digit longer. */
  function Append(n: nat, base: int, d: nat): nat
    requires base >= 2
  {
    n * base + d
  }

  lemma AppendLast(n: nat, base: int)
    requires base >= 2
    ensures Append(Quotient(n, base), base, Remainder(n, base)) == n
  {
  }

  lemma NonNegativeFactor(k: int, base: int)
    requires base > 0 && k * base > -base
    ensures k >= 0
  {
  }

  lemma QuotientMonotone(n: nat, m: nat, base: int)
    requires n <= m && base >= 2
    ensures Quotient(n, base) <= Quotient(m, base)
  {
    assert m - n == (m / base - n / base) * base + (m % base - n % base);
    NonNegativeFactor(m / base - n / base, base);
  }

  // ----- Parsing

  /** Refused: the function returns false. Overflow: an intermediate result leaves the type. */
  datatype Parsed = Refused | Overflow | Value(v: int)

  predicate IsSpace(c: char) {
    c == ' ' || '\t' <= c <= '\r'
  }

  function SkipSpaces(s: string): string {
    if s != "" && IsSpace(s[0]) then SkipSpaces(s[1..]) else s
  }

  /** The value of a digit of any base up to sixteen. */
  function DigitValue(c: char): (d: int)
    ensures -1 <= d < 16
  {
    if '0' <= c <= '9' then c as int - '0' as int
    else if 'a' <= c <= 'f' then 10 + (c as int - 'a' as int)
    else if 'A' <= c <= 'F' then 10 + (c as int - 'A' as int)
    else -1
  }

  /** Which characters are digits: the letters count in both cases. */
  lemma DigitsOfBothCases(d: nat, c: char)
    requires d < 16
    ensures DigitValue("0123456789abcdef"[d]) == DigitValue("0123456789ABCDEF"[d]) == d
    ensures DigitValue(c) == -1 <==> c !in "0123456789abcdefABCDEF"
  {
  }

  /** Digits up to seven are taken in every base, eight and nine only in bases ten and sixteen,
      letters only in base sixteen. */
  predicate Accepts(base: int, d: int) {
    d >= 0 && (d <= 7 || (d <= 9 && base == 10) || base == 16)
  }

  predicate Skipped(c: char, base: int, thSep: char) {
    base == 10 && c == thSep && (c == '.' || c == ',' || c == ' ')
  }

  /** The digit loop: `significant` once a digit other than a leading zero has been read. */
  function Scan(s: string, t: Range, base: int, thSep: char, result: nat, significant: bool): Parsed
    requires t.max > 0 && base >= 2
  {
    if s == "" then Value(result)
    else
      var c, d := s[0], DigitValue(s[0]);
      if c == '0' && !significant then Scan(s[1..], t, base, thSep, result, significant)
      else if Accepts(base, d) then
        if result > Quotient(t.max, base) then Refused
        else if Append(result, base, d) > t.max then Overflow
        else Scan(s[1..], t, base, thSep, Append(result, base, d), true)
      else if Skipped(c, base, thSep) then Scan(s[1..], t, base, thSep, result, significant)
      else Refused
  }

  function Negated(p: Parsed): Parsed {
    match p
    case Value(v) => Value(-v)
    case _ => p
  }

  function ParseInt(str: string, t: Range, base: int, thSep: char): Parsed
    requires t.max > 0 && base >= 2
  {
    var s := SkipSpaces(str);
    if s == "" then Refused
    else if base == 10 && s[0] == '-' then
      if t.min >= 0 then Refused else Negated(Scan(s[1..], t, base, thSep, 0, false))
    else Scan(if s[0] == '+' then s[1..] else s, t, base, thSep, 0, false)
  }

  // ----- Printing

  function DigitChar(d: nat): char
    requires d < 16
  {
    "0123456789ABCDEF"[d]
  }

  function Abs(v: int): nat {
    if v < 0 then -v else v
  }

  /** The separator that follows a digit in the order of writing, least significant digit first:
      one after every third digit, also when no further digit comes. */
  function Separator(base: int, thSep: char, thCount: nat): string {
    if thSep != NUL && base == 10 && thCount == 2 then [thSep] else ""
  }

  function NextCount(base: int, thSep: char, thCount: nat): nat {
    if thSep != NUL && base == 10 then (if thCount == 2 then 0 else thCount + 1) else thCount
  }

  /** The digits of `n`, most significant first. */
  function Digits(n: nat, base: int, thSep: char, thCount: nat): (s: string)
    requires 2 <= base <= 16
    ensures s != ""
    decreases n
  {
    var high := Quotient(n, base);
    (if high == 0 then "" else Digits(high, base, thSep, NextCount(base, thSep, thCount))) +
    Separator(base, thSep, thCount) + [DigitChar(Remainder(n, base))]
  }

  function Repeat(c: char, n: int): (s: string)
    ensures |s| == if n > 0 then n else 0
  {
    if n <= 0 then "" else Repeat(c, n - 1) + [c]
  }

  function PrefixText(base: int, prefix: bool): string {
    if prefix && base == 8 then "0" else if prefix && base == 16 then "0x" else ""
  }

  function SignText(v: int): string {
    if v < 0 then "-" else ""
  }

  /** The formatted text: padding, sign, prefix, zeros, digits. */
  function Formatted(v: int, base: int, prefix: bool, width: int, fill: char, thSep: char): string
    requires 2 <= base <= 16
  {
    var digits, head := Digits(Abs(v), base, thSep, 0), SignText(v) + PrefixText(base, prefix);
    if fill == '0' then head + Repeat('0', width - |head| - |digits|) + digits
    else Repeat(fill, width - |head| - |digits|) + head + digits
  }

  // ----- What is printed and what is read, written out

  /** The number that the digits of a text write down, in either case; other characters do not count. */
  function Number(s: string, base: int): nat
    requires base >= 2
  {
    if s == "" then 0
    else
      var n := |s| - 1;
      var d := DigitValue(s[n]);
      if d < 0 then Number(s[..n], base) else Append(Number(s[..n], base), base, d)
  }

  lemma NumberOfOneMore(s: string, c: char, base: int)
    requires base >= 2
    ensures Number(s + [c], base) ==
              if DigitValue(c) < 0 then Number(s, base) else Number(s, base) * base + DigitValue(c)
  {
    assert (s + [c])[..|s|] == s;
  }

  /** The digits are those of the number, in capitals, without leading zeros. */
  lemma {:induction false} DigitsAre(n: nat, base: int, thSep: char)
    requires 2 <= base <= 16 && (thSep == NUL || base != 10)
    ensures var text := Digits(n, base, thSep, 0);
            && Number(text, base) == n
            && (forall i :: 0 <= i < |text| ==> text[i] in "0123456789ABCDEF"[..base])
            && (text[0] == '0' ==> n == 0) && (n == 0 ==> text == "0")
    decreases n
  {
    hide Quotient, Remainder, DigitChar, Number;
    var high, d := Quotient(n, base), Remainder(n, base);
    var before := if high == 0 then "" else Digits(high, base, thSep, 0);
    assert Digits(n, base, thSep, 0) == before + [DigitChar(d)];
    AppendLast(n, base);
    DigitOfChar(d);
    InBase(d, base);
    NumberOfOneMore(before, DigitChar(d), base);
    if high == 0 {
      NumberOfNothing(base);
    } else {
      DigitsAre(high, base, thSep);
    }
  }

  lemma NumberOfNothing(base: int)
    requires base >= 2
    ensures Number("", base) == 0
  {
  }

  lemma InBase(d: nat, base: int)
    requires d < base <= 16
    ensures DigitChar(d) in "0123456789ABCDEF"[..base] && (d == 0 ==> DigitChar(d) == '0')
  {
    assert "0123456789ABCDEF"[..base][d] == DigitChar(d);
  }

  /** With separators the digits stand in groups of three, and every full group has a separator before it. */
  lemma {:induction false} GroupsOfThree(n: nat, thSep: char)
    requires thSep != NUL
    ensures var text, c := Digits(n, 10, thSep, 0), "0123456789";
            text == if n < 10 then [c[n]]
                    else if n < 100 then [c[n / 10], c[n % 10]]
                    else (if n < 1000 then "" else Digits(n / 1000, 10, thSep, 0)) +
                         [thSep, c[n / 100 % 10], c[n / 10 % 10], c[n % 10]]
  {
    hide Digits, DigitChar, Quotient, Remainder;
    if n < 100 {
      Tenth(n);
      LastDigit(n, thSep, 0);
      if n >= 10 {
        Tenth(n / 10);
        LastDigit(n / 10, thSep, 1);
      }
    } else {
      FullGroup(n, thSep);
    }
  }

  lemma FullGroup(n: nat, thSep: char)
    requires thSep != NUL && n >= 100
    ensures var c := "0123456789";
            Digits(n, 10, thSep, 0) == (if n < 1000 then "" else Digits(n / 1000, 10, thSep, 0)) +
                                         [thSep, c[n / 100 % 10], c[n / 10 % 10], c[n % 10]]
  {
    hide Digits, DigitChar, Quotient, Remainder;
    HundredthAndThousandth(n);
    var c, before := "0123456789", if n < 1000 then "" else Digits(n / 1000, 10, thSep, 0);
    assert Digits(n / 100, 10, thSep, 2) == before + [thSep] + [c[n / 100 % 10]] by {
      Tenth(n / 100);
      LastDigit(n / 100, thSep, 2);
    }
    assert Digits(n / 10, 10, thSep, 1) == Digits(n / 100, 10, thSep, 2) + "" + [c[n / 10 % 10]] by {
      Tenth(n / 10);
      LastDigit(n / 10, thSep, 1);
    }
    assert Digits(n, 10, thSep, 0) == Digits(n / 10, 10, thSep, 1) + "" + [c[n % 10]] by {
      Tenth(n);
      LastDigit(n, thSep, 0);
    }
    Joined(before, thSep, c[n / 100 % 10], c[n / 10 % 10], c[n % 10]);
  }

  lemma HundredthAndThousandth(n: nat)
    ensures n / 10 / 10 == n / 100 && n / 100 / 10 == n / 1000
    ensures (n / 100 < 10 <==> n < 1000) && (n >= 100 ==> n / 10 >= 10) && (n < 100 ==> n / 10 < 10)
  {
  }

  lemma Joined(before: string, thSep: char, x: char, y: char, z: char)
    ensures before + [thSep] + [x] + "" + [y] + "" + [z] == before + [thSep, x, y, z]
  {
  }

  lemma Tenth(n: nat)
    ensures Quotient(n, 10) == n / 10 && Remainder(n, 10) == n % 10
    ensures DigitChar(n % 10) == "0123456789"[n % 10]
    ensures n / 10 == 0 <==> n < 10
  {
  }

  lemma LastDigit(n: nat, thSep: char, thCount: nat)
    requires thSep != NUL && thCount < 3
    ensures Digits(n, 10, thSep, thCount) ==
              (if Quotient(n, 10) == 0 then "" else Digits(Quotient(n, 10), 10, thSep, (thCount + 1) % 3)) +
              (if thCount == 2 then [thSep] else "") + [DigitChar(Remainder(n, 10))]
  {
    hide DigitChar, Quotient, Remainder;
    assert NextCount(10, thSep, thCount) == (thCount + 1) % 3;
  }

  /** The whole text: sign, prefix and digits, filled up to the width with zeros behind the prefix or with
      another character in front. */
  lemma {:induction false} FormattedLayout(v: int, base: int, prefix: bool, width: int, fill: char, thSep: char,
          sign: string, pre: string, pad: string)
    requires 2 <= base <= 16
    requires sign == (if v < 0 then "-" else "")
    requires pre == (if !prefix then "" else if base == 8 then "0" else if base == 16 then "0x" else "")
    requires var room := width - |sign| - |pre| - |Digits(if v < 0 then -v else v, base, thSep, 0)|;
             |pad| == if room > 0 then room else 0
    requires forall i :: 0 <= i < |pad| ==> pad[i] == fill
    ensures var digits := Digits(if v < 0 then -v else v, base, thSep, 0);
            Formatted(v, base, prefix, width, fill, thSep) ==
              if fill == '0' then sign + pre + pad + digits else pad + sign + pre + digits
  {
    hide Digits, Repeat;
    var digits := Digits(if v < 0 then -v else v, base, thSep, 0);
    var z := Repeat(fill, width - |sign| - |pre| - |digits|);
    AllSame(fill, width - |sign| - |pre| - |digits|);
    assert z == pad;
    FormattedIs(v, base, prefix, width, fill, thSep);
    Assoc(pad, sign, pre);
  }

  /** Whether parsing goes on at a character: a digit that the base takes, or a separator. */
  predicate Reads(c: char, base: int, thSep: char) {
    || '0' <= c <= '7'
    || ((c == '8' || c == '9') && (base == 10 || base == 16))
    || (('a' <= c <= 'f' || 'A' <= c <= 'F') && base == 16)
    || (c == thSep && base == 10 && (c == '.' || c == ',' || c == ' '))
  }

  lemma ReadsIff(c: char, base: int, thSep: char)
    ensures Reads(c, base, thSep) <==> Accepts(base, DigitValue(c)) || Skipped(c, base, thSep)
    ensures Skipped(c, base, thSep) ==> DigitValue(c) < 0
    ensures Accepts(base, DigitValue(c)) ==> DigitValue(c) >= 0
    ensures c == '0' <==> DigitValue(c) == 0
    ensures c == '0' ==> Reads(c, base, thSep)
  {
  }

  lemma {:induction false} NumberGrows(s: string, k: nat, base: int)
    requires base >= 2 && k <= |s|
    ensures Number(s[..k], base) <= Number(s, base)
  {
    if k == |s| {
      assert s[..k] == s;
    } else {
      var n := |s| - 1;
      assert s[..n][..k] == s[..k];
      NumberGrows(s[..n], k, base);
      AppendGrows(Number(s[..n], base), base, DigitValue(s[n]));
    }
  }

  lemma AppendGrows(n: nat, base: int, d: int)
    requires base >= 2
    ensures d >= 0 ==> Append(n, base, d) >= n
  {
    Product(n, base - 1);
    assert n * base == n + n * (base - 1);
  }

  /** A number beyond the limit has no room for another digit. */
  lemma NoRoom(n: nat, base: int, d: nat, max: nat)
    requires base >= 2 && n > Quotient(max, base)
    ensures Append(n, base, d) > max
  {
    var q := max / base;
    assert max == q * base + max % base;
    Product(n - q - 1, base);
    assert n * base == q * base + base + (n - q - 1) * base;
  }

  /** The digit before which the limit check passes and which leaves the type. */
  ghost predicate Leaves(s: string, t: Range, base: int, thSep: char, j: nat)
    requires t.max > 0 && base >= 2
  {
    && j < |s|
    && (forall i :: 0 <= i <= j ==> Reads(s[i], base, thSep))
    && Number(s[..j], base) <= t.max / base
    && Number(s[..j + 1], base) > t.max
  }

  /** Reading digits gives a value if and only if every character is read and the number is within the
      type, and the value is that number. */
  lemma {:induction false} ScanReads(s: string, t: Range, base: int, thSep: char)
    requires t.max > 0 && base >= 2
    ensures var r := Scan(s, t, base, thSep, 0, false);
            && (r.Value? <==> (forall i :: 0 <= i < |s| ==> Reads(s[i], base, thSep)) && Number(s, base) <= t.max)
            && (r.Value? ==> r.v == Number(s, base))
            && (r.Overflow? <==> exists j :: Leaves(s, t, base, thSep, j))
  {
    assert s[..0] == "" && s[0..] == s;
    NumberOfNothing(base);
    ScanReadsFrom(s, t, base, thSep, 0);
  }

  /** What is read from a position on, with what is before it read already. */
  ghost predicate ReadsOn(s: string, t: Range, base: int, thSep: char, k: nat, r: Parsed)
    requires t.max > 0 && base >= 2
  {
    && (r.Value? <==> (forall i :: k <= i < |s| ==> Reads(s[i], base, thSep)) && Number(s, base) <= t.max)
    && (r.Value? ==> r.v == Number(s, base))
    && (r.Overflow? <==> exists j :: k <= j && Leaves(s, t, base, thSep, j))
  }

  lemma {:induction false} ScanReadsFrom(s: string, t: Range, base: int, thSep: char, k: nat)
    requires t.max > 0 && base >= 2 && k <= |s| && Number(s[..k], base) <= t.max
    requires forall i :: 0 <= i < k ==> Reads(s[i], base, thSep)
    ensures ReadsOn(s, t, base, thSep, k, Scan(s[k..], t, base, thSep, Number(s[..k], base), Number(s[..k], base) != 0))
    decreases |s| - k
  {
    hide ReadsOn, Leaves, Number, Append, Quotient, DigitValue, Accepts, Skipped, Reads;
    if k == |s| {
      assert s[..k] == s;
      AtEnd(s, t, base, thSep);
    } else {
      var n, c := Number(s[..k], base), s[k];
      var d, m := DigitValue(c), Number(s[..k + 1], base);
      assert s[..k + 1] == s[..k] + [c] && s[k..][0] == c && s[k..][1..] == s[k + 1..];
      NumberOfOneMore(s[..k], c, base);
      AppendIs(n, base, d);
      ReadsIff(c, base, thSep);
      if !Reads(c, base, thSep) {
        Unreadable(s, t, base, thSep, k);
      } else if m <= t.max && (d < 0 || n <= Quotient(t.max, base)) {
        ScanReadsFrom(s, t, base, thSep, k + 1);
        ReadsOneMore(s, t, base, thSep, k, Scan(s[k + 1..], t, base, thSep, m, m != 0));
        AppendNothing(n, base, d);
      } else {
        TooLarge(s, t, base, thSep, k, d);
      }
    }
  }

  lemma AppendIs(n: nat, base: int, d: int)
    requires base >= 2
    ensures d >= 0 ==> Append(n, base, d) == n * base + d
  {
  }

  lemma AppendNothing(n: nat, base: int, d: int)
    requires base >= 2
    ensures d >= 0 ==> (Append(n, base, d) == 0 <==> n == 0 && d == 0)
  {
    if d >= 0 {
      AppendZero(n, base, d);
    }
  }

  lemma AtEnd(s: string, t: Range, base: int, thSep: char)
    requires t.max > 0 && base >= 2 && Number(s, base) <= t.max
    ensures ReadsOn(s, t, base, thSep, |s|, Value(Number(s, base)))
  {
  }

  lemma Unreadable(s: string, t: Range, base: int, thSep: char, k: nat)
    requires t.max > 0 && base >= 2 && k < |s| && !Reads(s[k], base, thSep)
    ensures ReadsOn(s, t, base, thSep, k, Refused)
  {
  }

  lemma ReadsOneMore(s: string, t: Range, base: int, thSep: char, k: nat, r: Parsed)
    requires t.max > 0 && base >= 2 && k < |s| && Reads(s[k], base, thSep)
    requires Number(s[..k + 1], base) <= t.max && ReadsOn(s, t, base, thSep, k + 1, r)
    ensures ReadsOn(s, t, base, thSep, k, r)
  {
    hide Reads, Number;
  }

  lemma TooLarge(s: string, t: Range, base: int, thSep: char, k: nat, d: int)
    requires t.max > 0 && base >= 2 && k < |s| && forall i :: 0 <= i <= k ==> Reads(s[i], base, thSep)
    requires var n, m := Number(s[..k], base), Number(s[..k + 1], base);
             && n <= t.max && (d >= 0 ==> m == Append(n, base, d)) && (d < 0 ==> m == n)
             && (m > t.max || (d >= 0 && n > Quotient(t.max, base)))
    ensures ReadsOn(s, t, base, thSep, k, if Number(s[..k], base) > Quotient(t.max, base) then Refused else Overflow)
  {
    hide Reads, Number, Append;
    var n, m := Number(s[..k], base), Number(s[..k + 1], base);
    if n > Quotient(t.max, base) {
      NoRoom(n, base, d, t.max);
    }
    assert m > t.max;
    forall j | k < j <= |s| ensures Number(s[..j], base) > t.max {
      assert s[..j][..k + 1] == s[..k + 1];
      NumberGrows(s[..j], k + 1, base);
    }
    assert s[..|s|] == s;
    LimitWithin(t.max, base);
    assert n <= t.max / base ==> Leaves(s, t, base, thSep, k);
  }

  lemma LimitWithin(max: nat, base: int)
    requires base >= 2
    ensures max / base <= max
  {
    QuotientSmaller(max, base);
  }

  /** The blanks of the C locale, one by one. */
  predicate Blank(c: char) {
    c in {' ', '\t', '\n', '\U{b}', '\U{c}', '\r'}
  }

  lemma BlanksAreSpaces()
    ensures forall c :: Blank(c) == IsSpace(c)
  {
  }

  /** What parsing takes a text for, with the blanks and the sign in front of the rest. */
  lemma {:induction false} ParseReads(blanks: string, rest: string, t: Range, base: int, thSep: char)
    requires t.max > 0 && base >= 2
    requires forall i :: 0 <= i < |blanks| ==> Blank(blanks[i])
    requires rest != "" ==> !Blank(rest[0])
    ensures ParseInt(blanks + rest, t, base, thSep) ==
              if rest == "" then Refused
              else if rest[0] == '+' then Scan(rest[1..], t, base, thSep, 0, false)
              else if rest[0] != '-' || base != 10 then Scan(rest, t, base, thSep, 0, false)
              else if t.min >= 0 then Refused
              else match Scan(rest[1..], t, base, thSep, 0, false)
                   case Value(v) => Value(-v)
                   case Refused => Refused
                   case Overflow => Overflow
  {
    hide Scan, Blank;
    BlanksAreSpaces();
    SkipsBlanks(blanks, rest);
  }

  // ----- Round trip

  /** Whether a digit that only bases ten and sixteen can read occurs in the text of `n`. */
  predicate HasHighDigit(n: nat, base: int)
    requires 2 <= base <= 16
    decreases n
  {
    Remainder(n, base) >= 8 || (Quotient(n, base) != 0 && HasHighDigit(Quotient(n, base), base))
  }

  lemma DigitOfChar(d: nat)
    requires d < 16
    ensures DigitValue(DigitChar(d)) == d
    ensures DigitChar(d) == '0' <==> d == 0
    ensures DigitChar(d) !in {'.', ',', '-', '+', ' '} && !IsSpace(DigitChar(d))
  {
  }

  predicate SeparatorsMatch(printed: char, read: char) {
    printed == NUL || (printed == read && (read == ',' || read == '.'))
  }

  /** The digits of `n` can be read in this base, and the type can hold `n`. */
  predicate Legible(n: nat, t: Range, base: int)
    requires 2 <= base <= 16
  {
    n <= t.max && (base == 10 || base == 16 || !HasHighDigit(n, base))
  }

  /** Reading the last digit, and a separator before it, with the higher digits already read. */
  lemma {:induction false} ScanLast(n: nat, t: Range, base: int, printed: char, read: char, thCount: nat, rest: string)
    requires t.max > 0 && 2 <= base <= 16 && SeparatorsMatch(printed, read)
    requires var high := Quotient(n, base); high == 0 || Legible(high, t, base)
    ensures var tail := Separator(base, printed, thCount) + [DigitChar(Remainder(n, base))] + rest;
            var r := Scan(tail, t, base, read, Quotient(n, base), Quotient(n, base) != 0);
            if Legible(n, t, base) then r == Scan(rest, t, base, read, n, n != 0) else !r.Value?
  {
    hide Quotient, Remainder, Append;
    var d, high, sep := Remainder(n, base), Quotient(n, base), Separator(base, printed, thCount);
    DigitOfChar(d);
    AppendLast(n, base);
    if n <= t.max {
      QuotientMonotone(n, t.max, base);
    }
    var text := [DigitChar(d)] + rest;
    assert text[0] == DigitChar(d) && text[1..] == rest;
    if sep == "" {
      assert sep + [DigitChar(d)] + rest == text;
    } else {
      var whole := sep + [DigitChar(d)] + rest;
      assert whole[0] == read && whole[1..] == text;
    }
    hide DigitValue, DigitChar;
    AppendZero(high, base, d);
  }

  lemma AppendZero(n: nat, base: int, d: nat)
    requires base >= 2
    ensures Append(n, base, d) == 0 <==> n == 0 && d == 0
  {
  }

  /** Reading the digits of `n` arrives at `n` if they are legible; otherwise the text is refused or
      overflows. */
  lemma {:induction false} ScanDigits(n: nat, t: Range, base: int, printed: char, read: char, thCount: nat,
          rest: string)
    requires t.max > 0 && 2 <= base <= 16 && SeparatorsMatch(printed, read)
    ensures var r := Scan(Digits(n, base, printed, thCount) + rest, t, base, read, 0, false);
            if Legible(n, t, base) then r == Scan(rest, t, base, read, n, n != 0) else !r.Value?
    decreases n
  {
    hide Quotient, Remainder, Scan, DigitChar;
    var high := Quotient(n, base);
    var tail := Separator(base, printed, thCount) + [DigitChar(Remainder(n, base))] + rest;
    if high == 0 {
      assert Digits(n, base, printed, thCount) + rest == tail;
      ScanLast(n, t, base, printed, read, thCount, rest);
    } else {
      var before := Digits(high, base, printed, NextCount(base, printed, thCount));
      assert Digits(n, base, printed, thCount) + rest == before + tail;
      ScanDigits(high, t, base, printed, read, NextCount(base, printed, thCount), tail);
      if Legible(high, t, base) {
        ScanLast(n, t, base, printed, read, thCount, rest);
      }
    }
  }

  lemma {:induction false} ScanZeros(k: int, rest: string, t: Range, base: int, read: char)
    requires t.max > 0 && base >= 2
    ensures Scan(Repeat('0', k) + rest, t, base, read, 0, false) == Scan(rest, t, base, read, 0, false)
  {
    hide Append, Quotient;
    if k <= 0 {
      assert Repeat('0', k) + rest == rest;
    } else {
      var more := "0" + rest;
      assert Repeat('0', k) + rest == Repeat('0', k - 1) + more;
      ScanZeros(k - 1, more, t, base, read);
      assert more[1..] == rest;
    }
  }

  lemma {:induction false} SkipsPadding(k: int, rest: string)
    requires rest != "" && !IsSpace(rest[0])
    ensures SkipSpaces(Repeat(' ', k) + rest) == rest
  {
    AllSame(' ', k);
    SkipsBlanks(Repeat(' ', k), rest);
  }

  lemma {:induction false} SkipsBlanks(pad: string, rest: string)
    requires (forall i :: 0 <= i < |pad| ==> IsSpace(pad[i])) && (rest != "" ==> !IsSpace(rest[0]))
    ensures SkipSpaces(pad + rest) == rest
  {
    if pad == "" {
      assert pad + rest == rest;
    } else {
      assert (pad + rest)[1..] == pad[1..] + rest;
      SkipsBlanks(pad[1..], rest);
    }
  }

  lemma {:induction false} AllSame(c: char, k: int)
    ensures forall i :: 0 <= i < |Repeat(c, k)| ==> Repeat(c, k)[i] == c
  {
    if k > 0 {
      AllSame(c, k - 1);
    }
  }

  lemma {:induction false} FirstOfDigits(n: nat, base: int, printed: char, thCount: nat)
    requires 2 <= base <= 16 && printed in {NUL, ',', '.'}
    ensures var c := Digits(n, base, printed, thCount)[0]; !IsSpace(c) && c != '-' && c != '+'
    decreases n
  {
    DigitOfChar(Remainder(n, base));
    if Quotient(n, base) != 0 {
      FirstOfDigits(Quotient(n, base), base, printed, NextCount(base, printed, thCount));
    }
  }

  /** The text after the sign: prefix and zeros in front of the digits. */
  lemma {:induction false} ScanBody(n: nat, t: Range, base: int, prefix: bool, zeros: int, printed: char, read: char)
    requires t.max > 0 && 2 <= base <= 16 && SeparatorsMatch(printed, read)
    ensures var body := PrefixText(base, prefix) + Repeat('0', zeros) + Digits(n, base, printed, 0);
            var r := Scan(body, t, base, read, 0, false);
            if Legible(n, t, base) && !(prefix && base == 16) then r == Value(n) else !r.Value?
  {
    hide Digits, Legible, Quotient, Append, Repeat;
    var digits := Digits(n, base, printed, 0);
    ScanDigits(n, t, base, printed, read, 0, "");
    assert digits + "" == digits;
    ScanZeros(zeros, digits, t, base, read);
    var rest := Repeat('0', zeros) + digits;
    if prefix && base == 8 {
      assert "0" + Repeat('0', zeros) + digits == "0" + rest;
      assert ("0" + rest)[1..] == rest;
    } else if prefix && base == 16 {
      var text := "0x" + Repeat('0', zeros) + digits;
      assert text[1..][0] == 'x';
    } else {
      assert "" + Repeat('0', zeros) + digits == rest;
    }
  }

  lemma {:induction false} FormattedParts(v: int, base: int, prefix: bool, width: int, fill: char, printed: char)
    returns (pad: int, zeros: int)
    requires 2 <= base <= 16 && (fill == ' ' || fill == '0')
    ensures var body := PrefixText(base, prefix) + Repeat('0', zeros) + Digits(Abs(v), base, printed, 0);
            Formatted(v, base, prefix, width, fill, printed) == Repeat(' ', pad) + (SignText(v) + body)
  {
    var digits := Digits(Abs(v), base, printed, 0);
    var gap := width - |SignText(v) + PrefixText(base, prefix)| - |digits|;
    var sign, pre := SignText(v), PrefixText(base, prefix);
    pad, zeros := if fill == '0' then 0 else gap, if fill == '0' then gap else 0;
    var blanks, zs := Repeat(' ', pad), Repeat('0', zeros);
    assert Formatted(v, base, prefix, width, fill, printed) ==
      if fill == '0' then sign + pre + zs + digits else blanks + (sign + pre) + digits;
    assert if fill == '0' then blanks == "" else zs == "";
    hide Digits, PrefixText, SignText, Repeat, Formatted;
    if fill == '0' {
      Assoc(sign, pre, zs);
      Assoc(sign, pre + zs, digits);
      assert "" + (sign + (pre + zs + digits)) == sign + (pre + zs + digits);
    } else {
      assert pre + "" == pre;
      Assoc(sign, pre, digits);
      Assoc(blanks, sign + pre, digits);
    }
  }

  /** Parsing takes off the padding and the sign. */
  lemma {:induction false} ParsePadded(v: int, t: Range, base: int, read: char, pad: int, body: string)
    requires t.max > 0 && base >= 2 && body != "" && !IsSpace(body[0]) && body[0] != '-' && body[0] != '+'
    ensures var r := Scan(body, t, base, read, 0, false);
            ParseInt(Repeat(' ', pad) + (SignText(v) + body), t, base, read) ==
              if v >= 0 then r else if base == 10 && t.min < 0 then Negated(r) else Refused
  {
    var text := SignText(v) + body;
    SkipsPadding(pad, text);
    hide Repeat, SkipSpaces, Append, Quotient;
    if v < 0 {
      assert text[0] == '-' && text[1..] == body;
    } else {
      assert text == body;
    }
  }

  /** Parsing what was printed, for every value of the type, every width, space or zero fill and any
      base from two to sixteen, gives the value back without an overflow on the way if and only if: the
      value is not negative or the base is ten; no hexadecimal prefix was printed; the digits can be read
      in the base; and the magnitude is within the type, which leaves out the minimum of a signed type
      alone. */
  lemma {:induction false} RoundTripIff(v: int, t: Range, base: int, prefix: bool, width: int, fill: char,
          printed: char, read: char)
    requires IsType(t) && t.min <= v <= t.max && 2 <= base <= 16
    requires fill == ' ' || fill == '0'
    requires SeparatorsMatch(printed, read)
    ensures ParseInt(Formatted(v, base, prefix, width, fill, printed), t, base, read) == Value(v) <==>
            (v >= 0 || base == 10) && !(prefix && base == 16) && Legible(Abs(v), t, base)
  {
    hide Digits, Legible, Repeat, PrefixText, SignText, Scan, ParseInt, Formatted;
    var pad, zeros := FormattedParts(v, base, prefix, width, fill, printed);
    var body := PrefixText(base, prefix) + Repeat('0', zeros) + Digits(Abs(v), base, printed, 0);
    FirstOfBody(Abs(v), base, prefix, zeros, printed);
    ParsePadded(v, t, base, read, pad, body);
    ScanBody(Abs(v), t, base, prefix, zeros, printed, read);
  }

  lemma {:induction false} FirstOfBody(n: nat, base: int, prefix: bool, zeros: int, printed: char)
    requires 2 <= base <= 16 && printed in {NUL, ',', '.'}
    ensures var body := PrefixText(base, prefix) + Repeat('0', zeros) + Digits(n, base, printed, 0);
            body != "" && !IsSpace(body[0]) && body[0] != '-' && body[0] != '+'
  {
    FirstOfDigits(n, base, printed, 0);
    AllSame('0', zeros);
  }

  /** Texts that are printed and not read back: digits that the base prints but does not read, a sign
      outside base ten, a hexadecimal prefix. */
  lemma SomeTextsAreNotRead(t: Range)
    requires IsType(t) && t.min <= -1 && t.max >= 10
    ensures ParseInt(Formatted(8, 9, false, 0, ' ', NUL), t, 9, ',') != Value(8)
    ensures ParseInt(Formatted(10, 11, false, 0, ' ', NUL), t, 11, ',') != Value(10)
    ensures ParseInt(Formatted(-1, 16, false, 0, ' ', NUL), t, 16, ',') != Value(-1)
    ensures ParseInt(Formatted(10, 16, true, 0, ' ', NUL), t, 16, ',') != Value(10)
    ensures ParseInt(Formatted(t.min, 10, false, 0, ' ', NUL), t, 10, ',') != Value(t.min)
  {
    hide ParseInt, Formatted;
    RoundTripIff(8, t, 9, false, 0, ' ', NUL, ',');
    RoundTripIff(10, t, 11, false, 0, ' ', NUL, ',');
    RoundTripIff(-1, t, 16, false, 0, ' ', NUL, ',');
    RoundTripIff(10, t, 16, true, 0, ' ', NUL, ',');
    RoundTripIff(t.min, t, 10, false, 0, ' ', NUL, ',');
  }

  /** The number of decimal digits. */
  function DecimalLength(n: nat): (k: nat)
    ensures k > 0
    decreases n
  {
    if Quotient(n, 10) == 0 then 1 else 1 + DecimalLength(Quotient(n, 10))
  }

  /** A separator follows every third digit, also when no digit comes before it: the text starts with one
      if and only if the number of digits is a multiple of three. */
  lemma {:induction false} StartsWithSeparatorIff(n: nat, thSep: char)
    requires thSep in {',', '.', ' '}
    ensures Digits(n, 10, thSep, 0)[0] == thSep <==> DecimalLength(n) % 3 == 0
  {
    SeparatorInFront(n, thSep, 0);
  }

  lemma {:induction false} SeparatorInFront(n: nat, thSep: char, thCount: nat)
    requires thSep in {',', '.', ' '} && thCount < 3
    ensures Digits(n, 10, thSep, thCount)[0] == thSep <==> (DecimalLength(n) + thCount) % 3 == 0
    decreases n
  {
    hide Quotient, Remainder, DigitChar;
    DigitOfChar(Remainder(n, 10));
    if Quotient(n, 10) != 0 {
      SeparatorInFront(Quotient(n, 10), thSep, NextCount(10, thSep, thCount));
    }
  }

  lemma SeparatorWithNothingBefore()
    ensures Formatted(123, 10, false, 0, ' ', ',') == ",123"
  {
    assert Quotient(123, 10) == 12 && Remainder(123, 10) == 3;
    assert Quotient(12, 10) == 1 && Remainder(12, 10) == 2;
    assert Quotient(1, 10) == 0 && Remainder(1, 10) == 1;
    assert Digits(1, 10, ',', 2) == ",1";
    assert Digits(12, 10, ',', 1) == ",12";
    assert Digits(123, 10, ',', 0) == ",123";
  }

  // ----- In place

  function Reverse(s: string): (r: string)
    ensures |r| == |s|
  {
    if s == "" then "" else Reverse(s[1..]) + [s[0]]
  }

  lemma {:induction false} ReverseAt(s: string, k: nat)
    requires k < |s|
    ensures Reverse(s)[k] == s[|s| - 1 - k]
  {
    if k < |s| - 1 {
      ReverseAt(s[1..], k);
    }
  }

  lemma {:induction false} ReverseConcat(a: string, b: string)
    ensures Reverse(a + b) == Reverse(b) + Reverse(a)
  {
    if a == "" {
      assert a + b == b;
    } else {
      assert (a + b)[1..] == a[1..] + b;
      ReverseConcat(a[1..], b);
    }
  }

  lemma {:induction false} ReverseRepeat(c: char, k: int)
    ensures Reverse(Repeat(c, k)) == Repeat(c, k)
  {
    AllSame(c, k);
    forall i | 0 <= i < |Repeat(c, k)| ensures Reverse(Repeat(c, k))[i] == Repeat(c, k)[i] {
      ReverseAt(Repeat(c, k), i);
    }
  }

  /** The loop that swaps characters from both ends of the written text. */
  method ReverseInPlace(buffer: array<char>, size: nat)
    requires 0 < size <= buffer.Length
    modifies buffer
    ensures buffer[..size] == Reverse(old(buffer[..size]))
    ensures buffer[size..] == old(buffer[size..])
  {
    hide Reverse;
    var ptr, ptrr := size - 1, 0;
    while ptrr < ptr
      invariant 0 <= ptrr <= ptr + 1 && ptr == size - 1 - ptrr
      invariant forall k :: 0 <= k < ptrr ==>
          buffer[k] == old(buffer[size - 1 - k]) && buffer[size - 1 - k] == old(buffer[k])
      invariant forall k :: ptrr <= k <= ptr ==> buffer[k] == old(buffer[k])
      invariant forall k :: size <= k < buffer.Length ==> buffer[k] == old(buffer[k])
    {
      var tmp := buffer[ptr];
      buffer[ptr] := buffer[ptrr];
      ptr := ptr - 1;
      buffer[ptrr] := tmp;
      ptrr := ptrr + 1;
    }
    Mirrored(old(buffer[..size]), buffer[..size]);
  }

  lemma {:induction false} Mirrored(s: string, t: string)
    requires |s| == |t| && forall k :: 0 <= k < |s| ==> t[k] == s[|s| - 1 - k]
    ensures t == Reverse(s)
  {
    forall k | 0 <= k < |s| ensures t[k] == Reverse(s)[k] {
      ReverseAt(s, k);
    }
  }

  /** The write pointer into the buffer, which refuses to move past its end. */
  class Ptr {
    const buffer: array<char>
    var cur: nat

    ghost predicate Valid()
      reads this
    {
      cur <= buffer.Length
    }

    ghost function Written(): string
      requires Valid()
      reads this, buffer
    {
      buffer[..cur]
    }

    constructor (buffer: array<char>)
      ensures Valid() && this.buffer == buffer && cur == 0 && Written() == ""
    {
      this.buffer, cur := buffer, 0;
    }

    /** `*ptr++ = c`; the check throws at the end of the buffer, before anything is written. */
    method Put(c: char) returns (ok: bool)
      requires Valid()
      modifies this, buffer
      ensures Valid() && (ok <==> old(cur) < buffer.Length)
      ensures Written() == if ok then old(Written()) + [c] else old(Written())
    {
      if cur + 1 > buffer.Length {
        return false;
      }
      buffer[cur] := c;
      cur := cur + 1;
      ok := true;
    }
  }

  /** Division that truncates toward zero, as the language defines it. */
  function TruncatedQuotient(v: int, base: int): int
    requires base >= 2
  {
    if v < 0 then -(Quotient(-v, base) as int) else Quotient(v, base)
  }

  const SIGNED_DIGITS := "FEDCBA9876543210123456789ABCDEF"

  /** What is left of `v` when its quotient is taken out; negative for a negative `v`. */
  function SignedRemainder(v: int, quotient: int, base: int): int {
    v - quotient * base
  }

  lemma SignedDigit(v: int, base: int)
    requires 2 <= base <= 16
    ensures var r := SignedRemainder(v, TruncatedQuotient(v, base), base);
            -16 < r < 16 && SIGNED_DIGITS[15 + r] == DigitChar(Remainder(Abs(v), base))
    ensures Abs(TruncatedQuotient(v, base)) == Quotient(Abs(v), base)
    ensures TruncatedQuotient(v, base) != 0 ==> (v < 0 <==> TruncatedQuotient(v, base) < 0)
  {
    hide SignedRemainder, Quotient, Remainder, DigitChar;
    SignedDifference(v, base);
    MirroredDigit(Remainder(Abs(v), base));
  }

  lemma SignedDifference(v: int, base: int)
    requires 2 <= base <= 16
    ensures SignedRemainder(v, TruncatedQuotient(v, base), base) ==
              if v < 0 then -(Remainder(Abs(v), base) as int) else Remainder(Abs(v), base)
  {
    hide Quotient, Remainder;
    AppendLast(Abs(v), base);
    var q: int := Quotient(Abs(v), base);
    assert (-q) * base == -(q * base);
  }

  lemma MirroredDigit(d: nat)
    requires d < 16
    ensures SIGNED_DIGITS[15 + d] == SIGNED_DIGITS[15 - d] == DigitChar(d)
  {
  }

  /** One digit, and a separator behind every third one, in front of what is still to be written. */
  lemma {:induction false} ReverseDigits(n: nat, base: int, thSep: char, thCount: nat)
    requires 2 <= base <= 16
    ensures var high := Quotient(n, base);
            Reverse(Digits(n, base, thSep, thCount)) ==
              [DigitChar(Remainder(n, base))] + Separator(base, thSep, thCount) +
              (if high == 0 then "" else Reverse(Digits(high, base, thSep, NextCount(base, thSep, thCount))))
  {
    hide Quotient, Remainder, DigitChar;
    var high, sep, last := Quotient(n, base), Separator(base, thSep, thCount), [DigitChar(Remainder(n, base))];
    var before := if high == 0 then "" else Digits(high, base, thSep, NextCount(base, thSep, thCount));
    assert Digits(n, base, thSep, thCount) == before + sep + last;
    ReverseConcat(before + sep, last);
    ReverseConcat(before, sep);
    assert Reverse(sep) == sep && Reverse(last) == last;
    Assoc(last, sep, Reverse(before));
  }

  /** One turn of the digit loop: the digit it picks, the separator, and what is left to be written. */
  lemma DigitTurn(v: int, base: int, thSep: char, thCount: nat)
    requires 2 <= base <= 16
    ensures var q := TruncatedQuotient(v, base);
            var r := SignedRemainder(v, q, base);
            var left := if q == 0 then "" else Reverse(Digits(Abs(q), base, thSep, NextCount(base, thSep, thCount)));
            && -16 < r < 16
            && Reverse(Digits(Abs(v), base, thSep, thCount)) ==
                 [SIGNED_DIGITS[15 + r]] + (Separator(base, thSep, thCount) + left)
            && (q != 0 ==> Abs(q) < Abs(v) && (v < 0 <==> q < 0))
  {
    hide Remainder, Reverse, Digits, DigitChar, SignedRemainder, TruncatedQuotient;
    SignedDigit(v, base);
    ReverseDigits(Abs(v), base, thSep, thCount);
    var q := TruncatedQuotient(v, base);
    var left := if q == 0 then "" else Reverse(Digits(Abs(q), base, thSep, NextCount(base, thSep, thCount)));
    Assoc([DigitChar(Remainder(Abs(v), base))], Separator(base, thSep, thCount), left);
  }

  /** The separator behind a digit, and the count of digits since the last one. */
  method WriteSeparator(base: int, thSep: char, thCount: nat, ptr: Ptr) returns (ok: bool, next: nat)
    requires ptr.Valid()
    modifies ptr, ptr.buffer
    ensures ptr.Valid() && (ok <==> old(ptr.cur) + |Separator(base, thSep, thCount)| <= ptr.buffer.Length)
    ensures ok ==> ptr.Written() == old(ptr.Written()) + Separator(base, thSep, thCount)
    ensures ok ==> next == NextCount(base, thSep, thCount)
  {
    ok, next := true, thCount;
    if thSep != NUL && base == 10 {
      next := next + 1;
      if next == 3 {
        ok := ptr.Put(thSep);
        next := 0;
      }
    }
  }

  /** The digit loop, least significant digit first. It throws if the digits do not fit. */
  method WriteDigits(v: int, base: int, thSep: char, ptr: Ptr) returns (ok: bool, negative: bool)
    requires 2 <= base <= 16 && ptr.cur == 0
    modifies ptr, ptr.buffer
    ensures ptr.Valid() && (ok <==> |Digits(Abs(v), base, thSep, 0)| <= ptr.buffer.Length)
    ensures ok ==> ptr.Written() == Reverse(Digits(Abs(v), base, thSep, 0))
    ensures ok ==> (negative <==> v < 0)
  {
    hide Quotient, Remainder, Reverse, Digits, SignedRemainder, TruncatedQuotient, Separator, NextCount, Abs;
    ghost var all := Reverse(Digits(Abs(v), base, thSep, 0));
    var value, thCount, more, tmpVal := v, 0, true, 0;
    ghost var left := all;
    while more
      invariant ptr.Valid() && ptr.Written() + left == all
      invariant more ==> left == Reverse(Digits(Abs(value), base, thSep, thCount)) && (value < 0 <==> v < 0)
      invariant !more ==> left == "" && (tmpVal < 0 <==> v < 0)
      decreases more, Abs(value)
    {
      DigitTurn(value, base, thSep, thCount);
      tmpVal := value;
      value := TruncatedQuotient(value, base);
      var c := SIGNED_DIGITS[15 + SignedRemainder(tmpVal, value, base)];
      ghost var sep := Separator(base, thSep, thCount);
      ghost var rest := left[1..][|sep|..];
      Carried(ptr.Written(), c, sep, rest);
      ok := ptr.Put(c);
      if !ok {
        return false, false;
      }
      ok, thCount := WriteSeparator(base, thSep, thCount, ptr);
      if !ok {
        return false, false;
      }
      left := rest;
      more := value != 0;
    }
    ok, negative := true, tmpVal < 0;
    assert ptr.Written() + "" == ptr.Written();
  }

  lemma Carried(before: string, c: char, sep: string, rest: string)
    ensures ([c] + (sep + rest))[1..] == sep + rest && (sep + rest)[|sep|..] == rest
    ensures before + ([c] + (sep + rest)) == before + [c] + sep + rest
  {
  }

  /** The loop that pads up to a width; it writes nothing when the width is reached already, and throws if
      the padding does not fit. */
  method Fill(ptr: Ptr, width: int, c: char) returns (ok: bool)
    requires ptr.Valid()
    modifies ptr, ptr.buffer
    ensures ptr.Valid() && (ok <==> old(ptr.cur) + |Repeat(c, width - old(ptr.cur))| <= ptr.buffer.Length)
    ensures ok ==> ptr.Written() == old(ptr.Written()) + Repeat(c, width - old(ptr.cur))
  {
    ghost var start := ptr.cur;
    ok := true;
    while ptr.cur < width
      invariant start <= ptr.cur && (ptr.cur <= width || ptr.cur == start) && ptr.Valid()
      invariant ptr.Written() == old(ptr.Written()) + Repeat(c, ptr.cur - start)
    {
      ok := ptr.Put(c);
      if !ok {
        return;
      }
    }
  }

  lemma FormattedIs(v: int, base: int, prefix: bool, width: int, fill: char, thSep: char)
    requires 2 <= base <= 16
    ensures var digits, pre, sign := Digits(Abs(v), base, thSep, 0), PrefixText(base, prefix), SignText(v);
            var z := Repeat(fill, width - |sign| - |pre| - |digits|);
            Formatted(v, base, prefix, width, fill, thSep) ==
              if fill == '0' then sign + pre + z + digits else z + (sign + pre) + digits
  {
    hide Digits, PrefixText, SignText, Repeat;
    var digits, pre, sign := Digits(Abs(v), base, thSep, 0), PrefixText(base, prefix), SignText(v);
    assert width - |sign| - |pre| - |digits| == width - |sign + pre| - |digits|;
  }

  lemma SignIsItsReverse(v: int)
    ensures Reverse(SignText(v)) == SignText(v)
  {
  }

  /** The text as it is written, last character first. */
  lemma {:induction false} ReverseFormatted(v: int, base: int, prefix: bool, width: int, fill: char, thSep: char)
    requires 2 <= base <= 16
    ensures var digits, pre, sign := Digits(Abs(v), base, thSep, 0), PrefixText(base, prefix), SignText(v);
            var gap := width - |sign| - |pre| - |digits|;
            Reverse(Formatted(v, base, prefix, width, fill, thSep)) ==
              if fill == '0' then Reverse(digits) + Repeat('0', gap) + Reverse(pre) + sign
              else Reverse(digits) + Reverse(pre) + sign + Repeat(fill, gap)
  {
    hide Digits, PrefixText, SignText, Repeat, Formatted, Reverse;
    var digits, pre, sign := Digits(Abs(v), base, thSep, 0), PrefixText(base, prefix), SignText(v);
    var gap := width - |sign| - |pre| - |digits|;
    var z := Repeat(fill, gap);
    FormattedIs(v, base, prefix, width, fill, thSep);
    SignIsItsReverse(v);
    ReverseRepeat(fill, gap);
    ReverseConcat(sign, pre);
    if fill == '0' {
      ReverseConcat(sign + pre + z, digits);
      ReverseConcat(sign + pre, z);
      Assoc(z, Reverse(pre), sign);
      Assoc(Reverse(digits), z, Reverse(pre) + sign);
      Assoc(Reverse(digits) + z, Reverse(pre), sign);
    } else {
      ReverseConcat(z + (sign + pre), digits);
      ReverseConcat(z, sign + pre);
      Assoc(Reverse(digits), Reverse(pre) + sign, z);
      Assoc(Reverse(digits), Reverse(pre), sign);
    }
  }

  lemma {:induction false} ReverseTwice(s: string)
    ensures Reverse(Reverse(s)) == s
  {
    forall k | 0 <= k < |s| ensures Reverse(Reverse(s))[k] == s[k] {
      ReverseAt(Reverse(s), k);
      ReverseAt(s, |s| - 1 - k);
    }
  }

  /** The pieces of the text in the order in which they are written. */
  lemma {:induction false} WritingOrder(v: int, base: int, prefix: bool, width: int, fill: char, thSep: char)
    requires 2 <= base <= 16
    ensures var digits, head := Reverse(Digits(Abs(v), base, thSep, 0)), HeadText(base, prefix, v < 0);
            var gap := Repeat(fill, width - |head| - |digits|);
            && digits != ""
            && Reverse(Formatted(v, base, prefix, width, fill, thSep)) ==
                 if fill == '0' then digits + gap + head else digits + head + gap
  {
    hide Digits, Repeat, Reverse, PrefixText, SignText, Formatted;
    ReverseFormatted(v, base, prefix, width, fill, thSep);
    ReversePrefix(base, prefix);
    SignIs(v);
    var digits := Reverse(Digits(Abs(v), base, thSep, 0));
    var gap := Repeat(fill, width - |SignText(v)| - |PrefixText(base, prefix)| - |digits|);
    Assoc(digits, Reverse(PrefixText(base, prefix)), SignText(v));
    Assoc(digits + gap, Reverse(PrefixText(base, prefix)), SignText(v));
  }

  /** Prefix and sign, back to front. */
  function HeadText(base: int, prefix: bool, negative: bool): string {
    (if prefix && base == 8 then "0" else if prefix && base == 16 then "x0" else "") + if negative then "-" else ""
  }

  /** The width that zeros may fill: what sign and prefix leave of it. */
  method RemainingWidth(base: int, prefix: bool, negative: bool, width: int) returns (remaining: int)
    ensures remaining == width - |HeadText(base, prefix, negative)|
  {
    remaining := width;
    if negative { remaining := remaining - 1; }
    if prefix && base == 8 { remaining := remaining - 1; }
    if prefix && base == 16 { remaining := remaining - 2; }
  }

  /** Everything that is written before the reversal; it throws if the text does not fit. */
  method WriteFormatted(value: int, base: int, prefix: bool, width: int, fill: char, thSep: char, ptr: Ptr)
    returns (ok: bool)
    requires 2 <= base <= 16 && ptr.cur == 0
    modifies ptr, ptr.buffer
    ensures ptr.Valid() && (ok <==> |Formatted(value, base, prefix, width, fill, thSep)| <= ptr.buffer.Length)
    ensures ok ==> ptr.Written() == Reverse(Formatted(value, base, prefix, width, fill, thSep)) != ""
  {
    hide Digits, Repeat, Reverse, Formatted, HeadText;
    WritingOrder(value, base, prefix, width, fill, thSep);
    var negative;
    ok, negative := WriteDigits(value, base, thSep, ptr);
    if !ok {
      return;
    }
    if '0' == fill {
      var remaining := RemainingWidth(base, prefix, negative, width);
      ok := Fill(ptr, remaining, fill);
      if !ok {
        return;
      }
    }
    ok := WriteHead(base, prefix, negative, ptr);
    if ok && '0' != fill {
      ok := Fill(ptr, width, fill);
    }
  }

  /** Overrun: the terminator is written behind the buffer, where the language leaves the rest undefined. */
  datatype Written = Done(size: nat) | BadBase | RangeException | Overrun

  /** `intToStr`, and `uIntToStr` for values that are not negative. A text that exceeds the buffer throws,
      one that leaves no room for its terminator overruns it. */
  method IntToStr(value: int, base: int, buffer: array<char>, prefix: bool, width: int, fill: char, thSep: char)
    returns (r: Written)
    requires buffer.Length > 0
    modifies buffer
    ensures r.BadBase? <==> !(2 <= base <= 16)
    ensures r.BadBase? ==> buffer[0] == NUL
    ensures 2 <= base <= 16 ==>
              var text := Formatted(value, base, prefix, width, fill, thSep);
              && (r.RangeException? <==> |text| > buffer.Length)
              && (r.Overrun? <==> |text| == buffer.Length)
              && (r.Done? ==> r.size == |text| < buffer.Length && buffer[..r.size] == text && buffer[r.size] == NUL)
  {
    if base < 2 || base > 16 {
      buffer[0] := NUL;
      return BadBase;
    }
    hide Formatted, Reverse;
    ghost var text := Formatted(value, base, prefix, width, fill, thSep);
    var ptr := new Ptr(buffer);
    var ok := WriteFormatted(value, base, prefix, width, fill, thSep, ptr);
    if !ok {
      return RangeException;
    }
    var size := ptr.cur;
    assert buffer[..size] == Reverse(text);
    if size == buffer.Length {
      return Overrun;
    }
    buffer[size] := NUL;
    assert buffer[..size] == Reverse(text);
    ReverseInPlace(buffer, size);
    ReverseTwice(text);
    r := Done(size);
  }

  /** The prefix and the sign, back to front. */
  method WriteHead(base: int, prefix: bool, negative: bool, ptr: Ptr) returns (ok: bool)
    requires ptr.Valid()
    modifies ptr, ptr.buffer
    ensures var head := HeadText(base, prefix, negative);
            && ptr.Valid() && (ok <==> old(ptr.cur) + |head| <= ptr.buffer.Length)
            && (ok ==> ptr.Written() == old(ptr.Written()) + head)
  {
    ok := WritePrefix(base, prefix, ptr);
    if ok && negative {
      ok := ptr.Put('-');
    }
  }

  method WritePrefix(base: int, prefix: bool, ptr: Ptr) returns (ok: bool)
    requires ptr.Valid()
    modifies ptr, ptr.buffer
    ensures var head := HeadText(base, prefix, false);
            && ptr.Valid() && (ok <==> old(ptr.cur) + |head| <= ptr.buffer.Length)
            && (ok ==> ptr.Written() == old(ptr.Written()) + head)
  {
    ok := true;
    if prefix && base == 8 {
      ok := ptr.Put('0');
    } else if prefix && base == 16 {
      ok := ptr.Put('x');
      if ok {
        ok := ptr.Put('0');
      }
    }
  }

  lemma SignIs(v: int)
    ensures SignText(v) == if v < 0 then "-" else ""
  {
  }

  lemma ReversePrefix(base: int, prefix: bool)
    ensures |PrefixText(base, prefix)| == if prefix && base == 8 then 1 else if prefix && base == 16 then 2 else 0
    ensures Reverse(PrefixText(base, prefix)) == if prefix && base == 8 then "0" else if prefix
        && base == 16 then "x0" else ""
  {
  }

  /** The digit loop with its limit check. */
  method ReadDigits(s: string, t: Range, base: int, thSep: char) returns (r: Parsed)
    requires t.max > 0 && base >= 2
    ensures r == Scan(s, t, base, thSep, 0, false)
  {
    hide Append, Quotient, DigitValue;
    var i, significant, result: nat, limitCheck := 0, false, 0, Quotient(t.max, base);
    while i < |s|
      invariant i <= |s| && Scan(s[i..], t, base, thSep, result, significant) == Scan(s, t, base, thSep, 0, false)
    {
      var c, d := s[i], DigitValue(s[i]);
      assert s[i..][0] == c && s[i..][1..] == s[i + 1..];
      if c == '0' && !significant {
      } else if Accepts(base, d) {
        significant := true;
        if result > limitCheck {
          return Refused;
        }
        if Append(result, base, d) > t.max {
          return Overflow;
        }
        result := Append(result, base, d);
      } else if !Skipped(c, base, thSep) {
        return Refused;
      }
      i := i + 1;
    }
    r := Value(result);
  }

  /** `strToInt`: spaces, sign, digits. The string stands for a zero-terminated array; the function's
      result is false where this returns Refused. */
  method StrToInt(str: string, t: Range, base: int, thSep: char) returns (r: Parsed)
    requires t.max > 0 && base >= 2
    ensures r == ParseInt(str, t, base, thSep)
  {
    hide Scan, IsSpace, SkipSpaces;
    var i := 0;
    while i < |str| && IsSpace(str[i])
      invariant i <= |str| && forall j :: 0 <= j < i ==> IsSpace(str[j])
    {
      i := i + 1;
    }
    SkipsBlanks(str[..i], str[i..]);
    assert str[..i] + str[i..] == str;
    if i == |str| {
      return Refused;
    }
    var sign := 1;
    if base == 10 && str[i] == '-' {
      if t.min >= 0 {
        return Refused;
      }
      sign := -1;
      i := i + 1;
    } else if str[i] == '+' {
      i := i + 1;
    }
    r := ReadDigits(str[i..], t, base, thSep);
    if sign < 0 && r.Value? {
      r := Value(r.v * sign);
    }
  }
}
