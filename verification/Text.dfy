/** Decimal numerals, split and join: the text primitives the cursors and addresses rely on. */
module Text {

  datatype Option<+T> = None | Some(value: T)

  predicate IsDigit(c: char) { '0' <= c <= '9' }

  predicate AllDigits(s: string) { forall i :: 0 <= i < |s| ==> IsDigit(s[i]) }

  function DigitValue(c: char): (d: nat)
    requires IsDigit(c)
    ensures d < 10
  {
    c as int - '0' as int
  }

  function DigitChar(d: nat): (c: char)
    requires d < 10
    ensures IsDigit(c) && DigitValue(c) == d
  {
    ('0' as int + d) as char
  }

  /** The decimal text of a natural number, without leading zeros. */
  function Decimal(n: nat): (s: string)
    ensures s != [] && AllDigits(s)
  {
    if n < 10 then [DigitChar(n)] else Decimal(n / 10) + [DigitChar(n % 10)]
  }

  /** The decimal text of an integer, as a template literal prints it. */
  function IntText(n: int): (s: string)
    ensures s != []
    ensures forall i :: 0 <= i < |s| ==> IsDigit(s[i]) || (i == 0 && s[i] == '-')
  {
    if n < 0 then ['-'] + Decimal(-n) else Decimal(n)
  }

  /** The number a run of digits denotes. */
  function DigitsValue(s: string): nat
    requires AllDigits(s)
  {
    if s == [] then 0 else DigitsValue(s[..|s| - 1]) * 10 + DigitValue(s[|s| - 1])
  }

  lemma {:induction false} DigitsValueOfDecimal(n: nat)
    ensures DigitsValue(Decimal(n)) == n
  {
    if n >= 10 {
      DigitsValueOfDecimal(n / 10);
      var s := Decimal(n);
      assert s[..|s| - 1] == Decimal(n / 10);
    }
  }

  /** WhiteSpace and LineTerminator of ECMA-262, which trim strips. */
  predicate Blank(c: char) {
    || '\t' <= c <= '\r' || c == ' ' || c == '\U{00A0}' || c == '\U{1680}' || c == '\U{2028}' || c == '\U{2029}'
    || c == '\U{202F}' || c == '\U{205F}' || c == '\U{3000}' || c == '\U{FEFF}'
    || '\U{2000}' <= c <= '\U{200A}'
  }

  predicate EndsBlank(s: string) { s != [] && Blank(s[|s| - 1]) }

  function TrimLeft(s: string): string {
    if s != [] && Blank(s[0]) then TrimLeft(s[1..]) else s
  }

  function TrimRight(s: string): string {
    if EndsBlank(s) then TrimRight(s[..|s| - 1]) else s
  }

  predicate AllBlank(s: string) { forall i :: 0 <= i < |s| ==> Blank(s[i]) }

  /** The text is this core with blanks around it, and the core neither begins nor ends with one. */
  ghost predicate Trims(s: string, core: string) {
    && (exists a, b :: s == a + core + b && AllBlank(a) && AllBlank(b))
    && (core != [] ==> !Blank(core[0])) && !EndsBlank(core)
  }

  lemma {:induction false} BlanksBefore(s: string) returns (a: string)
    ensures s == a + TrimLeft(s) && AllBlank(a)
    ensures TrimLeft(s) != [] ==> !Blank(TrimLeft(s)[0])
  {
    a := [];
    if s != [] && Blank(s[0]) {
      a := BlanksBefore(s[1..]);
      a := [s[0]] + a;
    }
  }

  lemma {:induction false} BlanksAfter(s: string) returns (b: string)
    ensures s == TrimRight(s) + b && AllBlank(b) && !EndsBlank(TrimRight(s))
    decreases |s|
  {
    if EndsBlank(s) {
      var front := s[..|s| - 1];
      b := BlanksAfter(front);
      assert s == TrimRight(front) + (b + [s[|s| - 1]]);
      b := b + [s[|s| - 1]];
    } else {
      b := [];
    }
  }

  lemma TrimStrips(s: string)
    ensures Trims(s, TrimRight(TrimLeft(s)))
  {
    var a := BlanksBefore(s);
    var b := BlanksAfter(TrimLeft(s));
    var core := TrimRight(TrimLeft(s));
    assert s == a + core + b;
    assert core != [] ==> core[0] == TrimLeft(s)[0];
  }

  function LeadingDigits(s: string): (p: string)
    ensures AllDigits(p)
  {
    if s != [] && IsDigit(s[0]) then [s[0]] + LeadingDigits(s[1..]) else []
  }

  /** An optional sign, then the longest run of digits. */
  function SignedDigits(s: string): Option<int> {
    if s != [] && s[0] in "+-" then
      var p := LeadingDigits(s[1..]);
      var v: int := DigitsValue(p);
      if p == [] then None else Some(if s[0] == '-' then -v else v)
    else
      var p := LeadingDigits(s);
      if p == [] then None else Some(DigitsValue(p))
  }

  /** parseInt with radix 10, blanks before the number included; None stands for NaN. */
  function ParseInt(s: string): Option<int> { SignedDigits(TrimLeft(s)) }

  predicate NoDigitFirst(s: string) { s == [] || !IsDigit(s[0]) }

  lemma {:induction false} LeadingDigitsOfRun(digits: string, rest: string)
    requires AllDigits(digits) && NoDigitFirst(rest)
    ensures LeadingDigits(digits + rest) == digits
    decreases |digits|
  {
    if digits == [] {
      assert digits + rest == rest;
    } else {
      assert (digits + rest)[1..] == digits[1..] + rest;
      LeadingDigitsOfRun(digits[1..], rest);
    }
  }

  lemma {:induction false} TrimLeftOfBlanks(blanks: string, s: string)
    requires AllBlank(blanks) && (s != [] ==> !Blank(s[0]))
    ensures TrimLeft(blanks + s) == s
    decreases |blanks|
  {
    if blanks == [] {
      assert blanks + s == s;
    } else {
      assert (blanks + s)[1..] == blanks[1..] + s;
      TrimLeftOfBlanks(blanks[1..], s);
    }
  }

  lemma Unsigned(digits: string, rest: string)
    requires AllDigits(digits) && NoDigitFirst(rest) && (digits == "" && rest != "" ==> rest[0] !in "+-")
    ensures SignedDigits(digits + rest) == if digits == "" then None else Some(DigitsValue(digits))
  {
    LeadingDigitsOfRun(digits, rest);
    if digits == "" {
      assert digits + rest == rest;
    } else {
      assert (digits + rest)[0] == digits[0];
    }
  }

  lemma Signed(sign: char, digits: string, rest: string)
    requires sign in "+-" && AllDigits(digits) && NoDigitFirst(rest)
    ensures SignedDigits([sign] + (digits + rest))
            == if digits == "" then None else Some((if sign == '-' then -1 else 1) * DigitsValue(digits))
  {
    LeadingDigitsOfRun(digits, rest);
    assert ([sign] + (digits + rest))[1..] == digits + rest;
  }

  lemma SignedDigitsOf(sign: string, digits: string, rest: string)
    requires sign in ["", "+", "-"] && AllDigits(digits) && NoDigitFirst(rest)
    requires sign == "" && digits == "" && rest != "" ==> rest[0] !in "+-"
    ensures SignedDigits(sign + (digits + rest))
            == if digits == "" then None else Some((if sign == "-" then -1 else 1) * DigitsValue(digits))
  {
    if sign == "" {
      Unsigned(digits, rest);
      assert sign + (digits + rest) == digits + rest;
    } else {
      Signed(sign[0], digits, rest);
      assert sign == [sign[0]];
    }
  }

  /** Blanks, a sign, digits and whatever follows that is no digit read as the signed value of the
      digits, and as no number if there are none. */
  lemma ParseIntMeans(blanks: string, sign: string, digits: string, rest: string)
    requires AllBlank(blanks) && sign in ["", "+", "-"] && AllDigits(digits) && NoDigitFirst(rest)
    requires sign == "" && digits == "" && rest != "" ==> !Blank(rest[0]) && rest[0] !in "+-"
    ensures ParseInt(blanks + (sign + (digits + rest)))
            == if digits == "" then None else Some((if sign == "-" then -1 else 1) * DigitsValue(digits))
  {
    TrimLeftOfBlanks(blanks, sign + (digits + rest));
    SignedDigitsOf(sign, digits, rest);
  }

  lemma ParseIntOfIntText(n: int)
    ensures ParseInt(IntText(n)) == Some(n)
  {
    var m: nat := if n < 0 then -n else n;
    DigitsValueOfDecimal(m);
    var sign := if n < 0 then "-" else "";
    ParseIntMeans("", sign, Decimal(m), "");
    assert "" + (sign + (Decimal(m) + "")) == IntText(n);
  }

  /** String.prototype.split for a one-character separator. */
  function Split(s: string, sep: char): (parts: seq<string>)
    ensures parts != []
    decreases |s|
  {
    if s == [] then [[]]
    else if s[0] == sep then [[]] + Split(s[1..], sep)
    else
      var rest := Split(s[1..], sep);
      [[s[0]] + rest[0]] + rest[1..]
  }

  /** Array.prototype.join for a one-character separator. */
  function Join(parts: seq<string>, sep: char): string {
    if parts == [] then []
    else if |parts| == 1 then parts[0]
    else parts[0] + [sep] + Join(parts[1..], sep)
  }

  lemma {:induction false} JoinOfSplit(s: string, sep: char)
    ensures Join(Split(s, sep), sep) == s
    decreases |s|
  {
    if s != [] {
      JoinOfSplit(s[1..], sep);
      var rest := Split(s[1..], sep);
      if s[0] == sep {
        assert ([[]] + rest)[1..] == rest;
      } else {
        var parts := [[s[0]] + rest[0]] + rest[1..];
        assert parts[1..] == rest[1..];
        assert Join(parts, sep) == [s[0]] + Join(rest, sep);
      }
    }
  }

  /** A separator-free head is split off whole. */
  lemma {:induction false} SplitOfHead(head: string, tail: string, sep: char)
    requires sep !in head
    ensures Split(head + [sep] + tail, sep) == [head] + Split(tail, sep)
    decreases |head|
  {
    var s := head + [sep] + tail;
    if head == [] {
      assert s[1..] == tail;
    } else {
      SplitOfHead(head[1..], tail, sep);
      assert s[1..] == head[1..] + [sep] + tail;
      var rest := [head[1..]] + Split(tail, sep);
      assert rest[1..] == Split(tail, sep);
      assert [s[0]] + rest[0] == head;
    }
  }

  lemma {:induction false} SplitOfWhole(s: string, sep: char)
    requires sep !in s
    ensures Split(s, sep) == [s]
    decreases |s|
  {
    if s != [] {
      SplitOfWhole(s[1..], sep);
      assert [s[0]] + s[1..] == s;
    }
  }

  predicate SepFree(parts: seq<string>, sep: char) { forall i :: 0 <= i < |parts| ==> sep !in parts[i] }

  lemma {:induction false} SplitIsSepFree(s: string, sep: char)
    ensures SepFree(Split(s, sep), sep)
    decreases |s|
  {
    if s != [] {
      SplitIsSepFree(s[1..], sep);
    }
  }

  lemma {:induction false} SplitOfJoin(parts: seq<string>, sep: char)
    requires parts != [] && SepFree(parts, sep)
    ensures Split(Join(parts, sep), sep) == parts
    decreases |parts|
  {
    if |parts| == 1 {
      SplitOfWhole(parts[0], sep);
    } else {
      SplitOfJoin(parts[1..], sep);
      SplitOfHead(parts[0], Join(parts[1..], sep), sep);
      assert parts == [parts[0]] + parts[1..];
    }
  }

  /** A numeral without leading zeros. */
  predicate Canonical(s: string) { s != "" && AllDigits(s) && (s == "0" || s[0] != '0') }

  lemma {:induction false} CanonicalIsDecimal(s: string)
    requires Canonical(s)
    ensures Decimal(DigitsValue(s)) == s
    ensures s != "0" ==> DigitsValue(s) > 0
    decreases |s|
  {
    var n := |s| - 1;
    if n > 0 {
      CanonicalIsDecimal(s[..n]);
      DigitOnceMore(s[..n], s[n]);
      assert s == s[..n] + [s[n]];
    } else {
      assert s[..n] == "" && s == [s[0]];
      assert DigitsValue(s) == DigitValue(s[0]);
      DigitCharOf(s[0]);
    }
  }

  lemma TenTimes(v: nat, d: nat)
    requires d < 10
    ensures (v * 10 + d) / 10 == v && (v * 10 + d) % 10 == d
  {
  }

  lemma DecimalOnceMore(v: nat, d: nat)
    requires v > 0 && d < 10
    ensures Decimal(v * 10 + d) == Decimal(v) + [DigitChar(d)]
  {
    TenTimes(v, d);
  }

  lemma DigitCharOf(c: char)
    requires IsDigit(c)
    ensures DigitChar(DigitValue(c)) == c
  {
  }

  lemma ValueOnceMore(front: string, c: char)
    requires AllDigits(front) && IsDigit(c)
    ensures DigitsValue(front + [c]) == DigitsValue(front) * 10 + DigitValue(c)
  {
    assert (front + [c])[..|front|] == front;
  }

  lemma DigitOnceMore(front: string, c: char)
    requires AllDigits(front) && IsDigit(c) && DigitsValue(front) > 0 && Decimal(DigitsValue(front)) == front
    ensures AllDigits(front + [c]) && DigitsValue(front + [c]) > 0 && Decimal(DigitsValue(front + [c])) == front + [c]
  {
    ValueOnceMore(front, c);
    DecimalOnceMore(DigitsValue(front), DigitValue(c));
    DigitCharOf(c);
  }

  lemma {:induction false} DecimalIsCanonical(n: nat)
    ensures Canonical(Decimal(n)) && (n > 0 ==> Decimal(n)[0] != '0')
  {
    if n >= 10 {
      DecimalIsCanonical(n / 10);
    }
  }
}
