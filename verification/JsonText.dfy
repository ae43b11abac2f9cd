/** The text JSON.stringify prints (RFC 8259), and why it can be read back in only one way. */
module JsonText {
  import opened Text
  import opened Ordering
  import opened CanonicalJson

  function HexDigit(n: nat): (c: char)
    requires n < 16
    ensures c != '"' && c != '\\'
  {
    if n < 10 then DigitChar(n) else (('a' as int) + n - 10) as char
  }

  /** One character inside a string literal. */
  function Escaped(c: char): (r: string)
    ensures r != [] && r[0] != '"'
  {
    if c == '"' then "\\\""
    else if c == '\\' then "\\\\"
    else if c == '\U{0008}' then "\\b"
    else if c == '\t' then "\\t"
    else if c == '\n' then "\\n"
    else if c == '\U{000C}' then "\\f"
    else if c == '\r' then "\\r"
    else if c < ' ' then ['\\', 'u', '0', '0', HexDigit(c as int / 16), HexDigit(c as int % 16)]
    else [c]
  }

  function Body(s: string): string {
    if s == [] then [] else Escaped(s[0]) + Body(s[1..])
  }

  function Quote(s: string): string { "\"" + Body(s) + "\"" }

  function Print(v: Js): (t: string)
    decreases v, 1
  {
    match v
    case Undef => "null"
    case Null => "null"
    case Bool(b) => if b then "true" else "false"
    case Num(n) => n
    case Str(s) => Quote(s)
    case Arr(items) => "[" + PrintItems(items) + "]"
    case Obj(es) => "{" + PrintMembers(es) + "}"
  }

  function PrintItems(items: seq<Js>): string
    decreases items, 1
  {
    if items == [] then "" else Print(items[0]) + MoreItems(items[1..])
  }

  function MoreItems(items: seq<Js>): string
    decreases items, 0
  {
    if items == [] then "" else "," + (Print(items[0]) + MoreItems(items[1..]))
  }

  function PrintMember(e: Entry): string
    decreases e, 2
  {
    Quote(e.key) + (":" + Print(e.value))
  }

  function PrintMembers(es: seq<Entry>): string
    decreases es, 1
  {
    if es == [] then "" else PrintMember(es[0]) + MoreMembers(es[1..])
  }

  function MoreMembers(es: seq<Entry>): string
    decreases es, 0
  {
    if es == [] then "" else "," + (PrintMember(es[0]) + MoreMembers(es[1..]))
  }

  /** What can follow a value: nothing, or a character no numeral contains. */
  predicate Delimited(s: string) { s == [] || !NumeralChar(s[0]) }

  ghost predicate NoUndef(v: Js)
    decreases v
  {
    match v
    case Undef => false
    case Arr(items) => forall i :: 0 <= i < |items| ==> NoUndef(items[i])
    case Obj(es) => forall i :: 0 <= i < |es| ==> NoUndef(es[i].value)
    case _ => true
  }

  lemma EscapedReadsBack(c: char, d: char, s: string, t: string)
    requires Escaped(c) + s == Escaped(d) + t
    ensures c == d && s == t
  {
    var x, y := Escaped(c) + s, Escaped(d) + t;
    assert x[0] == Escaped(c)[0] && y[0] == Escaped(d)[0];
    if |Escaped(c)| > 1 && |Escaped(d)| > 1 {
      assert x[1] == Escaped(c)[1] && y[1] == Escaped(d)[1];
      if |Escaped(c)| == 6 && |Escaped(d)| == 6 {
        assert x[4] == Escaped(c)[4] && y[4] == Escaped(d)[4];
        assert x[5] == Escaped(c)[5] && y[5] == Escaped(d)[5];
      }
    }
    assert c == d;
    assert s == x[|Escaped(c)|..] && t == y[|Escaped(d)|..];
  }

  /** The text of a string's rest starts with a quote only at its end. */
  lemma BodyHead(a: string, s: string)
    ensures var x := Body(a) + "\"" + s;
            if a == [] then x == ['"'] + s
            else x[0] != '"' && x == Escaped(a[0]) + (Body(a[1..]) + "\"" + s)
  {
    if a == [] {
      assert Body(a) + "\"" + s == ['"'] + s;
    } else {
      assert Body(a) + "\"" + s == Escaped(a[0]) + (Body(a[1..]) + "\"" + s);
    }
  }

  lemma {:induction false} BodyReadsBack(a: string, b: string, s: string, t: string)
    requires Body(a) + "\"" + s == Body(b) + "\"" + t
    ensures a == b && s == t
    decreases |a|
  {
    BodyHead(a, s);
    BodyHead(b, t);
    assert a == [] <==> b == [];
    if a == [] {
      assert s == (['"'] + s)[1..] == (['"'] + t)[1..] == t;
    } else {
      EscapedReadsBack(a[0], b[0], Body(a[1..]) + "\"" + s, Body(b[1..]) + "\"" + t);
      BodyReadsBack(a[1..], b[1..], s, t);
    }
  }

  lemma QuoteReadsBack(a: string, b: string, s: string, t: string)
    requires Quote(a) + s == Quote(b) + t
    ensures a == b && s == t
  {
    var x, y := Quote(a) + s, Quote(b) + t;
    assert x[1..] == Body(a) + "\"" + s && y[1..] == Body(b) + "\"" + t;
    BodyReadsBack(a, b, s, t);
  }

  lemma {:induction false} NumeralReadsBack(a: string, b: string, s: string, t: string)
    requires forall i :: 0 <= i < |a| ==> NumeralChar(a[i])
    requires forall i :: 0 <= i < |b| ==> NumeralChar(b[i])
    requires Delimited(s) && Delimited(t) && a + s == b + t
    ensures a == b && s == t
    decreases |a|
  {
    assert a != [] ==> (a + s)[0] == a[0];
    assert b != [] ==> (b + t)[0] == b[0];
    if a == [] || b == [] {
      assert a == [] ==> a + s == s;
      assert b == [] ==> b + t == t;
      assert a == [] && b == [];
    } else {
      assert (a + s)[1..] == a[1..] + s && (b + t)[1..] == b[1..] + t;
      NumeralReadsBack(a[1..], b[1..], s, t);
    }
  }

  /** The first character of a text tells what kind of value follows. */
  function Opening(v: Js): char {
    match v
    case Undef => 'n'
    case Null => 'n'
    case Bool(b) => if b then 't' else 'f'
    case Num(n) => n[0]
    case Str(_) => '"'
    case Arr(_) => '['
    case Obj(_) => '{'
  }

  lemma PrintOpens(v: Js, s: string)
    ensures Print(v) != [] && (Print(v) + s)[0] == Opening(v)
  {
    if v.Num? { assert v.n != []; }
  }

  lemma Regroup(a: string, b: string, c: string)
    ensures (a + b) + c == a + (b + c)
  {
  }

  lemma DropFirst(c: char, x: string, y: string)
    requires [c] + x == [c] + y
    ensures x == y
  {
    assert x == ([c] + x)[1..] == ([c] + y)[1..] == y;
  }

  lemma DropPrefix(p: string, x: string, y: string)
    requires p + x == p + y
    ensures x == y
  {
    assert x == (p + x)[|p|..] == (p + y)[|p|..] == y;
  }

  lemma ScalarReadsBack(a: Js, b: Js, s: string, t: string)
    requires NoUndef(a) && NoUndef(b) && !a.Arr? && !a.Obj?
    requires Delimited(s) && Delimited(t) && Print(a) + s == Print(b) + t
    ensures a == b && s == t
  {
    PrintOpens(a, s);
    PrintOpens(b, t);
    assert Opening(a) == Opening(b);
    if a.Num? {
      assert b.Num?;
      NumeralReadsBack(a.n, b.n, s, t);
    } else if a.Str? {
      assert b.Str?;
      QuoteReadsBack(a.s, b.s, s, t);
    } else {
      DropPrefix(Print(a), s, t);
    }
  }

  /** Text after a list element: a comma and more, or the closing bracket. */
  lemma MoreItemsText(items: seq<Js>, r: string)
    ensures items != [] ==> MoreItems(items) + r == [','] + (Print(items[0]) + (MoreItems(items[1..]) + r))
    ensures items == [] ==> MoreItems(items) + r == r
  {
    if items != [] {
      var p, m := Print(items[0]), MoreItems(items[1..]);
      Regroup([','], p + m, r);
      Regroup(p, m, r);
    }
  }

  lemma {:induction false} MoreItemsReadBack(a: seq<Js>, b: seq<Js>, s: string, t: string)
    requires forall i :: 0 <= i < |a| ==> NoUndef(a[i])
    requires forall i :: 0 <= i < |b| ==> NoUndef(b[i])
    requires MoreItems(a) + ([']'] + s) == MoreItems(b) + ([']'] + t)
    ensures a == b && s == t
    decreases a, 0
  {
    MoreItemsText(a, [']'] + s);
    MoreItemsText(b, [']'] + t);
    assert (MoreItems(a) + ([']'] + s))[0] == if a == [] then ']' else ',';
    assert (MoreItems(b) + ([']'] + t))[0] == if b == [] then ']' else ',';
    assert a == [] <==> b == [];
    if a == [] {
      DropFirst(']', s, t);
    } else {
      ItemReadsBack(a, b, s, t);
    }
  }

  lemma {:induction false} ItemReadsBack(a: seq<Js>, b: seq<Js>, s: string, t: string)
    requires a != [] && b != []
    requires forall i :: 0 <= i < |a| ==> NoUndef(a[i])
    requires forall i :: 0 <= i < |b| ==> NoUndef(b[i])
    requires [','] + (Print(a[0]) + (MoreItems(a[1..]) + ([']'] + s)))
             == [','] + (Print(b[0]) + (MoreItems(b[1..]) + ([']'] + t)))
    ensures a == b && s == t
    decreases a, 0, 0
  {
    var x, y := MoreItems(a[1..]) + ([']'] + s), MoreItems(b[1..]) + ([']'] + t);
    DropFirst(',', Print(a[0]) + x, Print(b[0]) + y);
    MoreItemsText(a[1..], [']'] + s);
    MoreItemsText(b[1..], [']'] + t);
    PrintReadsBack(a[0], b[0], x, y);
    MoreItemsReadBack(a[1..], b[1..], s, t);
    assert a == [a[0]] + a[1..] && b == [b[0]] + b[1..];
  }

  lemma {:induction false} ItemsReadBack(a: seq<Js>, b: seq<Js>, s: string, t: string)
    requires forall i :: 0 <= i < |a| ==> NoUndef(a[i])
    requires forall i :: 0 <= i < |b| ==> NoUndef(b[i])
    requires PrintItems(a) + ([']'] + s) == PrintItems(b) + ([']'] + t)
    ensures a == b && s == t
    decreases a, 1
  {
    if a != [] {
      Regroup(Print(a[0]), MoreItems(a[1..]), [']'] + s);
      PrintOpens(a[0], MoreItems(a[1..]) + ([']'] + s));
    }
    if b != [] {
      Regroup(Print(b[0]), MoreItems(b[1..]), [']'] + t);
      PrintOpens(b[0], MoreItems(b[1..]) + ([']'] + t));
    }
    assert a == [] ==> PrintItems(a) + ([']'] + s) == [']'] + s;
    assert b == [] ==> PrintItems(b) + ([']'] + t) == [']'] + t;
    assert a == [] <==> b == [];
    if a == [] {
      DropFirst(']', s, t);
    } else {
      ItemReadsBack(a, b, s, t);
    }
  }

  lemma MoreMembersText(es: seq<Entry>, r: string)
    ensures es != [] ==> MoreMembers(es) + r == [','] + (PrintMember(es[0]) + (MoreMembers(es[1..]) + r))
    ensures es == [] ==> MoreMembers(es) + r == r
  {
    if es != [] {
      var p, m := PrintMember(es[0]), MoreMembers(es[1..]);
      Regroup([','], p + m, r);
      Regroup(p, m, r);
    }
  }

  lemma {:induction false} MemberReadsBack(a: Entry, b: Entry, x: string, y: string)
    requires NoUndef(a.value) && NoUndef(b.value) && Delimited(x) && Delimited(y)
    requires PrintMember(a) + x == PrintMember(b) + y
    ensures a == b && x == y
    decreases a, 2
  {
    var p, q := Print(a.value), Print(b.value);
    Regroup(Quote(a.key), [':'] + p, x);
    Regroup(Quote(b.key), [':'] + q, y);
    Regroup([':'], p, x);
    Regroup([':'], q, y);
    QuoteReadsBack(a.key, b.key, [':'] + (p + x), [':'] + (q + y));
    DropFirst(':', p + x, q + y);
    PrintReadsBack(a.value, b.value, x, y);
  }

  lemma {:induction false} MoreMembersReadBack(a: seq<Entry>, b: seq<Entry>, s: string, t: string)
    requires forall i :: 0 <= i < |a| ==> NoUndef(a[i].value)
    requires forall i :: 0 <= i < |b| ==> NoUndef(b[i].value)
    requires MoreMembers(a) + (['}'] + s) == MoreMembers(b) + (['}'] + t)
    ensures a == b && s == t
    decreases a, 1
  {
    MoreMembersText(a, ['}'] + s);
    MoreMembersText(b, ['}'] + t);
    assert (MoreMembers(a) + (['}'] + s))[0] == if a == [] then '}' else ',';
    assert (MoreMembers(b) + (['}'] + t))[0] == if b == [] then '}' else ',';
    assert a == [] <==> b == [];
    if a == [] {
      DropFirst('}', s, t);
    } else {
      DropFirst(',', PrintMember(a[0]) + (MoreMembers(a[1..]) + (['}'] + s)),
                PrintMember(b[0]) + (MoreMembers(b[1..]) + (['}'] + t)));
      FirstMemberReadsBack(a, b, s, t);
    }
  }

  lemma {:induction false} FirstMemberReadsBack(a: seq<Entry>, b: seq<Entry>, s: string, t: string)
    requires a != [] && b != []
    requires forall i :: 0 <= i < |a| ==> NoUndef(a[i].value)
    requires forall i :: 0 <= i < |b| ==> NoUndef(b[i].value)
    requires PrintMember(a[0]) + (MoreMembers(a[1..]) + (['}'] + s))
             == PrintMember(b[0]) + (MoreMembers(b[1..]) + (['}'] + t))
    ensures a == b && s == t
    decreases a, 0
  {
    MoreMembersText(a[1..], ['}'] + s);
    MoreMembersText(b[1..], ['}'] + t);
    MemberReadsBack(a[0], b[0], MoreMembers(a[1..]) + (['}'] + s), MoreMembers(b[1..]) + (['}'] + t));
    MoreMembersReadBack(a[1..], b[1..], s, t);
    assert a == [a[0]] + a[1..] && b == [b[0]] + b[1..];
  }

  lemma {:induction false} MembersReadBack(a: seq<Entry>, b: seq<Entry>, s: string, t: string)
    requires forall i :: 0 <= i < |a| ==> NoUndef(a[i].value)
    requires forall i :: 0 <= i < |b| ==> NoUndef(b[i].value)
    requires PrintMembers(a) + (['}'] + s) == PrintMembers(b) + (['}'] + t)
    ensures a == b && s == t
    decreases a, 1
  {
    if a != [] { Regroup(PrintMember(a[0]), MoreMembers(a[1..]), ['}'] + s); }
    if b != [] { Regroup(PrintMember(b[0]), MoreMembers(b[1..]), ['}'] + t); }
    assert a == [] ==> PrintMembers(a) + (['}'] + s) == ['}'] + s;
    assert b == [] ==> PrintMembers(b) + (['}'] + t) == ['}'] + t;
    assert (PrintMembers(a) + (['}'] + s))[0] == if a == [] then '}' else '"';
    assert (PrintMembers(b) + (['}'] + t))[0] == if b == [] then '}' else '"';
    assert a == [] <==> b == [];
    if a == [] {
      DropFirst('}', s, t);
    } else {
      FirstMemberReadsBack(a, b, s, t);
    }
  }

  lemma Bracketed(open: char, inner: string, close: char, s: string)
    ensures [open] + inner + [close] + s == [open] + (inner + ([close] + s))
  {
  }

  /** A printed value can be read back in only one way, whatever follows it. */
  lemma {:induction false} PrintReadsBack(a: Js, b: Js, s: string, t: string)
    requires NoUndef(a) && NoUndef(b)
    requires Delimited(s) && Delimited(t) && Print(a) + s == Print(b) + t
    ensures a == b && s == t
    decreases a, 1
  {
    PrintOpens(a, s);
    PrintOpens(b, t);
    match a
    case Arr(items) =>
      assert b.Arr?;
      Bracketed('[', PrintItems(items), ']', s);
      Bracketed('[', PrintItems(b.items), ']', t);
      DropFirst('[', PrintItems(items) + ([']'] + s), PrintItems(b.items) + ([']'] + t));
      ItemsReadBack(items, b.items, s, t);
    case Obj(es) =>
      assert b.Obj?;
      Bracketed('{', PrintMembers(es), '}', s);
      Bracketed('{', PrintMembers(b.entries), '}', t);
      DropFirst('{', PrintMembers(es) + (['}'] + s), PrintMembers(b.entries) + (['}'] + t));
      MembersReadBack(es, b.entries, s, t);
    case _ => ScalarReadsBack(a, b, s, t);
  }

  // ------------------------------------------------------------ normaliseBody

  /** normaliseBody: nothing prints as nothing, a scalar as String(body), an object or array as
      the text of its canonical form. */
  function NormaliseBody(localeLess: KeyOrder, body: Js): string {
    match body
    case Undef => ""
    case Null => ""
    case Bool(b) => if b then "true" else "false"
    case Num(n) => n
    case Str(s) => s
    case _ => Print(Canon(REPLACER, localeLess, body))
  }

  lemma {:induction false} CanonHasNoUndef(mode: Mode, less: KeyOrder, v: Js)
    requires !mode.keep && WellFormed(v)
    ensures NoUndef(Canon(mode, less, v))
    decreases v
  {
    match v
    case Arr(items) =>
      forall i | 0 <= i < |items| ensures NoUndef(Canon(mode, less, items[i])) {
        CanonHasNoUndef(mode, less, items[i]);
      }
    case Obj(es) =>
      var cs := CanonMembers(mode, less, es);
      forall i | 0 <= i < |cs| ensures NoUndef(cs[i].value) {
        assert cs[i] in cs;
        var e :| e in es && Kept(false, e) && cs[i] == CanonEntry(mode, less, e);
        var j :| 0 <= j < |es| && es[j] == e;
        CanonHasNoUndef(mode, less, es[j].value);
      }
    case _ =>
  }

  /** Two object or array bodies get one text exactly when they are the same JSON value up to the
      order of keys at every level. */
  lemma SameTextIffSameValue(less: KeyOrder, a: Js, b: Js)
    requires StrictTotalOrder(less) && WellFormed(a) && WellFormed(b)
    requires (a.Arr? || a.Obj?) && (b.Arr? || b.Obj?)
    ensures NormaliseBody(less, a) == NormaliseBody(less, b) <==> Meaning(false, a) == Meaning(false, b)
  {
    var x, y := Canon(REPLACER, less, a), Canon(REPLACER, less, b);
    CanonicalForm(REPLACER, less, a, b);
    if NormaliseBody(less, a) == NormaliseBody(less, b) {
      CanonHasNoUndef(REPLACER, less, a);
      CanonHasNoUndef(REPLACER, less, b);
      assert Print(x) + "" == Print(y) + "";
      PrintReadsBack(x, y, "", "");
    }
  }

  /** An object or array shares its text with the values of its own meaning and with one string, and
      with nothing else. */
  lemma SharedTextIff(less: KeyOrder, a: Js, b: Js)
    requires StrictTotalOrder(less) && WellFormed(a) && WellFormed(b) && (a.Arr? || a.Obj?)
    ensures NormaliseBody(less, a) == NormaliseBody(less, b)
            <==> ((b.Arr? || b.Obj?) && Meaning(false, a) == Meaning(false, b)) || b == Str(NormaliseBody(less, a))
  {
    if b.Arr? || b.Obj? {
      SameTextIffSameValue(less, a, b);
    } else {
      var t := NormaliseBody(less, a);
      assert t[0] == if a.Arr? then '[' else '{';
      assert b.Num? ==> b.n[0] != '[' && b.n[0] != '{';
    }
  }
}
