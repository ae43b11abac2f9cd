/**
 * No proper suffix of a printed object or array is itself one.
 *
 * A scan of the text keeps the bracket depth and whether it stands inside a string literal. A suffix
 * that starts outside one has the wrong depth; a suffix that starts inside one reads every quote the
 * other way round.
 */
module JsonSuffix {
  import opened CanonicalJson
  import opened JsonText

  /** Where a scan stands: outside strings, inside one (perhaps after a backslash), or off track. */
  datatype Scan = Outside(depth: int) | Inside(depth: int, escaped: bool) | Bad

  function Next(s: Scan, c: char): Scan {
    match s
    case Bad => Bad
    case Inside(d, esc) =>
      if esc then Inside(d, false)
      else if c == '\\' then Inside(d, true)
      else if c == '"' then Outside(d)
      else s
    case Outside(d) =>
      if c == '\\' then Bad
      else if c == '"' then Inside(d, false)
      else if c in "[{" then Outside(d + 1)
      else if c in "]}" then Outside(d - 1)
      else s
  }

  function Scanned(s: Scan, t: string): Scan
    decreases |t|
  {
    if t == [] then s else Scanned(Next(s, t[0]), t[1..])
  }

  predicate Above(d: int, s: Scan) { !s.Bad? && s.depth >= d }

  predicate StaysAbove(d: int, s: Scan, t: string)
    decreases |t|
  {
    Above(d, s) && (t == [] || StaysAbove(d, Next(s, t[0]), t[1..]))
  }

  /** A text that leaves the scan where it was and never goes below its depth. */
  ghost predicate Neutral(t: string) {
    forall d :: Scanned(Outside(d), t) == Outside(d) && StaysAbove(d, Outside(d), t)
  }

  lemma {:induction false} ScannedConcat(s: Scan, a: string, b: string)
    ensures Scanned(s, a + b) == Scanned(Scanned(s, a), b)
    decreases |a|
  {
    if a == [] {
      assert a + b == b;
    } else {
      assert (a + b)[1..] == a[1..] + b;
      ScannedConcat(Next(s, a[0]), a[1..], b);
    }
  }

  lemma {:induction false} StaysConcat(d: int, s: Scan, a: string, b: string)
    ensures StaysAbove(d, s, a + b) <==> StaysAbove(d, s, a) && StaysAbove(d, Scanned(s, a), b)
    decreases |a|
  {
    if a == [] {
      assert a + b == b;
    } else {
      assert (a + b)[1..] == a[1..] + b;
      StaysConcat(d, Next(s, a[0]), a[1..], b);
    }
  }

  lemma NeutralConcat(a: string, b: string)
    requires Neutral(a) && Neutral(b)
    ensures Neutral(a + b)
  {
    forall d ensures Scanned(Outside(d), a + b) == Outside(d) && StaysAbove(d, Outside(d), a + b) {
      ScannedConcat(Outside(d), a, b);
      StaysConcat(d, Outside(d), a, b);
    }
  }

  predicate Plain(t: string) { forall i :: 0 <= i < |t| ==> t[i] !in "\\\"[{]}" }

  lemma {:induction false} PlainStays(d: int, t: string)
    requires Plain(t)
    ensures Scanned(Outside(d), t) == Outside(d) && StaysAbove(d, Outside(d), t)
    decreases |t|
  {
    if t != [] {
      assert Next(Outside(d), t[0]) == Outside(d);
      PlainStays(d, t[1..]);
    }
  }

  lemma PlainIsNeutral(t: string)
    requires Plain(t)
    ensures Neutral(t)
  {
    forall d ensures Scanned(Outside(d), t) == Outside(d) && StaysAbove(d, Outside(d), t) {
      PlainStays(d, t);
    }
  }

  lemma {:induction false} Deeper(d: int, e: int, s: Scan, t: string)
    requires e <= d && StaysAbove(d, s, t)
    ensures StaysAbove(e, s, t)
    decreases |t|
  {
    if t != [] {
      Deeper(d, e, Next(s, t[0]), t[1..]);
    }
  }

  lemma BracketsStay(d: int, open: char, t: string, close: char)
    requires Neutral(t) && open in "[{" && close in "]}"
    ensures Scanned(Outside(d), [open] + t + [close]) == Outside(d) && StaysAbove(d, Outside(d), [open] + t + [close])
  {
    var inner, whole := t + [close], [open] + t + [close];
    assert whole[0] == open && whole[1..] == inner;
    ScannedConcat(Outside(d + 1), t, [close]);
    StaysConcat(d, Outside(d + 1), t, [close]);
    Deeper(d + 1, d, Outside(d + 1), t);
    assert [close][1..] == [];
    assert Scanned(Outside(d + 1), [close]) == Outside(d);
    assert Next(Outside(d + 1), close) == Outside(d);
    assert StaysAbove(d, Outside(d), []);
    assert StaysAbove(d, Outside(d + 1), [close]);
  }

  lemma BracketsAreNeutral(open: char, t: string, close: char)
    requires Neutral(t) && open in "[{" && close in "]}"
    ensures Neutral([open] + t + [close])
  {
    forall d ensures Scanned(Outside(d), [open] + t + [close]) == Outside(d)
                     && StaysAbove(d, Outside(d), [open] + t + [close]) {
      BracketsStay(d, open, t, close);
    }
  }

  // ---------------------------------------------------------------- string literals

  lemma {:induction false} OrdinaryInside(d: int, t: string)
    requires forall i :: 0 <= i < |t| ==> t[i] != '"' && t[i] != '\\'
    ensures Scanned(Inside(d, false), t) == Inside(d, false) && StaysAbove(d, Inside(d, false), t)
    decreases |t|
  {
    if t != [] {
      OrdinaryInside(d, t[1..]);
    }
  }

  lemma EscapedShape(c: char)
    ensures var e := Escaped(c);
            (e == [c] && c != '"' && c != '\\')
            || (|e| >= 2 && e[0] == '\\' && forall i :: 2 <= i < |e| ==> e[i] != '"' && e[i] != '\\')
  {
  }

  lemma EscapedInside(d: int, c: char)
    ensures Scanned(Inside(d, false), Escaped(c)) == Inside(d, false) && StaysAbove(d, Inside(d, false), Escaped(c))
  {
    var e := Escaped(c);
    EscapedShape(c);
    if |e| >= 2 {
      OrdinaryInside(d, e[2..]);
      assert e[1..][1..] == e[2..];
      assert Scanned(Inside(d, true), e[1..]) == Scanned(Inside(d, false), e[2..]);
    } else {
      OrdinaryInside(d, e);
    }
  }

  lemma {:induction false} BodyInside(d: int, s: string)
    ensures Scanned(Inside(d, false), Body(s)) == Inside(d, false) && StaysAbove(d, Inside(d, false), Body(s))
    decreases |s|
  {
    if s != [] {
      BodyInside(d, s[1..]);
      EscapedInside(d, s[0]);
      ScannedConcat(Inside(d, false), Escaped(s[0]), Body(s[1..]));
      StaysConcat(d, Inside(d, false), Escaped(s[0]), Body(s[1..]));
    }
  }

  lemma QuoteStays(d: int, s: string)
    ensures Scanned(Outside(d), Quote(s)) == Outside(d) && StaysAbove(d, Outside(d), Quote(s))
  {
    var q := Quote(s);
    BodyInside(d, s);
    ScannedConcat(Inside(d, false), Body(s), ['"']);
    StaysConcat(d, Inside(d, false), Body(s), ['"']);
    assert q[0] == '"' && q[1..] == Body(s) + ['"'];
    assert ['"'][1..] == [];
    assert Scanned(Inside(d, false), ['"']) == Outside(d);
    assert StaysAbove(d, Outside(d), []);
    assert StaysAbove(d, Inside(d, false), ['"']);
  }

  lemma QuoteIsNeutral(s: string)
    ensures Neutral(Quote(s))
  {
    forall d ensures Scanned(Outside(d), Quote(s)) == Outside(d) && StaysAbove(d, Outside(d), Quote(s)) {
      QuoteStays(d, s);
    }
  }

  // --------------------------------------------------------------- whole printed values

  lemma {:induction false} PrintIsNeutral(v: Js)
    ensures Neutral(Print(v))
    decreases v, 1
  {
    match v
    case Str(s) => QuoteIsNeutral(s);
    case Arr(items) =>
      ItemsAreNeutral(items);
      BracketsAreNeutral('[', PrintItems(items), ']');
    case Obj(es) =>
      MembersAreNeutral(es);
      BracketsAreNeutral('{', PrintMembers(es), '}');
    case Num(n) => NumeralIsPlain(n); PlainIsNeutral(n);
    case _ => PlainIsNeutral(Print(v));
  }

  lemma NumeralIsPlain(n: Numeral)
    ensures Plain(n)
  {
    forall i | 0 <= i < |n| ensures n[i] !in "\\\"[{]}" {
      assert n[i] in n;
    }
  }

  lemma {:induction false} ItemsAreNeutral(items: seq<Js>)
    ensures Neutral(PrintItems(items))
    decreases items, 1
  {
    if items == [] {
      PlainIsNeutral("");
    } else {
      PrintIsNeutral(items[0]);
      MoreItemsAreNeutral(items[1..]);
      NeutralConcat(Print(items[0]), MoreItems(items[1..]));
    }
  }

  lemma {:induction false} MoreItemsAreNeutral(items: seq<Js>)
    ensures Neutral(MoreItems(items))
    decreases items, 0
  {
    if items == [] {
      PlainIsNeutral("");
    } else {
      PrintIsNeutral(items[0]);
      MoreItemsAreNeutral(items[1..]);
      NeutralConcat(Print(items[0]), MoreItems(items[1..]));
      PlainIsNeutral(",");
      NeutralConcat(",", Print(items[0]) + MoreItems(items[1..]));
    }
  }

  lemma {:induction false} MemberIsNeutral(e: Entry)
    ensures Neutral(PrintMember(e))
    decreases e, 2
  {
    QuoteIsNeutral(e.key);
    PrintIsNeutral(e.value);
    PlainIsNeutral(":");
    NeutralConcat(":", Print(e.value));
    NeutralConcat(Quote(e.key), ":" + Print(e.value));
  }

  lemma {:induction false} MembersAreNeutral(es: seq<Entry>)
    ensures Neutral(PrintMembers(es))
    decreases es, 1
  {
    if es == [] {
      PlainIsNeutral("");
    } else {
      MemberIsNeutral(es[0]);
      MoreMembersAreNeutral(es[1..]);
      NeutralConcat(PrintMember(es[0]), MoreMembers(es[1..]));
    }
  }

  lemma {:induction false} MoreMembersAreNeutral(es: seq<Entry>)
    ensures Neutral(MoreMembers(es))
    decreases es, 0
  {
    if es == [] {
      PlainIsNeutral("");
    } else {
      MemberIsNeutral(es[0]);
      MoreMembersAreNeutral(es[1..]);
      NeutralConcat(PrintMember(es[0]), MoreMembers(es[1..]));
      PlainIsNeutral(",");
      NeutralConcat(",", PrintMember(es[0]) + MoreMembers(es[1..]));
    }
  }

  predicate Structured(v: Js) { v.Arr? || v.Obj? }

  /** Inside a printed object or array the depth is at least one. */
  lemma InteriorIsDeep(v: Js, x: string, y: string)
    requires Structured(v) && Print(v) == x + y && x != [] && y != []
    ensures Above(1, Scanned(Outside(0), x))
  {
    var open, inner, close := if v.Arr? then '[' else '{',
                              if v.Arr? then PrintItems(v.items) else PrintMembers(v.entries),
                              if v.Arr? then ']' else '}';
    if v.Arr? { ItemsAreNeutral(v.items); } else { MembersAreNeutral(v.entries); }
    var whole := [open] + inner + [close];
    assert whole == Print(v);
    assert x[0] == whole[0] == open;
    var head, rest := x[1..], inner[|x| - 1..];
    assert head == whole[1..|x|] == inner[..|x| - 1];
    assert inner == head + rest;
    StaysConcat(1, Outside(1), head, rest);
    assert Scanned(Outside(0), x) == Scanned(Outside(1), head);
  }

  /** One reads the text outside strings where the other reads it inside. */
  predicate Opposite(s: Scan, t: Scan) {
    s.Bad? || t.Bad? || (s.Inside? && !s.escaped && t.Outside?) || (s.Outside? && t.Inside? && !t.escaped)
  }

  lemma {:induction false} StaysOpposite(s: Scan, t: Scan, text: string)
    requires Opposite(s, t)
    ensures Opposite(Scanned(s, text), Scanned(t, text))
    decreases |text|
  {
    if text != [] {
      StaysOpposite(Next(s, text[0]), Next(t, text[0]), text[1..]);
    }
  }

  lemma InsideNeverCloses(s: Scan, v: Js)
    requires s.Inside? && Structured(v)
    ensures !Scanned(s, Print(v)).Outside?
  {
    var t := Print(v);
    PrintIsNeutral(v);
    assert t[0] in "[{";
    assert Opposite(Next(s, t[0]), Next(Outside(0), t[0]));
    StaysOpposite(Next(s, t[0]), Next(Outside(0), t[0]), t[1..]);
    assert Scanned(Outside(0), t) == Outside(0);
  }

  lemma ClosingAtZero(s: Scan, v: Js)
    requires !s.Bad? && Structured(v) && Scanned(s, Print(v)) == Outside(0)
    ensures s == Outside(0)
  {
    if s.Inside? {
      InsideNeverCloses(s, v);
    } else {
      PrintIsNeutral(v);
      assert Scanned(Outside(s.depth), Print(v)) == Outside(s.depth);
    }
  }

  /** No proper suffix of a printed object or array is a printed object or array. */
  lemma NoProperSuffix(a: Js, b: Js, x: string)
    requires Structured(a) && Structured(b) && Print(a) == x + Print(b)
    ensures x == []
  {
    if x != [] {
      PrintIsNeutral(a);
      PrintOpens(b, "");
      InteriorIsDeep(a, x, Print(b));
      ScannedConcat(Outside(0), x, Print(b));
      assert Scanned(Outside(0), Print(a)) == Outside(0);
      ClosingAtZero(Scanned(Outside(0), x), b);
    }
  }
}
