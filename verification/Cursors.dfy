/** The cursor texts of the transaction listing. */
module Cursors {
  import opened Text
  import opened TransactionFilters

  /** The place of a record in the default order. */
  datatype Position = Position(time: int, id: string)

  /** A plain cursor is the text time_id; an encoded one is the base64 JSON payload, whose
      encoding and decoding are taken to be inverse. */
  datatype Cursor = NoCursor | Plain(text: string) | Encoded(time: int, id: string, filters: Filters)

  /** What the decoding step leaves in cursorTime and cursorId. */
  datatype Decoded = Absent | At(pos: Position) | NotANumber

  function EncodeCursor(f: Filters, pos: Position): Cursor {
    if f != NO_FILTERS then Encoded(pos.time, pos.id, f)
    else Plain(IntText(pos.time) + "_" + pos.id)
  }

  function DecodeCursor(c: Cursor): Decoded {
    match c
    case NoCursor => Absent
    case Encoded(t, id, _) => At(Position(t, id))
    case Plain(text) =>
      var parts := Split(text, '_');
      if |parts| < 2 then Absent
      else match ParseInt(parts[0])
        case None => NotANumber
        case Some(t) => At(Position(t, Join(parts[1..], '_')))
  }

  /** What a plain text stands for as a cursor: without an underscore for none, else for the number
      before the first underscore and the id after it, underscores included. */
  lemma DecodeCursorMeans(head: string, id: string)
    requires '_' !in head
    ensures DecodeCursor(Plain(head)) == Absent
    ensures DecodeCursor(Plain(head + ['_'] + id))
            == if ParseInt(head).None? then NotANumber else At(Position(ParseInt(head).value, id))
  {
    SplitOfWhole(head, '_');
    SplitOfHead(head, id, '_');
    JoinOfSplit(id, '_');
    assert ([head] + Split(id, '_'))[1..] == Split(id, '_');
  }

  /** A cursor names the row it was printed for, underscores in the id included. */
  lemma CursorRoundTrip(f: Filters, pos: Position)
    ensures DecodeCursor(EncodeCursor(f, pos)) == At(pos)
  {
    if f == NO_FILTERS {
      var head := IntText(pos.time);
      assert head + "_" + pos.id == head + ['_'] + pos.id;
      SplitOfHead(head, pos.id, '_');
      assert ([head] + Split(pos.id, '_'))[1..] == Split(pos.id, '_');
      JoinOfSplit(pos.id, '_');
      ParseIntOfIntText(pos.time);
    }
  }

  /** The sextet a character stands for in base64 (section 4 and 5 of RFC 4648). */
  function Sextet(c: char): (v: Option<nat>)
  {
    if 'A' <= c <= 'Z' then Some(c as int - 'A' as int)
    else if 'a' <= c <= 'z' then Some(c as int - 'a' as int + 26)
    else if '0' <= c <= '9' then Some(c as int - '0' as int + 52)
    else if c in "+-" then Some(62)
    else if c in "/_" then Some(63)
    else None
  }

  /** The first byte a lenient base64 decoder yields for a text that opens with two alphabet characters. */
  function FirstByte(s: string): Option<nat> {
    if |s| < 2 || Sextet(s[0]).None? || Sextet(s[1]).None? then None
    else Some(Sextet(s[0]).value * 4 + Sextet(s[1]).value / 16)
  }

  /** Decoding a plain cursor as base64 yields a first byte outside ASCII, so the text is never
      JSON (every JSON text opens with an ASCII character, section 2 of RFC 8259) and the
      split path is the one taken. */
  lemma PlainCursorIsNotJson(pos: Position)
    ensures var c := EncodeCursor(NO_FILTERS, pos);
            FirstByte(c.text).Some? && FirstByte(c.text).value >= 0x80
  {
    var head := IntText(pos.time);
    var text := head + "_" + pos.id;
    assert text[0] == head[0];
    assert text[1] == if |head| > 1 then head[1] else '_';
    assert IsDigit(text[0]) || text[0] == '-';
    assert IsDigit(text[1]) || text[1] == '_';
  }
}
