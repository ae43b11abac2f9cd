/** Who is behind a request, and the text the deduplication cache knows them by. */
module Callers {
  import opened Text

  /** What authentication attached to a request: a key row, a key text, or neither. An id of zero and
      an empty text count as absent. */
  datatype ApiKey = ApiKey(id: nat, key: string)

  /** The attached key, the x-api-key header ("" when absent), and who is behind the request. */
  datatype Credentials = Credentials(apiKey: Option<ApiKey>, header: string, subject: string)

  datatype Caller =
    | KeyId(id: nat)
    | KeyText(key: string)
    | Header(text: string, subject: string)
    | Anonymous(subject: string)

  function CallerOf(c: Credentials): Caller {
    if c.apiKey.Some? && c.apiKey.value.id > 0 then KeyId(c.apiKey.value.id)
    else if c.apiKey.Some? && c.apiKey.value.key != "" then KeyText(c.apiKey.value.key)
    else if c.header != "" then Header(c.header, c.subject)
    else Anonymous(c.subject)
  }

  /** The caller's text in the payload. */
  function Resolve(c: Caller): string {
    match c
    case KeyId(id) => Decimal(id)
    case KeyText(key) => key
    case Header(text, _) => text
    case Anonymous(_) => "anonymous"
  }

  /** The chain of fallbacks, as one expression over the request. */
  method ResolveApiKey(c: Credentials) returns (apiKey: string)
    ensures apiKey == Resolve(CallerOf(c))
    ensures match c.apiKey
            case Some(ApiKey(id, key)) =>
              (id > 0 ==> apiKey == Decimal(id)) && (id == 0 && key != "" ==> apiKey == key)
            case None => true
    ensures (c.apiKey.None? || c.apiKey.value == ApiKey(0, "")) ==>
              apiKey == if c.header != "" then c.header else "anonymous"
  {
    apiKey := "";
    if c.apiKey.Some? {
      apiKey := if c.apiKey.value.id > 0 then Decimal(c.apiKey.value.id) else c.apiKey.value.key;
    }
    if apiKey == "" {
      apiKey := c.header;
    }
    if apiKey == "" {
      apiKey := "anonymous";
    }
  }

  /** Two callers that differ at most in what the payload does not see: a key id and a text that spells
      it, one text as a key and as a header, one header from two subjects, or two subjects without any
      key. */
  predicate Alike(a: Caller, b: Caller) {
    match a
    case KeyId(id) => (match b case KeyId(id') => id == id' case KeyText(t) => t == Decimal(id)
                               case Header(t, _) => t == Decimal(id) case Anonymous(_) => false)
    case KeyText(t) => AlikeText(t, b)
    case Header(t, _) => AlikeText(t, b)
    case Anonymous(_) => (match b case KeyId(_) => false case KeyText(t) => t == "anonymous"
                                  case Header(t, _) => t == "anonymous" case Anonymous(_) => true)
  }

  predicate AlikeText(t: string, b: Caller) {
    match b
    case KeyId(id) => t == Decimal(id)
    case KeyText(t') => t == t'
    case Header(t', _) => t == t'
    case Anonymous(_) => t == "anonymous"
  }

  /** Exactly such callers share a text. */
  lemma ResolveAlikeIff(a: Caller, b: Caller)
    ensures Resolve(a) == Resolve(b) <==> Alike(a, b)
  {
    if a.KeyId? { DecimalIsNotAnonymous(a.id); }
    if b.KeyId? { DecimalIsNotAnonymous(b.id); }
  }

  lemma DecimalIsNotAnonymous(n: nat)
    ensures Decimal(n) != "anonymous" && DigitsValue(Decimal(n)) == n
  {
    DigitsValueOfDecimal(n);
    assert IsDigit(Decimal(n)[0]);
  }

  /** Two subjects without a key are told apart by nothing, and a header that spells a key's id is
      taken for that key. */
  lemma DifferentCallersCanBeAlike(a: string, b: string, n: nat, guest: string)
    requires n > 0
    ensures Alike(CallerOf(Credentials(None, "", a)), CallerOf(Credentials(None, "", b)))
    ensures a != b ==> CallerOf(Credentials(None, "", a)) != CallerOf(Credentials(None, "", b))
    ensures Alike(CallerOf(Credentials(Some(ApiKey(n, "")), "", guest)), CallerOf(Credentials(None, Decimal(n), guest)))
    ensures CallerOf(Credentials(Some(ApiKey(n, "")), "", guest)) != CallerOf(Credentials(None, Decimal(n), guest))
  {
  }
}
