/**
 * The text a request is fingerprinted by, apiKey:method:path:body, and why it names the request.
 *
 * A path may hold colons, quotes and brackets, so the text cannot simply be split. It is read from
 * the right instead: no proper suffix of a printed object or array is itself one.
 */
module DedupKey {
  import opened Text
  import opened Ordering
  import opened CanonicalJson
  import opened JsonText
  import opened JsonSuffix
  import opened Callers

  const MUTABLE_METHODS: set<string> := {"POST", "PUT", "PATCH", "DELETE"}

  datatype Request = Request(caller: Caller, verb: string, path: string, body: Js, idempotencyHeader: bool)

  /** The payload computeHash digests; the digest is taken to tell different texts apart. */
  function Payload(less: KeyOrder, r: Request): string {
    Resolve(r.caller) + ([':'] + (r.verb + ([':'] + (r.path + ([':'] + NormaliseBody(less, r.body))))))
  }

  // ------------------------------------------------------------------- the payload

  /** A body as the parsers leave it: absent, or an object or array. */
  predicate Parsed(v: Js) { v.Undef? || v.Null? || Structured(v) }

  lemma {:induction false} FirstColon(a: string, b: string, x: string, y: string)
    requires ':' !in a && ':' !in b && a + ([':'] + x) == b + ([':'] + y)
    ensures a == b && x == y
    decreases |a|
  {
    var s, t := a + ([':'] + x), b + ([':'] + y);
    assert s[0] == if a == [] then ':' else a[0];
    assert t[0] == if b == [] then ':' else b[0];
    assert a == [] <==> b == [];
    if a == [] {
      assert s == [':'] + x && t == [':'] + y;
      DropFirst(':', x, y);
    } else {
      assert s[1..] == a[1..] + ([':'] + x) && t[1..] == b[1..] + ([':'] + y);
      FirstColon(a[1..], b[1..], x, y);
    }
  }

  lemma CanonIsStructured(less: KeyOrder, v: Js)
    requires Structured(v)
    ensures Structured(Canon(REPLACER, less, v)) && NormaliseBody(less, v) == Print(Canon(REPLACER, less, v))
    ensures NormaliseBody(less, v) != [] && NormaliseBody(less, v)[|NormaliseBody(less, v)| - 1] in "]}"
  {
  }

  /** The shorter path's body would have the longer path's body as a suffix after a colon. */
  lemma BodyInBody(p: string, q: string, s: string, t: string)
    requires |p| < |q| && p + ([':'] + s) == q + ([':'] + t)
    ensures |s| > |t| && s == s[..|s| - |t|] + t && s[..|s| - |t|][|s| - |t| - 1] == ':'
  {
    var left, right := p + ([':'] + s), q + ([':'] + t);
    var k := |s| - |t|;
    assert |left| == |right|;
    assert s == left[|p| + 1..] && t == right[|q| + 1..];
    assert s[k..] == t;
    assert s[k - 1] == left[|p| + k] == right[|q|] == ':';
  }

  lemma LongerPathIsImpossible(less: KeyOrder, p: string, q: string, a: Js, b: Js)
    requires Parsed(a) && Parsed(b) && |p| < |q|
    ensures p + ([':'] + NormaliseBody(less, a)) != q + ([':'] + NormaliseBody(less, b))
  {
    var s, t := NormaliseBody(less, a), NormaliseBody(less, b);
    if p + ([':'] + s) == q + ([':'] + t) {
      BodyInBody(p, q, s, t);
      if Structured(a) {
        CanonIsStructured(less, a);
        if Structured(b) {
          CanonIsStructured(less, b);
          NoProperSuffix(Canon(REPLACER, less, a), Canon(REPLACER, less, b), s[..|s| - |t|]);
        }
      }
    }
  }

  lemma PathAndBody(less: KeyOrder, p: string, q: string, a: Js, b: Js)
    requires Parsed(a) && Parsed(b)
    requires p + ([':'] + NormaliseBody(less, a)) == q + ([':'] + NormaliseBody(less, b))
    ensures p == q && NormaliseBody(less, a) == NormaliseBody(less, b)
  {
    var s, t := NormaliseBody(less, a), NormaliseBody(less, b);
    if |p| < |q| { LongerPathIsImpossible(less, p, q, a, b); }
    if |q| < |p| { LongerPathIsImpossible(less, q, p, b, a); }
    var left, right := p + ([':'] + s), q + ([':'] + t);
    assert p == left[..|p|] && q == right[..|q|];
    assert s == left[|p| + 1..] && t == right[|q| + 1..];
  }

  /** An alike caller, and the same verb, path and JSON body, the order of keys aside. */
  ghost predicate SameRequest(r: Request, q: Request) {
    Alike(r.caller, q.caller) && r.verb == q.verb && r.path == q.path
      && Meaning(false, r.body) == Meaning(false, q.body)
  }

  /** A request the middleware fingerprints. */
  ghost predicate Hashable(r: Request) {
    r.verb in MUTABLE_METHODS && Parsed(r.body) && WellFormed(r.body)
  }

  /** The longer key reads on, after the shorter one, as a colon, a verb, and a colon or the end. */
  predicate ExtendsBy(k: string, l: string, verb: string) {
    k + ([':'] + (verb + [':'])) <= l + [':']
  }

  predicate KeysApart(k: string, l: string) {
    forall verb :: verb in MUTABLE_METHODS ==> !ExtendsBy(k, l, verb) && !ExtendsBy(l, k, verb)
  }

  lemma BodiesAgree(less: KeyOrder, a: Js, b: Js)
    requires StrictTotalOrder(less) && Parsed(a) && Parsed(b) && WellFormed(a) && WellFormed(b)
    ensures NormaliseBody(less, a) == NormaliseBody(less, b) <==> Meaning(false, a) == Meaning(false, b)
  {
    if Structured(a) && Structured(b) {
      SameTextIffSameValue(less, a, b);
    } else {
      if Structured(a) { CanonIsStructured(less, a); }
      if Structured(b) { CanonIsStructured(less, b); }
    }
  }

  lemma NoVerbHasColon(verb: string)
    requires verb in MUTABLE_METHODS
    ensures ':' !in verb
  {
  }

  /** If the shorter key's payload is the longer key's, the longer key extends the shorter by its verb. */
  lemma ShorterKeyExtends(k: string, verb: string, rest: string, l: string, other: string)
    requires |k| < |l| && ':' !in verb
    requires k + ([':'] + (verb + ([':'] + rest))) == l + ([':'] + other)
    ensures ExtendsBy(k, l, verb)
  {
    var left, right := k + ([':'] + (verb + ([':'] + rest))), l + ([':'] + other);
    var n := |k| + |verb| + 2;
    assert left[..n] == k + ([':'] + (verb + [':']));
    assert right[|l|] == ':';
    assert n <= |l| + 1;
    assert right[..|l| + 1] == l + [':'];
    assert right[..n] == (l + [':'])[..n];
  }

  lemma KeysAgree(less: KeyOrder, r: Request, q: Request)
    requires Hashable(r) && Hashable(q) && Payload(less, r) == Payload(less, q)
    requires KeysApart(Resolve(r.caller), Resolve(q.caller))
    ensures Resolve(r.caller) == Resolve(q.caller)
    ensures r.verb + ([':'] + (r.path + ([':'] + NormaliseBody(less, r.body))))
            == q.verb + ([':'] + (q.path + ([':'] + NormaliseBody(less, q.body))))
  {
    var k, l := Resolve(r.caller), Resolve(q.caller);
    var s, t := r.path + ([':'] + NormaliseBody(less, r.body)), q.path + ([':'] + NormaliseBody(less, q.body));
    NoVerbHasColon(r.verb);
    NoVerbHasColon(q.verb);
    if |k| < |l| { ShorterKeyExtends(k, r.verb, s, l, q.verb + ([':'] + t)); }
    if |l| < |k| { ShorterKeyExtends(l, q.verb, t, k, r.verb + ([':'] + s)); }
    SameLength(k, l, r.verb + ([':'] + s), q.verb + ([':'] + t));
  }

  lemma SameLength(k: string, l: string, x: string, y: string)
    requires |k| == |l| && k + ([':'] + x) == l + ([':'] + y)
    ensures k == l && x == y
  {
    var left, right := k + ([':'] + x), l + ([':'] + y);
    assert k == left[..|k|] && l == right[..|l|];
    assert x == left[|k| + 1..] && y == right[|l| + 1..];
  }

  /** Fingerprinted requests whose keys lie apart get one payload exactly when alike callers send one
      verb, path and JSON body, whatever characters the paths hold. */
  lemma PayloadNamesTheRequest(less: KeyOrder, r: Request, q: Request)
    requires StrictTotalOrder(less) && Hashable(r) && Hashable(q)
    requires KeysApart(Resolve(r.caller), Resolve(q.caller))
    ensures Payload(less, r) == Payload(less, q) <==> SameRequest(r, q)
  {
    ResolveAlikeIff(r.caller, q.caller);
    BodiesAgree(less, r.body, q.body);
    if Payload(less, r) == Payload(less, q) {
      KeysAgree(less, r, q);
      NoVerbHasColon(r.verb);
      NoVerbHasColon(q.verb);
      FirstColon(r.verb, q.verb, r.path + ([':'] + NormaliseBody(less, r.body)),
                 q.path + ([':'] + NormaliseBody(less, q.body)));
      PathAndBody(less, r.path, q.path, r.body, q.body);
    }
  }

  lemma KeysWithoutColonAreApart(k: string, l: string)
    requires ':' !in k && ':' !in l
    ensures KeysApart(k, l)
  {
    forall verb | verb in MUTABLE_METHODS ensures !ExtendsBy(k, l, verb) && !ExtendsBy(l, k, verb) {
      NotExtended(k, l, verb);
      NotExtended(l, k, verb);
    }
  }

  lemma NotExtended(k: string, l: string, verb: string)
    requires ':' !in l
    ensures !ExtendsBy(k, l, verb)
  {
    assert (k + ([':'] + (verb + [':'])))[|k|] == ':';
  }

  /** Two callers whose keys do not lie apart have different requests with one payload. */
  lemma KeysCollide(less: KeyOrder, a: Caller, b: Caller, verb: string) returns (r: Request, q: Request)
    requires verb in MUTABLE_METHODS && ExtendsBy(Resolve(a), Resolve(b), verb)
    ensures Hashable(r) && Hashable(q) && r.caller == a && q.caller == b
    ensures Payload(less, r) == Payload(less, q) && !SameRequest(r, q) && !SameRequest(q, r)
  {
    var k, l := Resolve(a), Resolve(b);
    var head := k + ([':'] + (verb + [':']));
    var y := (l + [':'])[|head|..];
    assert head + y == l + [':'];
    r, q := Request(a, verb, y + "PUT:/y", Undef, false), Request(b, "PUT", "/y", Undef, false);
    ResolveAlikeIff(a, b);
    ResolveAlikeIff(b, a);
    assert |k| < |l|;
    RegroupLeft(k, verb, y);
    RegroupRight(l);
  }

  lemma RegroupLeft(k: string, verb: string, y: string)
    ensures k + ([':'] + (verb + ([':'] + (y + "PUT:/y" + ([':'] + "")))))
            == k + ([':'] + (verb + [':'])) + y + "PUT:/y:"
  {
  }

  lemma RegroupRight(l: string)
    ensures l + ([':'] + ("PUT" + ([':'] + ("/y" + ([':'] + ""))))) == l + [':'] + "PUT:/y:"
  {
  }

  /** For two callers the payload names every pair of their requests exactly when their keys lie apart. */
  lemma PayloadNamesIff(less: KeyOrder, a: Caller, b: Caller)
    requires StrictTotalOrder(less)
    ensures (forall r, q :: Hashable(r) && Hashable(q) && r.caller == a && q.caller == b
               ==> (Payload(less, r) == Payload(less, q) <==> SameRequest(r, q)))
            <==> KeysApart(Resolve(a), Resolve(b))
  {
    if KeysApart(Resolve(a), Resolve(b)) {
      forall r, q | Hashable(r) && Hashable(q) && r.caller == a && q.caller == b
        ensures Payload(less, r) == Payload(less, q) <==> SameRequest(r, q)
      {
        PayloadNamesTheRequest(less, r, q);
      }
    } else {
      var verb :| verb in MUTABLE_METHODS
        && (ExtendsBy(Resolve(a), Resolve(b), verb) || ExtendsBy(Resolve(b), Resolve(a), verb));
      if ExtendsBy(Resolve(a), Resolve(b), verb) {
        var r, q := KeysCollide(less, a, b, verb);
        assert Hashable(r) && Hashable(q) && r.caller == a && q.caller == b;
      } else {
        var q, r := KeysCollide(less, b, a, verb);
        assert Hashable(r) && Hashable(q) && r.caller == a && q.caller == b;
      }
    }
  }
}
