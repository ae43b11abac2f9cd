/** Donation records and the lifecycle table they obey. */
module Transactions {
  import opened Text

  const PENDING := "pending"
  const QUEUED := "queued"
  const SUBMITTED := "submitted"
  const PENDING_CONFIRMATION := "pending_confirmation"
  const CONFIRMED := "confirmed"
  const FAILED := "failed"
  const EXPIRED := "expired"

  const STATES := {PENDING, QUEUED, SUBMITTED, PENDING_CONFIRMATION, CONFIRMED, FAILED, EXPIRED}

  /** A donation record. `ref` is the identity of the JavaScript object, compared by `===`;
      `key` is the idempotency key, with "" standing for an absent one. */
  datatype Tx = Tx(
    ref: nat,
    id: string,
    key: string,
    donor: string,
    recipient: string,
    amount: real,
    memo: string,
    timestamp: int,
    status: string,
    statusUpdatedAt: Option<int>,
    stellarTxId: string,
    deleted: bool,
    extra: map<string, string>)

  function LowerChar(c: char): char {
    if 'A' <= c <= 'Z' then (c as int - 'A' as int + 'a' as int) as char else c
  }

  function Lower(s: string): string {
    if s == "" then "" else [LowerChar(s[0])] + Lower(s[1..])
  }

  function NormalizeState(state: string): string {
    if state == "" then PENDING
    else
      var n := TrimRight(TrimLeft(Lower(state)));
      if n == "completed" then CONFIRMED else if n == "cancelled" then FAILED else n
  }

  predicate ValidTransition(from: string, to: string) {
    match from
    case "pending" => to in {QUEUED, SUBMITTED, PENDING_CONFIRMATION, CONFIRMED, FAILED}
    case "queued" => to in {SUBMITTED, FAILED}
    case "submitted" => to in {PENDING_CONFIRMATION, CONFIRMED, FAILED}
    case "pending_confirmation" => to in {CONFIRMED, FAILED}
    case "confirmed" => to in {FAILED}
    case _ => false
  }

  predicate CanTransition(from: string, to: string) {
    from == to || ValidTransition(from, to)
  }

  predicate Contains(s: string, needle: string) {
    |needle| <= |s| && (s[..|needle|] == needle || (s != [] && Contains(s[1..], needle)))
  }

  /** How far along its lifecycle a state is. */
  function Rank(state: string): nat {
    match state
    case "pending" => 0
    case "queued" => 1
    case "submitted" => 2
    case "pending_confirmation" => 3
    case "confirmed" => 4
    case _ => 5
  }

  /** Lowering replaces each capital of A to Z by the letter 32 places on, and nothing else. */
  lemma {:induction false} LowerAt(s: string, i: nat)
    requires i < |s|
    ensures |Lower(s)| == |s|
    ensures Lower(s)[i] == if 'A' <= s[i] <= 'Z' then (s[i] as int + 32) as char else s[i]
    decreases |s|
  {
    if |s| > 1 {
      LowerAt(s[1..], if i > 0 then i - 1 else 0);
    }
  }

  lemma {:induction false} ContainsWithin(a: string, needle: string, b: string)
    ensures Contains(a + needle + b, needle)
  {
    var s := a + needle + b;
    if a == [] {
      assert s[..|needle|] == needle;
    } else {
      assert s[1..] == a[1..] + needle + b;
      ContainsWithin(a[1..], needle, b);
    }
  }

  lemma {:induction false} Around(s: string, needle: string) returns (a: string, b: string)
    requires Contains(s, needle)
    ensures s == a + needle + b
  {
    if s[..|needle|] == needle {
      a, b := [], s[|needle|..];
    } else {
      a, b := Around(s[1..], needle);
      a := [s[0]] + a;
    }
  }

  /** A text contains another exactly when it is that one with something before and after it. */
  lemma ContainsIff(s: string, needle: string)
    ensures Contains(s, needle) <==> exists a, b :: s == a + needle + b
  {
    if Contains(s, needle) {
      var a, b := Around(s, needle);
    }
    forall a, b | s == a + needle + b ensures Contains(s, needle) {
      ContainsWithin(a, needle, b);
    }
  }

  /** What a status text stands for, blanks and ASCII case aside: the legacy names for the state they
      became, any other text for itself, and no text for "pending". */
  lemma NormalizeStateMeans(state: string)
    ensures state == "" ==> NormalizeState(state) == "pending"
    ensures state != "" ==>
              exists core :: Trims(Lower(state), core)
                && NormalizeState(state)
                   == if core == "completed" then "confirmed" else if core == "cancelled" then "failed" else core
  {
    TrimStrips(Lower(state));
  }

  const LIFECYCLE := ["pending", "queued", "submitted", "pending_confirmation", "confirmed", "failed"]

  /** Between two states a change is legal exactly when the second comes later in the lifecycle, save
      that a queued donation is submitted before it can be confirmed. Nothing leaves or enters "expired". */
  lemma TransitionsIff(from: string, to: string)
    ensures from in STATES <==> from in LIFECYCLE || from == "expired"
    ensures from in STATES && from != to ==>
              (CanTransition(from, to)
               <==> (exists i, j :: 0 <= i < j < |LIFECYCLE| && LIFECYCLE[i] == from && LIFECYCLE[j] == to)
                    && !(from == "queued" && to in ["pending_confirmation", "confirmed"]))
  {
    assert LIFECYCLE[0] == "pending" && LIFECYCLE[1] == "queued" && LIFECYCLE[2] == "submitted";
    assert LIFECYCLE[3] == "pending_confirmation" && LIFECYCLE[4] == "confirmed" && LIFECYCLE[5] == "failed";
  }

  /** A legal change of state moves strictly forward, so no sequence of changes comes back. */
  lemma TransitionsMoveForward(from: string, to: string)
    requires CanTransition(from, to)
    ensures from == to || Rank(from) < Rank(to)
  {
  }
}
