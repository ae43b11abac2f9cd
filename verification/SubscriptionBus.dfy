/** The in-process event bus: a bounded buffer and a queue of pending pulls per subscriber. */
module SubscriptionBus {
  import opened Text

  const MAX_QUEUE_SIZE: nat := 100

  /** An answered pull: an event, or the end of the stream. Pulls are numbered in call order. */
  datatype Answer<E> = Answer(pull: nat, value: Option<E>)

  /** One subscriber. The first three parts are its queues and flag; the rest is the history of
      what was published while it was subscribed and of what it was told. `taken` lists, in
      delivery order, the positions in `published` of the delivered events. */
  datatype State<E> = State(
    pullQueue: seq<nat>, pushQueue: seq<E>, done: bool,
    pulls: nat, published: seq<E>, taken: seq<int>, answers: seq<Answer<E>>, dropped: nat)

  function Start<E>(): State<E> { State([], [], false, 0, [], [], [], 0) }

  datatype Event<E> = Publish(payload: E) | Next | Return

  /** The listener, while registered. */
  function Listen<E>(s: State<E>, payload: E): State<E> {
    if s.done then s
    else if |s.pullQueue| > 0 then
      s.(pullQueue := s.pullQueue[1..],
         published := s.published + [payload],
         taken := s.taken + [|s.published|],
         answers := s.answers + [Answer(s.pullQueue[0], Some(payload))])
    else
      var full := |s.pushQueue| >= MAX_QUEUE_SIZE;
      s.(pushQueue := (if full then s.pushQueue[1..] else s.pushQueue) + [payload],
         published := s.published + [payload],
         dropped := s.dropped + if full then 1 else 0)
  }

  function Pull<E>(s: State<E>): State<E> {
    var t := s.(pulls := s.pulls + 1);
    if |s.pushQueue| > 0 then
      t.(pushQueue := s.pushQueue[1..],
         taken := s.taken + [|s.published| - |s.pushQueue|],
         answers := s.answers + [Answer(s.pulls, Some(s.pushQueue[0]))])
    else if s.done then t.(answers := s.answers + [Answer(s.pulls, None)])
    else t.(pullQueue := s.pullQueue + [s.pulls])
  }

  function EndAll<E>(pulls: seq<nat>): seq<Answer<E>> {
    if pulls == [] then [] else [Answer(pulls[0], None)] + EndAll(pulls[1..])
  }

  /** Unsubscribe and end the pending pulls; a later call finds them already ended. */
  function Finish<E>(s: State<E>): State<E> {
    if s.done then s else s.(done := true, answers := s.answers + EndAll(s.pullQueue))
  }

  function Step<E>(s: State<E>, e: Event<E>): State<E> {
    match e
    case Publish(payload) => Listen(s, payload)
    case Next => Pull(s)
    case Return => Finish(s)
  }

  function Run<E>(s: State<E>, events: seq<Event<E>>): State<E>
    decreases |events|
  {
    if events == [] then s else Run(Step(s, events[0]), events[1..])
  }

  // ------------------------------------------------------------------ the invariant

  /** The events among the answers, in order. */
  function Delivered<E>(answers: seq<Answer<E>>): seq<E> {
    if answers == [] then []
    else
      var n := |answers| - 1;
      Delivered(answers[..n]) + if answers[n].value.Some? then [answers[n].value.value] else []
  }

  ghost predicate Queues<E>(s: State<E>) {
    && (s.pullQueue == [] || s.pushQueue == [])
    && |s.pushQueue| <= MAX_QUEUE_SIZE
    && |s.pushQueue| <= |s.published|
    && s.pushQueue == s.published[|s.published| - |s.pushQueue|..]
  }

  /** Deliveries take ever later positions, all before the buffered ones. */
  ghost predicate InOrder<E>(s: State<E>) {
    && (forall k :: 0 <= k < |s.taken| ==> 0 <= s.taken[k] < |s.published| - |s.pushQueue|)
    && (forall j, k :: 0 <= j < k < |s.taken| ==> s.taken[j] < s.taken[k])
  }

  /** Each delivery is the event at its position. */
  ghost predicate Faithful<E>(s: State<E>) {
    && |Delivered(s.answers)| == |s.taken|
    && forall k :: 0 <= k < |s.taken| && 0 <= s.taken[k] < |s.published| ==>
         Delivered(s.answers)[k] == s.published[s.taken[k]]
  }

  /** Every published event was delivered, dropped, or is buffered. */
  ghost predicate Conserves<E>(s: State<E>) {
    |s.taken| + s.dropped + |s.pushQueue| == |s.published|
  }

  /** Until the end, pulls are answered in call order and the k-th gets the k-th delivery. */
  ghost predicate Served<E>(s: State<E>) {
    !s.done ==>
      && |s.answers| == |s.taken|
      && (forall k :: 0 <= k < |s.answers| ==> s.answers[k].pull == k && s.answers[k].value.Some?)
      && s.pulls == |s.answers| + |s.pullQueue|
      && (forall k :: 0 <= k < |s.pullQueue| ==> s.pullQueue[k] == |s.answers| + k)
  }

  ghost predicate Inv<E>(s: State<E>) {
    Queues(s) && InOrder(s) && Faithful(s) && Conserves(s) && Served(s)
  }

  lemma DeliveredSnoc<E>(answers: seq<Answer<E>>, a: Answer<E>)
    ensures Delivered(answers + [a]) == Delivered(answers) + if a.value.Some? then [a.value.value] else []
  {
    assert (answers + [a])[..|answers|] == answers;
  }

  lemma {:induction false} EndingDeliversNothing<E>(answers: seq<Answer<E>>, pulls: seq<nat>)
    ensures Delivered(answers + EndAll(pulls)) == Delivered(answers)
    decreases |pulls|
  {
    if pulls == [] {
      assert answers + EndAll(pulls) == answers;
    } else {
      var a := Answer<E>.Answer(pulls[0], None);
      assert answers + EndAll<E>(pulls) == (answers + [a]) + EndAll(pulls[1..]);
      EndingDeliversNothing(answers + [a], pulls[1..]);
      DeliveredSnoc(answers, a);
    }
  }

  lemma ListenKeepsInv<E>(s: State<E>, payload: E)
    requires Inv(s)
    ensures Inv(Listen(s, payload))
  {
    var t := Listen(s, payload);
    if !s.done {
      if |s.pullQueue| > 0 {
        DeliveredSnoc(s.answers, Answer(s.pullQueue[0], Some(payload)));
      } else {
        assert t.published[|t.published| - |t.pushQueue|..] == t.pushQueue;
      }
    }
  }

  lemma PullKeepsInv<E>(s: State<E>)
    requires Inv(s)
    ensures Inv(Pull(s))
  {
    var t := Pull(s);
    if |s.pushQueue| > 0 {
      DeliveredSnoc(s.answers, Answer(s.pulls, Some(s.pushQueue[0])));
      assert t.published[|t.published| - |t.pushQueue|..] == t.pushQueue;
      assert s.pushQueue[0] == s.published[|s.published| - |s.pushQueue|];
    } else if s.done {
      DeliveredSnoc(s.answers, Answer(s.pulls, None));
    }
  }

  lemma FinishKeepsInv<E>(s: State<E>)
    requires Inv(s)
    ensures Inv(Finish(s))
  {
    EndingDeliversNothing(s.answers, s.pullQueue);
  }

  lemma {:induction false} RunKeepsInv<E>(s: State<E>, events: seq<Event<E>>)
    requires Inv(s)
    ensures Inv(Run(s, events))
    decreases |events|
  {
    if events != [] {
      match events[0] {
        case Publish(payload) => ListenKeepsInv(s, payload);
        case Next => PullKeepsInv(s);
        case Return => FinishKeepsInv(s);
      }
      RunKeepsInv(Step(s, events[0]), events[1..]);
    }
  }

  // ------------------------------------------------------------------- the promises

  /** In every interleaving of publish, next and return: pending pulls and buffered events never
      both exist, the buffer holds at most 100 events and is the latest stretch of what was
      published, and deliveries come in order with no event twice. */
  lemma BusTheorem<E>(events: seq<Event<E>>)
    ensures var s := Run(Start<E>(), events);
            && (s.pullQueue == [] || s.pushQueue == [])
            && |s.pushQueue| <= 100
            && |s.pushQueue| <= |s.published|
            && s.pushQueue == s.published[|s.published| - |s.pushQueue|..]
            && |Delivered(s.answers)| == |s.taken|
            && (forall k :: 0 <= k < |s.taken| ==>
                  0 <= s.taken[k] < |s.published| && Delivered(s.answers)[k] == s.published[s.taken[k]])
            && (forall j, k :: 0 <= j < k < |s.taken| ==> s.taken[j] < s.taken[k])
            && |s.taken| + s.dropped + |s.pushQueue| == |s.published|
  {
    RunKeepsInv(Start<E>(), events);
  }

  /** An event goes to the pull that has waited longest, else into the buffer; with 100 events in it the
      oldest of them is dropped, and in no other case is anything. */
  lemma ListenMeans<E>(s: State<E>, payload: E)
    requires !s.done
    ensures var t := Listen(s, payload);
            && t.published == s.published + [payload] && t.pulls == s.pulls && !t.done
            && (if s.pullQueue != [] then
                  && t.answers == s.answers + [Answer(s.pullQueue[0], Some(payload))]
                  && t.pullQueue == s.pullQueue[1..] && t.pushQueue == s.pushQueue && t.dropped == s.dropped
                else
                  && t.answers == s.answers && t.pullQueue == []
                  && t.pushQueue == s.pushQueue[if |s.pushQueue| >= 100 then 1 else 0..] + [payload]
                  && t.dropped == s.dropped + if |s.pushQueue| >= 100 then 1 else 0)
  {
  }

  /** A pull is answered with the oldest buffered event, if there is none with the end once the iterator
      has returned, and before that waits behind the other pulls. */
  lemma PullMeans<E>(s: State<E>)
    ensures var t := Pull(s);
            && t.pulls == s.pulls + 1 && t.published == s.published && t.done == s.done && t.dropped == s.dropped
            && (if s.pushQueue != [] then
                  && t.answers == s.answers + [Answer(s.pulls, Some(s.pushQueue[0]))]
                  && t.pushQueue == s.pushQueue[1..] && t.pullQueue == s.pullQueue
                else if s.done then
                  t.answers == s.answers + [Answer(s.pulls, None)] && t.pullQueue == s.pullQueue && t.pushQueue == []
                else t.answers == s.answers && t.pullQueue == s.pullQueue + [s.pulls] && t.pushQueue == [])
  {
  }

  /** Returning ends every waiting pull, in order, and keeps what is buffered; returning again does nothing. */
  lemma {:induction false} FinishMeans<E>(s: State<E>)
    ensures var t := Finish(s);
            && t.done && (s.done ==> t == s)
            && t.pushQueue == s.pushQueue && t.published == s.published && t.pulls == s.pulls
            && (!s.done ==>
                  && |t.answers| == |s.answers| + |s.pullQueue| && t.answers[..|s.answers|] == s.answers
                  && forall i :: 0 <= i < |s.pullQueue| ==> t.answers[|s.answers| + i] == Answer(s.pullQueue[i], None))
  {
    EndAllIs<E>(s.pullQueue);
  }

  lemma {:induction false} EndAllIs<E>(pulls: seq<nat>)
    ensures |EndAll<E>(pulls)| == |pulls|
    ensures forall i :: 0 <= i < |pulls| ==> EndAll<E>(pulls)[i] == Answer(pulls[i], None)
  {
    if pulls != [] {
      EndAllIs<E>(pulls[1..]);
    }
  }

  lemma {:induction false} DenseIsIdentity(taken: seq<int>, n: nat, k: nat)
    requires |taken| == n && k < n
    requires forall i :: 0 <= i < n ==> 0 <= taken[i] < n
    requires forall i, j :: 0 <= i < j < n ==> taken[i] < taken[j]
    ensures taken[k] == k
  {
    AtLeastIndex(taken, k);
    AtMostIndex(taken, n, k);
  }

  lemma {:induction false} AtLeastIndex(taken: seq<int>, k: nat)
    requires k < |taken| && taken[0] >= 0
    requires forall i, j :: 0 <= i < j < |taken| ==> taken[i] < taken[j]
    ensures taken[k] >= k
  {
    if k > 0 {
      AtLeastIndex(taken, k - 1);
    }
  }

  lemma {:induction false} AtMostIndex(taken: seq<int>, n: nat, k: nat)
    requires k < |taken| == n && taken[n - 1] < n
    requires forall i, j :: 0 <= i < j < |taken| ==> taken[i] < taken[j]
    ensures taken[k] <= k
    decreases n - k
  {
    if k < n - 1 {
      AtMostIndex(taken, n, k + 1);
    }
  }

  /** A subscriber whose buffer never overflowed has been given every published event but the
      buffered ones, in order and without a gap. */
  lemma NothingLostWithoutOverflow<E>(events: seq<Event<E>>)
    requires Run(Start<E>(), events).dropped == 0
    ensures var s := Run(Start<E>(), events);
            Delivered(s.answers) + s.pushQueue == s.published
  {
    RunKeepsInv(Start<E>(), events);
    GapFree(Run(Start<E>(), events));
  }

  lemma GapFree<E>(s: State<E>)
    requires Inv(s) && s.dropped == 0
    ensures Delivered(s.answers) + s.pushQueue == s.published
  {
    var n := |s.taken|;
    forall k | 0 <= k < n ensures Delivered(s.answers)[k] == s.published[k] {
      DenseIsIdentity(s.taken, n, k);
    }
    assert Delivered(s.answers) == s.published[..n];
    assert s.published == s.published[..n] + s.published[n..];
  }

  /** Until return, the k-th call of next is answered by the k-th delivery. */
  lemma PullsAreServedInOrder<E>(events: seq<Event<E>>, k: nat)
    requires var s := Run(Start<E>(), events); !s.done && k < |s.answers|
    ensures var s := Run(Start<E>(), events);
            k < |Delivered(s.answers)| && s.answers[k] == Answer(k, Some(Delivered(s.answers)[k]))
  {
    RunKeepsInv(Start<E>(), events);
    var s := Run(Start<E>(), events);
    AllSome(s.answers, k);
  }

  lemma {:induction false} AllSome<E>(answers: seq<Answer<E>>, k: nat)
    requires k < |answers| && forall i :: 0 <= i < |answers| ==> answers[i].value.Some?
    ensures |Delivered(answers)| == |answers| && Delivered(answers)[k] == answers[k].value.value
    decreases |answers|
  {
    var n := |answers| - 1;
    if n > 0 {
      AllSome(answers[..n], if k < n then k else 0);
    }
  }

  // ------------------------------------------------------------------------ the bus

  /** One async iterator, changed in place. */
  class Subscriber<E> {
    const topic: string
    var pullQueue: seq<nat>
    var pushQueue: seq<E>
    var done: bool
    var pulls: nat
    ghost var published: seq<E>
    ghost var taken: seq<int>
    ghost var answers: seq<Answer<E>>
    ghost var dropped: nat

    ghost function Value(): State<E>
      reads this
    {
      State(pullQueue, pushQueue, done, pulls, published, taken, answers, dropped)
    }

    constructor (topic: string)
      ensures Value() == Start<E>() && this.topic == topic
    {
      this.topic := topic;
      pullQueue, pushQueue, done, pulls := [], [], false, 0;
      published, taken, answers, dropped := [], [], [], 0;
    }

    method Listener(payload: E)
      requires !done
      modifies this
      ensures Value() == Listen(old(Value()), payload)
    {
      if |pullQueue| > 0 {
        answers := answers + [Answer(pullQueue[0], Some(payload))];
        taken := taken + [|published|];
        pullQueue := pullQueue[1..];
      } else {
        if |pushQueue| >= MAX_QUEUE_SIZE {
          pushQueue := pushQueue[1..];
          dropped := dropped + 1;
        }
        pushQueue := pushQueue + [payload];
      }
      published := published + [payload];
    }

    /** Some answer at once, or None for a pull left pending. */
    method NextEvent() returns (r: Option<Answer<E>>)
      modifies this
      ensures Value() == Pull(old(Value()))
      ensures r.Some? ==> answers == old(answers) + [r.value]
      ensures r.None? ==> answers == old(answers) && pullQueue == old(pullQueue) + [old(pulls)]
    {
      var pull := pulls;
      pulls := pulls + 1;
      if |pushQueue| > 0 {
        r := Some(Answer(pull, Some(pushQueue[0])));
        taken := taken + [|published| - |pushQueue|];
        answers := answers + [r.value];
        pushQueue := pushQueue[1..];
      } else if done {
        r := Some(Answer(pull, None));
        answers := answers + [r.value];
      } else {
        pullQueue := pullQueue + [pull];
        r := None;
      }
    }
  }

  class Bus<E> {
    var listeners: map<string, set<Subscriber<E>>>

    /** Every listener is registered under its own topic and has not returned. */
    ghost predicate Valid()
      reads this, set t, fn | t in listeners && fn in listeners[t] :: fn
    {
      forall t, fn :: t in listeners && fn in listeners[t] ==> fn.topic == t && !fn.done
    }

    constructor ()
      ensures listeners == map[] && Valid()
    {
      listeners := map[];
    }

    /** Publishing reaches every listener of the topic, each once, and nobody else. */
    method PublishTo(topic: string, payload: E)
      requires Valid()
      modifies if topic in listeners then listeners[topic] else {}
      ensures Valid()
      ensures topic in listeners ==> forall fn :: fn in listeners[topic] ==>
              fn.Value() == Listen(old(fn.Value()), payload)
    {
      if topic !in listeners {
        return;
      }
      var rest := listeners[topic];
      while rest != {}
        invariant rest <= listeners[topic]
        invariant forall fn :: fn in rest ==> fn.Value() == old(fn.Value())
        invariant forall fn :: fn in listeners[topic] - rest ==> fn.Value() == Listen(old(fn.Value()), payload)
        decreases rest
      {
        var fn :| fn in rest;
        fn.Listener(payload);
        rest := rest - {fn};
      }
    }

    method AsyncIterator(topic: string) returns (it: Subscriber<E>)
      requires Valid()
      modifies this
      ensures Valid()
      ensures fresh(it) && it.topic == topic && it.Value() == Start<E>()
      ensures listeners == old(listeners)[topic := (if topic in old(listeners) then old(listeners)[topic] else {})
                                                   + {it}]
    {
      it := new Subscriber<E>(topic);
      var known := if topic in listeners then listeners[topic] else {};
      listeners := listeners[topic := known + {it}];
    }

    /** Ending an iterator again changes nothing: its pending pulls are resolved already. */
    method ReturnIterator(it: Subscriber<E>)
      requires Valid()
      modifies this, it
      ensures Valid()
      ensures it.Value() == Finish(old(it.Value()))
      ensures listeners == if it.topic in old(listeners)
              then old(listeners)[it.topic := old(listeners)[it.topic] - {it}] else old(listeners)
    {
      var resolved := it.done;
      it.done := true;
      if it.topic in listeners {
        listeners := listeners[it.topic := listeners[it.topic] - {it}];
      }
      if resolved {
        return;
      }
      var i := 0;
      while i < |it.pullQueue|
        invariant 0 <= i <= |it.pullQueue|
        invariant it.Value() == old(it.Value()).(done := true, answers := it.answers)
        invariant it.answers + EndAll(it.pullQueue[i..]) == old(it.answers) + EndAll(old(it.pullQueue))
        modifies it
      {
        assert it.pullQueue[i..][1..] == it.pullQueue[i + 1..];
        it.answers := it.answers + [Answer(it.pullQueue[i], None)];
        i := i + 1;
      }
      assert it.answers + EndAll(it.pullQueue[i..]) == it.answers;
    }
  }
}
