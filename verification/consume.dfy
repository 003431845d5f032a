/** The per-message step of a listener's consumption loop: build the keyword
    arguments, await the handler, and log any `Exception` without leaving the loop
    (pikantic/core.py, Listener.listen). Queue declaration, iteration and
    acknowledgement are broker calls and stay outside the model; the loop is a walk
    over the finite list of messages delivered so far. */
module Consume {
  import opened Wrappers
  import opened PyModel
  import opened Planner
  import opened KwargsBuilder

  /** How an awaited handler call ends. `Interrupted` is a `BaseException` that is not
      an `Exception` (task cancellation, for one): `except Exception` does not catch it. */
  datatype CallOutcome = Returned | Raised(detail: string) | Interrupted

  /** The handler invocation, supplied from outside: the application code. It sees
      whatever state the application keeps (`S`), as left by earlier calls, and
      leaves it changed. */
  type Invoker<!S> = (S, Handler, Kwargs) -> (CallOutcome, S)

  /** What happened to one message. */
  datatype Delivery =
    | Handled(message: IncomingMessage, kwargs: Kwargs)
    | Logged(message: IncomingMessage, error: Error)
    | Escaped(message: IncomingMessage)

  /** No delivery of `log` escaped the `except` clause. */
  ghost predicate NoEscape(log: seq<Delivery>) {
    forall i :: 0 <= i < |log| ==> !log[i].Escaped?
  }

  /** The body of the `try`/`except Exception` block for one message, starting from
      the application state `s`. */
  function ProcessOne<S>(l: Listener, m: IncomingMessage, codecs: Codecs, invoke: Invoker<S>, s: S)
    : (r: (Delivery, S))
    requires DistinctNames(l.serializers)
    ensures r.0.message == m
  {
    match CreateKwargs(l, m, codecs)
    case Failure(e) => (Logged(m, e), s)
    case Success(kwargs) =>
      var (outcome, s') := invoke(s, l.callback, kwargs);
      match outcome
      case Returned => (Handled(m, kwargs), s')
      case Raised(detail) => (Logged(m, HandlerRaised(detail)), s')
      case Interrupted => (Escaped(m), s')
  }

  /** Every `Exception` raised while building the arguments or inside the handler is
      logged against its message. When the arguments cannot be built the handler is
      never called: the state is untouched and any two handlers give the same outcome.
      Otherwise the state is the one the handler leaves. Only a non-`Exception` escapes. */
  lemma ExceptionsAreLogged<S>(l: Listener, m: IncomingMessage, codecs: Codecs,
                               invoke: Invoker<S>, other: Invoker<S>, s: S)
    requires DistinctNames(l.serializers)
    ensures CreateKwargs(l, m, codecs).Failure? ==>
      && ProcessOne(l, m, codecs, invoke, s) == (Logged(m, CreateKwargs(l, m, codecs).error), s)
      && ProcessOne(l, m, codecs, invoke, s) == ProcessOne(l, m, codecs, other, s)
    ensures CreateKwargs(l, m, codecs).Success? ==>
      var kwargs := CreateKwargs(l, m, codecs).value;
      var call := invoke(s, l.callback, kwargs);
      var r := ProcessOne(l, m, codecs, invoke, s);
      && r.1 == call.1
      && (call.0.Returned? <==> r.0 == Handled(m, kwargs))
      && (call.0.Raised? ==> r.0 == Logged(m, HandlerRaised(call.0.detail)))
      && (call.0.Interrupted? <==> r.0.Escaped?)
  {
  }

  /** Reference definition of the loop over delivered messages: one delivery per
      message in order, each handler call seeing the state the previous one left,
      ending early only when a non-`Exception` escapes. */
  function Listen<S>(l: Listener, messages: seq<IncomingMessage>, codecs: Codecs, invoke: Invoker<S>, s: S)
    : (seq<Delivery>, S)
    requires DistinctNames(l.serializers)
    decreases |messages|
  {
    if |messages| == 0 then ([], s)
    else
      var (d, s') := ProcessOne(l, messages[0], codecs, invoke, s);
      if d.Escaped? then ([d], s')
      else
        var (rest, s'') := Listen(l, messages[1..], codecs, invoke, s');
        ([d] + rest, s'')
  }

  /** The `async for` loop itself: process each message in delivery order and leave
      only when an exception the `except` clause does not catch escapes. */
  method ListenLoop<S>(l: Listener, messages: seq<IncomingMessage>, codecs: Codecs, invoke: Invoker<S>, s0: S)
    returns (log: seq<Delivery>, s: S)
    requires DistinctNames(l.serializers)
    ensures (log, s) == Listen(l, messages, codecs, invoke, s0)
  {
    log := [];
    s := s0;
    var i := 0;
    while i < |messages|
      invariant 0 <= i <= |messages|
      invariant log + Listen(l, messages[i..], codecs, invoke, s).0 == Listen(l, messages, codecs, invoke, s0).0
      invariant Listen(l, messages[i..], codecs, invoke, s).1 == Listen(l, messages, codecs, invoke, s0).1
    {
      var (d, s') := ProcessOne(l, messages[i], codecs, invoke, s);
      ListenStep(l, messages, i, log, codecs, invoke, s0, s);
      log := log + [d];
      s := s';
      if d.Escaped? {
        assert (log, s) == Listen(l, messages, codecs, invoke, s0);
        return;
      }
      i := i + 1;
    }
    assert messages[i..] == [];
    assert Listen(l, messages[i..], codecs, invoke, s) == ([], s);
    assert log + [] == log;
  }

  /** One turn of the loop: appending the delivery for message `i` either completes
      the reference walk, when that delivery escapes, or leaves the walk over the
      remaining messages, from the state the handler left, to do. */
  lemma ListenStep<S>(l: Listener, messages: seq<IncomingMessage>, i: int, log: seq<Delivery>,
                      codecs: Codecs, invoke: Invoker<S>, s0: S, s: S)
    requires DistinctNames(l.serializers)
    requires 0 <= i < |messages|
    requires log + Listen(l, messages[i..], codecs, invoke, s).0 == Listen(l, messages, codecs, invoke, s0).0
    requires Listen(l, messages[i..], codecs, invoke, s).1 == Listen(l, messages, codecs, invoke, s0).1
    ensures var (d, s') := ProcessOne(l, messages[i], codecs, invoke, s);
      if d.Escaped? then (log + [d], s') == Listen(l, messages, codecs, invoke, s0)
      else
        && (log + [d]) + Listen(l, messages[i + 1..], codecs, invoke, s').0 == Listen(l, messages, codecs, invoke, s0).0
        && Listen(l, messages[i + 1..], codecs, invoke, s').1 == Listen(l, messages, codecs, invoke, s0).1
  {
    assert messages[i..][1..] == messages[i + 1..];
  }

  /** The reference walk yields at most one delivery per message, in delivery order.
      The delivery for message `i` is what processing it gives from the state the walk
      over the earlier messages left; the loop carries nothing else from one message to
      the next. It stops before the last message only right after an escape. */
  lemma {:induction false} ListenDeliveries<S>(l: Listener, messages: seq<IncomingMessage>, codecs: Codecs,
                                               invoke: Invoker<S>, s: S)
    requires DistinctNames(l.serializers)
    ensures var log := Listen(l, messages, codecs, invoke, s).0;
      && |log| <= |messages|
      && (forall i :: 0 <= i < |log| ==>
            log[i] == ProcessOne(l, messages[i], codecs, invoke, Listen(l, messages[..i], codecs, invoke, s).1).0)
      && (forall i :: 0 <= i < |log| - 1 ==> !log[i].Escaped?)
      && (|log| < |messages| ==> |log| > 0 && log[|log| - 1].Escaped?)
    decreases |messages|
  {
    if |messages| > 0 {
      var (d, s1) := ProcessOne(l, messages[0], codecs, invoke, s);
      var log := Listen(l, messages, codecs, invoke, s).0;
      assert messages[..0] == [];
      if !d.Escaped? {
        var tail := messages[1..];
        ListenDeliveries(l, tail, codecs, invoke, s1);
        var rest := Listen(l, tail, codecs, invoke, s1).0;
        assert log == [d] + rest;
        forall i | 1 <= i < |log|
          ensures log[i] == ProcessOne(l, messages[i], codecs, invoke, Listen(l, messages[..i], codecs, invoke, s).1).0
        {
          var prefix := messages[..i];
          assert prefix[0] == messages[0];
          assert prefix[1..] == tail[..i - 1];
          assert Listen(l, prefix, codecs, invoke, s).1 == Listen(l, tail[..i - 1], codecs, invoke, s1).1;
          assert log[i] == rest[i - 1];
          assert tail[i - 1] == messages[i];
        }
      }
    }
  }

  /** When no handler call raises a non-`Exception`, every message gets a delivery,
      in order, and none escapes, however many of them fail and are logged. */
  lemma AllMessagesProcessed<S>(l: Listener, messages: seq<IncomingMessage>, codecs: Codecs,
                                invoke: Invoker<S>, s: S)
    requires DistinctNames(l.serializers)
    requires forall st, h, k :: !invoke(st, h, k).0.Interrupted?
    ensures |Listen(l, messages, codecs, invoke, s).0| == |messages|
    ensures forall j :: 0 <= j < |messages| ==> Listen(l, messages, codecs, invoke, s).0[j].message == messages[j]
    ensures NoEscape(Listen(l, messages, codecs, invoke, s).0)
  {
    ListenDeliveries(l, messages, codecs, invoke, s);
    var log := Listen(l, messages, codecs, invoke, s).0;
    forall i | 0 <= i < |log|
      ensures !log[i].Escaped?
    {
      var st := Listen(l, messages[..i], codecs, invoke, s).1;
      assert log[i] == ProcessOne(l, messages[i], codecs, invoke, st).0;
      ExceptionsAreLogged(l, messages[i], codecs, invoke, invoke, st);
    }
  }

  /** Processing is a fold: when nothing escapes from a first batch, the deliveries
      for it followed by a second batch are those of the first, then those of the
      second walked from the state the first left behind. */
  lemma {:induction false} ListenAppend<S>(l: Listener, first: seq<IncomingMessage>, second: seq<IncomingMessage>,
                                           codecs: Codecs, invoke: Invoker<S>, s: S)
    requires DistinctNames(l.serializers)
    requires NoEscape(Listen(l, first, codecs, invoke, s).0)
    ensures var mid := Listen(l, first, codecs, invoke, s);
      var after := Listen(l, second, codecs, invoke, mid.1);
      Listen(l, first + second, codecs, invoke, s) == (mid.0 + after.0, after.1)
    decreases |first|
  {
    if |first| == 0 {
      assert first + second == second;
      assert Listen(l, first, codecs, invoke, s) == ([], s);
      assert [] + Listen(l, second, codecs, invoke, s).0 == Listen(l, second, codecs, invoke, s).0;
    } else {
      var (d, s1) := ProcessOne(l, first[0], codecs, invoke, s);
      var log := Listen(l, first, codecs, invoke, s).0;
      assert log[0] == d;
      assert !d.Escaped?;
      var tail := Listen(l, first[1..], codecs, invoke, s1);
      assert Listen(l, first, codecs, invoke, s) == ([d] + tail.0, tail.1);
      assert forall j :: 0 <= j < |tail.0| ==> tail.0[j] == log[j + 1];
      assert NoEscape(tail.0);
      var both := first + second;
      assert both[1..] == first[1..] + second;
      assert both[0] == first[0];
      ListenAppend(l, first[1..], second, codecs, invoke, s1);
      var after := Listen(l, second, codecs, invoke, tail.1);
      assert Listen(l, both, codecs, invoke, s) == ([d] + Listen(l, both[1..], codecs, invoke, s1).0,
                                                      Listen(l, both[1..], codecs, invoke, s1).1);
      assert [d] + (tail.0 + after.0) == ([d] + tail.0) + after.0;
    }
  }
}
