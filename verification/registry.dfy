/** The application object's registration surface (pikantic/core.py, Pikantic):
    `add_listener` builds a listener and appends it; the `on_rabbit` decorator first
    refuses handlers that are not coroutine functions. */
module Registry {
  import opened Wrappers
  import opened PyModel
  import opened Planner
  import opened KwargsBuilder

  /** The registered listeners, in registration order. Connection arguments and the
      connection itself belong to the run phase, which is not modelled. */
  datatype Pikantic = Pikantic(listeners: seq<Listener>)

  /** add_listener: on success exactly one listener is appended at the end; if listener
      creation raises, the exception propagates and nothing is registered. It does not
      check that the handler is a coroutine function. */
  function AddListener(app: Pikantic, queueName: string, func: Handler): (r: Result<Pikantic, Error>)
    ensures r.Success? <==>
      func.hasSignature && forall i :: 0 <= i < |func.params| ==> func.params[i].annotation.Class?
    ensures r.Success? ==> |r.value.listeners| == |app.listeners| + 1
    ensures r.Success? ==> r.value.listeners[..|app.listeners|] == app.listeners
    ensures r.Success? ==> r.value.listeners[|app.listeners|] == CreateRabbitListener(queueName, func).value
    ensures r.Failure? ==> r.error == CreateRabbitListener(queueName, func).error
  {
    var listener :- CreateRabbitListener(queueName, func);
    Success(Pikantic(app.listeners + [listener]))
  }

  /** on_rabbit(queue_name)(func): a handler that is not a coroutine function is
      refused before anything is registered. Building the refusal message reads
      `__name__`, so a nameless callable raises `AttributeError` instead of the
      `ValueError`. A coroutine function goes to add_listener, and its name is never
      read. */
  function OnRabbit(app: Pikantic, queueName: string, func: Handler): (r: Result<Pikantic, Error>)
    ensures !func.isCoroutine && func.name.Some? ==> r == Failure(NotAnAsyncFunction(func.name.value))
    ensures !func.isCoroutine && func.name.None? ==> r == Failure(NoNameAttribute)
    ensures func.isCoroutine ==> r == AddListener(app, queueName, func)
    ensures r.Success? <==>
      && func.isCoroutine
      && func.hasSignature
      && forall i :: 0 <= i < |func.params| ==> func.params[i].annotation.Class?
  {
    if !func.isCoroutine then
      match func.name
      case None => Failure(NoNameAttribute)
      case Some(name) => Failure(NotAnAsyncFunction(name))
    else AddListener(app, queueName, func)
  }

  /** How a run of decorators ends: the application as it stands afterwards, and the
      exception that stopped the run, if one did. */
  datatype Registration = Registration(app: Pikantic, error: Option<Error>)

  /** Decorating several handlers one after another, as module-level decorators run
      at import time. The first refusal stops the run, and every listener registered
      before it stays registered. */
  function OnRabbitAll(app: Pikantic, handlers: seq<(string, Handler)>): (r: Registration)
    ensures Registered(app, handlers, r)
    decreases |handlers|
  {
    if |handlers| == 0 then Registration(app, None)
    else
      match OnRabbit(app, handlers[0].0, handlers[0].1)
      case Failure(e) => Registration(app, Some(e))
      case Success(next) =>
        var r := OnRabbitAll(next, handlers[1..]);
        OnRabbitAllStep(app, handlers, next, r);
        r
  }

  /** What a run of decorators over `handlers`, starting from `app`, must leave: the
      earlier listeners unchanged, followed by the listeners created for a prefix of
      the handlers, each of which the decorator accepts on its own; the run is
      complete exactly when no error stopped it, and an error is the refusal of the
      first handler past that prefix. */
  ghost predicate Registered(app: Pikantic, handlers: seq<(string, Handler)>, r: Registration) {
    && |app.listeners| <= |r.app.listeners| <= |app.listeners| + |handlers|
    && r.app.listeners[..|app.listeners|] == app.listeners
    && (forall i :: 0 <= i < |r.app.listeners| - |app.listeners| ==>
          && OnRabbit(app, handlers[i].0, handlers[i].1).Success?
          && r.app.listeners[|app.listeners| + i] == CreateRabbitListener(handlers[i].0, handlers[i].1).value)
    && (r.error.None? <==> |r.app.listeners| == |app.listeners| + |handlers|)
    && (r.error.Some? ==>
          var k := |r.app.listeners| - |app.listeners|;
          OnRabbit(app, handlers[k].0, handlers[k].1) == Failure(r.error.value))
  }

  /** Whether the decorator accepts a handler, and the error it raises otherwise,
      do not depend on the listeners already registered. */
  lemma OnRabbitIgnoresListeners(a: Pikantic, b: Pikantic, queueName: string, func: Handler)
    ensures OnRabbit(a, queueName, func).Success? == OnRabbit(b, queueName, func).Success?
    ensures OnRabbit(a, queueName, func).Failure? ==>
      OnRabbit(a, queueName, func).error == OnRabbit(b, queueName, func).error
  {
  }

  /** The inductive step of OnRabbitAll, kept apart so each obligation stays small. */
  lemma OnRabbitAllStep(app: Pikantic, handlers: seq<(string, Handler)>, next: Pikantic, r: Registration)
    requires |handlers| > 0
    requires OnRabbit(app, handlers[0].0, handlers[0].1) == Success(next)
    requires Registered(next, handlers[1..], r)
    ensures Registered(app, handlers, r)
  {
    var n := |app.listeners|;
    var k := |r.app.listeners| - |next.listeners|;
    assert |next.listeners| == n + 1;
    assert r.app.listeners[..n] == next.listeners[..n];
    forall i | 0 <= i < k + 1
      ensures OnRabbit(app, handlers[i].0, handlers[i].1).Success?
      ensures r.app.listeners[n + i] == CreateRabbitListener(handlers[i].0, handlers[i].1).value
    {
      if i > 0 {
        assert handlers[i] == handlers[1..][i - 1];
        OnRabbitIgnoresListeners(app, next, handlers[i].0, handlers[i].1);
      } else {
        assert r.app.listeners[n] == next.listeners[n];
      }
    }
    if r.error.Some? {
      assert handlers[k + 1] == handlers[1..][k];
      OnRabbitIgnoresListeners(app, next, handlers[k + 1].0, handlers[k + 1].1);
    }
  }

  /** The run succeeds exactly when every handler, decorated on its own, would be
      accepted; registration never depends on the listeners already present. */
  lemma OnRabbitAllAcceptsExactly(app: Pikantic, handlers: seq<(string, Handler)>)
    ensures OnRabbitAll(app, handlers).error.None? <==>
      forall i :: 0 <= i < |handlers| ==> OnRabbit(app, handlers[i].0, handlers[i].1).Success?
  {
    var r := OnRabbitAll(app, handlers);
    if r.error.Some? {
      var k := |r.app.listeners| - |app.listeners|;
      assert !OnRabbit(app, handlers[k].0, handlers[k].1).Success?;
    }
  }

  /** End to end: for a handler registered through the decorator, the keyword
      arguments built for any message name only declared parameters: the last
      message-typed one, bound to the raw message, and every model-typed one. */
  lemma RegisteredHandlerArguments(app: Pikantic, queueName: string, func: Handler,
                                   m: IncomingMessage, codecs: Codecs)
    requires ValidSignature(func.params)
    requires OnRabbit(app, queueName, func).Success?
    ensures var l := OnRabbit(app, queueName, func).value.listeners[|app.listeners|];
      && DistinctNames(l.serializers)
      && (CreateKwargs(l, m, codecs).Success? ==>
           && CreateKwargs(l, m, codecs).value.Keys
                == (if LastMessageParam(func.params).Some? then {LastMessageParam(func.params).value} else {})
                   + Names(ModelSerializers(func.params))
           && (forall k :: k in CreateKwargs(l, m, codecs).value ==>
                 exists i :: 0 <= i < |func.params| && func.params[i].name == k)
           && (LastMessageParam(func.params).Some? ==>
                 CreateKwargs(l, m, codecs).value[LastMessageParam(func.params).value] == RawMessage(m)))
  {
    var l := OnRabbit(app, queueName, func).value.listeners[|app.listeners|];
    assert l == CreateRabbitListener(queueName, func).value;
    CreatedListenerWellFormed(queueName, func);
    var r := CreateKwargs(l, m, codecs);
    if r.Success? {
      forall k | k in r.value
        ensures exists i :: 0 <= i < |func.params| && func.params[i].name == k
      {
        if k in Names(l.serializers) {
          var s :| s in l.serializers && s.name == k;
          ModelSerializersMembership(func.params, s);
        } else {
          LastMessageParamFound(func.params);
        }
      }
    }
  }
}
