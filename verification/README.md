# pikantic listener core, modelled in Dafny

pikantic lets application code register async handler functions against RabbitMQ
queues. It reads each handler's parameter annotations once, when the handler is
registered. A parameter annotated with an `aio_pika.Message` subclass receives the
raw incoming message. A parameter annotated with a pydantic `BaseModel` subclass
receives a model parsed from the message body. For every message delivered on the
queue, the listener builds the keyword arguments and awaits the handler. An
exception raised while doing so is logged and the loop carries on.

This project models that core of `pikantic/core.py` as pure functions over
immutable data:

- `PyModel` holds the Python-side values. A class is reduced to the two
  `issubclass` answers that listener creation asks. An annotation is either such a
  class or not a class at all (`issubclass` then raises `TypeError`). A handler is
  its `__name__` (which some callables lack), whether it is a coroutine function,
  whether `inspect` can produce its signature, and its parameters in declaration
  order. Messages, decoded JSON and the exceptions the core raises are also here.
  pydantic's `parse_raw` and `json.loads` are fields of a `Codecs` value. Each
  returns `None` where the real call raises.
- `Planner` models `create_rabbit_listener`. It walks the parameters in order, sets
  the message parameter and collects the model serializers in declaration order.
  Each result is checked against reference definitions that read the signature
  from its end.
- `KwargsBuilder` models `Listener.create_kwargs`. A truthy message parameter is
  bound to the raw message. One serializer parses the whole body. Two or more
  serializers read the body as a JSON object and hand the member named after each
  parameter to `parse_raw`. Because `parse_raw` decodes its argument again, only a
  member that is a JSON string holding the encoded model can parse; a model sent as
  a nested object always fails. Any failure fails the whole call, and no partial
  map is returned.
- `Consume` models the `try`/`except Exception` of `Listener.listen` as a walk over
  the finite list of messages delivered so far. Handler calls are supplied from
  outside as an `Invoker`, which threads whatever state the application keeps from
  one call to the next.
- `Registry` models `Pikantic.add_listener` and the `on_rabbit` decorator.

Facts about the code that the model keeps:

- With several message-typed parameters, the last one silently becomes the message
  parameter; no error is raised.
- A parameter whose annotation is a class deriving from neither `aio_pika.Message`
  nor `BaseModel`, including an unannotated parameter, is skipped. Only an
  annotation that is not a class makes registration fail, through the `TypeError`
  of `issubclass`.
- Each handler call is awaited before the next message is taken from the queue.
- One serializer parses the whole body, while several parse members of a JSON
  envelope. `KwargsBuilder.SinglePayloadIgnoresJsonDecoder` and
  `KwargsBuilder.EnvelopeIgnoresWholeBodyParse` state this asymmetry.

## Model

| member | source | states |
|---|---|---|
| `Planner.CreateRabbitListener` | pikantic/core.py:60-74 | Creation succeeds exactly when `inspect` can produce the handler's signature and every annotation is a class. Without a signature it fails before the walk. Otherwise it fails with the `TypeError` of the first parameter whose annotation is not a class. On success the listener keeps the queue and handler, its serializers are exactly the model-typed parameters in declaration order, and its message parameter is the last message-typed parameter. |
| `Planner.Scan` | pikantic/core.py:67-72 | The left-to-right walk with accumulators matches the reference definitions: serializers are appended to those already collected, and the message parameter found so far is overwritten only by a later message-typed parameter. |
| `Planner.ModelSerializersMembership` | pikantic/core.py:69-72 | A serializer is present exactly when some parameter's annotation class derives from `BaseModel` and not from `Message`, and it maps that parameter's name to that class. |
| `Planner.ModelSerializersAppend` | pikantic/core.py:68-72 | Serializer collection distributes over concatenation of parameter lists, so declaration order is preserved. |
| `Planner.LastMessageParamSpec` | pikantic/core.py:68-70 | The message parameter is `name` exactly when `name` is the last message-typed parameter in declaration order. Earlier message-typed parameters are overwritten without error. |
| `Planner.LastMessageParamNone` | pikantic/core.py:68-70 | No message parameter is set exactly when no parameter is message-typed. |
| `Planner.MessageTakesPriority` | pikantic/core.py:69-72 | A parameter whose class derives from both `Message` and `BaseModel` never becomes a serializer. When it is the last message-typed parameter, it is the message parameter. |
| `Planner.CreatedListenerWellFormed` | pikantic/core.py:64-74 | A listener created from a real signature has distinct serializer names and a non-empty message parameter name, and no parameter plays both roles. |
| `Planner.UnannotatedParameterSkipped` | pikantic/core.py:67-72 | An unannotated parameter, whose annotation is the `inspect._empty` class, never makes creation fail. It becomes neither the message parameter nor a serializer. |
| `KwargsBuilder.Lookup` | pikantic/core.py:36 | `json_body[name]` yields the member of a decoded object. A missing member raises `KeyError`, and any decoded value that is not an object raises `TypeError`. |
| `KwargsBuilder.BindMembers` | pikantic/core.py:35-37 | Binding succeeds exactly when every member looks up and parses. It then binds every serializer name to its parse and leaves other keys alone. Otherwise it fails with the error of the first serializer, in order, that fails. |
| `KwargsBuilder.CreateKwargs` | pikantic/core.py:22-39 | On success the keys are exactly the truthy message parameter plus every serializer name, and the message parameter is bound to the raw message. With no serializer the call cannot fail. |
| `KwargsBuilder.SinglePayloadIsWholeBody` | pikantic/core.py:28-31 | With exactly one serializer, the call succeeds exactly when the whole body parses, and binds that parse. Otherwise it fails with that parameter's parse error. |
| `KwargsBuilder.SeveralPayloadsShareAnEnvelope` | pikantic/core.py:33-37 | With two or more serializers, an undecodable body fails with the JSON error. Otherwise the call succeeds exactly when every member looks up and parses, and it binds each parameter to its member's parse. A failure is the error of the first serializer, in order, that fails. |
| `KwargsBuilder.SinglePayloadIgnoresJsonDecoder` | pikantic/core.py:28-31 | With one serializer the result is the same whatever JSON decoder is supplied: the body is never JSON-decoded. |
| `KwargsBuilder.BindMembersUsesOnlyMembers` | pikantic/core.py:35-37 | Binding the envelope depends on the parser only through how it parses JSON members. |
| `KwargsBuilder.EnvelopeIgnoresWholeBodyParse` | pikantic/core.py:33-37 | With several serializers the result is the same for any two parsers that agree on JSON members: the body is never parsed whole. |
| `KwargsBuilder.EnvelopeFailureCauses` | pikantic/core.py:33-37 | With two or more serializers the call fails exactly when the body is not JSON, is not an object, lacks some parameter's key, or has a member that does not parse. |
| `KwargsBuilder.EnvelopeMembersMustBeStrings` | pikantic/core.py:33-37 | With a `parse_raw` that decodes each member again, as pydantic's does, a multi-payload call succeeds only when the body is a JSON object whose every parameter member is a JSON string. A model sent as a nested object always fails. |
| `Consume.ProcessOne` | pikantic/core.py:52-57 | Each delivery records the message it was made for. |
| `Consume.ExceptionsAreLogged` | pikantic/core.py:53-57 | When the arguments cannot be built, the error is logged and the handler is never called: the application state is untouched and any two handlers give the same outcome. Otherwise the state is the one the handler call leaves. A handler that returns makes the message handled. A handler `Exception` is logged. Only a non-`Exception` escapes. |
| `Consume.ListenDeliveries` | pikantic/core.py:50-57 | There is at most one delivery per message, in delivery order. The delivery for each message is what processing it gives from the application state the earlier messages left; the loop itself carries nothing else between messages. No delivery before the last one escapes. The walk stops before the end of the messages only right after an escape. |
| `Consume.AllMessagesProcessed` | pikantic/core.py:50-57 | When no handler call raises a non-`Exception`, every message gets a delivery, in order, and none escapes, however many of them fail and are logged. |
| `Consume.ListenLoop` | pikantic/core.py:49-57 | The loop, which leaves on an escaping exception, computes exactly the reference walk `Consume.Listen`: the same deliveries and the same final application state. |
| `Consume.ListenAppend` | pikantic/core.py:50-57 | When nothing escapes from a first batch, processing that batch and then a second gives the first batch's deliveries followed by those of the second, walked from the state the first left. A logged failure ends nothing: later messages are processed as if the batches had been walked one after the other. |
| `Registry.AddListener` | pikantic/core.py:84-86 | On success exactly one listener, the one created for the handler, is appended after the unchanged earlier listeners. It succeeds exactly when the handler has a signature whose annotations are all classes. If creation raises, the error propagates and nothing is registered. |
| `Registry.OnRabbit` | pikantic/core.py:88-95 | A handler that is not a coroutine function is refused before anything is registered: with `ValueError` naming it, or with `AttributeError` when the callable has no `__name__`. Otherwise the decorator behaves as `add_listener`. It succeeds exactly when the handler is a coroutine function with a signature whose annotations are all classes. |
| `Registry.OnRabbitAll` | pikantic/core.py:84-93 | Decorating handlers in sequence keeps the existing listeners and appends, in order, the listener created for each handler up to the first refusal. Each appended handler is one the decorator accepts on its own. The run is complete exactly when nothing was refused. A refusal is the error of the first handler not registered, and the listeners registered before it stay. |
| `Registry.OnRabbitAllAcceptsExactly` | pikantic/core.py:88-93 | A run of decorators ends without error exactly when every handler, decorated on its own, would be accepted. |
| `Registry.RegisteredHandlerArguments` | pikantic/core.py:22-39 | For a handler registered through the decorator, the arguments built for any message name only declared parameters. They are exactly the last message-typed parameter, bound to the raw message, plus every model-typed parameter. |

## Left out

- Broker I/O in `listen` is not modelled, because these are foreign `aio_pika` calls: queue declaration with `auto_delete`, `queue.iterator()`, and the ack/reject of `message.process()`. The model walks the finite list of messages delivered so far. Because the `except` sits inside `message.process()`, a logged message is still acknowledged, not rejected.
- The acknowledgement made on leaving `message.process()` can itself raise, for example `MessageProcessError` when the handler already acknowledged the message, or an error from a closed channel. That exception is outside the `try`, so it ends `listen`. The model treats every acknowledgement as succeeding.
- Consume.ListenDeliveries: "stops only right after an escape" holds only when no acknowledgement raises; a raising acknowledgement would also stop the loop.
- Consume.AllMessagesProcessed: "every message gets a delivery" holds only when no acknowledgement raises.
- `async_run` and `run` are not modelled: connection setup, channel creation, task creation and waiting, and the global logging configuration are I/O and event-loop plumbing.
- Concurrency is not modelled. The loop awaits each handler call before taking the next message, so interleaving across listeners is outside the model. The application state a handler sees is threaded only through the calls of one listener.
- pydantic's `parse_raw`, the validation done by `Listener.parse_obj`, and `json.loads` are foreign libraries. They are abstract functions that succeed or fail. `parse_obj` is taken to accept what creation builds. That pydantic's `parse_raw` decodes an envelope member again, and so accepts only string members, is the predicate `PyModel.ReparsesMembers`; lemmas that rely on it say so in their requires.
- Consume.ProcessOne: its own contract states only that the delivery belongs to its message. The exception handling and the state it leaves are stated by `Consume.ExceptionsAreLogged`.
- The handler call `callback(**kwargs)` is abstract (an `Invoker`). That includes Python's argument binding, where a skipped parameter without a default raises `TypeError` inside the `try` and is logged like any handler exception.
- `Signature.from_callable` is reduced to whether a signature exists. Its two ways of failing (`ValueError` for a callable without one, `TypeError` for a non-callable) are one error value.
- Parameter kinds (positional-only, `*args`, `**kwargs`) and default values are not modelled. Every parameter is a named parameter.
- JSON floats are folded into integers. The decoded document is only looked up and handed on, never interpreted.
- `on_rabbit`'s inner decorator returns `None`, so the decorated name is rebound to `None` at the call site. Name binding in the caller's module is not modelled.
- Log message text is not modelled. The model records the error value for each logged message.
- `pikantic/__init__.py` is not part of this model. It is an unfinished draft that does not parse: a `def` without a body, a stray framework call, and a no-op `add_listener`.
