/** The Python-side values the listener core works on: classes as seen by `issubclass`,
    parameter annotations, handler signatures, broker messages, decoded JSON, the
    foreign parsers, and the exceptions the core can raise or catch. */
module PyModel {
  import opened Wrappers

  newtype byte = x: int | 0 <= x < 256

  type Bytes = seq<byte>

  /** A document as `json.loads` returns it. Floats are folded into `JNumber`. */
  datatype Json =
    | JNull
    | JBool(b: bool)
    | JNumber(n: int)
    | JString(s: string)
    | JArray(items: seq<Json>)
    | JObject(members: map<string, Json>)

  /** A Python class, reduced to what the two `issubclass` checks of listener creation
      can observe: whether it derives from `aio_pika.Message` and whether it derives
      from pydantic's `BaseModel`. A class may derive from both. */
  datatype PyClass = PyClass(qualname: string, isMessage: bool, isModel: bool)

  /** A parameter annotation. `issubclass` raises `TypeError` unless it is a class. */
  datatype Annotation = NotAClass | Class(cls: PyClass)

  /** The annotation `inspect` reports for an unannotated parameter: the class
      `inspect._empty`, which derives from neither base. */
  const Unannotated: Annotation := Class(PyClass("inspect._empty", false, false))

  datatype Parameter = Parameter(name: string, annotation: Annotation)

  /** A handler callable: its `__name__` attribute, which callables such as
      `functools.partial` objects lack; whether `inspect.iscoroutinefunction` accepts
      it; whether `inspect` can produce a signature for it at all; and that
      signature's parameters in declaration order. */
  datatype Handler = Handler(
    name: Option<string>,
    isCoroutine: bool,
    hasSignature: bool,
    params: seq<Parameter>)

  /** Python signatures never repeat a parameter name and never use an empty one. */
  ghost predicate ValidSignature(params: seq<Parameter>) {
    && (forall i :: 0 <= i < |params| ==> params[i].name != "")
    && (forall i, j :: 0 <= i < j < |params| ==> params[i].name != params[j].name)
  }

  /** An incoming broker message; only its body is read by the core. */
  datatype IncomingMessage = IncomingMessage(body: Bytes, deliveryTag: nat)

  /** What a schema's `parse_raw` is handed: the whole message body, or one member
      of the JSON envelope. */
  datatype Fragment = WholeBody(bytes: Bytes) | Member(json: Json)

  /** A validated model instance: the model class and the data it holds. */
  datatype ModelInstance = ModelInstance(cls: PyClass, data: Json)

  /** pydantic's `parse_raw` JSON-decodes its argument again, so it can succeed on an
      envelope member only when that member is itself a string holding the encoded
      model; any other member raises `TypeError` inside it, reported as a validation
      error. Codecs that behave like that satisfy this predicate. */
  ghost predicate ReparsesMembers(c: Codecs) {
    forall cls, j :: c.parseRaw(cls, Member(j)).Some? ==> j.JString?
  }

  /** The foreign decoders: pydantic's `parse_raw` on a model class, and `json.loads`.
      `None` stands for the exception each raises on bad input. */
  datatype Codecs = Codecs(
    parseRaw: (PyClass, Fragment) -> Option<ModelInstance>,
    jsonLoads: Bytes -> Option<Json>)

  /** A keyword argument handed to the handler. */
  datatype Argument = RawMessage(message: IncomingMessage) | Model(instance: ModelInstance)

  type Kwargs = map<string, Argument>

  /** The exceptions the core raises, each derived from Python's `Exception`. */
  datatype Error =
    | AnnotationNotAClass(param: string)   // TypeError from issubclass on a non-class
    | NotAnAsyncFunction(func: string)     // ValueError from the on_rabbit decorator
    | NoNameAttribute                      // AttributeError: the callable has no __name__
    | NoSignature                          // Signature.from_callable found no signature
    | BodyNotJson                          // json.loads rejected the body
    | NotSubscriptable(param: string)      // TypeError: decoded body is not a dict
    | MissingKey(param: string)            // KeyError: envelope lacks the member
    | PayloadInvalid(param: string)        // pydantic ValidationError from parse_raw
    | HandlerRaised(detail: string)        // any Exception raised by the handler
}
