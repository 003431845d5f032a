/** Listener creation: the walk over a handler's parameters that picks the message
    parameter and the payload serializers (pikantic/core.py, create_rabbit_listener). */
module Planner {
  import opened Wrappers
  import opened PyModel

  /** One entry of the listener's ordered `serializers` dict. */
  datatype Serializer = Serializer(name: string, cls: PyClass)

  /** The listener record: queue, handler, ordered serializers and optional
      message parameter. */
  datatype Listener = Listener(
    queueName: string,
    callback: Handler,
    serializers: seq<Serializer>,
    messageParamName: Option<string>)

  function Names(sers: seq<Serializer>): set<string> {
    set s | s in sers :: s.name
  }

  /** Keys of a Python dict are distinct. */
  ghost predicate DistinctNames(sers: seq<Serializer>) {
    forall i, j :: 0 <= i < j < |sers| ==> sers[i].name != sers[j].name
  }

  predicate IsMessageParam(p: Parameter) {
    p.annotation.Class? && p.annotation.cls.isMessage
  }

  /** A model parameter: the `elif` branch, reached only by non-message classes. */
  predicate IsModelParam(p: Parameter) {
    p.annotation.Class? && !p.annotation.cls.isMessage && p.annotation.cls.isModel
  }

  // ---------------------------------------------------------------------------
  // Reference definitions, read from the end of the signature.

  /** The payload serializers a signature should yield, in declaration order. */
  function ModelSerializers(params: seq<Parameter>): seq<Serializer>
  {
    if |params| == 0 then []
    else
      var last := params[|params| - 1];
      ModelSerializers(params[..|params| - 1])
        + (if IsModelParam(last) then [Serializer(last.name, last.annotation.cls)] else [])
  }

  /** The last message-typed parameter of a signature, if any. */
  function LastMessageParam(params: seq<Parameter>): Option<string>
  {
    if |params| == 0 then None
    else if IsMessageParam(params[|params| - 1]) then Some(params[|params| - 1].name)
    else LastMessageParam(params[..|params| - 1])
  }

  /** Index `k` holds the first parameter whose annotation is not a class. */
  ghost predicate FirstNonClassAt(params: seq<Parameter>, k: int) {
    && 0 <= k < |params|
    && params[k].annotation.NotAClass?
    && forall j :: 0 <= j < k ==> params[j].annotation.Class?
  }

  /** Index `i` holds the last message-typed parameter. */
  ghost predicate LastMessageAt(params: seq<Parameter>, i: int) {
    && 0 <= i < |params|
    && IsMessageParam(params[i])
    && forall j :: i < j < |params| ==> !IsMessageParam(params[j])
  }

  /** The first parameter whose annotation is not a class, if any. */
  function FirstNonClass(params: seq<Parameter>): Option<string>
  {
    if |params| == 0 then None
    else if params[0].annotation.NotAClass? then Some(params[0].name)
    else FirstNonClass(params[1..])
  }

  // ---------------------------------------------------------------------------
  // The walk itself.

  /** One pass over the parameters in declaration order, carrying the message
      parameter found so far and the serializers collected so far. */
  function Scan(params: seq<Parameter>, messageParam: Option<string>, serializers: seq<Serializer>)
    : (r: Result<(Option<string>, seq<Serializer>), Error>)
    ensures r.Success? <==> FirstNonClass(params).None?
    ensures r.Failure? ==> r.error == AnnotationNotAClass(FirstNonClass(params).value)
    ensures r.Success? ==> r.value.1 == serializers + ModelSerializers(params)
    ensures r.Success? ==> r.value.0 == (if LastMessageParam(params).Some? then LastMessageParam(params) else messageParam)
    decreases |params|
  {
    if |params| == 0 then Success((messageParam, serializers))
    else
      var p := params[0];
      ModelSerializersCons(p, params[1..]);
      LastMessageParamCons(p, params[1..]);
      assert [p] + params[1..] == params;
      match p.annotation
      case NotAClass => Failure(AnnotationNotAClass(p.name))
      case Class(c) =>
        if c.isMessage then Scan(params[1..], Some(p.name), serializers)
        else if c.isModel then Scan(params[1..], messageParam, serializers + [Serializer(p.name, c)])
        else Scan(params[1..], messageParam, serializers)
  }

  /** create_rabbit_listener: a fresh, empty serializer dict per call. A callable
      `inspect` finds no signature for aborts creation before the walk; a non-class
      annotation aborts it with the `TypeError` of `issubclass`. */
  function CreateRabbitListener(queueName: string, func: Handler): (r: Result<Listener, Error>)
    ensures r.Success? <==>
      func.hasSignature && forall i :: 0 <= i < |func.params| ==> func.params[i].annotation.Class?
    ensures !func.hasSignature ==> r == Failure(NoSignature)
    ensures func.hasSignature && r.Failure? ==>
      exists k :: FirstNonClassAt(func.params, k) && r.error == AnnotationNotAClass(func.params[k].name)
    ensures r.Success? ==> r.value.queueName == queueName && r.value.callback == func
    ensures r.Success? ==> r.value.serializers == ModelSerializers(func.params)
    ensures r.Success? ==> r.value.messageParamName == LastMessageParam(func.params)
  {
    if !func.hasSignature then Failure(NoSignature)
    else
      FirstNonClassSpec(func.params);
      var (messageParam, serializers) :- Scan(func.params, None, []);
      Success(Listener(queueName, func, serializers, messageParam))
  }

  // ---------------------------------------------------------------------------
  // Lemmas about the reference definitions.

  lemma {:induction false} ModelSerializersAppend(a: seq<Parameter>, b: seq<Parameter>)
    ensures ModelSerializers(a + b) == ModelSerializers(a) + ModelSerializers(b)
    decreases |b|
  {
    if |b| == 0 {
      assert a + b == a;
    } else {
      var b' := b[..|b| - 1];
      assert (a + b)[..|a + b| - 1] == a + b';
      assert (a + b)[|a + b| - 1] == b[|b| - 1];
      ModelSerializersAppend(a, b');
    }
  }

  lemma ModelSerializersCons(p: Parameter, rest: seq<Parameter>)
    ensures ModelSerializers([p] + rest)
      == (if IsModelParam(p) then [Serializer(p.name, p.annotation.cls)] else []) + ModelSerializers(rest)
  {
    ModelSerializersAppend([p], rest);
    assert [p][..0] == [];
  }

  lemma {:induction false} LastMessageParamAppend(a: seq<Parameter>, b: seq<Parameter>)
    ensures LastMessageParam(a + b) == if LastMessageParam(b).Some? then LastMessageParam(b) else LastMessageParam(a)
    decreases |b|
  {
    if |b| == 0 {
      assert a + b == a;
    } else {
      var b' := b[..|b| - 1];
      assert (a + b)[..|a + b| - 1] == a + b';
      assert (a + b)[|a + b| - 1] == b[|b| - 1];
      LastMessageParamAppend(a, b');
    }
  }

  lemma LastMessageParamCons(p: Parameter, rest: seq<Parameter>)
    ensures LastMessageParam([p] + rest)
      == if LastMessageParam(rest).Some? then LastMessageParam(rest)
         else if IsMessageParam(p) then Some(p.name) else None
  {
    LastMessageParamAppend([p], rest);
    assert [p][..0] == [];
  }

  lemma {:induction false} FirstNonClassSpec(params: seq<Parameter>)
    ensures FirstNonClass(params).None? <==> forall i :: 0 <= i < |params| ==> params[i].annotation.Class?
    ensures FirstNonClass(params).Some? ==>
      exists k :: FirstNonClassAt(params, k) && FirstNonClass(params).value == params[k].name
    decreases |params|
  {
    if |params| > 0 {
      FirstNonClassSpec(params[1..]);
      if params[0].annotation.Class? && FirstNonClass(params[1..]).Some? {
        var k :| FirstNonClassAt(params[1..], k) && FirstNonClass(params[1..]).value == params[1..][k].name;
        assert params[k + 1] == params[1..][k];
        assert forall j :: 1 <= j < k + 1 ==> params[j] == params[1..][j - 1];
        assert FirstNonClassAt(params, k + 1);
      }
    }
  }

  /** The serializers are exactly the model-typed parameters that are not also
      message-typed, each mapped to its annotation class. */
  lemma {:induction false} ModelSerializersMembership(params: seq<Parameter>, s: Serializer)
    ensures s in ModelSerializers(params) <==>
      exists i :: 0 <= i < |params| && IsModelParam(params[i])
        && s == Serializer(params[i].name, params[i].annotation.cls)
    decreases |params|
  {
    if |params| > 0 {
      var init := params[..|params| - 1];
      ModelSerializersMembership(init, s);
      assert forall i :: 0 <= i < |init| ==> init[i] == params[i];
    }
  }

  /** Some message-typed parameter is declared exactly when a message parameter is set. */
  lemma {:induction false} LastMessageParamNone(params: seq<Parameter>)
    ensures LastMessageParam(params).None? <==> forall i :: 0 <= i < |params| ==> !IsMessageParam(params[i])
    decreases |params|
  {
    if |params| > 0 {
      var n := |params| - 1;
      var init := params[..n];
      LastMessageParamNone(init);
      assert forall i :: 0 <= i < n ==> init[i] == params[i];
    }
  }

  lemma {:induction false} LastMessageParamFound(params: seq<Parameter>)
    requires LastMessageParam(params).Some?
    ensures exists i :: LastMessageAt(params, i) && params[i].name == LastMessageParam(params).value
    decreases |params|
  {
    var n := |params| - 1;
    if !IsMessageParam(params[n]) {
      var init := params[..n];
      LastMessageParamFound(init);
      var i :| LastMessageAt(init, i) && init[i].name == LastMessageParam(init).value;
      assert forall j :: 0 <= j < n ==> init[j] == params[j];
      assert LastMessageAt(params, i);
    } else {
      assert LastMessageAt(params, n);
    }
  }

  lemma {:induction false} LastMessageAtIsChosen(params: seq<Parameter>, i: int)
    requires LastMessageAt(params, i)
    ensures LastMessageParam(params) == Some(params[i].name)
    decreases |params|
  {
    var n := |params| - 1;
    if i < n {
      var init := params[..n];
      assert forall j :: 0 <= j < n ==> init[j] == params[j];
      assert LastMessageAt(init, i);
      LastMessageAtIsChosen(init, i);
    }
  }

  /** The last message-typed parameter in declaration order wins; earlier ones are
      silently overwritten. */
  lemma LastMessageParamSpec(params: seq<Parameter>, name: string)
    ensures LastMessageParam(params) == Some(name) <==>
      exists i :: LastMessageAt(params, i) && params[i].name == name
  {
    if LastMessageParam(params) == Some(name) {
      LastMessageParamFound(params);
    }
    if exists i :: LastMessageAt(params, i) && params[i].name == name {
      var i :| LastMessageAt(params, i) && params[i].name == name;
      LastMessageAtIsChosen(params, i);
    }
  }

  /** A class deriving from both `aio_pika.Message` and `BaseModel` is claimed by the
      message check: its parameter never becomes a serializer, and when it is the last
      message-typed parameter it is the listener's message parameter. */
  lemma MessageTakesPriority(queueName: string, func: Handler, i: int)
    requires ValidSignature(func.params)
    requires CreateRabbitListener(queueName, func).Success?
    requires 0 <= i < |func.params| && IsMessageParam(func.params[i])
    ensures func.params[i].name !in Names(CreateRabbitListener(queueName, func).value.serializers)
    ensures (forall j :: i < j < |func.params| ==> !IsMessageParam(func.params[j]))
      ==> CreateRabbitListener(queueName, func).value.messageParamName == Some(func.params[i].name)
  {
    var l := CreateRabbitListener(queueName, func).value;
    forall s | s in l.serializers
      ensures s.name != func.params[i].name
    {
      ModelSerializersMembership(func.params, s);
    }
    LastMessageParamSpec(func.params, func.params[i].name);
  }

  /** A listener built from a valid signature has distinct serializer names, a
      non-empty message parameter, and no parameter in both roles. */
  lemma {:induction false} CreatedListenerWellFormed(queueName: string, func: Handler)
    requires ValidSignature(func.params)
    requires CreateRabbitListener(queueName, func).Success?
    ensures DistinctNames(CreateRabbitListener(queueName, func).value.serializers)
    ensures CreateRabbitListener(queueName, func).value.messageParamName.Some? ==>
      && CreateRabbitListener(queueName, func).value.messageParamName.value != ""
      && CreateRabbitListener(queueName, func).value.messageParamName.value
           !in Names(CreateRabbitListener(queueName, func).value.serializers)
  {
    var l := CreateRabbitListener(queueName, func).value;
    ModelSerializersDistinct(func.params);
    if l.messageParamName.Some? {
      var name := l.messageParamName.value;
      LastMessageParamSpec(func.params, name);
      var i :| LastMessageAt(func.params, i) && func.params[i].name == name;
      MessageTakesPriority(queueName, func, i);
    }
  }

  lemma {:induction false} ModelSerializersDistinct(params: seq<Parameter>)
    requires ValidSignature(params)
    ensures DistinctNames(ModelSerializers(params))
    decreases |params|
  {
    if |params| > 0 {
      var n := |params| - 1;
      var init := params[..n];
      assert forall i :: 0 <= i < n ==> init[i] == params[i];
      ModelSerializersDistinct(init);
      if IsModelParam(params[n]) {
        var ms := ModelSerializers(init);
        forall s | s in ms
          ensures s.name != params[n].name
        {
          ModelSerializersMembership(init, s);
        }
      }
    }
  }

  /** A parameter without an annotation carries the `inspect._empty` class, which
      derives from neither base: it is skipped, becoming neither the message parameter
      nor a serializer, and does not make creation fail. */
  lemma UnannotatedParameterSkipped(queueName: string, func: Handler, i: int)
    requires ValidSignature(func.params)
    requires 0 <= i < |func.params| && func.params[i].annotation == Unannotated
    ensures CreateRabbitListener(queueName, func).Success? <==>
      func.hasSignature && forall j :: 0 <= j < |func.params| && j != i ==> func.params[j].annotation.Class?
    ensures CreateRabbitListener(queueName, func).Success? ==>
      && CreateRabbitListener(queueName, func).value.messageParamName != Some(func.params[i].name)
      && func.params[i].name !in Names(CreateRabbitListener(queueName, func).value.serializers)
  {
    var params := func.params;
    var name := params[i].name;
    if CreateRabbitListener(queueName, func).Success? {
      var l := CreateRabbitListener(queueName, func).value;
      if l.messageParamName.Some? {
        LastMessageParamFound(params);
        var k :| LastMessageAt(params, k) && params[k].name == l.messageParamName.value;
        assert k != i by { assert !IsMessageParam(params[i]); }
        assert params[k].name != name;
      }
      forall s | s in l.serializers
        ensures s.name != name
      {
        ModelSerializersMembership(params, s);
        var k :| 0 <= k < |params| && IsModelParam(params[k]) && s == Serializer(params[k].name, params[k].annotation.cls);
        assert k != i by { assert !IsModelParam(params[i]); }
      }
    }
  }
}
