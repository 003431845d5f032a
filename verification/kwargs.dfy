/** Building the handler's keyword arguments from one incoming message
    (pikantic/core.py, Listener.create_kwargs). */
module KwargsBuilder {
  import opened Wrappers
  import opened PyModel
  import opened Planner

  /** Python truthiness of the optional message parameter name: `None` and `""`
      are both false. */
  predicate Truthy(name: Option<string>) {
    name.Some? && name.value != ""
  }

  /** The key the message parameter contributes, if it is bound at all. */
  function MessageKey(l: Listener): set<string> {
    if Truthy(l.messageParamName) then {l.messageParamName.value} else {}
  }

  /** `json_body[name]`: a `dict` yields the member or raises `KeyError`; any other
      decoded value raises `TypeError`. */
  function Lookup(doc: Json, name: string): (r: Result<Json, Error>)
    ensures r.Success? <==> doc.JObject? && name in doc.members
    ensures r.Success? ==> r.value == doc.members[name]
    ensures doc.JObject? && name !in doc.members ==> r == Failure(MissingKey(name))
    ensures !doc.JObject? ==> r == Failure(NotSubscriptable(name))
  {
    match doc
    case JObject(members) =>
      if name in members then Success(members[name]) else Failure(MissingKey(name))
    case _ => Failure(NotSubscriptable(name))
  }

  /** One iteration of the multi-payload loop: look the member up, then hand it to
      the serializer's `parse_raw`. */
  function ParseMember(s: Serializer, doc: Json, codecs: Codecs): Result<ModelInstance, Error>
  {
    var fragment :- Lookup(doc, s.name);
    match codecs.parseRaw(s.cls, Member(fragment))
    case None => Failure(PayloadInvalid(s.name))
    case Some(v) => Success(v)
  }

  /** The multi-payload loop: bind every serializer in order, stopping at the
      first failure, which propagates with no map at all. */
  function BindMembers(sers: seq<Serializer>, doc: Json, codecs: Codecs, acc: Kwargs): (r: Result<Kwargs, Error>)
    requires DistinctNames(sers)
    ensures Bound(sers, doc, codecs, acc, r)
    decreases |sers|
  {
    if |sers| == 0 then Success(acc)
    else
      var s := sers[0];
      var rest := sers[1..];
      assert forall i :: 1 <= i < |sers| ==> sers[i] == rest[i - 1];
      match ParseMember(s, doc, codecs)
      case Failure(e) =>
        assert FirstFailureAt(sers, doc, codecs, 0);
        Failure(e)
      case Success(v) =>
        var r := BindMembers(rest, doc, codecs, acc[s.name := Model(v)]);
        BindMembersStep(sers, doc, codecs, acc, v, r);
        r
  }

  /** What binding `sers` on top of `acc` must produce: success exactly when every
      member parses, then every serializer bound to its parse and `acc` kept elsewhere;
      otherwise the error of the first member that fails. */
  ghost predicate Bound(sers: seq<Serializer>, doc: Json, codecs: Codecs, acc: Kwargs, r: Result<Kwargs, Error>) {
    && (r.Success? <==> forall i :: 0 <= i < |sers| ==> ParseMember(sers[i], doc, codecs).Success?)
    && (r.Success? ==> r.value.Keys == acc.Keys + Names(sers))
    && (r.Success? ==>
         forall i :: 0 <= i < |sers| ==> r.value[sers[i].name] == Model(ParseMember(sers[i], doc, codecs).value))
    && (r.Success? ==> forall k :: k in acc && k !in Names(sers) ==> r.value[k] == acc[k])
    && (r.Failure? ==>
         exists i :: FirstFailureAt(sers, doc, codecs, i) && r.error == ParseMember(sers[i], doc, codecs).error)
  }

  /** The inductive step of BindMembers, kept apart so each obligation stays small. */
  lemma BindMembersStep(sers: seq<Serializer>, doc: Json, codecs: Codecs, acc: Kwargs,
                        v: ModelInstance, r: Result<Kwargs, Error>)
    requires DistinctNames(sers) && |sers| > 0
    requires ParseMember(sers[0], doc, codecs) == Success(v)
    requires Bound(sers[1..], doc, codecs, acc[sers[0].name := Model(v)], r)
    ensures Bound(sers, doc, codecs, acc, r)
  {
  }

  /** Index `i` holds the first serializer whose lookup or parse fails. */
  ghost predicate FirstFailureAt(sers: seq<Serializer>, doc: Json, codecs: Codecs, i: int) {
    && 0 <= i < |sers|
    && ParseMember(sers[i], doc, codecs).Failure?
    && forall j :: 0 <= j < i ==> ParseMember(sers[j], doc, codecs).Success?
  }

  /** Listener.create_kwargs. The message parameter, when truthy, is bound to the raw
      message. One serializer parses the whole body; two or more take the body as a
      JSON object and parse the member named after each parameter. Any failure fails
      the whole call. */
  function CreateKwargs(l: Listener, m: IncomingMessage, codecs: Codecs): (r: Result<Kwargs, Error>)
    requires DistinctNames(l.serializers)
    // key set and the raw message binding
    ensures r.Success? ==> r.value.Keys == MessageKey(l) + Names(l.serializers)
    ensures r.Success? && Truthy(l.messageParamName) && l.messageParamName.value !in Names(l.serializers)
      ==> r.value[l.messageParamName.value] == RawMessage(m)
    ensures |l.serializers| == 0 ==> r.Success?
  {
    var base: Kwargs := if Truthy(l.messageParamName) then map[l.messageParamName.value := RawMessage(m)] else map[];
    assert base.Keys == MessageKey(l);
    if |l.serializers| == 1 then
      var s := l.serializers[0];
      assert Names(l.serializers) == {s.name};
      match codecs.parseRaw(s.cls, WholeBody(m.body))
      case None => Failure(PayloadInvalid(s.name))
      case Some(v) => Success(base[s.name := Model(v)])
    else if |l.serializers| > 1 then
      match codecs.jsonLoads(m.body)
      case None => Failure(BodyNotJson)
      case Some(doc) => BindMembers(l.serializers, doc, codecs, base)
    else
      assert Names(l.serializers) == {};
      Success(base)
  }

  /** One serializer: the body is the payload. The call succeeds exactly when the
      whole body parses, and binds that parse; otherwise the parameter's parse error. */
  lemma SinglePayloadIsWholeBody(l: Listener, m: IncomingMessage, codecs: Codecs)
    requires DistinctNames(l.serializers)
    requires |l.serializers| == 1
    ensures var r := CreateKwargs(l, m, codecs);
      var parsed := codecs.parseRaw(l.serializers[0].cls, WholeBody(m.body));
      && (r.Success? <==> parsed.Some?)
      && (r.Success? ==> r.value[l.serializers[0].name] == Model(parsed.value))
      && (r.Failure? ==> r.error == PayloadInvalid(l.serializers[0].name))
  {
  }

  /** Several serializers: the body is a keyed envelope. An undecodable body fails
      with the JSON error; otherwise the call succeeds exactly when every member looks
      up and parses, binds each parameter to its member's parse, and on failure
      reports the first serializer, in order, that fails. */
  lemma SeveralPayloadsShareAnEnvelope(l: Listener, m: IncomingMessage, codecs: Codecs)
    requires DistinctNames(l.serializers)
    requires |l.serializers| > 1
    ensures codecs.jsonLoads(m.body).None? ==> CreateKwargs(l, m, codecs) == Failure(BodyNotJson)
    ensures codecs.jsonLoads(m.body).Some? ==>
      var r := CreateKwargs(l, m, codecs);
      var doc := codecs.jsonLoads(m.body).value;
      && (r.Success? <==> forall i :: 0 <= i < |l.serializers| ==> ParseMember(l.serializers[i], doc, codecs).Success?)
      && (r.Success? ==> forall i :: 0 <= i < |l.serializers| ==>
            r.value[l.serializers[i].name] == Model(ParseMember(l.serializers[i], doc, codecs).value))
      && (r.Failure? ==>
            exists i :: FirstFailureAt(l.serializers, doc, codecs, i)
              && r.error == ParseMember(l.serializers[i], doc, codecs).error)
  {
  }

  /** With a single serializer `json.loads` is never consulted: the outcome is the
      same whatever JSON decoder is supplied. */
  lemma SinglePayloadIgnoresJsonDecoder(l: Listener, m: IncomingMessage, c1: Codecs, c2: Codecs)
    requires DistinctNames(l.serializers)
    requires |l.serializers| == 1
    requires c1.parseRaw == c2.parseRaw
    ensures CreateKwargs(l, m, c1) == CreateKwargs(l, m, c2)
  {
  }

  /** Binding the envelope members depends on the parser only through how it parses
      JSON members. */
  lemma {:induction false} BindMembersUsesOnlyMembers(sers: seq<Serializer>, doc: Json, c1: Codecs, c2: Codecs, acc: Kwargs)
    requires DistinctNames(sers)
    requires forall cls, j :: c1.parseRaw(cls, Member(j)) == c2.parseRaw(cls, Member(j))
    ensures BindMembers(sers, doc, c1, acc) == BindMembers(sers, doc, c2, acc)
    decreases |sers|
  {
    if |sers| > 0 {
      assert ParseMember(sers[0], doc, c1) == ParseMember(sers[0], doc, c2);
      match ParseMember(sers[0], doc, c1)
      case Failure(_) =>
      case Success(v) =>
        BindMembersUsesOnlyMembers(sers[1..], doc, c1, c2, acc[sers[0].name := Model(v)]);
    }
  }

  /** With several serializers the body is never handed whole to a parser: the
      outcome is the same for any two parsers that agree on every JSON member. */
  lemma EnvelopeIgnoresWholeBodyParse(l: Listener, m: IncomingMessage, c1: Codecs, c2: Codecs)
    requires DistinctNames(l.serializers)
    requires |l.serializers| > 1
    requires c1.jsonLoads == c2.jsonLoads
    requires forall cls, j :: c1.parseRaw(cls, Member(j)) == c2.parseRaw(cls, Member(j))
    ensures CreateKwargs(l, m, c1) == CreateKwargs(l, m, c2)
  {
    var base: Kwargs := if Truthy(l.messageParamName) then map[l.messageParamName.value := RawMessage(m)] else map[];
    if c1.jsonLoads(m.body).Some? {
      BindMembersUsesOnlyMembers(l.serializers, c1.jsonLoads(m.body).value, c1, c2, base);
    }
  }

  /** The multi-payload call fails exactly when the body is not JSON, is not an
      object, lacks some parameter's key, or some member does not parse. */
  lemma EnvelopeFailureCauses(l: Listener, m: IncomingMessage, codecs: Codecs)
    requires DistinctNames(l.serializers)
    requires |l.serializers| > 1
    ensures CreateKwargs(l, m, codecs).Failure? <==>
      || codecs.jsonLoads(m.body).None?
      || !codecs.jsonLoads(m.body).value.JObject?
      || (exists i :: 0 <= i < |l.serializers|
            && l.serializers[i].name !in codecs.jsonLoads(m.body).value.members)
      || (exists i :: 0 <= i < |l.serializers|
            && l.serializers[i].name in codecs.jsonLoads(m.body).value.members
            && codecs.parseRaw(l.serializers[i].cls,
                 Member(codecs.jsonLoads(m.body).value.members[l.serializers[i].name])).None?)
  {
    SeveralPayloadsShareAnEnvelope(l, m, codecs);
    if codecs.jsonLoads(m.body).Some? {
      var doc := codecs.jsonLoads(m.body).value;
      assert ParseMember(l.serializers[0], doc, codecs).Failure? <== !doc.JObject?;
    }
  }

  /** With pydantic's own `parse_raw`, which decodes each member again, an envelope
      can only succeed when it is an object whose every parameter member is a JSON
      string holding the encoded model: an envelope carrying a model as a nested
      object always fails. */
  lemma EnvelopeMembersMustBeStrings(l: Listener, m: IncomingMessage, codecs: Codecs)
    requires DistinctNames(l.serializers)
    requires |l.serializers| > 1
    requires ReparsesMembers(codecs)
    ensures CreateKwargs(l, m, codecs).Success? ==>
      && codecs.jsonLoads(m.body).Some?
      && codecs.jsonLoads(m.body).value.JObject?
      && forall i :: 0 <= i < |l.serializers| ==>
           && l.serializers[i].name in codecs.jsonLoads(m.body).value.members
           && codecs.jsonLoads(m.body).value.members[l.serializers[i].name].JString?
  {
    SeveralPayloadsShareAnEnvelope(l, m, codecs);
    if CreateKwargs(l, m, codecs).Success? {
      var doc := codecs.jsonLoads(m.body).value;
      assert ParseMember(l.serializers[0], doc, codecs).Success?;
      forall i | 0 <= i < |l.serializers|
        ensures l.serializers[i].name in doc.members && doc.members[l.serializers[i].name].JString?
      {
        var s := l.serializers[i];
        assert ParseMember(s, doc, codecs).Success?;
        assert codecs.parseRaw(s.cls, Member(doc.members[s.name])).Some?;
      }
    }
  }
}
