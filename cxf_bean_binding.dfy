/**
 * DefaultCxfBeanBinding: translates a Camel exchange into a CXF protocol
 * message (inbound) and copies the response headers of a CXF message back
 * onto the exchange's out message (outbound).
 */
module CxfBeanBinding {
  import opened Wrappers
  import opened Camel
  import Cxf

  /**
   * A header filter strategy, asked with a header's name and value; `true`
   * means "drop this header", `false` means "let it through".
   */
  type Filter = (string, Value) -> bool

  // ---------------------------------------------------------------------
  // Inbound: the fields read from the exchange's in message
  // ---------------------------------------------------------------------

  /** The request content type: the Content-Type header, or the wildcard media range. */
  function GetRequestContentType(headers: map<string, string>): (contentType: string)
    ensures CONTENT_TYPE in headers ==> contentType == headers[CONTENT_TYPE]
    ensures CONTENT_TYPE !in headers ==> contentType == ANY_MEDIA_TYPE
  {
    if CONTENT_TYPE in headers then headers[CONTENT_TYPE] else ANY_MEDIA_TYPE
  }

  /** The accepted content types: the Accept header, or the wildcard media range. */
  function GetAcceptContentTypes(headers: map<string, string>): (accept: string)
    ensures ACCEPT in headers ==> accept == headers[ACCEPT]
    ensures ACCEPT !in headers ==> accept == ANY_MEDIA_TYPE
  {
    if ACCEPT in headers then headers[ACCEPT] else ANY_MEDIA_TYPE
  }

  /**
   * The character encoding: the HTTP character-encoding header wins, the
   * charset-name header is the fallback, and there is no default.
   */
  function GetCharacterEncoding(headers: map<string, string>): (encoding: Option<string>)
    ensures encoding.None? <==> HTTP_CHARACTER_ENCODING !in headers && CHARSET_NAME !in headers
    ensures HTTP_CHARACTER_ENCODING in headers ==> encoding == Some(headers[HTTP_CHARACTER_ENCODING])
    ensures HTTP_CHARACTER_ENCODING !in headers && CHARSET_NAME in headers ==> encoding == Some(headers[CHARSET_NAME])
  {
    if HTTP_CHARACTER_ENCODING in headers then Some(headers[HTTP_CHARACTER_ENCODING])
    else if CHARSET_NAME in headers then Some(headers[CHARSET_NAME])
    else None
  }

  /** The request path: the HTTP path header, null when it is absent. */
  function GetPath(headers: map<string, string>): (path: Option<string>)
    ensures path.Some? <==> HTTP_PATH in headers
    ensures path.Some? ==> path.value == headers[HTTP_PATH]
  {
    if HTTP_PATH in headers then Some(headers[HTTP_PATH]) else None
  }

  /** The HTTP method: the HTTP method header, null when it is absent. */
  function GetVerb(headers: map<string, string>): (verb: Option<string>)
    ensures verb.Some? <==> HTTP_METHOD in headers
    ensures verb.Some? ==> verb.value == headers[HTTP_METHOD]
  {
    if HTTP_METHOD in headers then Some(headers[HTTP_METHOD]) else None
  }

  /**
   * The base path: the HTTP base-URI header, or else the URI of the endpoint
   * the exchange came from; null only when both are missing.
   */
  function GetBasePath(headers: map<string, string>, fromEndpointUri: Option<string>): (basePath: Option<string>)
    ensures basePath.None? <==> HTTP_BASE_URI !in headers && fromEndpointUri.None?
    ensures HTTP_BASE_URI in headers ==> basePath == Some(headers[HTTP_BASE_URI])
    ensures HTTP_BASE_URI !in headers ==> basePath == fromEndpointUri
  {
    if HTTP_BASE_URI in headers then Some(headers[HTTP_BASE_URI]) else fromEndpointUri
  }

  /** The seven keys the inbound builder writes into the CXF message. */
  const InboundKeys: set<string> :=
    {Cxf.REQUEST_URI, Cxf.BASE_PATH, Cxf.HTTP_REQUEST_METHOD, Cxf.PATH_INFO,
     Cxf.CONTENT_TYPE, Cxf.ACCEPT_CONTENT_TYPE, Cxf.ENCODING}

  /** The seven keys are distinct, so the builder sets seven entries. */
  lemma InboundKeysDistinct()
    ensures |InboundKeys| == 7
  {
  }

  /**
   * The seven entries the inbound builder writes, as a map: which key receives
   * which resolved value (a null value is stored as `Null`, the key is still set).
   */
  function InboundFields(headers: map<string, string>, fromEndpointUri: Option<string>): (fields: Cxf.Message)
    ensures fields.Keys == InboundKeys
    ensures fields[Cxf.REQUEST_URI] == fields[Cxf.PATH_INFO] == FromOption(GetPath(headers))
    ensures fields[Cxf.BASE_PATH] == FromOption(GetBasePath(headers, fromEndpointUri))
    ensures fields[Cxf.HTTP_REQUEST_METHOD] == FromOption(GetVerb(headers))
    ensures fields[Cxf.CONTENT_TYPE] == Text(GetRequestContentType(headers))
    ensures fields[Cxf.ACCEPT_CONTENT_TYPE] == Text(GetAcceptContentTypes(headers))
    ensures fields[Cxf.ENCODING] == FromOption(GetCharacterEncoding(headers))
  {
    var path := FromOption(GetPath(headers));
    map[Cxf.REQUEST_URI := path,
        Cxf.BASE_PATH := FromOption(GetBasePath(headers, fromEndpointUri)),
        Cxf.HTTP_REQUEST_METHOD := FromOption(GetVerb(headers)),
        Cxf.PATH_INFO := path,
        Cxf.CONTENT_TYPE := Text(GetRequestContentType(headers)),
        Cxf.ACCEPT_CONTENT_TYPE := Text(GetAcceptContentTypes(headers)),
        Cxf.ENCODING := FromOption(GetCharacterEncoding(headers))]
  }

  /**
   * Builds the CXF message for an exchange. `initial` is the message the CXF
   * message factory returned (whatever it already holds); the seven puts
   * overwrite their keys and leave every other entry as it was. The exchange
   * is only read.
   */
  method CreateCxfMessageFromCamelExchange(exchange: Exchange, initial: Cxf.Message) returns (answer: Cxf.Message)
    ensures answer == initial + InboundFields(exchange.inHeaders, exchange.fromEndpointUri)
    ensures answer.Keys == initial.Keys + InboundKeys
    ensures forall key :: key in initial && key !in InboundKeys ==> answer[key] == initial[key]
  {
    var camelMessage := exchange.inHeaders;
    var requestContentType := GetRequestContentType(camelMessage);
    var acceptContentTypes := GetAcceptContentTypes(camelMessage);
    var enc := GetCharacterEncoding(camelMessage);
    var path := GetPath(camelMessage);
    var basePath := GetBasePath(camelMessage, exchange.fromEndpointUri);
    var verb := GetVerb(camelMessage);

    answer := initial;
    answer := answer[Cxf.REQUEST_URI := FromOption(path)];
    answer := answer[Cxf.BASE_PATH := FromOption(basePath)];
    answer := answer[Cxf.HTTP_REQUEST_METHOD := FromOption(verb)];
    answer := answer[Cxf.PATH_INFO := FromOption(path)];
    answer := answer[Cxf.CONTENT_TYPE := Text(requestContentType)];
    answer := answer[Cxf.ACCEPT_CONTENT_TYPE := Text(acceptContentTypes)];
    answer := answer[Cxf.ENCODING := FromOption(enc)];
  }

  /** With none of the headers it reads, the builder falls back to its defaults. */
  lemma InboundDefaults(headers: map<string, string>, fromEndpointUri: Option<string>)
    requires CONTENT_TYPE !in headers && ACCEPT !in headers && HTTP_BASE_URI !in headers
    requires HTTP_CHARACTER_ENCODING !in headers && CHARSET_NAME !in headers
    requires HTTP_PATH !in headers && HTTP_METHOD !in headers
    ensures var fields := InboundFields(headers, fromEndpointUri);
      && fields[Cxf.CONTENT_TYPE] == Text("*/*")
      && fields[Cxf.ACCEPT_CONTENT_TYPE] == Text("*/*")
      && fields[Cxf.BASE_PATH] == FromOption(fromEndpointUri)
      && fields[Cxf.ENCODING] == Null
      && fields[Cxf.REQUEST_URI] == fields[Cxf.PATH_INFO] == fields[Cxf.HTTP_REQUEST_METHOD] == Null
  {
  }

  /** A POST to /orders with a JSON body, from the endpoint http://host/svc. */
  lemma InboundScenario()
    ensures InboundFields(
              map[HTTP_METHOD := "POST", HTTP_PATH := "/orders", CONTENT_TYPE := "application/json"],
              Some("http://host/svc"))
         == map[Cxf.HTTP_REQUEST_METHOD := Text("POST"),
                Cxf.PATH_INFO := Text("/orders"),
                Cxf.REQUEST_URI := Text("/orders"),
                Cxf.CONTENT_TYPE := Text("application/json"),
                Cxf.ACCEPT_CONTENT_TYPE := Text("*/*"),
                Cxf.BASE_PATH := Text("http://host/svc"),
                Cxf.ENCODING := Null]
  {
  }

  // ---------------------------------------------------------------------
  // Outbound: response headers from the CXF message onto the exchange
  // ---------------------------------------------------------------------

  /**
   * What the cast of the protocol-header entry demands: it is either missing
   * (null) or a map from header names to value lists.
   */
  predicate ProtocolHeadersReadable(message: Cxf.Message) {
    Cxf.Get(message, Cxf.PROTOCOL_HEADERS).Null? || Cxf.Get(message, Cxf.PROTOCOL_HEADERS).HeaderTable?
  }

  /** The multi-valued protocol headers of a message; none when the entry is null. */
  function ProtocolHeaders(message: Cxf.Message): (headers: map<string, seq<string>>)
    requires ProtocolHeadersReadable(message)
    ensures Cxf.Get(message, Cxf.PROTOCOL_HEADERS).Null? ==> headers == map[]
    ensures Cxf.Get(message, Cxf.PROTOCOL_HEADERS).HeaderTable? ==> headers == Cxf.Get(message, Cxf.PROTOCOL_HEADERS).table
  {
    match Cxf.Get(message, Cxf.PROTOCOL_HEADERS)
    case HeaderTable(table) => table
    case _ => map[]
  }

  /** Whether the filter lets the header `name`, with all its values, through. */
  predicate Passes(filter: Filter, name: string, values: seq<string>) {
    !filter(name, TextList(values))
  }

  /** Every header the filter lets through has a first value to copy. */
  predicate FirstValuesExist(headers: map<string, seq<string>>, filter: Filter) {
    forall name :: name in headers && Passes(filter, name, headers[name]) ==> |headers[name]| > 0
  }

  /**
   * The entries the header loop writes: for each header the filter lets
   * through, its first value under its own name.
   */
  function CopiedHeaders(headers: map<string, seq<string>>, filter: Filter): (copied: map<string, Value>)
    requires FirstValuesExist(headers, filter)
    ensures forall name :: name in copied <==> name in headers && Passes(filter, name, headers[name])
    ensures forall name :: name in copied ==> copied[name] == Text(headers[name][0])
  {
    map name | name in headers && Passes(filter, name, headers[name]) :: Text(headers[name][0])
  }

  /** If every kept header has a first value, so does every kept header of a smaller map. */
  lemma FirstValuesExistBelow(headers: map<string, seq<string>>, filter: Filter, gone: set<string>)
    requires FirstValuesExist(headers, filter)
    ensures FirstValuesExist(headers - gone, filter)
  {
  }

  /**
   * One step of the header loop: if the out headers hold the entries copied
   * from the headers already visited, then after visiting `name` they hold the
   * entries copied from those and `name`.
   */
  lemma CopiedHeadersStep(outHeaders: map<string, Value>, current: map<string, Value>,
                          headers: map<string, seq<string>>, filter: Filter, remaining: set<string>, name: string)
    requires FirstValuesExist(headers, filter)
    requires name in remaining && remaining <= headers.Keys
    requires FirstValuesExist(headers - remaining, filter)
    requires current == outHeaders + CopiedHeaders(headers - remaining, filter)
    ensures FirstValuesExist(headers - (remaining - {name}), filter)
    ensures (if Passes(filter, name, headers[name]) then current[name := Text(headers[name][0])] else current)
         == outHeaders + CopiedHeaders(headers - (remaining - {name}), filter)
  {
    assert headers - (remaining - {name}) == (headers - remaining)[name := headers[name]];
    CopiedInsert(outHeaders, headers - remaining, filter, name, headers[name]);
  }

  /** What the source demands of a message it propagates with a strategy. */
  predicate CanPropagate(message: Cxf.Message, strategy: Option<Filter>) {
    strategy.Some? ==>
      ProtocolHeadersReadable(message) && FirstValuesExist(ProtocolHeaders(message), strategy.value)
  }

  /**
   * The out headers after propagation: the copied protocol headers, then the
   * response code when the filter lets it through, then the content type
   * whatever the filter says. Without a strategy nothing changes.
   */
  function Propagated(outHeaders: map<string, Value>, message: Cxf.Message, strategy: Option<Filter>): (result: map<string, Value>)
    requires CanPropagate(message, strategy)
    ensures strategy.None? ==> result == outHeaders
    ensures outHeaders.Keys <= result.Keys
    ensures strategy.Some? ==>
      result.Keys <= outHeaders.Keys + ProtocolHeaders(message).Keys + {HTTP_RESPONSE_CODE, CONTENT_TYPE}
  {
    match strategy
    case None => outHeaders
    case Some(filter) =>
      var afterLoop := outHeaders + CopiedHeaders(ProtocolHeaders(message), filter);
      var code := Cxf.Get(message, Cxf.RESPONSE_CODE);
      var afterCode :=
        if code != Null && !filter(Cxf.RESPONSE_CODE, code) then afterLoop[HTTP_RESPONSE_CODE := code]
        else afterLoop;
      var contentType := Cxf.Get(message, Cxf.CONTENT_TYPE);
      if contentType != Null then afterCode[CONTENT_TYPE := contentType] else afterCode
  }

  /**
   * Copies the response headers of `cxfMessage` onto the out headers of
   * `exchange`, updating that map in place. The protocol headers are visited
   * in no particular order (the entry set of a `Map`), so the loop picks any
   * header not yet visited.
   */
  method PropagateResponseHeadersToCamel(cxfMessage: Cxf.Message, exchange: Exchange, strategy: Option<Filter>)
    requires CanPropagate(cxfMessage, strategy)
    modifies exchange`hasOut, exchange`outHeaders
    ensures strategy.None? ==> exchange.hasOut == old(exchange.hasOut) && exchange.outHeaders == old(exchange.outHeaders)
    ensures strategy.Some? ==> exchange.hasOut
    ensures strategy.Some? ==>
      exchange.outHeaders == Propagated(old(exchange.OutHeadersOnGetOut()), cxfMessage, strategy)
  {
    if strategy.None? {
      return;
    }
    var filter := strategy.value;

    // exchange.getOut(): creates an empty out message when there is none yet
    exchange.GetOut();
    ghost var start := exchange.outHeaders;

    ghost var copied := CopiedHeaders(ProtocolHeaders(cxfMessage), filter);
    var cxfHeaders := Cxf.Get(cxfMessage, Cxf.PROTOCOL_HEADERS);
    if cxfHeaders.HeaderTable? {
      var headers := cxfHeaders.table;
      var remaining := headers.Keys;
      FirstValuesExistBelow(headers, filter, remaining);
      while remaining != {}
        invariant remaining <= headers.Keys
        invariant FirstValuesExist(headers - remaining, filter)
        invariant exchange.hasOut
        invariant exchange.outHeaders == start + CopiedHeaders(headers - remaining, filter)
        decreases remaining
      {
        var name :| name in remaining;
        CopiedHeadersStep(start, exchange.outHeaders, headers, filter, remaining, name);
        if !filter(name, TextList(headers[name])) {
          exchange.outHeaders := exchange.outHeaders[name := Text(headers[name][0])];
        }
        remaining := remaining - {name};
      }
      assert headers - remaining == headers;
    } else {
      assert copied == map[];
    }
    assert exchange.outHeaders == start + copied;

    // propagate the HTTP response code
    var key := Cxf.RESPONSE_CODE;
    var value := Cxf.Get(cxfMessage, key);
    if value != Null && !filter(key, value) {
      exchange.outHeaders := exchange.outHeaders[HTTP_RESPONSE_CODE := value];
    }

    // propagate the HTTP content type
    if Cxf.Get(cxfMessage, Cxf.CONTENT_TYPE) != Null {
      exchange.outHeaders := exchange.outHeaders[CONTENT_TYPE := Cxf.Get(cxfMessage, Cxf.CONTENT_TYPE)];
    }
  }

  // ---------------------------------------------------------------------
  // Outbound: properties of the propagation
  // ---------------------------------------------------------------------

  /** The protocol headers whose names occur in `order`. */
  function Visited(headers: map<string, seq<string>>, order: seq<string>): (visited: map<string, seq<string>>)
    ensures visited.Keys <= headers.Keys
    ensures forall name :: name in visited <==> name in headers && name in order
    ensures forall name :: name in visited ==> visited[name] == headers[name]
  {
    map name | name in headers && name in order :: headers[name]
  }

  /**
   * The header loop run over one explicit visiting order: the headers are
   * visited in the order given, each filtered and copied as it comes.
   */
  function CopyInOrder(outHeaders: map<string, Value>, headers: map<string, seq<string>>, filter: Filter,
                       order: seq<string>): map<string, Value>
    requires forall i | 0 <= i < |order| :: order[i] in headers
    requires FirstValuesExist(headers, filter)
    decreases |order|
  {
    if order == [] then outHeaders
    else
      var name := order[0];
      var next :=
        if Passes(filter, name, headers[name]) then outHeaders[name := Text(headers[name][0])]
        else outHeaders;
      CopyInOrder(next, headers, filter, order[1..])
  }

  /**
   * Visiting distinct headers one by one, in whatever order, gives the same
   * out headers as copying all of them at once.
   */
  lemma {:induction false} CopyInOrderCopiesVisited(outHeaders: map<string, Value>, headers: map<string, seq<string>>,
                                                   filter: Filter, order: seq<string>)
    requires FirstValuesExist(headers, filter)
    requires forall i | 0 <= i < |order| :: order[i] in headers
    requires forall i, j | 0 <= i < j < |order| :: order[i] != order[j]
    ensures FirstValuesExist(Visited(headers, order), filter)
    decreases |order|
    ensures CopyInOrder(outHeaders, headers, filter, order)
         == outHeaders + CopiedHeaders(Visited(headers, order), filter)
  {
    if order == [] {
      assert Visited(headers, order) == map[];
    } else {
      var name, rest := order[0], order[1..];
      var next :=
        if Passes(filter, name, headers[name]) then outHeaders[name := Text(headers[name][0])]
        else outHeaders;
      assert forall i | 0 <= i < |rest| :: rest[i] == order[i + 1];
      CopyInOrderCopiesVisited(next, headers, filter, rest);
      assert name !in rest;
      assert Visited(headers, order) == Visited(headers, rest)[name := headers[name]];
      CopiedInsert(outHeaders, Visited(headers, rest), filter, name, headers[name]);
      if Passes(filter, name, headers[name]) {
        UpdateBeforeUnion(outHeaders, CopiedHeaders(Visited(headers, rest), filter), name, Text(headers[name][0]));
      }
    }
  }

  /** Copying one more header adds its entry, if the filter lets it through, on top. */
  lemma CopiedInsert(outHeaders: map<string, Value>, visited: map<string, seq<string>>, filter: Filter,
                     name: string, values: seq<string>)
    requires FirstValuesExist(visited, filter) && name !in visited
    requires Passes(filter, name, values) ==> |values| > 0
    ensures FirstValuesExist(visited[name := values], filter)
    ensures outHeaders + CopiedHeaders(visited[name := values], filter)
         == if Passes(filter, name, values) then (outHeaders + CopiedHeaders(visited, filter))[name := Text(values[0])]
            else outHeaders + CopiedHeaders(visited, filter)
  {
    var before, after := CopiedHeaders(visited, filter), CopiedHeaders(visited[name := values], filter);
    assert after == if Passes(filter, name, values) then before[name := Text(values[0])] else before;
  }

  /** Writing a key that the right operand lacks commutes with the union. */
  lemma UpdateBeforeUnion(left: map<string, Value>, right: map<string, Value>, name: string, value: Value)
    requires name !in right
    ensures left[name := value] + right == (left + right)[name := value]
  {
  }

  /**
   * The order in which the header loop meets the entries does not matter: any
   * enumeration of the protocol headers, each name once, gives the out headers
   * plus the copied headers.
   */
  lemma AnyOrderSameResult(outHeaders: map<string, Value>, headers: map<string, seq<string>>, filter: Filter,
                           order: seq<string>)
    requires FirstValuesExist(headers, filter)
    requires forall i, j | 0 <= i < j < |order| :: order[i] != order[j]
    requires forall name :: name in headers <==> name in order
    ensures CopyInOrder(outHeaders, headers, filter, order) == outHeaders + CopiedHeaders(headers, filter)
  {
    CopyInOrderCopiesVisited(outHeaders, headers, filter, order);
    assert Visited(headers, order) == headers;
  }

  /**
   * Entry by entry, what propagation with a strategy leaves in the out headers:
   * the content type if the message has one; else the response code if the
   * message has one and the filter lets it through; else the first value of a
   * protocol header the filter lets through; else the entry as it was.
   */
  lemma PropagatedEntry(outHeaders: map<string, Value>, message: Cxf.Message, filter: Filter, name: string)
    requires CanPropagate(message, Some(filter))
    ensures var result := Propagated(outHeaders, message, Some(filter));
      var headers := ProtocolHeaders(message);
      var code := Cxf.Get(message, Cxf.RESPONSE_CODE);
      var contentType := Cxf.Get(message, Cxf.CONTENT_TYPE);
      if name == CONTENT_TYPE && contentType != Null then
        name in result && result[name] == contentType
      else if name == HTTP_RESPONSE_CODE && code != Null && !filter(Cxf.RESPONSE_CODE, code) then
        name in result && result[name] == code
      else if name in headers && Passes(filter, name, headers[name]) then
        name in result && result[name] == Text(headers[name][0])
      else
        (name in result <==> name in outHeaders) && (name in outHeaders ==> result[name] == outHeaders[name])
  {
  }

  /**
   * A protocol header the filter drops leaves the out header of that name as
   * it was, unless it is one of the two names the later fixed writes use.
   */
  lemma DroppedHeaderUnchanged(outHeaders: map<string, Value>, message: Cxf.Message, filter: Filter, name: string)
    requires CanPropagate(message, Some(filter))
    requires name in ProtocolHeaders(message) && !Passes(filter, name, ProtocolHeaders(message)[name])
    requires name != CONTENT_TYPE && name != HTTP_RESPONSE_CODE
    ensures var result := Propagated(outHeaders, message, Some(filter));
      (name in result <==> name in outHeaders) && (name in outHeaders ==> result[name] == outHeaders[name])
  {
    PropagatedEntry(outHeaders, message, filter, name);
  }

  /** Out headers that propagation neither copies nor writes keep their values. */
  lemma OtherHeadersUnchanged(outHeaders: map<string, Value>, message: Cxf.Message, filter: Filter, name: string)
    requires CanPropagate(message, Some(filter))
    requires name !in ProtocolHeaders(message) && name != CONTENT_TYPE && name != HTTP_RESPONSE_CODE
    ensures var result := Propagated(outHeaders, message, Some(filter));
      (name in result <==> name in outHeaders) && (name in outHeaders ==> result[name] == outHeaders[name])
  {
    PropagatedEntry(outHeaders, message, filter, name);
  }

  /**
   * The content type is written whatever the filter says, and it wins over a
   * protocol header of the same name.
   */
  lemma ContentTypeUnconditional(outHeaders: map<string, Value>, message: Cxf.Message, filter: Filter)
    requires CanPropagate(message, Some(filter))
    requires Cxf.Get(message, Cxf.CONTENT_TYPE) != Null
    ensures var result := Propagated(outHeaders, message, Some(filter));
      CONTENT_TYPE in result && result[CONTENT_TYPE] == Cxf.Get(message, Cxf.CONTENT_TYPE)
  {
  }

  /**
   * The response code reaches the out headers, under the Camel response-code
   * name, exactly when the message has one and the filter, asked with the CXF
   * key, lets it through, provided neither the old out headers nor the
   * protocol headers already hold an entry of that name.
   */
  lemma ResponseCodeFiltered(outHeaders: map<string, Value>, message: Cxf.Message, filter: Filter)
    requires CanPropagate(message, Some(filter))
    requires HTTP_RESPONSE_CODE !in outHeaders && HTTP_RESPONSE_CODE !in ProtocolHeaders(message)
    ensures var result := Propagated(outHeaders, message, Some(filter));
      var code := Cxf.Get(message, Cxf.RESPONSE_CODE);
      (HTTP_RESPONSE_CODE in result <==> code != Null && !filter(Cxf.RESPONSE_CODE, code))
      && (HTTP_RESPONSE_CODE in result ==> result[HTTP_RESPONSE_CODE] == code)
  {
    PropagatedEntry(outHeaders, message, filter, HTTP_RESPONSE_CODE);
  }

  /** A filter that drops nothing, and one that drops everything. */
  const KeepAll: Filter := (name: string, value: Value) => false
  const DropAll: Filter := (name: string, value: Value) => true

  /** Of a header with the values a and b, only a reaches the out headers. */
  lemma FirstValueOnlyExample()
    ensures var message := map[Cxf.PROTOCOL_HEADERS := HeaderTable(map["X-Foo" := ["a", "b"]])];
      Propagated(map[], message, Some(KeepAll)) == map["X-Foo" := Text("a")]
  {
    var message := map[Cxf.PROTOCOL_HEADERS := HeaderTable(map["X-Foo" := ["a", "b"]])];
    assert CopiedHeaders(ProtocolHeaders(message), KeepAll) == map["X-Foo" := Text("a")];
  }

  /** A 404 response code that the filter drops is not copied. */
  lemma DroppedResponseCodeExample()
    ensures var message := map[Cxf.RESPONSE_CODE := Number(404)];
      var dropCode := (name: string, value: Value) => name == Cxf.RESPONSE_CODE;
      HTTP_RESPONSE_CODE !in Propagated(map[], message, Some(dropCode))
  {
  }

  /**
   * A filter that drops everything does not stop the content type, and the
   * out header Content-Type is overwritten although the protocol header of
   * that name was dropped.
   */
  lemma DroppedContentTypeOverwrittenExample()
    ensures var message := map[Cxf.PROTOCOL_HEADERS := HeaderTable(map[CONTENT_TYPE := ["text/plain"]]),
                               Cxf.CONTENT_TYPE := Text("application/json")];
      Propagated(map[CONTENT_TYPE := Text("text/xml")], message, Some(DropAll))
        == map[CONTENT_TYPE := Text("application/json")]
  {
    var message := map[Cxf.PROTOCOL_HEADERS := HeaderTable(map[CONTENT_TYPE := ["text/plain"]]),
                       Cxf.CONTENT_TYPE := Text("application/json")];
    assert CopiedHeaders(ProtocolHeaders(message), DropAll) == map[];
  }
}
