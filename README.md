# DefaultCxfBeanBinding, modelled in Dafny

Apache Camel's CXF bean component bridges a Camel exchange and a CXF
protocol message. `DefaultCxfBeanBinding` does the translation both ways:

- **inbound**, `createCxfMessageFromCamelExchange` reads a few headers of the
  exchange's in message, gives some of them defaults or fallbacks, and writes
  seven fixed keys into the CXF message (request URI, base path, HTTP method,
  path info, content type, accepted content types, encoding);
- **outbound**, `propagateResponseHeadersToCamel` copies the response headers
  of a CXF message onto the exchange's out headers: the first value of every
  multi-valued protocol header the header filter strategy lets through, then
  the response code if the filter lets it through, then the content type,
  which is never filtered. Without a strategy it does nothing.

Files:

- `wrappers.dfy` (module `Wrappers`): `Option`, standing for a Java reference that may be null.
- `camel.dfy` (module `Camel`): the Camel header names, the `Value` datatype
  (the Java objects that travel in header maps, `Null` included) and the
  `Exchange` class. Its `hasOut` field says whether the exchange has an out message yet, and the outbound propagation updates its `outHeaders` field in place.
- `cxf.dfy` (module `Cxf`): the CXF message keys, and `Get`, which is
  `Map.get` (a missing key reads as null).
- `cxf_bean_binding.dfy` (module `CxfBeanBinding`): the binding. The `get*`
  helpers are functions. The inbound builder is a method that makes the seven
  puts on the map it is given, proved equal to the specification function
  `InboundFields` laid over that map. The outbound propagation is a method over
  the exchange's out-header field. Its loop picks any protocol header not yet
  visited, because a `Map`'s entry order is unspecified. It is proved equal
  to the specification function `Propagated`, and the lemmas below it state
  what `Propagated` promises.

The header-name constants (`CamelHttpPath`, `org.apache.cxf.request.uri`, ...)
take their values from Camel's `Exchange` and CXF's `Message` interfaces.
Those interfaces are not part of this model. The proofs rely on these facts
about the constants; the general contracts and lemmas need no others:

- the seven inbound keys are pairwise distinct;
- `CamelHttpResponseCode` differs from `Content-Type`;
- the CXF keys that the examples use (protocol headers, response code,
  content type) are pairwise distinct;
- the Camel header names that the inbound builder reads (`Content-Type`,
  `Accept`, `CamelHttpPath`, `CamelHttpMethod`, `CamelHttpBaseUri`,
  `CamelHttpCharacterEncoding`, `CamelCharsetName`) are pairwise distinct.
  Only `InboundScenario` needs this one.

Two behaviours of the code are worth stating outright:

- Propagation can still overwrite an out header whose protocol header the
  filter dropped. A dropped `Content-Type` or `CamelHttpResponseCode` is
  replaced by the two fixed writes after the loop. `DroppedHeaderUnchanged`
  proves that every other dropped header keeps its out entry, and
  `DroppedContentTypeOverwrittenExample` shows the overwrite.
- The response code is filtered under CXF's key
  (`org.apache.cxf.message.Message.RESPONSE_CODE`). It is then written under
  Camel's key (`CamelHttpResponseCode`). A filter that drops only Camel's
  name does not stop it.

## Model

| member | source | states |
|---|---|---|
| CxfBeanBinding.GetRequestContentType | components/camel-cxf/src/main/java/org/apache/camel/component/cxf/cxfbean/DefaultCxfBeanBinding.java:159-166 | the request content type is the in message's Content-Type header when present, otherwise the wildcard `*/*` |
| CxfBeanBinding.GetAcceptContentTypes | components/camel-cxf/src/main/java/org/apache/camel/component/cxf/cxfbean/DefaultCxfBeanBinding.java:45-49 | the accepted content types are the Accept header when present, otherwise `*/*` |
| CxfBeanBinding.GetCharacterEncoding | components/camel-cxf/src/main/java/org/apache/camel/component/cxf/cxfbean/DefaultCxfBeanBinding.java:151-157 | the HTTP character-encoding header wins; the charset-name header is the fallback; the result is null exactly when both are absent |
| CxfBeanBinding.GetPath | components/camel-cxf/src/main/java/org/apache/camel/component/cxf/cxfbean/DefaultCxfBeanBinding.java:131-134 | the path is the HTTP path header, null exactly when it is absent |
| CxfBeanBinding.GetVerb | components/camel-cxf/src/main/java/org/apache/camel/component/cxf/cxfbean/DefaultCxfBeanBinding.java:146-149 | the verb is the HTTP method header, null exactly when it is absent |
| CxfBeanBinding.GetBasePath | components/camel-cxf/src/main/java/org/apache/camel/component/cxf/cxfbean/DefaultCxfBeanBinding.java:136-144 | the base path is the HTTP base-URI header, otherwise the from-endpoint URI; null only when both are missing |
| CxfBeanBinding.InboundKeysDistinct | components/camel-cxf/src/main/java/org/apache/camel/component/cxf/cxfbean/DefaultCxfBeanBinding.java:72-78 | the seven keys written are pairwise distinct |
| CxfBeanBinding.InboundFields | components/camel-cxf/src/main/java/org/apache/camel/component/cxf/cxfbean/DefaultCxfBeanBinding.java:72-78 | the seven written entries: exactly the seven keys; request URI and path info both hold the path (null if absent); each other key holds its resolved value |
| CxfBeanBinding.CreateCxfMessageFromCamelExchange | components/camel-cxf/src/main/java/org/apache/camel/component/cxf/cxfbean/DefaultCxfBeanBinding.java:37-83 | the built message is the factory's message with the seven entries laid over it; every other entry is kept; the exchange is only read |
| CxfBeanBinding.InboundDefaults | components/camel-cxf/src/main/java/org/apache/camel/component/cxf/cxfbean/DefaultCxfBeanBinding.java:40-60 | with none of the headers present: both content types are `*/*`, the base path is the endpoint URI, and encoding, path and method are null |
| CxfBeanBinding.InboundScenario | components/camel-cxf/src/main/java/org/apache/camel/component/cxf/cxfbean/DefaultCxfBeanBinding.java:37-83 | for POST /orders with a JSON body from http://host/svc, the seven entries are exactly the expected ones |
| Camel.Exchange.GetOut | components/camel-cxf/src/main/java/org/apache/camel/component/cxf/cxfbean/DefaultCxfBeanBinding.java:96 | after `getOut()` the exchange has an out message; its headers are the old ones, or empty if the out message was just created |
| CxfBeanBinding.ProtocolHeaders | components/camel-cxf/src/main/java/org/apache/camel/component/cxf/cxfbean/DefaultCxfBeanBinding.java:98-101 | the multi-valued protocol headers are the message's header table when the entry holds one, and none when the entry is null |
| CxfBeanBinding.CopiedHeaders | components/camel-cxf/src/main/java/org/apache/camel/component/cxf/cxfbean/DefaultCxfBeanBinding.java:101-112 | a header is copied exactly when the filter, asked with its whole value list, does not drop it; it is copied as its first value only |
| CxfBeanBinding.Propagated | components/camel-cxf/src/main/java/org/apache/camel/component/cxf/cxfbean/DefaultCxfBeanBinding.java:92-128 | without a strategy the out headers are unchanged; with one, no out header is removed, and only protocol-header names and the two canonical names can be added |
| CxfBeanBinding.PropagateResponseHeadersToCamel | components/camel-cxf/src/main/java/org/apache/camel/component/cxf/cxfbean/DefaultCxfBeanBinding.java:85-129 | without a strategy the exchange is left as it was; with one, the exchange has an out message afterwards, and its out headers, updated in place, equal `Propagated` of the headers `getOut()` handed back, for any order of visiting the protocol headers |
| CxfBeanBinding.CopiedHeadersStep | components/camel-cxf/src/main/java/org/apache/camel/component/cxf/cxfbean/DefaultCxfBeanBinding.java:102-111 | visiting one more header in the loop extends the copied entries by that header's entry, if the filter lets it through |
| CxfBeanBinding.CopiedInsert | components/camel-cxf/src/main/java/org/apache/camel/component/cxf/cxfbean/DefaultCxfBeanBinding.java:102-111 | copying one more header sets its first value on top of the earlier result if the filter keeps it; otherwise nothing changes |
| CxfBeanBinding.CopyInOrderCopiesVisited | components/camel-cxf/src/main/java/org/apache/camel/component/cxf/cxfbean/DefaultCxfBeanBinding.java:102-111 | running the loop over any sequence of distinct headers gives the out headers plus the copied entries of exactly those headers |
| CxfBeanBinding.AnyOrderSameResult | components/camel-cxf/src/main/java/org/apache/camel/component/cxf/cxfbean/DefaultCxfBeanBinding.java:102-111 | every enumeration of the protocol headers, each name once, yields the same out headers, so the unspecified entry order does not matter |
| CxfBeanBinding.PropagatedEntry | components/camel-cxf/src/main/java/org/apache/camel/component/cxf/cxfbean/DefaultCxfBeanBinding.java:96-128 | per out header: the content type wins if present; else the response code if present and kept; else a kept protocol header's first value; else the old entry |
| CxfBeanBinding.DroppedHeaderUnchanged | components/camel-cxf/src/main/java/org/apache/camel/component/cxf/cxfbean/DefaultCxfBeanBinding.java:102-111 | a protocol header the filter drops leaves that out header as it was, unless its name is Content-Type or the response-code name |
| CxfBeanBinding.OtherHeadersUnchanged | components/camel-cxf/src/main/java/org/apache/camel/component/cxf/cxfbean/DefaultCxfBeanBinding.java:96-128 | out headers named by neither a protocol header nor a canonical key keep their values and presence |
| CxfBeanBinding.ContentTypeUnconditional | components/camel-cxf/src/main/java/org/apache/camel/component/cxf/cxfbean/DefaultCxfBeanBinding.java:125-128 | whenever the message has a content type, it lands under Content-Type whatever the filter says |
| CxfBeanBinding.ResponseCodeFiltered | components/camel-cxf/src/main/java/org/apache/camel/component/cxf/cxfbean/DefaultCxfBeanBinding.java:114-123 | the response-code header is set exactly when the message has a response code the filter (asked with CXF's key) does not drop, and it holds that code |
| CxfBeanBinding.FirstValueOnlyExample | components/camel-cxf/src/main/java/org/apache/camel/component/cxf/cxfbean/DefaultCxfBeanBinding.java:102-104 | the header X-Foo with values a and b, under a filter that drops nothing, becomes X-Foo = a alone |
| CxfBeanBinding.DroppedResponseCodeExample | components/camel-cxf/src/main/java/org/apache/camel/component/cxf/cxfbean/DefaultCxfBeanBinding.java:114-118 | a 404 response code that the filter drops does not reach the out headers |
| CxfBeanBinding.DroppedContentTypeOverwrittenExample | components/camel-cxf/src/main/java/org/apache/camel/component/cxf/cxfbean/DefaultCxfBeanBinding.java:101-128 | under a drop-everything filter, the out header Content-Type is still replaced by the message's content type |

## Left out

- Logging and trace output: observability only, it changes no data.
- Security-context propagation: the source leaves it as a TODO.
- The CXF message factory (`CxfMessageHelper.getCxfInMessage`) is not part of this model. Its result is the `initial` parameter of `CreateCxfMessageFromCamelExchange`, an arbitrary map. The inbound builder's header filter strategy is only passed to that factory, so it does not appear.
- Camel's typed header lookup (`getHeader(name, String.class)`) is not modelled: in-message headers are taken to be strings already. A header that is absent, null or not readable as a string is simply not in `Exchange.inHeaders`.
- `CastUtils.cast` is not modelled: the protocol-header entry is a `HeaderTable` of string lists or null.
- Header filter strategy implementations: the strategy is a function value `(name, value) -> bool`. The exchange argument of `applyFilterToExternalHeaders` is dropped, since the function may capture it. A strategy that reads the out headers while they are being changed, or that has side effects, is not captured. Neither is an exception it throws.
- Endpoint lookup: `fromEndpointUri` stands for `getFromEndpoint().getEndpointUri()`. A missing from-endpoint, which makes the source throw when the base-URI header is also absent, is not modelled.
- PropagateResponseHeadersToCamel: requires that every protocol header the filter keeps has at least one value, and that the protocol-header entry is a map or null. Otherwise the source throws. A failed cast throws before any header is written, leaving behind only the out message that `getOut()` may have created. `get(0)` on an empty list throws inside the loop and leaves the out headers partly updated. Neither failure path is modelled.
- Header names are matched exactly in the model, while Camel keeps message headers in a case-insensitive map. So a protocol header `content-type` and the message's content type give two out entries in `Propagated`, where Camel keeps one. For the same reason, what `PropagatedEntry`, `OtherHeadersUnchanged`, `DroppedHeaderUnchanged` and `ResponseCodeFiltered` conclude about a name that differs from `Content-Type` or `CamelHttpResponseCode` only in letter case does not hold in Camel. For example, `OtherHeadersUnchanged` keeps an out header `content-type`, but Camel's `Content-Type` write replaces it. Likewise `AnyOrderSameResult` does not carry over to a protocol-header map holding two names that are equal up to case: there Camel's result depends on the visiting order.
- Concurrency: the model is sequential.
