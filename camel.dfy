/**
 * The Camel side of the binding: the names of the Camel headers the binding
 * reads and writes, the values that travel in header maps, and the exchange
 * whose outbound headers are updated in place.
 */
module Camel {
  import opened Wrappers

  // Header names, as the constants of org.apache.camel.Exchange define them.
  const CONTENT_TYPE: string := "Content-Type"
  const HTTP_PATH: string := "CamelHttpPath"
  const HTTP_BASE_URI: string := "CamelHttpBaseUri"
  const HTTP_METHOD: string := "CamelHttpMethod"
  const HTTP_CHARACTER_ENCODING: string := "CamelHttpCharacterEncoding"
  const CHARSET_NAME: string := "CamelCharsetName"
  const HTTP_RESPONSE_CODE: string := "CamelHttpResponseCode"
  /** Not an Exchange constant: the binding spells this header name out. */
  const ACCEPT: string := "Accept"

  /** The wildcard media range, used when a request names no content type. */
  const ANY_MEDIA_TYPE: string := "*/*"

  /**
   * The Java objects that the binding moves between the two header maps.
   * `Null` is Java's null; a lookup of a missing key also yields it.
   */
  datatype Value =
    | Null
    | Text(text: string)
    | Number(number: int)
    | TextList(items: seq<string>)
    | HeaderTable(table: map<string, seq<string>>)

  /** A string that may be null, as the Java binding stores it in a map. */
  function FromOption(o: Option<string>): (v: Value)
    ensures v == Null <==> o.None?
    ensures o.Some? ==> v == Text(o.value)
  {
    match o
    case None => Null
    case Some(s) => Text(s)
  }

  /**
   * A Camel exchange as far as the binding sees it: the headers of its in
   * message (already converted to strings; a header that is absent or cannot be
   * read as a string is not in the map), the URI of the endpoint the exchange
   * came from, whether it has an out message yet, and the headers of that out
   * message, which the binding updates.
   */
  class Exchange {
    var inHeaders: map<string, string>
    var hasOut: bool
    var outHeaders: map<string, Value>
    const fromEndpointUri: Option<string>

    constructor (inHeaders: map<string, string>, fromEndpointUri: Option<string>)
      ensures this.inHeaders == inHeaders && this.fromEndpointUri == fromEndpointUri
      ensures !hasOut && outHeaders == map[]
    {
      this.inHeaders := inHeaders;
      this.hasOut := false;
      this.outHeaders := map[];
      this.fromEndpointUri := fromEndpointUri;
    }

    /** The out headers that `getOut()` hands back: the existing ones, or an empty map for a new out message. */
    function OutHeadersOnGetOut(): (headers: map<string, Value>)
      reads this
      ensures hasOut ==> headers == outHeaders
      ensures !hasOut ==> headers == map[]
    {
      if hasOut then outHeaders else map[]
    }

    /** `getOut()`: the out message, created empty when the exchange has none yet. */
    method GetOut()
      modifies this`hasOut, this`outHeaders
      ensures hasOut && outHeaders == old(OutHeadersOnGetOut())
    {
      if !hasOut {
        hasOut := true;
        outHeaders := map[];
      }
    }
  }
}
