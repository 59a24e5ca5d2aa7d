/**
 * The CXF side of the binding: a protocol message is a map from well-known
 * keys to values (org.apache.cxf.message.Message is a java.util.Map).
 */
module Cxf {
  import opened Camel

  // Keys, as the constants of org.apache.cxf.message.Message define them.
  const REQUEST_URI: string := "org.apache.cxf.request.uri"
  const BASE_PATH: string := "org.apache.cxf.message.Message.BASE_PATH"
  const HTTP_REQUEST_METHOD: string := "org.apache.cxf.request.method"
  const PATH_INFO: string := "org.apache.cxf.message.Message.PATH_INFO"
  const CONTENT_TYPE: string := "Content-Type"
  const ACCEPT_CONTENT_TYPE: string := "Accept"
  const ENCODING: string := "org.apache.cxf.message.Message.ENCODING"
  const PROTOCOL_HEADERS: string := "org.apache.cxf.message.Message.PROTOCOL_HEADERS"
  const RESPONSE_CODE: string := "org.apache.cxf.message.Message.RESPONSE_CODE"

  type Message = map<string, Value>

  /** `Map.get`: the value stored under `key`, or null when there is none. */
  function Get(m: Message, key: string): (v: Value)
    ensures key !in m ==> v == Null
    ensures key in m ==> v == m[key]
  {
    if key in m then m[key] else Null
  }
}
