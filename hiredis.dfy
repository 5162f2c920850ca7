/**
 * What the wrapper classes see of the hiredis client library: the reply
 * type codes, a reply object, and the outcome of redisConnect.  The library
 * itself (hiredis/hiredis.h) is not part of this model; its type codes are
 * those hiredis publishes.
 */
module Hiredis {
  import opened CTypes

  const REPLY_STRING: int32 := 1
  const REPLY_ARRAY: int32 := 2
  const REPLY_INTEGER: int32 := 3
  const REPLY_NIL: int32 := 4
  const REPLY_STATUS: int32 := 5
  const REPLY_ERROR: int32 := 6

  /** The fields of a redisReply that buildReply reads: type, str, len and integer. */
  datatype Reply = Reply(kind: int32, str: string, len: nat, integer: int64)

  /** What redisConnect hands back: no context at all, a context with err set and its errstr, or a live connection. */
  datatype ConnectOutcome = NoContext | Refused(errstr: string) | Established

  /** redisConnect(host, port), a call into the network. */
  type Connector = (string, int32) -> ConnectOutcome
}
