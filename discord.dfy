/** The values the bot reads from the chat platform's REST API. */
module Discord {

  datatype Option<+T> = None | Some(value: T)

  /** Platform ids ("snowflakes") arrive as JSON strings. */
  type Snowflake = string

  datatype User = User(id: Snowflake)

  /** A message as returned by the list-messages endpoint, reduced to the fields the bot reads. */
  datatype Message = Message(id: Snowflake, content: string, author: User, timestamp: string)

  /** A thread channel; `messageCount` is the platform's own `message_count` field. */
  datatype Thread = Thread(id: Snowflake, messageCount: int)

  /** What a non-OK response turns into: its status and its JSON error body. */
  datatype ApiError = ApiError(status: int, body: string)

  function Last<T>(s: seq<T>): T
    requires |s| > 0
  {
    s[|s| - 1]
  }

  /** The elements of `s` in the opposite order, as `Array.prototype.reverse` leaves them. */
  function Reverse<T>(s: seq<T>): (r: seq<T>)
    ensures |r| == |s|
    ensures forall i :: 0 <= i < |s| ==> r[i] == s[|s| - 1 - i]
  {
    if s == [] then [] else Reverse(s[1..]) + [s[0]]
  }
}
