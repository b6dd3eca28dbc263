/** Decoded forms of the records and envelopes the Network Link protocol exchanges.
    A JSON key that may be absent is an `Option`; a `connected` key that is absent
    reads as false, as an absent property is falsy in JavaScript. */
module Wire {

  datatype Option<T> = None | Some(value: T)

  /** The `{seconds, nanos}` stamp a group definition carries; opaque here. */
  datatype Timestamp = Timestamp(seconds: int, nanos: int)

  /** An `{ip, port}` pair: the shape of a member inside a group definition. */
  datatype Endpoint = Endpoint(ip: string, port: int)

  /** A member record (a roster entry, the `status` of a heartbeat reply, or `me`).
      `ip` is always a string; the empty string is the one falsy `ip` modelled. A record
      that lacks `ip` altogether, or whose `ip` is `null` or not a string, is not modelled. */
  datatype Member = Member(
    ip: string,
    port: int,
    name: Option<string>,
    platform: Option<string>,
    osVersion: Option<string>,
    hostDescription: Option<string>,
    apiVersion: Option<string>,
    connected: bool)

  /** The roster entry made from an `{ip, port}` pair: no descriptive fields, not connected. */
  function Bare(e: Endpoint): Member {
    Member(e.ip, e.port, None, None, None, None, None, false)
  }

  function EndpointOf(m: Member): Endpoint {
    Endpoint(m.ip, m.port)
  }

  /** The body of `group_definition` (and of its alias `GroupDefinition`). */
  datatype GroupDefinition = GroupDefinition(
    timestamp: Option<Timestamp>,
    secret: string,
    name: string,
    members: seq<Endpoint>)

  /** A decoded reply body. `groupDefinition` is the wire key `group_definition`
      (status and heartbeat replies), `groupDefinitionPascal` the key `GroupDefinition`
      (admission replies), `memberName` the key `member_name`. */
  datatype Envelope = Envelope(
    groupDefinition: Option<GroupDefinition>,
    groupDefinitionPascal: Option<GroupDefinition>,
    memberName: Option<string>,
    status: Option<Member>)

  /** The definition a merge reads: `GroupDefinition`, when that key is present,
      replaces `group_definition`. */
  function Definition(e: Envelope): Option<GroupDefinition> {
    if e.groupDefinitionPascal.Some? then e.groupDefinitionPascal else e.groupDefinition
  }

  /** The decoded body `{ "GroupMember": {...} }` of an admission request. */
  datatype AddMemberBody = AddMemberBody(groupMember: Member)

  /** What an outbound request comes back with: a decoded reply, a refused
      connection (`ECONNREFUSED`), or any other transport error. */
  datatype Outcome = Reply(envelope: Envelope) | ConnRefused | OtherError

  /** Which of the callbacks handed to the join handshake is invoked. */
  datatype Signal = Silent | Joined | JoinFailed
}
