/**
 * What a log source yields: messages tagged with a topic, a receive time in
 * nanoseconds and a byte size, interleaved with "problem" markers for records
 * the source could not read.
 */
module Messages {

  type Topic = string

  datatype Message = Message(topic: Topic, receiveTime: nat, sizeInBytes: nat)

  /** One item of a source's message stream: a message event or a problem marker. */
  datatype IterResult =
    | MessageResult(msgEvent: Message)
    | ProblemResult(connectionId: int, problem: string)

  /** The result carries a message received strictly after `end`. */
  predicate PastEnd(r: IterResult, end: nat) {
    r.MessageResult? && r.msgEvent.receiveTime > end
  }
}
