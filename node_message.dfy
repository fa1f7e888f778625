/** src/structures/node_message.rs: a message value that must fit in three
    bits. */
module NodeMessage {
  import opened Text

  /** Rust's `u8`. */
  type U8 = x: int | 0 <= x < 256

  /** A `u8` that fits in three bits. */
  type U3 = x: U8 | x < 8

  /** The message; immutable once built, so its value never changes. The
      Rust field is private and `new` checks it, so every message's value
      fits in three bits, which the field's type states here. */
  datatype NodeMessage = NodeMessage(value: U3)

  /** `NodeMessage::new`: None where the source panics, i.e. unless the
      value is below 8. */
  function New(value: U8): (r: Option<NodeMessage>)
    ensures r.Some? <==> value < 8
    ensures r.Some? ==> Value(r.value) == value
  {
    if value < 8 then Some(NodeMessage(value)) else None
  }

  /** `value()` */
  function Value(m: NodeMessage): U3 {
    m.value
  }
}
