// The one-byte message tags of the Eclair protocol (src/scales/eclair.h).

module EclairMessages {

  /** The enumerators of `EclairMessageType`. The driver's timer-status tag is
      Config ("Timer Start/Stop"), its battery-status tag is Battery and its
      flow-rate tag is Flow. */
  datatype MessageType = Weight | Flow | Config | Battery

  /** The byte a tag is sent and recognised as (the enum's underlying type is `uint8_t`). */
  function TagByte(t: MessageType): bv8
  {
    match t
    case Weight => 0x57   // 'W'
    case Flow => 0x46     // 'F'
    case Config => 0x43   // 'C'
    case Battery => 0x42  // 'B'
  }

  /** The header byte of the tare command. The enumeration declares no tare
      enumerator, so the model leaves the value open: any byte that is none
      of the four tags (0x54 only witnesses that such a byte exists). */
  type TareTag = b: bv8 | b != 0x57 && b != 0x46 && b != 0x43 && b != 0x42 witness 0x54

  /** Tags on the data channel. */
  lemma DataChannelTags()
    ensures TagByte(Weight) == 0x57 && TagByte(Flow) == 0x46
  {
  }

  /** Tags on the config channel. */
  lemma ConfigChannelTags()
    ensures TagByte(Config) == 0x43 && TagByte(Battery) == 0x42
  {
  }

  /** Distinct tags are distinct bytes, so dispatch on the header byte is unambiguous. */
  lemma TagsDistinct(t1: MessageType, t2: MessageType)
    ensures TagByte(t1) == TagByte(t2) <==> t1 == t2
  {
  }

  /** The tare header never collides with one of the enumerated tags. */
  lemma TareTagDistinct(tare: TareTag, t: MessageType)
    ensures TagByte(t) != tare
  {
  }
}
