/** The values an OSC message or bundle object stands for. */
module OscValues {
  import opened Bytes

  /** A float is its 32-bit pattern: the packet code copies floats byte by byte. */
  datatype Arg = Int32(i: int32) | Float(bits: uint32) | Str(s: bytes)
  datatype Message = Message(address: bytes, args: seq<Arg>)
  datatype Bundle = Bundle(bundles: seq<Bundle>, messages: seq<Message>)
}
