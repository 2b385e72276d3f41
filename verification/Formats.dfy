/** The formats of the MessagePack specification, by the first byte (its section "Formats"). */
module Formats {
  import opened Bytes
  import opened Values

  /** The parse functions of MsgPackParser; templates carry the width or kind they are instantiated with.
      NoHandler is the null pointer of a value-initialised table entry. */
  datatype Handler =
    | PosFixint | FixObject | FixArray | FixString
    | Nil | Invalid | Boolean
    | Binary(width: nat) | Extension(width: nat)
    | Float | Double | Arith(kind: IntKind)
    | FixExt | String(width: nat) | Array(width: nat) | Object(width: nat)
    | NegFixint
    | NoHandler

  function FormatOf(b: byte): (h: Handler)
    ensures !h.NoHandler?
    ensures h.Binary? || h.Extension? || h.String? ==> h.width in {1, 2, 4}
    ensures h.Array? || h.Object? ==> h.width in {2, 4}
    ensures h.FixExt? ==> 0xd4 <= b <= 0xd8
  {
    if b <= 0x7f then PosFixint
    else if b <= 0x8f then FixObject
    else if b <= 0x9f then FixArray
    else if b <= 0xbf then FixString
    else if b >= 0xe0 then NegFixint
    else
      match b
      case 0xc0 => Nil
      case 0xc1 => Invalid
      case 0xc2 => Boolean
      case 0xc3 => Boolean
      case 0xc4 => Binary(1)
      case 0xc5 => Binary(2)
      case 0xc6 => Binary(4)
      case 0xc7 => Extension(1)
      case 0xc8 => Extension(2)
      case 0xc9 => Extension(4)
      case 0xca => Float
      case 0xcb => Double
      case 0xcc => Arith(U8)
      case 0xcd => Arith(U16)
      case 0xce => Arith(U32)
      case 0xcf => Arith(U64)
      case 0xd0 => Arith(I8)
      case 0xd1 => Arith(I16)
      case 0xd2 => Arith(I32)
      case 0xd3 => Arith(I64)
      case 0xd4 => FixExt
      case 0xd5 => FixExt
      case 0xd6 => FixExt
      case 0xd7 => FixExt
      case 0xd8 => FixExt
      case 0xd9 => String(1)
      case 0xda => String(2)
      case 0xdb => String(4)
      case 0xdc => Array(2)
      case 0xdd => Array(4)
      case 0xde => Object(2)
      case _ => Object(4)
  }

  /** How many bytes of number (a value or a length) follow the first byte. */
  function FieldWidth(h: Handler): (w: nat) {
    match h
    case Float => 4
    case Double => 8
    case Arith(kind) => kind.Width()
    case String(w) => w
    case Binary(w) => w
    case Extension(w) => w
    case Array(w) => w
    case Object(w) => w
    case _ => 0
  }
}
