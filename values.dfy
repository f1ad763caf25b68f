/** The tagged value model of the StackLang engine: the `DataType` tags, the
    type descriptors of `TypeElement`, and the six kinds of stack element. */
module Values {

  datatype Option<+T> = None | Some(value: T)

  /** std::numeric_limits<size_t>::max(), which is also std::string::npos. */
  const SIZE_MAX: nat := 0xFFFF_FFFF_FFFF_FFFF

  /** The ten kinds of stack.h plus the three specialization tags (`Exact`,
      `Inexact`, `Quoted`) that the type checker and the type parser use. */
  datatype DataType =
    | Number | String | Boolean | Substack | Type | Command
    | Identifier | Primitive | Defined | Any
    | Exact | Inexact | Quoted

  /** A `TypeElement`: a kind and an optional, owned specialization. */
  datatype TypeDesc = TypeDesc(kind: DataType, specialization: Option<TypeDesc>)

  /** One element of a stack. A substack owns its nested elements, listed from
      the top of the nested stack down (index 0 is the top). The number payload
      is an exact rational; only the `exact` flag is ever inspected here. */
  datatype Element =
    | NumberElement(value: real, exact: bool)
    | StringElement(data: string)
    | BooleanElement(b: bool)
    | SubstackElement(items: seq<Element>)
    | TypeElement(desc: TypeDesc)
    | CommandElement(name: string, quoted: bool)

  /** The `DataType` an element reports through `getType()`. */
  function KindOf(e: Element): (k: DataType)
    ensures k in {DataType.Number, DataType.String, DataType.Boolean,
                  DataType.Substack, DataType.Type, DataType.Command}
  {
    match e
    case NumberElement(_, _) => DataType.Number
    case StringElement(_) => DataType.String
    case BooleanElement(_) => DataType.Boolean
    case SubstackElement(_) => DataType.Substack
    case TypeElement(_) => DataType.Type
    case CommandElement(_, _) => DataType.Command
  }

  /** A command that the engine executes: an unquoted `CommandElement`. */
  predicate IsDirective(e: Element) {
    e.CommandElement? && !e.quoted
  }
}
