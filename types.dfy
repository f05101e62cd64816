/** Shared vocabulary of the converter: optional values, error results,
    the three build languages, the declared file types and the warnings
    the converter emits instead of failing. */
module Types {

  datatype Option<+T> = None | Some(value: T)

  /** Why a conversion step raised instead of returning a value. */
  datatype Error =
    | MissingAttribute(name: string)          // KeyError from element.attrib[name]
    | TagCount(name: string, count: nat)      // "Only one '<name>' tag per tree is supported"
    | NotBoolean(name: string)                // strict_bool: neither "0" nor "1"
    | NotHex(name: string)                    // strict_hex: no "0x" prefix, or int(..., 16) refused it
    | NoText(name: string)                    // a method called on an element text that is None
    | NoGroup                                 // group merge with no display group at all
    | NoFileNumbers                           // max() over no file numbers at all

  datatype Result<+T> = Ok(value: T) | Err(error: Error)

  /** The build languages, with the display value of each. */
  datatype Language = Asm | C | Cpp {
    /** `Language.value` in the source. */
    function DisplayName(): string {
      match this
      case Asm => "Assembler"
      case C => "C"
      case Cpp => "C++"
    }
    /** `Language.name` in the source, used in variable names such as SOURCES_ASM. */
    function Name(): string {
      match this
      case Asm => "ASM"
      case C => "C"
      case Cpp => "CPP"
    }
  }

  /** File types as declared in the options dialog of the IDE. */
  datatype FileType =
    | CSource | AsmSource | ObjectFile | Library | TextDocument | Custom | CppSource | Image

  /** Non-fatal conditions, reported with warnings.warn in the source. */
  datatype Warning =
    | InconsistentGroupNumber(group: string, found: int, expected: int)
    | UnknownRteFile(filename: string)
    | UnsupportedFileType(filename: string, fileType: Option<FileType>)
}
