/** The closed vocabulary of native type spellings and the host types they
    stand for (`map_types`). */
module TypeMapper {
  import opened Common

  /** The host-language types a stub can mention: `int` and `str`. */
  datatype HostType = Int | Str

  /** The one native spelling of each host type. */
  function Spelling(t: HostType): string {
    match t
    case Int => "i32"
    case Str => "[*:0]const u8"
  }

  /** The host type's name as the stub text writes it (`typ.__name__`). */
  function HostName(t: HostType): string {
    match t
    case Int => "int"
    case Str => "str"
  }

  /** `map_types`: exact, case-sensitive lookup; anything outside the
      vocabulary fails and the failure carries the spelling. */
  function MapType(spelling: string): (r: Result<HostType>)
    ensures forall t :: r == Ok(t) <==> spelling == Spelling(t)
    ensures r.Err? ==> r.error == UnknownType(spelling)
  {
    if spelling == "i32" then Ok(Int)
    else if spelling == "[*:0]const u8" then Ok(Str)
    else Err(UnknownType(spelling))
  }

  /** A spelling outside the vocabulary, such as `f64`, fails. */
  lemma MapTypeRejectsFloat()
    ensures MapType("f64") == Err(UnknownType("f64"))
  {
  }
}
