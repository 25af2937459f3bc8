/** The values a hydrated cell can hold. */
module Values {

  datatype Value =
    | Null
    | Int(i: int)
    | Num(x: real)
    | Text(s: string)
    | Bool(b: bool)
    | Time(nanos: int)
    | Bytes(raw: string)
}
