/** The values a decoded JSON document holds: what the program calls `any`. */
module Values {

  datatype Value =
    | Null
    | Bool(flag: bool)
    | Number(number: real)
    | Text(text: string)
    | List(items: seq<Value>)
    | Object(fields: map<string, Value>)
}
