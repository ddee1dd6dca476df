/** The JSON-like values that request bodies carry and documents serialise to. */
module Json {

  /** A database object id; the store hands them out in increasing order. */
  type Id = nat

  newtype Byte = x: int | 0 <= x < 256

  datatype Value =
    | JBool(b: bool)
    | JNum(n: int)
    | JStr(s: string)
    | JId(id: Id)
    | JBin(bytes: seq<Byte>)
    | JArr(items: seq<Value>)
    | JObj(fields: map<string, Value>)

  /** A parsed JSON object such as a request body: its keys are distinct. */
  type Object = map<string, Value>
}

/** The collaborators the code calls but does not define. */
module External {
  import opened Wrappers
  import opened Json

  /** hash and compare stand for bcrypt (hash with 8 rounds, compare plain text with a hash),
      isEmail for the validator package, and toAvatarPng for sharp resizing an upload
      to 250x250 and encoding it as PNG (None when the bytes are not an image). */
  datatype Services = Services(
    hash: string -> string,
    compare: (string, string) -> bool,
    isEmail: string -> bool,
    toAvatarPng: seq<Byte> -> Option<seq<Byte>>)
}
