/** How the scripts read the JSON objects the GitHub CLI returns. */
module Json {
  import opened Wrappers

  /** One key of a JSON object: missing, `null`, or a string. */
  datatype Field = Absent | Null | Str(value: string)

  /** `obj.get(key)`: a missing key and `null` both read as `None`. */
  function Get(f: Field): (o: Option<string>)
    ensures o.Some? <==> f.Str?
    ensures o.Some? ==> o.value == f.value
  {
    match f
    case Str(s) => Some(s)
    case _ => None
  }

  /** `obj.get(key, d)`: only a missing key gives the default; `null` stays `None`. */
  function GetDefault(f: Field, d: string): (o: Option<string>)
    ensures f.Absent? ==> o == Some(d)
    ensures f.Null? ==> o.None?
    ensures f.Str? ==> o == Some(f.value)
  {
    match f
    case Absent => Some(d)
    case Null => None
    case Str(s) => Some(s)
  }

  /** The value written back to JSON: `None` becomes `null`. */
  function ToField(o: Option<string>): (f: Field)
    ensures Get(f) == o
    ensures !f.Absent?
  {
    match o
    case None => Null
    case Some(s) => Str(s)
  }

  /** Python truthiness of a string that may be `None`: present and not empty. */
  predicate Truthy(o: Option<string>) {
    o.Some? && |o.value| > 0
  }

  /** `o or ""`. */
  function OrEmpty(o: Option<string>): (s: string)
    ensures Truthy(o) ==> s == o.value
    ensures !Truthy(o) ==> s == ""
  {
    if Truthy(o) then o.value else ""
  }
}
