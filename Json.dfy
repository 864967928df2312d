/** The claim maps that Jackson's ObjectMapper produces for a token's header
    and body (a `Map<String, Object>`), and the three ways the validator reads
    a claim out of one: `toString()`, an `(Integer)` cast and a `(String)` cast. */
module Json {
  import opened Wrappers

  /** A value Jackson places in the map. Integral numbers keep their value;
      `Other` stands for floats, arrays and nested objects and carries the text
      their `toString()` gives. */
  datatype Value = Null | Bool(b: bool) | Int(n: int) | Str(s: string) | Other(text: string)

  type Claims = map<string, Value>

  /** The range of a Java `int`; Jackson yields an `Integer` exactly for the
      integral numbers inside it (a `Long` or a `BigInteger` beyond). */
  const INT_MIN: int := -0x8000_0000
  const INT_MAX: int := 0x7FFF_FFFF

  function DigitChar(d: nat): char
    requires d < 10
  {
    "0123456789"[d]
  }

  function DecimalOfNat(n: nat): string
    decreases n
  {
    if n < 10 then [DigitChar(n)] else DecimalOfNat(n / 10) + [DigitChar(n % 10)]
  }

  /** `Object.toString()` of a non-null value. */
  function ToJavaString(v: Value): string
    requires !v.Null?
  {
    match v
    case Bool(b) => if b then "true" else "false"
    case Int(n) => if n < 0 then "-" + DecimalOfNat(-n) else DecimalOfNat(n)
    case Str(s) => s
    case Other(text) => text
  }

  /** `m.get(name).toString()`: None where a missing or null claim makes the
      call throw a NullPointerException. */
  function ClaimText(m: Claims, name: string): (r: Option<string>)
    ensures r.None? <==> name !in m || m[name].Null?
    ensures name in m && m[name].Str? ==> r == Some(m[name].s)
  {
    if name in m && !m[name].Null? then Some(ToJavaString(m[name])) else None
  }

  /** `(Integer) m.get(name)`, unboxed: None where the claim is missing or null
      (unboxing throws) or is not an `Integer` (the cast throws). */
  function IntegerClaim(m: Claims, name: string): (r: Option<int>)
    ensures r.Some? <==> name in m && m[name].Int? && INT_MIN <= m[name].n <= INT_MAX
    ensures r.Some? ==> r.value == m[name].n
  {
    if name in m then
      match m[name]
      case Int(n) => if INT_MIN <= n <= INT_MAX then Some(n) else None
      case _ => None
    else None
  }

  /** What `(String) m.get(name)` gives: a null reference, a string, or a
      ClassCastException. */
  datatype StringCast = NullRef | Text(s: string) | BadCast

  function StringClaim(m: Claims, name: string): (r: StringCast)
    ensures r.NullRef? <==> name !in m || m[name].Null?
    ensures r.Text? <==> name in m && m[name].Str?
    ensures r.Text? ==> r.s == m[name].s
  {
    if name !in m then NullRef
    else
      match m[name]
      case Null => NullRef
      case Str(s) => Text(s)
      case _ => BadCast
  }
}
