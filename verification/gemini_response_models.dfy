/**
 * The decoded answer of the extraction backend, and the compact JSON text
 * that a product list is stored as inside a guide's `extractedData`.
 */
module GeminiResponseModels {
  import opened Wrappers
  import opened KotlinText

  /** One product line. `cantidad` is a number in the response; here it is
      carried as the JSON text of that number. */
  datatype Producto = Producto(
    descripcion: Option<string>,
    cantidad: Option<string>,
    unidad: Option<string>)

  datatype ExtractedDetails = ExtractedDetails(
    fechaLlegada: Option<string>,
    fechaRegistro: Option<string>,
    costoTransporte: Option<string>,
    productos: Option<seq<Producto>>)

  datatype GeminiResponse = GeminiResponse(
    date: Option<string>,
    ruc: Option<string>,
    extractedData: Option<ExtractedDetails>)

  /** The body of a JSON string literal: quote and backslash are escaped. */
  function Escape(s: string): (r: string)
    ensures |r| >= |s|
    ensures '"' !in s && '\\' !in s ==> r == s
  {
    if s == [] then []
    else (if s[0] == '"' || s[0] == '\\' then ['\\', s[0]] else [s[0]]) + Escape(s[1..])
  }

  /** Reading an escaped body back: a backslash takes the next character
      literally. */
  function Unescape(s: string): string
  {
    if s == [] then []
    else if s[0] == '\\' && |s| >= 2 then [s[1]] + Unescape(s[2..])
    else [s[0]] + Unescape(s[1..])
  }

  /** Escaping loses nothing: the string literal reads back as the text. */
  lemma {:induction false} UnescapeEscape(s: string)
    ensures Unescape(Escape(s)) == s
  {
    if s != [] {
      UnescapeEscape(s[1..]);
      var head := if s[0] == '"' || s[0] == '\\' then ['\\', s[0]] else [s[0]];
      assert Escape(s) == head + Escape(s[1..]);
      if s[0] == '"' || s[0] == '\\' {
        assert Escape(s)[2..] == Escape(s[1..]);
      } else {
        assert Escape(s)[1..] == Escape(s[1..]);
      }
    }
  }

  /** Two different texts never share a string literal. */
  lemma EscapeInjective(a: string, b: string)
    requires Escape(a) == Escape(b)
    ensures a == b
  {
    UnescapeEscape(a);
    UnescapeEscape(b);
  }

  function Quote(s: string): string {
    "\"" + Escape(s) + "\""
  }

  /** `"name":value` for a field that is present, nothing for a null one
      (fields equal to their null default are not encoded). */
  function Field(name: string, value: Option<string>, quoted: bool): seq<string> {
    match value
    case None => []
    case Some(v) => [Quote(name) + ":" + (if quoted then Quote(v) else v)]
  }

  /** Comma-separated concatenation. */
  function CommaList(items: seq<string>): (r: string)
    ensures items == [] ==> r == ""
  {
    if items == [] then ""
    else if |items| == 1 then items[0]
    else items[0] + "," + CommaList(items[1..])
  }

  function EncodeProducto(p: Producto): (r: string)
    ensures |r| >= 2 && r[0] == '{' && r[|r| - 1] == '}'
  {
    "{" + CommaList(Field("descripcion", p.descripcion, true)
                    + Field("cantidad", p.cantidad, false)
                    + Field("unidad", p.unidad, true)) + "}"
  }

  function EncodeObjects(ps: seq<Producto>): (r: string)
    ensures ps != [] ==> |r| >= 2 && r[0] == '{'
  {
    if ps == [] then ""
    else if |ps| == 1 then EncodeProducto(ps[0])
    else EncodeProducto(ps[0]) + "," + EncodeObjects(ps[1..])
  }

  /** The product list as compact JSON: an array of objects. */
  function EncodeProductos(ps: seq<Producto>): (r: string)
    ensures |r| >= 2 && r[0] == '[' && r[|r| - 1] == ']'
    ensures ps == [] ==> r == "[]"
    ensures ps != [] ==> |r| >= 4 && r[1] == '{'
  {
    "[" + EncodeObjects(ps) + "]"
  }

  /** A non-empty product list is stored as text that is neither blank nor
      the empty array, which is what approval of a guide asks for. */
  lemma NonEmptyListIsStorable(ps: seq<Producto>)
    requires ps != []
    ensures !IsBlank(EncodeProductos(ps)) && EncodeProductos(ps) != "[]"
  {
    var r := EncodeProductos(ps);
    assert !IsWhitespace(r[0]);
    assert |r| != |"[]"|;
  }
}
