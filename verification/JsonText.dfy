/**
 * Concrete JSON texts (RFC 8259): every way of writing a value down, with its
 * insignificant whitespace (section 2), members (section 4) and string escapes (section 7).
 */
module JsonText {
  import T = Text

  datatype StringChar =
    | Plain(c: char)
    | Escape(c: char)
    | UnicodeEscape(hex: string)

  datatype Value =
    | Token(text: string)
    | Str(chars: seq<StringChar>)
    | EmptyArray(ws: string)
    | Array(elements: Elements)
    | EmptyObject(ws: string)
    | Object(members: Members)

  datatype Elements =
    | LastElement(before: string, value: Value, after: string)
    | MoreElements(before: string, value: Value, after: string, rest: Elements)

  datatype Members =
    | LastMember(before: string, name: seq<StringChar>, mid: string, gap: string, value: Value, after: string)
    | MoreMembers(before: string, name: seq<StringChar>, mid: string, gap: string, value: Value, after: string,
                  rest: Members)

  // ----- Which trees are JSON -----

  predicate IsWs(c: char) {
    c == ' ' || c == '\t' || c == '\n' || c == '\r'
  }

  predicate AllWs(s: string) {
    forall i | 0 <= i < |s| :: IsWs(s[i])
  }

  /** Letters, digits, signs and dots: the literals and every number are made of these. */
  predicate IsTokenChar(c: char) {
    '0' <= c <= '9' || 'a' <= c <= 'z' || c == 'E' || c == '+' || c == '-' || c == '.'
  }

  predicate ValidChar(c: StringChar) {
    match c
    case Plain(p) => p != '"' && p != '\\' && p >= ' '
    case Escape(e) => e in "\"\\/bfnrt"
    case UnicodeEscape(hex) => |hex| == 4 && forall i | 0 <= i < 4 :: T.IsHex(hex[i])
  }

  predicate ValidChars(cs: seq<StringChar>) {
    forall i | 0 <= i < |cs| :: ValidChar(cs[i])
  }

  predicate Valid(v: Value) {
    match v
    case Token(t) => forall i | 0 <= i < |t| :: IsTokenChar(t[i])
    case Str(cs) => ValidChars(cs)
    case EmptyArray(ws) => AllWs(ws)
    case Array(es) => ValidElements(es)
    case EmptyObject(ws) => AllWs(ws)
    case Object(ms) => ValidMembers(ms)
  }

  predicate ValidElements(es: Elements) {
    && AllWs(es.before) && Valid(es.value) && AllWs(es.after)
    && (es.MoreElements? ==> ValidElements(es.rest))
  }

  predicate ValidMembers(ms: Members) {
    && AllWs(ms.before) && ValidChars(ms.name) && AllWs(ms.mid) && AllWs(ms.gap)
    && Valid(ms.value) && AllWs(ms.after)
    && (ms.MoreMembers? ==> ValidMembers(ms.rest))
  }

  predicate IsObject(v: Value) {
    (v.EmptyObject? || v.Object?) && Valid(v)
  }

  // ----- Printing -----

  function CharText(c: StringChar): string {
    match c
    case Plain(p) => [p]
    case Escape(e) => "\\" + [e]
    case UnicodeEscape(hex) => "\\u" + hex
  }

  function CharsText(cs: seq<StringChar>): string {
    if cs == [] then "" else CharText(cs[0]) + CharsText(cs[1..])
  }

  function Quoted(cs: seq<StringChar>): string {
    "\"" + CharsText(cs) + "\""
  }

  function Text(v: Value): string {
    match v
    case Token(t) => t
    case Str(cs) => Quoted(cs)
    case EmptyArray(ws) => "[" + ws + "]"
    case Array(es) => "[" + ElementsText(es) + "]"
    case EmptyObject(ws) => "{" + ws + "}"
    case Object(ms) => "{" + MembersText(ms) + "}"
  }

  function ElementsText(es: Elements): string {
    var one := es.before + Text(es.value) + es.after;
    if es.LastElement? then one else one + "," + ElementsText(es.rest)
  }

  function MembersText(ms: Members): string {
    var one := ms.before + Quoted(ms.name) + ms.mid + ":" + ms.gap + Text(ms.value) + ms.after;
    if ms.LastMember? then one else one + "," + MembersText(ms.rest)
  }
}
