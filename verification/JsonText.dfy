/**
 JSON texts after the grammar of RFC 8259 (sections 2 to 7): values together with the whitespace between their tokens
 and the form of every escape, so that a well-formed value stands for one concrete text, given by Print.
 */
module JsonText {
  import opened Prelude

  predicate IsWs(s: string) {
    forall i :: 0 <= i < |s| ==> s[i] in " \t\n\r"
  }

  predicate IsDigits(s: string) {
    |s| >= 1 && forall i :: 0 <= i < |s| ==> '0' <= s[i] <= '9'
  }

  predicate IsHexDigit(c: char) {
    '0' <= c <= '9' || 'a' <= c <= 'f' || 'A' <= c <= 'F'
  }

  /** Section 7: a character of a string, as written. */
  datatype StrChar = Plain(c: char) | Escaped(c: char) | Unicode(h1: char, h2: char, h3: char, h4: char) {
    predicate WellFormed() {
      match this
      case Plain(c) => ' ' <= c && c != '"' && c != '\\'
      case Escaped(c) => c in "\"\\/bfnrt"
      case Unicode(a, b, c, d) => IsHexDigit(a) && IsHexDigit(b) && IsHexDigit(c) && IsHexDigit(d)
    }

    function Print(): string {
      match this
      case Plain(c) => [c]
      case Escaped(c) => ['\\', c]
      case Unicode(a, b, c, d) => ['\\', 'u', a, b, c, d]
    }
  }

  /** Section 6: [ minus ] int [ frac ] [ exp ]. */
  datatype Number = Number(minus: bool, integer: string, fraction: Option<string>, exponent: Option<Exponent>) {
    predicate WellFormed() {
      && IsDigits(integer) && (|integer| > 1 ==> integer[0] != '0')
      && (fraction.Some? ==> IsDigits(fraction.value))
      && (exponent.Some? ==> exponent.value.WellFormed())
    }

    function Print(): string {
      (if minus then "-" else "") + integer
      + (if fraction.Some? then "." + fraction.value else "")
      + (if exponent.Some? then [exponent.value.e] + exponent.value.sign + exponent.value.digits else "")
    }
  }

  datatype Exponent = Exponent(e: char, sign: string, digits: string) {
    predicate WellFormed() {
      e in "eE" && sign in ["", "+", "-"] && IsDigits(digits)
    }
  }

  datatype Json =
    | Literal(name: string)
    | Num(number: Number)
    | Str(chars: seq<StrChar>)
    | Array(lead: string, items: Items)
    | Object(lead: string, members: Members)

  datatype Items = NoItem | Item(before: string, value: Json, after: string, rest: Items)

  datatype Members =
    | NoMember
    | Member(
        before: string, key: seq<StrChar>, afterKey: string, beforeValue: string, value: Json, after: string,
        rest: Members)

  predicate StrWellFormed(chars: seq<StrChar>) {
    forall i :: 0 <= i < |chars| ==> chars[i].WellFormed()
  }

  predicate WellFormed(v: Json) {
    match v
    case Literal(name) => name in ["null", "true", "false"]
    case Num(n) => n.WellFormed()
    case Str(chars) => StrWellFormed(chars)
    case Array(lead, items) => IsWs(lead) && ItemsWellFormed(items)
    case Object(lead, members) => IsWs(lead) && MembersWellFormed(members)
  }

  predicate ItemsWellFormed(items: Items) {
    match items
    case NoItem => true
    case Item(before, value, after, rest) => IsWs(before) && WellFormed(value) && IsWs(after) && ItemsWellFormed(rest)
  }

  predicate MembersWellFormed(members: Members) {
    match members
    case NoMember => true
    case Member(before, key, afterKey, beforeValue, value, after, rest) =>
      && IsWs(before) && StrWellFormed(key) && IsWs(afterKey) && IsWs(beforeValue)
      && WellFormed(value) && IsWs(after) && MembersWellFormed(rest)
  }

  function PrintChars(chars: seq<StrChar>): string {
    if chars == [] then "" else chars[0].Print() + PrintChars(chars[1..])
  }

  function PrintStr(chars: seq<StrChar>): string {
    "\"" + PrintChars(chars) + "\""
  }

  function Print(v: Json): string {
    match v
    case Literal(name) => name
    case Num(n) => n.Print()
    case Str(chars) => PrintStr(chars)
    case Array(lead, items) => "[" + lead + PrintItems(items) + "]"
    case Object(lead, members) => "{" + lead + PrintMembers(members) + "}"
  }

  function PrintItems(items: Items): string {
    match items
    case NoItem => ""
    case Item(before, value, after, rest) =>
      before + Print(value) + after + (if rest.NoItem? then "" else ",") + PrintItems(rest)
  }

  function KeyText(before: string, key: seq<StrChar>, afterKey: string, beforeValue: string): string {
    before + PrintStr(key) + (afterKey + ":" + beforeValue)
  }

  function PrintMembers(members: Members): string {
    match members
    case NoMember => ""
    case Member(before, key, afterKey, beforeValue, value, after, rest) =>
      KeyText(before, key, afterKey, beforeValue) + Print(value) + after + (if rest.NoMember? then "" else ",")
      + PrintMembers(rest)
  }
}
