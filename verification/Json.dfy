/** The tree a cJSON structure stands for, the text print_value gives it, and the tree parse_value reads. */
module Json {
  import opened CStrings
  import opened JsonStrings

  // The child chain of an array or object is linked through `next`.
  datatype Json =
    | Null
    | Bool(b: bool)
    | Number(d: real)
    | String(text: string)
    | Array(items: Items)
    | Object(members: Members)
  datatype Items = NoItems | Item(head: Json, next: Items)
  datatype Members = NoMembers | Member(name: string, value: Json, next: Members)

  // ----- printing -----

  const INT_MAX := 0x7FFF_FFFF

  /** The numbers print_number writes with "%d". */
  predicate IsInt(d: real) {
    d == d.Floor as real && -INT_MAX - 1 <= d.Floor <= INT_MAX
  }

  /** C strings hold no NUL, and numbers are integers in int range. */
  predicate Printable(v: Json) {
    match v
    case Number(d) => IsInt(d)
    case String(text) => NulFree(text)
    case Array(items) => PrintableItems(items)
    case Object(members) => PrintableMembers(members)
    case _ => true
  }

  predicate PrintableItems(items: Items) {
    items.Item? ==> Printable(items.head) && PrintableItems(items.next)
  }

  predicate PrintableMembers(ms: Members) {
    ms.Member? ==> NulFree(ms.name) && Printable(ms.value) && PrintableMembers(ms.next)
  }

  function Digit(d: nat): char
    requires d < 10
  {
    ('0' as int + d) as char
  }

  function Decimal(n: nat): string {
    if n < 10 then [Digit(n)] else Decimal(n / 10) + [Digit(n % 10)]
  }

  /** "%d". */
  function Signed(n: int): string {
    if n < 0 then "-" + Decimal(-n) else Decimal(n)
  }

  function Tabs(n: int): string {
    if n <= 0 then "" else Repeat("\t", n)
  }

  function When(b: bool, text: string): string {
    if b then text else ""
  }

  function Print(v: Json, depth: nat, fmt: bool): string
    requires Printable(v)
  {
    match v
    case Null => "null"
    case Bool(b) => if b then "true" else "false"
    case Number(d) => Signed(d.Floor)
    case String(text) => Quote(text)
    case Array(items) => "[" + PrintItems(items, depth + 1, fmt) + "]"
    case Object(members) =>
      if members.NoMembers? then "{" + When(fmt, "\n" + Tabs(depth - 1)) + "}"
      else "{" + When(fmt, "\n") + PrintMembers(members, depth + 1, fmt) + When(fmt, Tabs(depth)) + "}"
  }

  function PrintItems(items: Items, depth: nat, fmt: bool): string
    requires PrintableItems(items)
  {
    if items.NoItems? then ""
    else Print(items.head, depth, fmt) + When(items.next.Item?, "," + When(fmt, " "))
         + PrintItems(items.next, depth, fmt)
  }

  /** One line of an object around the text of its value. */
  function MemberText(name: string, valueText: string, more: bool, depth: nat, fmt: bool): string {
    When(fmt, Tabs(depth))
    + (Quote(name) + (":" + (When(fmt, "\t") + (valueText + (When(more, ",") + When(fmt, "\n"))))))
  }

  function PrintMembers(ms: Members, depth: nat, fmt: bool): string
    requires PrintableMembers(ms)
  {
    if ms.NoMembers? then ""
    else MemberText(ms.name, Print(ms.value, depth, fmt), ms.next.Member?, depth, fmt)
         + PrintMembers(ms.next, depth, fmt)
  }

  // ----- parsing -----

  datatype Parsed = Parsed(value: Json, rest: string) | Failed | Outside
  datatype ParsedItems = ParsedItems(items: Items, irest: string) | FailedItems | OutsideItems
  datatype ParsedMembers = ParsedMembers(members: Members, mrest: string) | FailedMembers | OutsideMembers

  /** skip: spaces and everything below. */
  function Skip(s: string): (r: string)
    ensures |r| <= |s|
  {
    if s != "" && s[0] as int <= 32 then Skip(s[1..]) else s
  }

  predicate IsDigit(c: char) {
    '0' <= c <= '9'
  }

  /** The digits s starts with, read onto n. */
  function Digits(n: nat, s: string): (r: (nat, string))
    ensures |r.1| <= |s|
    decreases |s|
  {
    if s != "" && IsDigit(s[0]) then Digits(n * 10 + (s[0] as int - '0' as int), s[1..]) else (n, s)
  }

  function Pow10(e: int): real
    decreases if e < 0 then -e else e
  {
    if e == 0 then 1.0 else if e > 0 then 10.0 * Pow10(e - 1) else Pow10(e + 1) / 10.0
  }

  function Scaled(minus: bool, n: nat, e: int): real {
    (if minus then -(n as real) else n as real) * Pow10(e)
  }

  datatype Exponent = Exponent(scale: int, erest: string)

  function ParseExponent(s: string): (r: Exponent)
    ensures |r.erest| <= |s|
  {
    if At(s, 0) == 'e' || At(s, 0) == 'E' then
      var signed := At(s, 1) == '+' || At(s, 1) == '-';
      var (n, rest) := Digits(0, if signed then s[2..] else s[1..]);
      Exponent(if At(s, 1) == '-' then 0 - n else n, rest)
    else Exponent(0, s)
  }

  /** An optional zero, then digits that start with 1 to 9. */
  function ParseInteger(s: string): (r: (nat, string))
    ensures |r.1| <= |s|
    ensures s != "" && IsDigit(s[0]) ==> |r.1| < |s|
  {
    var t := if At(s, 0) == '0' then s[1..] else s;
    if '1' <= At(t, 0) <= '9' then Digits(0, t) else (0, t)
  }

  datatype Mantissa = Mantissa(n: nat, places: nat, mrest: string)

  /** A point and digits, read onto n. */
  function ParseFraction(n: nat, s: string): (r: Mantissa)
    ensures |r.mrest| <= |s|
  {
    if At(s, 0) == '.' && IsDigit(At(s, 1)) then
      var (m, rest) := Digits(n, s[1..]);
      Mantissa(m, |s| - 1 - |rest|, rest)
    else Mantissa(n, 0, s)
  }

  /** parse_number, with exact reals for its doubles. */
  function ParseNumber(s: string): (r: (real, string))
    ensures |r.1| <= |s|
    ensures s != "" && (s[0] == '-' || IsDigit(s[0])) ==> |r.1| < |s|
  {
    var minus := At(s, 0) == '-';
    var (n, s1) := ParseInteger(if minus then s[1..] else s);
    var m := ParseFraction(n, s1);
    var e := ParseExponent(m.mrest);
    (Scaled(minus, m.n, e.scale - m.places), e.erest)
  }

  function ParseValue(s: string): (r: Parsed)
    ensures r.Parsed? ==> |r.rest| < |s|
    decreases |s|, 1
  {
    if "null" <= s then Parsed(Null, s[4..])
    else if "false" <= s then Parsed(Bool(false), s[5..])
    else if "true" <= s then Parsed(Bool(true), s[4..])
    else if s == "" then Failed
    else if s[0] == '\"' then
      match ParseString(s)
      case Text(text, rest) => Parsed(String(text), rest)
      case NotAString => Failed
      case Overrun => Outside
    else if s[0] == '-' || IsDigit(s[0]) then
      var (d, rest) := ParseNumber(s);
      Parsed(Number(d), rest)
    else if s[0] == '[' then ParseArray(Skip(s[1..]))
    else if s[0] == '{' then ParseObject(Skip(s[1..]))
    else Failed
  }

  /** What follows an opening bracket and white space. */
  function ParseArray(t: string): (r: Parsed)
    ensures r.Parsed? ==> |r.rest| < |t|
    decreases |t|, 3
  {
    if At(t, 0) == ']' then Parsed(Array(NoItems), t[1..])
    else match ParseItems(t)
      case ParsedItems(items, rest) => Parsed(Array(items), rest)
      case FailedItems => Failed
      case OutsideItems => Outside
  }

  /** What follows an opening brace and white space. */
  function ParseObject(t: string): (r: Parsed)
    ensures r.Parsed? ==> |r.rest| < |t|
    decreases |t|, 3
  {
    if At(t, 0) == '}' then Parsed(Object(NoMembers), t[1..])
    else match ParseMembers(t)
      case ParsedMembers(members, rest) => Parsed(Object(members), rest)
      case FailedMembers => Failed
      case OutsideMembers => Outside
  }

  /** One value, then a comma and more, or the closing bracket. */
  function ParseItems(s: string): (r: ParsedItems)
    ensures r.ParsedItems? ==> |r.irest| < |s|
    decreases |s|, 2
  {
    match ParseValue(Skip(s))
    case Failed => FailedItems
    case Outside => OutsideItems
    case Parsed(v, after) =>
      var t := Skip(after);
      if At(t, 0) == ',' then
        match ParseItems(t[1..])
        case ParsedItems(items, rest) => ParsedItems(Item(v, items), rest)
        case r => r
      else if At(t, 0) == ']' then ParsedItems(Item(v, NoItems), t[1..])
      else FailedItems
  }

  /** One name, a colon, one value, then a comma and more, or the closing brace. */
  function ParseMembers(s: string): (r: ParsedMembers)
    ensures r.ParsedMembers? ==> |r.mrest| < |s|
    decreases |s|, 2
  {
    match ParseString(Skip(s))
    case NotAString => FailedMembers
    case Overrun => OutsideMembers
    case Text(name, afterName) =>
      var c := Skip(afterName);
      if At(c, 0) != ':' then FailedMembers
      else
        match ParseValue(Skip(c[1..]))
        case Failed => FailedMembers
        case Outside => OutsideMembers
        case Parsed(v, after) =>
          var t := Skip(after);
          if At(t, 0) == ',' then
            match ParseMembers(t[1..])
            case ParsedMembers(ms, rest) => ParsedMembers(Member(name, v, ms), rest)
            case r => r
          else if At(t, 0) == '}' then ParsedMembers(Member(name, v, NoMembers), t[1..])
          else FailedMembers
  }
}
