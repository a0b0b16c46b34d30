/**
 JSON as the webhook canonicaliser sees it: decoded values, the ordered
 documents found on the wire, and a reader for RFC 8259 sections 2 to 7 that
 plays the part of Go's decoder.
 */
module Json {

  /** A decoded value. Numbers keep their literal; an object is an unordered map. */
  datatype Json =
    | Null
    | Bool(b: bool)
    | Number(lit: string)
    | Text(s: string)
    | Array(elems: seq<Json>)
    | Object(members: map<string, Json>)

  /** A document as sent: members in some order, possibly with repeated keys. */
  datatype Doc =
    | DNull
    | DBool(b: bool)
    | DNumber(lit: string)
    | DText(s: string)
    | DArray(elems: seq<Doc>)
    | DObject(members: seq<Member>)

  datatype Member = Member(key: string, value: Doc)

  // --- Number literals (RFC 8259 section 6) ---

  predicate IsDigit(c: char) { '0' <= c <= '9' }

  /** How many digits `s` starts with. */
  function DigitRun(s: string): (n: nat)
    ensures n <= |s|
    ensures forall i | 0 <= i < n :: IsDigit(s[i])
    ensures n < |s| ==> !IsDigit(s[n])
  {
    if s == "" || !IsDigit(s[0]) then 0 else 1 + DigitRun(s[1..])
  }

  function SignLen(s: string): (n: nat)
    ensures n <= |s|
  {
    if s != "" && s[0] == '-' then 1 else 0
  }

  function IntLen(s: string): (n: nat)
    ensures n <= |s|
  {
    if s != "" && s[0] == '0' then 1 else DigitRun(s)
  }

  /** Length of the fraction, 0 when there is none, -1 when it is malformed. */
  function FracLen(s: string): (n: int)
    ensures -1 <= n <= |s|
  {
    if s == "" || s[0] != '.' then 0
    else if DigitRun(s[1..]) == 0 then -1
    else 1 + DigitRun(s[1..])
  }

  function ExpSignLen(s: string): (n: nat)
    ensures n <= |s|
  {
    if s != "" && s[0] in "+-" then 1 else 0
  }

  /** Length of the exponent, 0 when there is none, -1 when it is malformed. */
  function ExpLen(s: string): (n: int)
    ensures -1 <= n <= |s|
  {
    if s == "" || s[0] !in "eE" then 0
    else
      var g := ExpSignLen(s[1..]);
      var n := DigitRun(s[1..][g..]);
      if n == 0 then -1 else 1 + g + n
  }

  /** Length of fraction and exponent together, -1 when either is malformed. */
  function TailLen(s: string): (n: int)
    ensures -1 <= n <= |s|
  {
    var f := FracLen(s);
    if f < 0 then -1
    else
      var e := ExpLen(s[f..]);
      if e < 0 then -1 else f + e
  }

  /** Length of the longest number literal `s` starts with, 0 when malformed. */
  function NumberLen(s: string): (n: nat)
    ensures n <= |s|
  {
    var g := SignLen(s);
    var i := IntLen(s[g..]);
    var t := TailLen(s[g..][i..]);
    if i == 0 || t < 0 then 0 else g + i + t
  }

  predicate IsNumber(lit: string) { lit != "" && NumberLen(lit) == |lit| }

  // --- Strings (RFC 8259 section 7) ---

  function HexDigit(n: nat): (c: char)
    requires n < 16
  {
    "0123456789abcdef"[n]
  }

  /** Value of a hexadecimal digit in either case, -1 for anything else. */
  function HexValue(c: char): (n: int)
    ensures -1 <= n < 16
  {
    if '0' <= c <= '9' then c as int - '0' as int
    else if 'a' <= c <= 'f' then c as int - 'a' as int + 10
    else if 'A' <= c <= 'F' then c as int - 'A' as int + 10
    else -1
  }

  /** The code unit of a \u escape, -1 when `s` does not start with one. */
  function CodeUnit(s: string): (n: int)
    ensures -1 <= n < 0x1_0000
    ensures n >= 0 ==> |s| >= 6
  {
    if |s| < 6 || s[0] != '\\' || s[1] != 'u' then -1
    else
      var a, b, c, d := HexValue(s[2]), HexValue(s[3]), HexValue(s[4]), HexValue(s[5]);
      if a < 0 || b < 0 || c < 0 || d < 0 then -1
      else 4096 * a + 256 * b + 16 * c + d
  }

  const REPLACEMENT: char := 0xFFFD as char

  /** The rune a \u escape stands for, and how many characters it takes. A
      surrogate without its partner reads as the replacement character. */
  function EscapedRune(s: string): (r: (char, nat))
    requires CodeUnit(s) >= 0
    ensures 6 <= r.1 <= |s|
  {
    var u := CodeUnit(s);
    if 0xD800 <= u < 0xE000 then
      var v := CodeUnit(s[6..]);
      if u < 0xDC00 && 0xDC00 <= v < 0xE000
      then ((0x1_0000 + 1024 * (u - 0xD800) + (v - 0xDC00)) as char, 12)
      else (REPLACEMENT, 6)
    else (u as char, 6)
  }

  /** The character a two-character escape stands for. */
  function ShortEscape(c: char): (r: seq<char>)
    ensures |r| <= 1
  {
    match c
    case '"' => "\""
    case '\\' => "\\"
    case '/' => "/"
    case 'b' => [8 as char]
    case 'f' => [12 as char]
    case 'n' => "\n"
    case 'r' => "\r"
    case 't' => "\t"
    case _ => ""
  }

  // --- The reader ---

  datatype Parse<+T> = Fail | Ok(value: T, rest: string)

  predicate IsSpace(c: char) { c in " \t\n\r" }

  function SkipSpace(s: string): (r: string)
    ensures |r| <= |s|
    ensures r != "" ==> !IsSpace(r[0])
  {
    if s != "" && IsSpace(s[0]) then SkipSpace(s[1..]) else s
  }

  function Cons(c: char, p: Parse<string>): (r: Parse<string>)
    ensures r.Ok? == p.Ok?
    ensures r.Ok? ==> r.rest == p.rest && r.value == [c] + p.value
  {
    match p
    case Fail => Fail
    case Ok(v, rest) => Ok([c] + v, rest)
  }

  /** Reads string content up to and including the closing quote. */
  function ReadString(s: string): (r: Parse<string>)
    ensures r.Ok? ==> |r.rest| < |s|
  {
    if s == "" || s[0] < ' ' then Fail
    else if s[0] == '"' then Ok("", s[1..])
    else if s[0] != '\\' then Cons(s[0], ReadString(s[1..]))
    else if |s| < 2 then Fail
    else if s[1] == 'u' then
      if CodeUnit(s) < 0 then Fail
      else Cons(EscapedRune(s).0, ReadString(s[EscapedRune(s).1..]))
    else if ShortEscape(s[1]) == "" then Fail
    else Cons(ShortEscape(s[1])[0], ReadString(s[2..]))
  }

  function ReadWord(s: string, word: string, v: Json): (r: Parse<Json>)
    requires word != ""
    ensures r.Ok? ==> |r.rest| < |s| && r.value == v
  {
    if word <= s then Ok(v, s[|word|..]) else Fail
  }

  function ReadNumber(s: string): (r: Parse<Json>)
    ensures r.Ok? ==> |r.rest| < |s|
  {
    var n := NumberLen(s);
    if n == 0 then Fail else Ok(Number(s[..n]), s[n..])
  }

  /** Reads a value that is neither an object nor an array. */
  function ReadScalar(t: string): (r: Parse<Json>)
    requires t != ""
    ensures r.Ok? ==> |r.rest| < |t|
  {
    if t[0] == '"' then
      match ReadString(t[1..])
      case Fail => Fail
      case Ok(v, rest) => Ok(Text(v), rest)
    else if t[0] == '-' || IsDigit(t[0]) then ReadNumber(t)
    else if t[0] == 't' then ReadWord(t, "true", Bool(true))
    else if t[0] == 'f' then ReadWord(t, "false", Bool(false))
    else ReadWord(t, "null", Null)
  }

  function ReadValue(s: string): (r: Parse<Json>)
    ensures r.Ok? ==> |r.rest| < |s|
    decreases |s|, 1
  {
    var t := SkipSpace(s);
    if t == "" then Fail
    else if t[0] == '{' then ReadObject(SkipSpace(t[1..]))
    else if t[0] == '[' then ReadArray(SkipSpace(t[1..]))
    else ReadScalar(t)
  }

  function ReadObject(s: string): (r: Parse<Json>)
    ensures r.Ok? ==> |r.rest| < |s|
    decreases |s|, 3
  {
    if s != "" && s[0] == '}' then Ok(Object(map[]), s[1..]) else ReadMembers(s, map[])
  }

  function ReadArray(s: string): (r: Parse<Json>)
    ensures r.Ok? ==> |r.rest| < |s|
    decreases |s|, 3
  {
    if s != "" && s[0] == ']' then Ok(Array([]), s[1..]) else ReadElems(s, [])
  }

  /** Reads the members left in an object; a repeated key overwrites. */
  function ReadMembers(s: string, acc: map<string, Json>): (r: Parse<Json>)
    ensures r.Ok? ==> |r.rest| < |s|
    decreases |s|, 2
  {
    if s == "" || s[0] != '"' then Fail
    else match ReadString(s[1..])
      case Fail => Fail
      case Ok(k, afterKey) =>
        var colon := SkipSpace(afterKey);
        if colon == "" || colon[0] != ':' then Fail
        else match ReadValue(colon[1..])
          case Fail => Fail
          case Ok(v, afterValue) =>
            var next := SkipSpace(afterValue);
            if next == "" then Fail
            else if next[0] == '}' then Ok(Object(acc[k := v]), next[1..])
            else if next[0] == ',' then ReadMembers(SkipSpace(next[1..]), acc[k := v])
            else Fail
  }

  /** Reads the elements left in an array. */
  function ReadElems(s: string, acc: seq<Json>): (r: Parse<Json>)
    ensures r.Ok? ==> |r.rest| < |s|
    decreases |s|, 2
  {
    match ReadValue(s)
    case Fail => Fail
    case Ok(v, afterValue) =>
      var next := SkipSpace(afterValue);
      if next == "" then Fail
      else if next[0] == ']' then Ok(Array(acc + [v]), next[1..])
      else if next[0] == ',' then ReadElems(next[1..], acc + [v])
      else Fail
  }

  // --- Well-formed values ---

  /** Every number literal in `v` is one the grammar allows. */
  ghost predicate Valid(v: Json) {
    match v
    case Number(lit) => IsNumber(lit)
    case Array(elems) => forall i | 0 <= i < |elems| :: Valid(elems[i])
    case Object(members) => forall k | k in members :: Valid(members[k])
    case _ => true
  }

  ghost predicate ValidDoc(d: Doc) {
    match d
    case DNumber(lit) => IsNumber(lit)
    case DArray(elems) => forall i | 0 <= i < |elems| :: ValidDoc(elems[i])
    case DObject(members) => forall i | 0 <= i < |members| :: ValidDoc(members[i].value)
    case _ => true
  }
}
