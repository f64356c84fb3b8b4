/** The canonical JSON text of backend/audit/service.py and backend/case_notes/hashing.py:
    sorted keys, separators "," and ":", non-ASCII either escaped or kept raw; and a reader
    of the same grammar (sections 2 to 7 of RFC 8259 without white space and fractions). */
module Json {
  import opened Joining
  import opened StringOrder

  datatype Json =
    | Null
    | Bool(b: bool)
    | Int(n: int)
    | Str(s: string)
    | Arr(items: seq<Json>)
    | Obj(members: map<string, Json>)

  /** json.dumps(ensure_ascii=True) and json.dumps(ensure_ascii=False). */
  datatype Form = Escaped | Raw

  // ---- printing ----

  function HexDigit(d: nat): char
    requires d < 16
  {
    if d < 10 then (48 + d) as char else (87 + d) as char
  }

  function Hex4(u: nat): string
    requires u < 0x10000
  {
    [HexDigit(u / 0x1000), HexDigit(u / 0x100 % 16), HexDigit(u / 0x10 % 16), HexDigit(u % 16)]
  }

  function HighSurrogate(c: char): (u: nat)
    requires c as int >= 0x10000
    ensures 0xD800 <= u < 0xDC00
  {
    0xD800 + (c as int - 0x10000) / 0x400
  }

  function LowSurrogate(c: char): (u: nat)
    requires c as int >= 0x10000
    ensures 0xDC00 <= u < 0xE000
  {
    0xDC00 + (c as int - 0x10000) % 0x400
  }

  /** The character a surrogate pair stands for. */
  function Combine(high: nat, low: nat): char
    requires 0xD800 <= high < 0xDC00 && 0xDC00 <= low < 0xE000
  {
    (0x10000 + (high - 0xD800) * 0x400 + (low - 0xDC00)) as char
  }

  /** What follows the backslash of "\uXXXX"; a character beyond the basic plane becomes a
      surrogate pair. */
  function UnicodeEscape(c: char): string {
    if c as int < 0x10000 then "u" + Hex4(c as int)
    else "u" + (Hex4(HighSurrogate(c)) + ("\\u" + Hex4(LowSurrogate(c))))
  }

  function PrintChar(c: char, f: Form): string {
    if c == '"' then "\\\""
    else if c == '\\' then "\\\\"
    else if c == '\n' then "\\n"
    else if c == '\r' then "\\r"
    else if c == '\t' then "\\t"
    else if c as int == 8 then "\\b"
    else if c as int == 12 then "\\f"
    else if c < ' ' || (f.Escaped? && c > '~') then "\\" + UnicodeEscape(c)
    else [c]
  }

  function PrintChars(s: string, f: Form): string {
    if s == [] then [] else PrintChar(s[0], f) + PrintChars(s[1..], f)
  }

  function PrintString(s: string, f: Form): string { "\"" + (PrintChars(s, f) + "\"") }

  function Digit(d: nat): char
    requires d < 10
  {
    (48 + d) as char
  }

  function PrintNat(n: nat): string {
    if n < 10 then [Digit(n)] else PrintNat(n / 10) + [Digit(n % 10)]
  }

  function PrintInt(n: int): string { if n < 0 then "-" + PrintNat(-n) else PrintNat(n) }

  function Print(v: Json, f: Form): string
    decreases v
  {
    match v
    case Null => "null"
    case Bool(b) => if b then "true" else "false"
    case Int(n) => PrintInt(n)
    case Str(s) => PrintString(s, f)
    case Arr(items) => "[" + (PrintItems(items, f) + "]")
    case Obj(members) => "{" + (PrintMembers(v, Sorted(members.Keys), f) + "}")
  }

  function PrintItems(items: seq<Json>, f: Form): string
    decreases items
  {
    if items == [] then ""
    else if |items| == 1 then Print(items[0], f)
    else Print(items[0], f) + ("," + PrintItems(items[1..], f))
  }

  function PrintMember(v: Json, k: string, f: Form): string
    requires v.Obj? && k in v.members
    decreases v, 0
  {
    PrintString(k, f) + (":" + Print(v.members[k], f))
  }

  function PrintMembers(v: Json, keys: seq<string>, f: Form): string
    requires v.Obj? && forall k :: k in keys ==> k in v.members
    decreases v, 1, |keys|
  {
    if keys == [] then ""
    else if |keys| == 1 then PrintMember(v, keys[0], f)
    else PrintMember(v, keys[0], f) + ("," + PrintMembers(v, keys[1..], f))
  }

  // ---- reading ----

  /** A value read off the front of a text, and the text left over. */
  datatype Parsed<+T> = Fail | Ok(value: T, rest: string)

  function Expect<T>(s: string, word: string, v: T): (r: Parsed<T>)
    requires word != ""
    ensures r.Ok? ==> |r.rest| < |s|
  {
    if word <= s then Ok(v, s[|word|..]) else Fail
  }

  function HexValue(c: char): (d: int)
    ensures -1 <= d < 16
  {
    if '0' <= c <= '9' then c as int - '0' as int
    else if 'a' <= c <= 'f' then c as int - 'a' as int + 10
    else if 'A' <= c <= 'F' then c as int - 'A' as int + 10
    else -1
  }

  function ParseHex4(s: string): (r: Parsed<nat>)
    ensures r.Ok? ==> |r.rest| + 4 == |s| && r.value < 0x10000
  {
    if |s| < 4 then Fail
    else
      var a, b, c, d := HexValue(s[0]), HexValue(s[1]), HexValue(s[2]), HexValue(s[3]);
      if a < 0 || b < 0 || c < 0 || d < 0 then Fail
      else Ok(((a * 16 + b) * 16 + c) * 16 + d, s[4..])
  }

  /** What follows "\u". A high surrogate must be completed by a low one. */
  function ParseUnicodeEscape(s: string): (r: Parsed<char>)
    ensures r.Ok? ==> |r.rest| < |s|
  {
    match ParseHex4(s)
    case Fail => Fail
    case Ok(u, rest) =>
      if u < 0xD800 || 0xE000 <= u then Ok(u as char, rest)
      else if u < 0xDC00 && "\\u" <= rest then
        match ParseHex4(rest[2..])
        case Fail => Fail
        case Ok(w, rest') =>
          if 0xDC00 <= w < 0xE000 then Ok(Combine(u, w), rest')
          else Fail
      else Fail
  }

  /** What follows a backslash. */
  function ParseEscape(s: string): (r: Parsed<char>)
    ensures r.Ok? ==> |r.rest| < |s|
  {
    if s == [] then Fail
    else if s[0] == '"' || s[0] == '\\' || s[0] == '/' then Ok(s[0], s[1..])
    else if s[0] == 'n' then Ok('\n', s[1..])
    else if s[0] == 'r' then Ok('\r', s[1..])
    else if s[0] == 't' then Ok('\t', s[1..])
    else if s[0] == 'b' then Ok(8 as char, s[1..])
    else if s[0] == 'f' then Ok(12 as char, s[1..])
    else if s[0] == 'u' then ParseUnicodeEscape(s[1..])
    else Fail
  }

  /** The inside of a string, up to and including its closing quote. */
  function ParseChars(s: string): (r: Parsed<string>)
    ensures r.Ok? ==> |r.rest| < |s|
    decreases |s|
  {
    if s == [] || s[0] < ' ' then Fail
    else if s[0] == '"' then Ok("", s[1..])
    else
      var first := if s[0] == '\\' then ParseEscape(s[1..]) else Ok(s[0], s[1..]);
      match first
      case Fail => Fail
      case Ok(c, rest) =>
        match ParseChars(rest)
        case Fail => Fail
        case Ok(cs, rest') => Ok([c] + cs, rest')
  }

  predicate IsDigit(c: char) { '0' <= c <= '9' }

  /** Every digit at the front, accumulated onto `acc`. */
  function ParseDigits(s: string, acc: nat): (r: (nat, string))
    ensures |r.1| <= |s|
  {
    if s == [] || !IsDigit(s[0]) then (acc, s)
    else ParseDigits(s[1..], acc * 10 + (s[0] as int - '0' as int))
  }

  function ParseNat(s: string): (r: Parsed<nat>)
    ensures r.Ok? ==> |r.rest| < |s|
  {
    if s == [] || !IsDigit(s[0]) then Fail
    else
      var (n, rest) := if s[0] == '0' then (0, s[1..]) else ParseDigits(s[1..], s[0] as int - '0' as int);
      if rest != [] && rest[0] in ".eE" then Fail     // a fraction or an exponent: not an integer
      else Ok(n, rest)
  }

  function ParseInt(s: string): (r: Parsed<Json>)
    ensures r.Ok? ==> |r.rest| < |s|
  {
    if "-" <= s then
      match ParseNat(s[1..])
      case Fail => Fail
      case Ok(n, rest) => Ok(Int(-(n as int)), rest)
    else
      match ParseNat(s)
      case Fail => Fail
      case Ok(n, rest) => Ok(Int(n), rest)
  }

  function ParseValue(s: string): (r: Parsed<Json>)
    ensures r.Ok? ==> |r.rest| < |s|
    decreases |s|, 0
  {
    if s == [] then Fail
    else if s[0] == 'n' then Expect(s, "null", Null)
    else if s[0] == 't' then Expect(s, "true", Bool(true))
    else if s[0] == 'f' then Expect(s, "false", Bool(false))
    else if s[0] == '"' then
      match ParseChars(s[1..])
      case Fail => Fail
      case Ok(cs, rest) => Ok(Str(cs), rest)
    else if s[0] == '[' then
      if "]" <= s[1..] then Ok(Arr([]), s[2..])
      else
        match ParseItems(s[1..])
        case Fail => Fail
        case Ok(items, rest) => Ok(Arr(items), rest)
    else if s[0] == '{' then
      if "}" <= s[1..] then Ok(Obj(map[]), s[2..])
      else
        match ParseMembers(s[1..])
        case Fail => Fail
        case Ok(members, rest) => Ok(Obj(members), rest)
    else ParseInt(s)
  }

  /** At least one value, separated by commas and closed by a bracket. */
  function ParseItems(s: string): (r: Parsed<seq<Json>>)
    ensures r.Ok? ==> |r.rest| < |s|
    decreases |s|, 1
  {
    match ParseValue(s)
    case Fail => Fail
    case Ok(v, rest) =>
      if "]" <= rest then Ok([v], rest[1..])
      else if "," <= rest then
        match ParseItems(rest[1..])
        case Fail => Fail
        case Ok(vs, rest') => Ok([v] + vs, rest')
      else Fail
  }

  function ParseMember(s: string): (r: Parsed<(string, Json)>)
    ensures r.Ok? ==> |r.rest| < |s|
    decreases |s|, 1
  {
    if !("\"" <= s) then Fail
    else
      match ParseChars(s[1..])
      case Fail => Fail
      case Ok(k, rest) =>
        if !(":" <= rest) then Fail
        else
          match ParseValue(rest[1..])
          case Fail => Fail
          case Ok(v, rest') => Ok((k, v), rest')
  }

  /** At least one member; of two members with one name the later one wins. */
  function ParseMembers(s: string): (r: Parsed<map<string, Json>>)
    ensures r.Ok? ==> |r.rest| < |s|
    decreases |s|, 2
  {
    match ParseMember(s)
    case Fail => Fail
    case Ok(kv, rest) =>
      if "}" <= rest then Ok(map[kv.0 := kv.1], rest[1..])
      else if "," <= rest then
        match ParseMembers(rest[1..])
        case Fail => Fail
        case Ok(m, rest') => Ok(map[kv.0 := kv.1] + m, rest')
      else Fail
  }

  /** json.loads: the whole text is one value. */
  function Parse(s: string): (r: Parsed<Json>) {
    match ParseValue(s)
    case Fail => Fail
    case Ok(v, rest) => if rest == [] then Ok(v, rest) else Fail
  }

  // ---- the reader undoes the printer ----

  lemma Assoc(a: string, b: string, c: string)
    ensures (a + b) + c == a + (b + c)
  {}

  /** What is left after dropping a known front. */
  lemma Drop(a: string, b: string)
    ensures (a + b)[|a|..] == b && a <= a + b
  {}

  lemma HexDigitInverse(d: nat)
    requires d < 16
    ensures HexValue(HexDigit(d)) == d
  {}

  lemma HexDigitsInverse(a: nat, b: nat, c: nat, d: nat, rest: string)
    requires a < 16 && b < 16 && c < 16 && d < 16
    ensures ParseHex4([HexDigit(a), HexDigit(b), HexDigit(c), HexDigit(d)] + rest) ==
            Ok(((a * 16 + b) * 16 + c) * 16 + d, rest)
  {
    HexDigitInverse(a);
    HexDigitInverse(b);
    HexDigitInverse(c);
    HexDigitInverse(d);
    Drop([HexDigit(a), HexDigit(b), HexDigit(c), HexDigit(d)], rest);
  }

  lemma Nibbles(u: nat)
    requires u < 0x10000
    ensures u == ((u / 0x1000 * 16 + u / 0x100 % 16) * 16 + u / 0x10 % 16) * 16 + u % 16
  {}

  lemma Hex4Inverse(u: nat, rest: string)
    requires u < 0x10000
    ensures ParseHex4(Hex4(u) + rest) == Ok(u, rest)
  {
    HexDigitsInverse(u / 0x1000, u / 0x100 % 16, u / 0x10 % 16, u % 16, rest);
    Nibbles(u);
  }

  lemma CombineInverse(c: char)
    requires c as int >= 0x10000
    ensures Combine(HighSurrogate(c), LowSurrogate(c)) == c
  {}

  lemma SurrogatesInverse(hi: nat, lo: nat, rest: string)
    requires 0xD800 <= hi < 0xDC00 && 0xDC00 <= lo < 0xE000
    ensures ParseUnicodeEscape(Hex4(hi) + (("\\u" + Hex4(lo)) + rest)) == Ok(Combine(hi, lo), rest)
  {
    Hex4Inverse(hi, ("\\u" + Hex4(lo)) + rest);
    Assoc("\\u", Hex4(lo), rest);
    Drop("\\u", Hex4(lo) + rest);
    Hex4Inverse(lo, rest);
  }

  lemma ParseEscapeU(s: string)
    ensures ParseEscape("u" + s) == ParseUnicodeEscape(s)
  {
    Drop("u", s);
  }

  lemma UnicodeEscapeInverse(c: char, rest: string)
    ensures ParseEscape(UnicodeEscape(c) + rest) == Ok(c, rest)
  {
    if c as int < 0x10000 {
      var x := Hex4(c as int);
      Assoc("u", x, rest);
      ParseEscapeU(x + rest);
      Hex4Inverse(c as int, rest);
    } else {
      var hi, low := Hex4(HighSurrogate(c)), "\\u" + Hex4(LowSurrogate(c));
      Assoc("u", hi + low, rest);
      Assoc(hi, low, rest);
      ParseEscapeU(hi + (low + rest));
      SurrogatesInverse(HighSurrogate(c), LowSurrogate(c), rest);
      CombineInverse(c);
    }
  }

  /** `r` with the character `c` in front of the string it read. */
  function Prepend(c: char, r: Parsed<string>): Parsed<string> {
    match r case Fail => Fail case Ok(cs, rest) => Ok([c] + cs, rest)
  }

  /** A backslash and what ParseEscape makes of the text behind it. */
  lemma EscapedChar(c: char, e: string, rest: string)
    requires ParseEscape(e + rest) == Ok(c, rest)
    ensures ParseChars(("\\" + e) + rest) == Prepend(c, ParseChars(rest))
  {
    Assoc("\\", e, rest);
    Drop("\\", e + rest);
  }

  lemma ShortEscapeInverse(c: char, e: char, rest: string)
    requires ParseEscape([e] + rest) == Ok(c, ([e] + rest)[1..])
    ensures ParseChars("\\" + [e] + rest) == Prepend(c, ParseChars(rest))
  {
    Drop([e], rest);
    EscapedChar(c, [e], rest);
  }

  /** One printed character is read back as that character. */
  lemma PrintCharInverse(c: char, f: Form, rest: string)
    ensures ParseChars(PrintChar(c, f) + rest) == Prepend(c, ParseChars(rest))
  {
    if c == '"' { assert PrintChar(c, f) == "\\" + ['"']; ShortEscapeInverse(c, '"', rest); }
    else if c == '\\' { assert PrintChar(c, f) == "\\" + ['\\']; ShortEscapeInverse(c, '\\', rest); }
    else if c == '\n' { assert PrintChar(c, f) == "\\" + ['n']; ShortEscapeInverse(c, 'n', rest); }
    else if c == '\r' { assert PrintChar(c, f) == "\\" + ['r']; ShortEscapeInverse(c, 'r', rest); }
    else if c == '\t' { assert PrintChar(c, f) == "\\" + ['t']; ShortEscapeInverse(c, 't', rest); }
    else if c as int == 8 { assert PrintChar(c, f) == "\\" + ['b']; ShortEscapeInverse(c, 'b', rest); }
    else if c as int == 12 { assert PrintChar(c, f) == "\\" + ['f']; ShortEscapeInverse(c, 'f', rest); }
    else if c < ' ' || (f.Escaped? && c > '~') {
      UnicodeEscapeInverse(c, rest);
      EscapedChar(c, UnicodeEscape(c), rest);
    } else {
      Drop([c], rest);
    }
  }

  lemma {:induction false} PrintCharsInverse(s: string, f: Form, rest: string)
    ensures ParseChars(PrintChars(s, f) + ("\"" + rest)) == Ok(s, rest)
  {
    hide PrintChar;
    if s == [] {
      assert PrintChars(s, f) + ("\"" + rest) == "\"" + rest;
    } else {
      PrintCharsInverse(s[1..], f, rest);
      Assoc(PrintChar(s[0], f), PrintChars(s[1..], f), "\"" + rest);
      PrintCharInverse(s[0], f, PrintChars(s[1..], f) + ("\"" + rest));
      assert [s[0]] + s[1..] == s;
    }
  }

  lemma PrintStringInverse(s: string, f: Form, rest: string)
    ensures "\"" <= PrintString(s, f) + rest
    ensures ParseChars((PrintString(s, f) + rest)[1..]) == Ok(s, rest)
  {
    Assoc("\"", PrintChars(s, f) + "\"", rest);
    Assoc(PrintChars(s, f), "\"", rest);
    Drop("\"", PrintChars(s, f) + ("\"" + rest));
    PrintCharsInverse(s, f, rest);
  }

  predicate EndsNumber(s: string) { s == [] || (!IsDigit(s[0]) && s[0] !in ".eE") }

  lemma {:induction false} PrintNatDigits(n: nat)
    ensures PrintNat(n) != [] && IsDigit(PrintNat(n)[0]) && (n > 0 ==> PrintNat(n)[0] != '0')
    ensures n == 0 ==> PrintNat(n) == "0"
  {
    if n >= 10 { PrintNatDigits(n / 10); }
  }

  lemma {:induction false} PrintNatInverse(n: nat, rest: string)
    ensures PrintNat(n) != [] && IsDigit(PrintNat(n)[0])
    ensures ParseDigits((PrintNat(n) + rest)[1..], PrintNat(n)[0] as int - '0' as int) == ParseDigits(rest, n)
  {
    PrintNatDigits(n);
    if n < 10 {
      Drop([Digit(n)], rest);
    } else {
      var last := [Digit(n % 10)];
      PrintNatInverse(n / 10, last + rest);
      Assoc(PrintNat(n / 10), last, rest);
      Drop(last, rest);
    }
  }

  lemma PrintIntInverse(n: int, rest: string)
    requires EndsNumber(rest)
    ensures PrintInt(n) != [] && (PrintInt(n)[0] == '-' || IsDigit(PrintInt(n)[0]))
    ensures ParseInt(PrintInt(n) + rest) == Ok(Int(n), rest)
  {
    var a: nat := if n < 0 then -n else n;
    PrintNatInverse(a, rest);
    PrintNatDigits(a);
    var s := PrintNat(a) + rest;
    assert ParseNat(s) == Ok(a, rest) by {
      if a == 0 { Drop("0", rest); }
    }
    if n < 0 {
      Assoc("-", PrintNat(a), rest);
      Drop("-", s);
    }
  }

  /** No value is printed with a closing bracket in front. */
  lemma PrintStarts(v: Json, f: Form)
    ensures Print(v, f) != [] && Print(v, f)[0] != ']'
  {
    if v.Int? { PrintIntInverse(v.n, ""); }
  }

  lemma ParseNumber(s: string)
    requires s != [] && (s[0] == '-' || IsDigit(s[0]))
    ensures ParseValue(s) == ParseInt(s)
  {}

  lemma ParseQuoted(s: string)
    requires "\"" <= s
    ensures ParseValue(s) == match ParseChars(s[1..]) case Fail => Fail case Ok(cs, rest) => Ok(Str(cs), rest)
  {}

  lemma ParseArray(s: string)
    ensures ParseValue("[" + s) ==
            if "]" <= s then Ok(Arr([]), s[1..])
            else match ParseItems(s) case Fail => Fail case Ok(items, rest) => Ok(Arr(items), rest)
  {
    Drop("[", s);
    var t := "[" + s;
    if "]" <= s { assert t[2..] == s[1..]; }
  }

  lemma ParseObject(s: string)
    ensures ParseValue("{" + s) ==
            if "}" <= s then Ok(Obj(map[]), s[1..])
            else match ParseMembers(s) case Fail => Fail case Ok(m, rest) => Ok(Obj(m), rest)
  {
    Drop("{", s);
    var t := "{" + s;
    if "}" <= s { assert t[2..] == s[1..]; }
  }

  lemma PrintScalarInverse(v: Json, f: Form, rest: string)
    requires !v.Arr? && !v.Obj? && EndsNumber(rest)
    ensures ParseValue(Print(v, f) + rest) == Ok(v, rest)
  {
    match v
    case Null => Drop("null", rest);
    case Bool(b) => Drop(if b then "true" else "false", rest);
    case Int(n) =>
      PrintIntInverse(n, rest);
      ParseNumber(PrintInt(n) + rest);
    case Str(cs) =>
      PrintStringInverse(cs, f, rest);
      ParseQuoted(PrintString(cs, f) + rest);
  }

  lemma {:induction false} PrintInverse(v: Json, f: Form, rest: string)
    requires EndsNumber(rest)
    ensures ParseValue(Print(v, f) + rest) == Ok(v, rest)
    decreases v, 2
  {
    if v.Arr? { PrintArrInverse(v, f, rest); }
    else if v.Obj? { PrintObjInverse(v, f, rest); }
    else { PrintScalarInverse(v, f, rest); }
  }

  lemma {:induction false} PrintArrInverse(v: Json, f: Form, rest: string)
    requires v.Arr?
    ensures ParseValue(Print(v, f) + rest) == Ok(v, rest)
    decreases v, 1
  {
    var body := PrintItems(v.items, f);
    Assoc("[", body + "]", rest);
    Assoc(body, "]", rest);
    ParseArray(body + ("]" + rest));
    if v.items == [] {
      assert body + ("]" + rest) == "]" + rest;
      Drop("]", rest);
    } else {
      PrintStarts(v.items[0], f);
      assert body[0] == Print(v.items[0], f)[0];
      PrintItemsInverse(v.items, f, rest);
    }
  }

  lemma {:induction false} PrintItemsInverse(items: seq<Json>, f: Form, rest: string)
    requires items != []
    ensures ParseItems(PrintItems(items, f) + ("]" + rest)) == Ok(items, rest)
    decreases items
  {
    hide ParseValue, Print;
    var first := Print(items[0], f);
    if |items| == 1 {
      PrintInverse(items[0], f, "]" + rest);
      Drop("]", rest);
      assert items == [items[0]];
    } else {
      var others := PrintItems(items[1..], f);
      Assoc(first, "," + others, "]" + rest);
      Assoc(",", others, "]" + rest);
      Drop(",", others + ("]" + rest));
      PrintInverse(items[0], f, "," + (others + ("]" + rest)));
      PrintItemsInverse(items[1..], f, rest);
      assert items == [items[0]] + items[1..];
    }
  }

  /** The members of `m` listed in `keys`. */
  function Listed(m: map<string, Json>, keys: seq<string>): map<string, Json>
    requires forall k :: k in keys ==> k in m
  {
    map k | k in keys :: m[k]
  }

  lemma ListedAll(m: map<string, Json>, keys: seq<string>)
    requires forall k :: k in keys <==> k in m
    ensures Listed(m, keys) == m
  {}

  lemma ListedFirst(m: map<string, Json>, keys: seq<string>)
    requires keys != [] && forall k :: k in keys ==> k in m
    ensures map[keys[0] := m[keys[0]]] + Listed(m, keys[1..]) == Listed(m, keys)
  {}

  /** Members begin with the quote of the first name. */
  lemma MembersStart(v: Json, keys: seq<string>, f: Form)
    requires v.Obj? && keys != [] && forall k :: k in keys ==> k in v.members
    ensures PrintMembers(v, keys, f) != [] && PrintMembers(v, keys, f)[0] == '"'
  {
    hide PrintChars, Print;
    assert PrintString(keys[0], f)[0] == '"';
    assert PrintMember(v, keys[0], f)[0] == '"';
  }

  lemma PrintObj(v: Json, f: Form)
    requires v.Obj?
    ensures Print(v, f) == "{" + (PrintMembers(v, Sorted(v.members.Keys), f) + "}")
  {
    hide PrintMembers;
  }

  lemma {:induction false} PrintObjInverse(v: Json, f: Form, rest: string)
    requires v.Obj?
    ensures ParseValue(Print(v, f) + rest) == Ok(v, rest)
    decreases v, 1
  {
    hide Print, PrintMembers, ParseMembers, ParseValue, Listed;
    var keys := Sorted(v.members.Keys);
    var body := PrintMembers(v, keys, f);
    PrintObj(v, f);
    Assoc("{", body + "}", rest);
    Assoc(body, "}", rest);
    ParseObject(body + ("}" + rest));
    ListedAll(v.members, keys);
    if keys == [] {
      NoMembers(v, f);
      assert body + ("}" + rest) == "}" + rest;
      Drop("}", rest);
      assert v.members == map[];
    } else {
      SortedDistinct(v.members.Keys);
      MembersStart(v, keys, f);
      assert (body + ("}" + rest))[0] == '"';
      PrintMembersInverse(v, keys, f, rest);
    }
  }

  lemma NoMembers(v: Json, f: Form)
    requires v.Obj?
    ensures PrintMembers(v, [], f) == ""
  {}

  lemma {:induction false} PrintMemberInverse(v: Json, k: string, f: Form, rest: string)
    requires v.Obj? && k in v.members && EndsNumber(rest)
    ensures ParseMember(PrintMember(v, k, f) + rest) == Ok((k, v.members[k]), rest)
    decreases v, 0, 0
  {
    hide ParseValue, Print, ParseChars;
    var value := Print(v.members[k], f);
    Assoc(PrintString(k, f), ":" + value, rest);
    Assoc(":", value, rest);
    Drop(":", value + rest);
    PrintStringInverse(k, f, ":" + (value + rest));
    PrintInverse(v.members[k], f, rest);
  }

  lemma {:induction false} PrintMembersInverse(v: Json, keys: seq<string>, f: Form, rest: string)
    requires v.Obj? && keys != [] && forall k :: k in keys ==> k in v.members
    requires forall i, j :: 0 <= i < j < |keys| ==> keys[i] != keys[j]
    ensures ParseMembers(PrintMembers(v, keys, f) + ("}" + rest)) == Ok(Listed(v.members, keys), rest)
    decreases v, 0, |keys|
  {
    hide PrintMember, ParseMember, Print;
    var k := keys[0];
    ListedFirst(v.members, keys);
    if |keys| == 1 {
      PrintMemberInverse(v, k, f, "}" + rest);
      Drop("}", rest);
      assert Listed(v.members, keys) == map[k := v.members[k]];
    } else {
      var others := PrintMembers(v, keys[1..], f);
      Assoc(PrintMember(v, k, f), "," + others, "}" + rest);
      Assoc(",", others, "}" + rest);
      Drop(",", others + ("}" + rest));
      PrintMemberInverse(v, k, f, "," + (others + ("}" + rest)));
      PrintMembersInverse(v, keys[1..], f, rest);
    }
  }

  /** Reading a printed value gives it back, in either form. */
  lemma ParsePrint(v: Json, f: Form)
    ensures Parse(Print(v, f)) == Ok(v, "")
  {
    PrintInverse(v, f, "");
    assert Print(v, f) + "" == Print(v, f);
  }

  /** Two values with one canonical text are one value. */
  lemma PrintInjective(a: Json, b: Json, f: Form)
    requires Print(a, f) == Print(b, f)
    ensures a == b
  {
    ParsePrint(a, f);
    ParsePrint(b, f);
  }

  // ---- the characters a printed value is made of ----

  /** No control character; in the escaped form, printable ASCII only. */
  ghost predicate Plain(s: string, f: Form) {
    forall i :: 0 <= i < |s| ==> ' ' <= s[i] && (f.Escaped? ==> s[i] <= '~')
  }

  lemma UnicodeEscapePlain(c: char, f: Form)
    ensures Plain(UnicodeEscape(c), f)
  {}

  lemma {:induction false} PrintCharsPlain(s: string, f: Form)
    ensures Plain(PrintChars(s, f), f)
  {
    if s != [] {
      UnicodeEscapePlain(s[0], f);
      PrintCharsPlain(s[1..], f);
    }
  }

  lemma {:induction false} PrintNatPlain(n: nat, f: Form)
    ensures Plain(PrintNat(n), f)
  {
    if n >= 10 { PrintNatPlain(n / 10, f); }
  }

  /** A printed value is one line; escaped, it is ASCII, so its UTF-8 bytes are its characters. */
  lemma {:induction false} PrintPlain(v: Json, f: Form)
    ensures Plain(Print(v, f), f)
    decreases v
  {
    hide PrintChars, PrintNat, PrintItems, PrintMembers;
    match v
    case Null =>
    case Bool(b) =>
    case Int(n) => PrintNatPlain(if n < 0 then -n else n, f);
    case Str(s) => PrintCharsPlain(s, f);
    case Arr(items) => PrintItemsPlain(items, f);
    case Obj(members) => PrintMembersPlain(v, Sorted(members.Keys), f);
  }

  lemma {:induction false} PrintItemsPlain(items: seq<Json>, f: Form)
    ensures Plain(PrintItems(items, f), f)
    decreases items
  {
    if items != [] {
      PrintPlain(items[0], f);
      PrintItemsPlain(items[1..], f);
    }
  }

  lemma {:induction false} PrintMembersPlain(v: Json, keys: seq<string>, f: Form)
    requires v.Obj? && forall k :: k in keys ==> k in v.members
    ensures Plain(PrintMembers(v, keys, f), f)
    decreases v, 0, |keys|
  {
    if keys != [] {
      PrintCharsPlain(keys[0], f);
      PrintPlain(v.members[keys[0]], f);
      assert Plain(PrintMember(v, keys[0], f), f);
      PrintMembersPlain(v, keys[1..], f);
    }
  }

  // ---- the text itself, without the reader ----

  /** The two-character escapes (section 7 of RFC 8259), by what follows the backslash. */
  const SHORT: map<char, char> := map['"' := '"', '\\' := '\\', '\n' := 'n', '\r' := 'r', '\t' := 't',
    8 as char := 'b', 12 as char := 'f']

  const HEX: string := "0123456789abcdef"

  /** Characters that stand for themselves. */
  predicate Unescaped(c: char, f: Form) { ' ' <= c && c != '"' && c != '\\' && (f.Escaped? ==> c <= '~') }

  /** "\uXXXX" in lower case. */
  ghost predicate IsUnicode(t: string, u: int) {
    exists a, b, c, d :: IsDigits(a, b, c, d, u) && t == "\\u" + [HEX[a], HEX[b], HEX[c], HEX[d]]
  }

  predicate IsDigits(a: int, b: int, c: int, d: int, u: int) {
    && 0 <= a < 16 && 0 <= b < 16 && 0 <= c < 16 && 0 <= d < 16
    && u == a * 0x1000 + b * 0x100 + c * 0x10 + d
  }

  /** Two of them, a high and a low surrogate (section 7 of RFC 8259). */
  ghost predicate IsPair(t: string, u: int) {
    exists hi, lo :: IsSurrogates(hi, lo, u) && |t| == 12 && IsUnicode(t[..6], hi) && IsUnicode(t[6..], lo)
  }

  predicate IsSurrogates(hi: int, lo: int, u: int) {
    0xD800 <= hi <= 0xDBFF && 0xDC00 <= lo <= 0xDFFF && u == 0x10000 + (hi - 0xD800) * 0x400 + (lo - 0xDC00)
  }

  /** How one character is written: as itself where it may be, else by its two-character escape
      where there is one, else by its code. */
  ghost predicate Spells(t: string, c: char, f: Form) {
    if Unescaped(c, f) then t == [c]
    else if c in SHORT then t == "\\" + [SHORT[c]]
    else if c as int < 0x10000 then IsUnicode(t, c as int)
    else IsPair(t, c as int)
  }

  lemma HexDigitIs(d: nat)
    requires d < 16
    ensures HexDigit(d) == HEX[d]
  {}

  lemma Hex4Is(u: nat)
    requires u < 0x10000
    ensures IsUnicode("\\u" + Hex4(u), u)
  {
    var a, b, c, d := u / 0x1000, u / 0x100 % 16, u / 0x10 % 16, u % 16;
    Nibbles(u);
    HexDigitIs(a);
    HexDigitIs(b);
    HexDigitIs(c);
    HexDigitIs(d);
    assert IsDigits(a, b, c, d, u);
  }

  lemma PrintCharSpells(c: char, f: Form)
    ensures Spells(PrintChar(c, f), c, f)
  {
    hide Hex4, IsUnicode;
    if !Unescaped(c, f) && c !in SHORT {
      if c as int < 0x10000 {
        Hex4Is(c as int);
        assert "\\" + UnicodeEscape(c) == "\\u" + Hex4(c as int);
      } else {
        var hi, lo := HighSurrogate(c), LowSurrogate(c);
        Hex4Is(hi);
        Hex4Is(lo);
        var t := "\\" + UnicodeEscape(c);
        assert t[..6] == "\\u" + Hex4(hi) && t[6..] == "\\u" + Hex4(lo);
        assert IsSurrogates(hi, lo, c as int);
      }
    }
  }

  /** A string is written in quotes, character by character. */
  lemma {:induction false} StringText(s: string, f: Form) returns (parts: seq<string>)
    ensures |parts| == |s| && forall i :: 0 <= i < |s| ==> Spells(parts[i], s[i], f)
    ensures Print(Str(s), f) == "\"" + Join(parts, "") + "\""
  {
    hide Spells, PrintChar;
    if s == [] {
      parts := [];
    } else {
      PrintCharSpells(s[0], f);
      var rest := StringText(s[1..], f);
      parts := [PrintChar(s[0], f)] + rest;
      assert PrintString(s[1..], f) == "\"" + (PrintChars(s[1..], f) + "\"") == "\"" + Join(rest, "") + "\"";
      SameInside(PrintChars(s[1..], f), Join(rest, ""));
      assert parts[1..] == rest;
      assert "" + Join(rest, "") == Join(rest, "");
    }
  }

  lemma SameInside(a: string, b: string)
    requires "\"" + (a + "\"") == "\"" + b + "\""
    ensures a == b
  {
    assert a == ("\"" + (a + "\""))[1..|a| + 1];
    assert b == ("\"" + b + "\"")[1..|b| + 1];
  }

  /** A string of characters that stand for themselves is written as it is. */
  lemma {:induction false} UnescapedText(s: string, f: Form)
    requires forall i :: 0 <= i < |s| ==> Unescaped(s[i], f)
    ensures Print(Str(s), f) == "\"" + s + "\""
  {
    if s != [] {
      UnescapedText(s[1..], f);
      assert PrintString(s[1..], f) == "\"" + (PrintChars(s[1..], f) + "\"");
      SameInside(PrintChars(s[1..], f), s[1..]);
      assert PrintChars(s, f) == s;
    }
  }

  predicate AllDigits(s: string) { forall i :: 0 <= i < |s| ==> IsDigit(s[i]) }

  /** The number some decimal digits stand for. */
  function Decimal(s: string): nat
    requires AllDigits(s)
  {
    if s == [] then 0 else 10 * Decimal(s[..|s| - 1]) + (s[|s| - 1] as int - '0' as int)
  }

  lemma {:induction false} NatText(n: nat)
    ensures AllDigits(PrintNat(n)) && Decimal(PrintNat(n)) == n
  {
    if n >= 10 {
      NatText(n / 10);
      assert PrintNat(n)[..|PrintNat(n)| - 1] == PrintNat(n / 10);
    } else {
      assert PrintNat(n)[..0] == [];
    }
  }

  /** An integer is written in decimal, with a minus sign exactly when it is negative and no
      leading zero. */
  lemma IntText(n: int, f: Form) returns (digits: string)
    ensures Print(Int(n), f) == (if n < 0 then "-" + digits else digits)
    ensures AllDigits(digits) && digits != "" && Decimal(digits) == if n < 0 then -n else n
    ensures n != 0 ==> digits[0] != '0'
    ensures n == 0 ==> digits == "0"
  {
    var a: nat := if n < 0 then -n else n;
    digits := PrintNat(a);
    NatText(a);
    PrintNatDigits(a);
  }

  function ItemTexts(items: seq<Json>, f: Form): seq<string> {
    seq(|items|, i requires 0 <= i < |items| => Print(items[i], f))
  }

  /** A list is written in brackets, its items separated by commas alone. */
  lemma {:induction false} ArrayText(items: seq<Json>, f: Form)
    ensures Print(Arr(items), f) == "[" + Join(ItemTexts(items, f), ",") + "]"
  {
    ItemsText(items, f);
  }

  lemma {:induction false} ItemsText(items: seq<Json>, f: Form)
    ensures PrintItems(items, f) == Join(ItemTexts(items, f), ",")
  {
    hide Print;
    if items != [] {
      ItemsText(items[1..], f);
      assert ItemTexts(items, f)[1..] == ItemTexts(items[1..], f);
    }
  }

  /** A name, a colon and its value. */
  function MemberTexts(members: map<string, Json>, keys: seq<string>, f: Form): seq<string>
    requires forall k :: k in keys ==> k in members
  {
    seq(|keys|, i requires 0 <= i < |keys| => Print(Str(keys[i]), f) + ":" + Print(members[keys[i]], f))
  }

  /** An object is written in braces, each member once, the names in increasing order. */
  lemma ObjectText(members: map<string, Json>, f: Form) returns (keys: seq<string>)
    ensures forall k :: k in keys <==> k in members
    ensures forall i, j :: 0 <= i < j < |keys| ==> Less(keys[i], keys[j])
    ensures Print(Obj(members), f) == "{" + Join(MemberTexts(members, keys, f), ",") + "}"
  {
    keys := Sorted(members.Keys);
    MembersText(Obj(members), keys, f);
  }

  lemma {:induction false} MembersText(v: Json, keys: seq<string>, f: Form)
    requires v.Obj? && forall k :: k in keys ==> k in v.members
    ensures PrintMembers(v, keys, f) == Join(MemberTexts(v.members, keys, f), ",")
    decreases |keys|
  {
    hide Print, PrintMember;
    if keys != [] {
      MembersText(v, keys[1..], f);
      MemberText(v, keys[0], f);
      assert MemberTexts(v.members, keys, f)[1..] == MemberTexts(v.members, keys[1..], f);
    }
  }

  lemma MemberText(v: Json, k: string, f: Form)
    requires v.Obj? && k in v.members
    ensures PrintMember(v, k, f) == Print(Str(k), f) + ":" + Print(v.members[k], f)
  {
    assert Print(Str(k), f) == PrintString(k, f);
    hide Print, PrintString;
    Assoc(PrintString(k, f), ":", Print(v.members[k], f));
  }
}
