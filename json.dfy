/**
 * The JSON text of a list of strings, written the way Jackson's default
 * `writeValueAsString` writes a `List<String>`: `[` and `]` around the
 * elements, `,` between them, no white space, each element a string literal
 * (section 7 of RFC 8259) in which `"` and `\` and the control characters
 * below U+0020 are escaped. A reader for that text is given beside it.
 */
module Json {
  import opened Wrappers

  function HexDigit(d: nat): char
    requires d < 16
  {
    "0123456789ABCDEF"[d]
  }

  function HexValue(c: char): (r: Option<nat>)
    ensures r.Some? ==> r.value < 16
  {
    if '0' <= c <= '9' then Some(c as int - '0' as int)
    else if 'a' <= c <= 'f' then Some(c as int - 'a' as int + 10)
    else if 'A' <= c <= 'F' then Some(c as int - 'A' as int + 10)
    else None
  }

  /** The characters a JSON string literal cannot hold as they are. */
  predicate NeedsEscape(c: char)
  {
    c == '"' || c == '\\' || c as int < 0x20
  }

  /** How Jackson writes one character inside a string literal. */
  function EscapeChar(c: char): (r: string)
    ensures |r| > 0 && r[0] != '"'
    ensures !NeedsEscape(c) ==> r == [c]
  {
    if c == '"' then "\\\""
    else if c == '\\' then "\\\\"
    else if c as int == 0x08 then "\\b"
    else if c as int == 0x09 then "\\t"
    else if c as int == 0x0A then "\\n"
    else if c as int == 0x0C then "\\f"
    else if c as int == 0x0D then "\\r"
    else if c as int < 0x20 then "\\u00" + [HexDigit(c as int / 16), HexDigit(c as int % 16)]
    else [c]
  }

  function EscapeString(s: string): string
  {
    if s == [] then "" else EscapeChar(s[0]) + EscapeString(s[1..])
  }

  /** A string literal: the escaped characters between double quotes. */
  function Quote(s: string): string
  {
    "\"" + EscapeString(s) + "\""
  }

  function Elements(xs: seq<string>): string
  {
    if |xs| == 0 then ""
    else if |xs| == 1 then Quote(xs[0])
    else Quote(xs[0]) + "," + Elements(xs[1..])
  }

  /** `writeValueAsString` of a list of strings. */
  function WriteStringArray(xs: seq<string>): string
  {
    "[" + Elements(xs) + "]"
  }

  /** Reads one character of a string literal's body (not its closing quote), escaped or not. */
  function ReadChar(s: string): (r: Option<(char, string)>)
    requires |s| > 0 && s[0] != '"'
    ensures r.Some? ==> |r.value.1| < |s|
  {
    if s[0] != '\\' then
      if s[0] as int < 0x20 then None else Some((s[0], s[1..]))
    else if |s| < 2 then None
    else if s[1] == '"' then Some(('"', s[2..]))
    else if s[1] == '\\' then Some(('\\', s[2..]))
    else if s[1] == '/' then Some(('/', s[2..]))
    else if s[1] == 'b' then Some((8 as char, s[2..]))
    else if s[1] == 't' then Some((9 as char, s[2..]))
    else if s[1] == 'n' then Some((10 as char, s[2..]))
    else if s[1] == 'f' then Some((12 as char, s[2..]))
    else if s[1] == 'r' then Some((13 as char, s[2..]))
    else if s[1] == 'u' && |s| >= 6 then
      match HexQuad(s[2], s[3], s[4], s[5])
      case Some(v) => if 0xD800 <= v < 0xE000 then None else Some((v as char, s[6..]))
      case None => None
    else None
  }

  /** The value of four hexadecimal digits, most significant first. */
  function HexQuad(a: char, b: char, c: char, d: char): (r: Option<nat>)
    ensures r.Some? ==> r.value < 0x10000
  {
    match (HexValue(a), HexValue(b), HexValue(c), HexValue(d))
    case (Some(va), Some(vb), Some(vc), Some(vd)) => Some(va * 4096 + vb * 256 + vc * 16 + vd)
    case _ => None
  }

  /** Reads the body of a string literal up to and including its closing quote; returns the text and what follows. */
  function ReadString(s: string): (r: Option<(string, string)>)
    ensures r.Some? ==> |r.value.1| < |s|
    decreases |s|
  {
    if |s| == 0 then None
    else if s[0] == '"' then Some(("", s[1..]))
    else match ReadChar(s)
      case None => None
      case Some((c, rest)) =>
        match ReadString(rest)
        case None => None
        case Some((t, after)) => Some(([c] + t, after))
  }

  /** Reads `"..." , "..." ... ]` to the end of the input. */
  function ReadElements(s: string): Option<seq<string>>
    decreases |s|
  {
    if |s| == 0 || s[0] != '"' then None
    else match ReadString(s[1..])
      case None => None
      case Some((x, rest)) =>
        if rest == "]" then Some([x])
        else if |rest| > 0 && rest[0] == ',' then
          match ReadElements(rest[1..])
          case None => None
          case Some(more) => Some([x] + more)
        else None
  }

  /** Reads a JSON array of strings written without white space. */
  function ReadStringArray(s: string): Option<seq<string>>
  {
    if |s| < 2 || s[0] != '[' then None
    else if s[1..] == "]" then Some([])
    else ReadElements(s[1..])
  }

  lemma EscapeCharRead(c: char, t: string)
    ensures ReadChar(EscapeChar(c) + t) == Some((c, t))
  {
    if c == '"' || c == '\\' || c as int == 0x08 || c as int == 0x09 || c as int == 0x0A
       || c as int == 0x0C || c as int == 0x0D {
      ShortEscapeRead(c, t);
    } else if c as int < 0x20 {
      UnicodeEscapeRead(c, t);
    } else {
      var e := EscapeChar(c);
      assert (e + t)[0] == c;
      assert (e + t)[1..] == t;
    }
  }

  lemma ShortEscapeRead(c: char, t: string)
    requires c == '"' || c == '\\' || c as int == 0x08 || c as int == 0x09 || c as int == 0x0A
             || c as int == 0x0C || c as int == 0x0D
    ensures ReadChar(EscapeChar(c) + t) == Some((c, t))
  {
    var s := EscapeChar(c) + t;
    assert |EscapeChar(c)| == 2;
    assert s[0] == '\\' && s[1] == EscapeChar(c)[1];
    assert s[2..] == t;
  }

  lemma UnicodeEscapeRead(c: char, t: string)
    requires c as int < 0x20
    requires c as int != 0x08 && c as int != 0x09 && c as int != 0x0A && c as int != 0x0C && c as int != 0x0D
    ensures ReadChar(EscapeChar(c) + t) == Some((c, t))
  {
    var e := EscapeChar(c);
    var s := e + t;
    assert e == "\\u00" + [HexDigit(c as int / 16), HexDigit(c as int % 16)];
    assert s[..6] == e;
    assert s[6..] == t;
    assert HexQuad(s[2], s[3], s[4], s[5]) == Some(c as int) by {
      assert HexValue(s[2]) == Some(0) && HexValue(s[3]) == Some(0);
      assert HexValue(s[4]) == Some(c as int / 16) && HexValue(s[5]) == Some(c as int % 16);
    }
  }

  /** A string literal's body is its first character followed by the rest of the body. */
  lemma ReadStringCons(s: string, c: char, tail: string, t: string, after: string)
    requires |s| > 0 && s[0] != '"'
    requires ReadChar(s) == Some((c, tail)) && ReadString(tail) == Some((t, after))
    ensures ReadString(s) == Some(([c] + t, after))
  {
  }

  lemma {:induction false} EscapeStringRead(x: string, rest: string)
    ensures ReadString(EscapeString(x) + "\"" + rest) == Some((x, rest))
  {
    if x == [] {
      assert EscapeString(x) + "\"" + rest == "\"" + rest;
      assert ([('"')] + rest)[1..] == rest;
    } else {
      var tail := EscapeString(x[1..]) + "\"" + rest;
      var s := EscapeChar(x[0]) + tail;
      assert EscapeString(x) == EscapeChar(x[0]) + EscapeString(x[1..]);
      assert (EscapeChar(x[0]) + EscapeString(x[1..])) + "\"" + rest == s;
      assert s[0] == EscapeChar(x[0])[0];
      EscapeCharRead(x[0], tail);
      EscapeStringRead(x[1..], rest);
      ReadStringCons(s, x[0], tail, x[1..], rest);
      assert [x[0]] + x[1..] == x;
    }
  }

  /** The last element of the list, followed by the closing bracket. */
  lemma ReadLastElement(s: string, x: string)
    requires |s| > 0 && s[0] == '"' && ReadString(s[1..]) == Some((x, "]"))
    ensures ReadElements(s) == Some([x])
  {
  }

  /** An element followed by a comma and the rest of the list. */
  lemma ReadNextElement(s: string, x: string, rest: string, ys: seq<string>)
    requires |s| > 0 && s[0] == '"' && ReadString(s[1..]) == Some((x, rest))
    requires |rest| > 0 && rest[0] == ',' && ReadElements(rest[1..]) == Some(ys)
    ensures ReadElements(s) == Some([x] + ys)
  {
  }

  /** The first element of a written list reads back, leaving what followed its closing quote. */
  lemma ReadFirstElement(x: string, more: string, s: string)
    requires s == "\"" + EscapeString(x) + "\"" + more
    ensures |s| > 0 && s[0] == '"' && ReadString(s[1..]) == Some((x, more))
  {
    assert s == "\"" + (EscapeString(x) + "\"" + more);
    assert s[1..] == EscapeString(x) + "\"" + more;
    EscapeStringRead(x, more);
  }

  /** Splitting the written list after the first element's closing quote; stated apart to keep the solver small. */
  lemma Regroup(e: string, t: string)
    ensures ("\"" + e + "\"") + "," + t + "]" == "\"" + e + "\"" + ("," + (t + "]"))
  {
  }

  /** A non-empty list is its head followed by its tail; a lemma rather than an assert to keep the solver's context small. */
  lemma HeadTail<T>(xs: seq<T>)
    requires |xs| > 0
    ensures [xs[0]] + xs[1..] == xs
  {
  }

  lemma ElementsReadOne(x: string)
    ensures ReadElements(Elements([x]) + "]") == Some([x])
  {
    var s := Elements([x]) + "]";
    ReadFirstElement(x, "]", s);
    ReadLastElement(s, x);
  }

  lemma ElementsReadCons(xs: seq<string>)
    requires |xs| > 1 && ReadElements(Elements(xs[1..]) + "]") == Some(xs[1..])
    ensures ReadElements(Elements(xs) + "]") == Some(xs)
  {
    var tail := Elements(xs[1..]) + "]";
    var more := "," + tail;
    var s := Elements(xs) + "]";
    assert Elements(xs) == Quote(xs[0]) + "," + Elements(xs[1..]);
    Regroup(EscapeString(xs[0]), Elements(xs[1..]));
    ReadFirstElement(xs[0], more, s);
    ReadNextElement(s, xs[0], more, xs[1..]);
    HeadTail(xs);
  }

  lemma {:induction false} ElementsRead(xs: seq<string>)
    requires |xs| > 0
    ensures ReadElements(Elements(xs) + "]") == Some(xs)
  {
    if |xs| == 1 {
      ElementsReadOne(xs[0]);
      assert [xs[0]] == xs;
    } else {
      ElementsRead(xs[1..]);
      ElementsReadCons(xs);
    }
  }

  /** Reading back what the writer wrote gives the list that was written. */
  lemma WriteStringArrayRoundTrip(xs: seq<string>)
    ensures ReadStringArray(WriteStringArray(xs)) == Some(xs)
  {
    var s := WriteStringArray(xs);
    if |xs| == 0 {
      assert s == "[]";
    } else {
      assert s[1..] == Elements(xs) + "]";
      assert Elements(xs)[0] == '"';
      ElementsRead(xs);
    }
  }

  /** A string with nothing to escape is written between quotes as it is. */
  lemma {:induction false} QuotePlain(s: string)
    requires forall i :: 0 <= i < |s| ==> !NeedsEscape(s[i])
    ensures Quote(s) == "\"" + s + "\""
  {
    PlainEscapesToItself(s);
  }

  lemma {:induction false} PlainEscapesToItself(s: string)
    requires forall i :: 0 <= i < |s| ==> !NeedsEscape(s[i])
    ensures EscapeString(s) == s
  {
    if s != [] {
      PlainEscapesToItself(s[1..]);
      assert s == [s[0]] + s[1..];
    }
  }
}
