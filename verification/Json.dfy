/**
 JSON documents (RFC 8259) and their text: a printer, a parser for arbitrary
 text, and the proof that parsing undoes printing.
 */
module Json {
  import opened Common
  import Decimals

  /** Objects and arrays are different nodes (sections 4 and 5 of RFC 8259). */
  datatype Json =
    | Null
    | Bool(b: bool)
    | Num(n: Decimals.Number)
    | Str(s: string)
    | Arr(items: seq<Json>)
    | Obj(members: seq<Member>)

  datatype Member = Member(name: string, value: Json)

  // ----- Printing -----

  function HexChar(d: nat): char
    requires d < 16
  {
    if d < 10 then ('0' as int + d) as char else ('A' as int + d - 10) as char
  }

  function EscapeChar(c: char): string {
    if c == '\"' then "\\\""
    else if c == '\\' then "\\\\"
    else if c == '\U{8}' then "\\b"
    else if c == '\U{C}' then "\\f"
    else if c == '\n' then "\\n"
    else if c == '\r' then "\\r"
    else if c == '\t' then "\\t"
    else if c < ' ' then "\\u00" + [HexChar(c as int / 16), HexChar(c as int % 16)]
    else [c]
  }

  function Escape(s: string): string {
    if s == "" then "" else EscapeChar(s[0]) + Escape(s[1..])
  }

  function Quote(s: string): string { "\"" + Escape(s) + "\"" }

  function Print(j: Json): string
    decreases j, 1
  {
    match j
    case Null => "null"
    case Bool(b) => if b then "true" else "false"
    case Num(n) => Decimals.Print(n)
    case Str(s) => Quote(s)
    case Arr(items) => "[" + PrintItems(items) + "]"
    case Obj(members) => "{" + PrintMembers(members) + "}"
  }

  function PrintItems(items: seq<Json>): string
    decreases items, 0
  {
    if items == [] then ""
    else if |items| == 1 then Print(items[0])
    else Print(items[0]) + "," + PrintItems(items[1..])
  }

  function PrintMember(m: Member): string
    decreases m, 2
  {
    Quote(m.name) + ":" + Print(m.value)
  }

  function PrintMembers(members: seq<Member>): string
    decreases members, 0
  {
    if members == [] then ""
    else if |members| == 1 then PrintMember(members[0])
    else PrintMember(members[0]) + "," + PrintMembers(members[1..])
  }

  lemma {:induction false} EscapeHasNoNul(s: string)
    ensures '\0' !in Escape(s)
  {
    if s != "" {
      EscapeHasNoNul(s[1..]);
      assert '\0' !in EscapeChar(s[0]);
    }
  }

  /** A printed document holds no NUL, even if its strings do, so it passes through C strings whole. */
  lemma {:induction false} PrintHasNoNul(j: Json)
    ensures '\0' !in Print(j)
    decreases j, 1
  {
    match j
    case Num(n) => Decimals.PrintHasNoNul(n);
    case Str(s) => EscapeHasNoNul(s);
    case Arr(items) => PrintItemsHasNoNul(items);
    case Obj(members) => PrintMembersHasNoNul(members);
    case _ =>
  }

  lemma {:induction false} PrintItemsHasNoNul(items: seq<Json>)
    ensures '\0' !in PrintItems(items)
    decreases items, 0
  {
    if items != [] {
      PrintHasNoNul(items[0]);
      PrintItemsHasNoNul(items[1..]);
    }
  }

  lemma {:induction false} PrintMemberHasNoNul(m: Member)
    ensures '\0' !in PrintMember(m)
    decreases m, 2
  {
    EscapeHasNoNul(m.name);
    PrintHasNoNul(m.value);
  }

  lemma {:induction false} PrintMembersHasNoNul(members: seq<Member>)
    ensures '\0' !in PrintMembers(members)
    decreases members, 0
  {
    if members != [] {
      PrintMemberHasNoNul(members[0]);
      PrintMembersHasNoNul(members[1..]);
    }
  }

  // ----- Parsing -----

  datatype Parsed<+T> = Read(value: T, rest: string) | Bad

  predicate IsSpace(c: char) { c == ' ' || c == '\t' || c == '\n' || c == '\r' }

  function SkipSpace(s: string): (r: string)
    ensures |r| <= |s| && (r == "" || !IsSpace(r[0]))
  {
    if s != "" && IsSpace(s[0]) then SkipSpace(s[1..]) else s
  }

  function HexValue(c: char): Option<nat> {
    if '0' <= c <= '9' then Some(c as int - '0' as int)
    else if 'A' <= c <= 'F' then Some(c as int - 'A' as int + 10)
    else if 'a' <= c <= 'f' then Some(c as int - 'a' as int + 10)
    else None
  }

  /** Four hexadecimal digits naming one character; halves of a surrogate pair are refused. */
  function ParseHex(s: string): Parsed<char> {
    if |s| < 4 then Bad
    else
      match (HexValue(s[0]), HexValue(s[1]), HexValue(s[2]), HexValue(s[3]))
      case (Some(a), Some(b), Some(c), Some(d)) =>
        var code := ((a * 16 + b) * 16 + c) * 16 + d;
        if 0 <= code < 0xD800 || 0xE000 <= code < 0x10000 then Read(code as char, s[4..]) else Bad
      case _ => Bad
  }

  /** One character of a string body, escaped or not. */
  function ParseChar(s: string): (r: Parsed<char>)
    requires s != ""
    ensures r.Read? ==> |r.rest| < |s|
  {
    if s[0] == '\\' then
      if |s| < 2 then Bad
      else if s[1] == '\"' then Read('\"', s[2..])
      else if s[1] == '\\' then Read('\\', s[2..])
      else if s[1] == '/' then Read('/', s[2..])
      else if s[1] == 'b' then Read('\U{8}', s[2..])
      else if s[1] == 'f' then Read('\U{C}', s[2..])
      else if s[1] == 'n' then Read('\n', s[2..])
      else if s[1] == 'r' then Read('\r', s[2..])
      else if s[1] == 't' then Read('\t', s[2..])
      else if s[1] == 'u' then ParseHex(s[2..])
      else Bad
    else if s[0] < ' ' then Bad
    else Read(s[0], s[1..])
  }

  /** A string body up to and including the closing quote. */
  function ParseChars(s: string): (r: Parsed<string>)
    ensures r.Read? ==> |r.rest| < |s|
    decreases |s|
  {
    if s == "" then Bad
    else if s[0] == '\"' then Read("", s[1..])
    else
      match ParseChar(s)
      case Bad => Bad
      case Read(c, rest) =>
        match ParseChars(rest)
        case Bad => Bad
        case Read(cs, rest') => Read([c] + cs, rest')
  }

  predicate StartsWith(s: string, word: string) { |word| <= |s| && s[..|word|] == word }

  function ParseScalar(s: string): (r: Parsed<Json>)
    requires s != ""
    ensures r.Read? ==> |r.rest| < |s|
  {
    if StartsWith(s, "null") then Read(Null, s[4..])
    else if StartsWith(s, "true") then Read(Bool(true), s[4..])
    else if StartsWith(s, "false") then Read(Bool(false), s[5..])
    else if s[0] == '\"' then
      match ParseChars(s[1..])
      case Bad => Bad
      case Read(cs, rest) => Read(Str(cs), rest)
    else
      match Decimals.Scan(s)
      case None => Bad
      case Some((n, rest)) => Read(Num(n), rest)
  }

  function ParseValue(text: string): (r: Parsed<Json>)
    ensures r.Read? ==> |r.rest| < |text|
    decreases |text|, 0
  {
    var s := SkipSpace(text);
    if s == "" then Bad
    else if s[0] == '[' then
      var inner := SkipSpace(s[1..]);
      if inner != "" && inner[0] == ']' then Read(Arr([]), inner[1..])
      else
        match ParseItems(inner)
        case Bad => Bad
        case Read(items, rest) => Read(Arr(items), rest)
    else if s[0] == '{' then
      var inner := SkipSpace(s[1..]);
      if inner != "" && inner[0] == '}' then Read(Obj([]), inner[1..])
      else
        match ParseMembers(inner)
        case Bad => Bad
        case Read(members, rest) => Read(Obj(members), rest)
    else ParseScalar(s)
  }

  /** One or more values separated by commas, up to and including the closing bracket. */
  function ParseItems(text: string): (r: Parsed<seq<Json>>)
    ensures r.Read? ==> |r.rest| < |text|
    decreases |text|, 1
  {
    match ParseValue(text)
    case Bad => Bad
    case Read(item, after) =>
      var s := SkipSpace(after);
      if s != "" && s[0] == ']' then Read([item], s[1..])
      else if s != "" && s[0] == ',' then
        match ParseItems(s[1..])
        case Bad => Bad
        case Read(items, rest) => Read([item] + items, rest)
      else Bad
  }

  function ParseMember(text: string): (r: Parsed<Member>)
    ensures r.Read? ==> |r.rest| < |text|
    decreases |text|, 1
  {
    var s := SkipSpace(text);
    if s == "" || s[0] != '\"' then Bad
    else
      match ParseChars(s[1..])
      case Bad => Bad
      case Read(name, after) =>
        var colon := SkipSpace(after);
        if colon == "" || colon[0] != ':' then Bad
        else
          match ParseValue(colon[1..])
          case Bad => Bad
          case Read(value, rest) => Read(Member(name, value), rest)
  }

  function ParseMembers(text: string): (r: Parsed<seq<Member>>)
    ensures r.Read? ==> |r.rest| < |text|
    decreases |text|, 2
  {
    match ParseMember(text)
    case Bad => Bad
    case Read(member, after) =>
      var s := SkipSpace(after);
      if s != "" && s[0] == '}' then Read([member], s[1..])
      else if s != "" && s[0] == ',' then
        match ParseMembers(s[1..])
        case Bad => Bad
        case Read(members, rest) => Read([member] + members, rest)
      else Bad
  }

  /** No object in the document names a member twice. */
  predicate UniqueNames(j: Json) {
    match j
    case Arr(items) => forall item | item in items :: UniqueNames(item)
    case Obj(members) =>
      && (forall i, k | 0 <= i < k < |members| :: members[i].name != members[k].name)
      && (forall m | m in members :: UniqueNames(m.value))
    case _ => true
  }

  /**
   A whole document.  An object with two members of one name is refused, as the
   JSON library behind the service does (section 4 of RFC 8259 leaves it open).
   */
  function FromString(text: string): (r: Option<Json>)
    ensures r.Some? ==> UniqueNames(r.value)
  {
    match ParseValue(text)
    case Bad => None
    case Read(j, rest) => if SkipSpace(rest) == "" && UniqueNames(j) then Some(j) else None
  }

  // ----- Parsing undoes printing -----

  lemma ParseEscaped(c: char, rest: string)
    ensures ParseChar(EscapeChar(c) + rest) == Read(c, rest)
    ensures (EscapeChar(c) + rest)[0] != '\"'
  {
    var s := EscapeChar(c) + rest;
    if EscapeChar(c)[0] == '\\' {
      if |EscapeChar(c)| == 2 {
        assert s[2..] == rest;
      } else {
        var hex := s[2..];
        assert hex == "00" + [HexChar(c as int / 16), HexChar(c as int % 16)] + rest;
        assert hex[4..] == rest;
      }
    } else {
      assert s[1..] == rest;
    }
  }

  lemma Regroup4(a: string, b: string, c: string, d: string)
    ensures a + b + c + d == a + (b + (c + d)) == a + (b + c + d)
  {
  }

  lemma RegroupList(head: string, tail: string, close: string, rest: string)
    ensures head + "," + tail + close + rest == head + ("," + (tail + close + rest))
  {
  }

  lemma {:induction false} ParseQuoted(cs: string, rest: string)
    ensures ParseChars(Escape(cs) + "\"" + rest) == Read(cs, rest)
  {
    if cs == "" {
      assert Escape(cs) + "\"" + rest == "\"" + rest;
      assert ("\"" + rest)[1..] == rest;
    } else {
      var tail := Escape(cs[1..]) + "\"" + rest;
      Regroup4(EscapeChar(cs[0]), Escape(cs[1..]), "\"", rest);
      ParseEscaped(cs[0], tail);
      ParseQuoted(cs[1..], rest);
      assert [cs[0]] + cs[1..] == cs;
    }
  }

  /** A printed value never starts with a blank or with a closing bracket. */
  lemma PrintHead(j: Json)
    ensures Print(j) != ""
    ensures var c := Print(j)[0]; !IsSpace(c) && c != ']' && c != '}' && c != ','
    ensures Print(j)[0] == '[' <==> j.Arr?
    ensures Print(j)[0] == '{' <==> j.Obj?
  {
    if j.Num? {
      Decimals.PrintHead(j.n);
    }
  }

  lemma NoSpace(s: string)
    requires s == "" || !IsSpace(s[0])
    ensures SkipSpace(s) == s
  {
  }

  lemma ParseWordPrint(j: Json, rest: string)
    requires j.Null? || j.Bool?
    ensures Print(j) + rest != "" && ParseScalar(Print(j) + rest) == Read(j, rest)
  {
    var s := Print(j) + rest;
    var n := |Print(j)|;
    assert s[..n] == Print(j) && s[n..] == rest;
    assert s[0] == Print(j)[0];
  }

  lemma ParseNumberPrint(n: Decimals.Number, rest: string)
    requires Decimals.NoDigitFirst(rest)
    ensures Decimals.Print(n) + rest != "" && ParseScalar(Decimals.Print(n) + rest) == Read(Num(n), rest)
  {
    var s := Decimals.Print(n) + rest;
    Decimals.PrintHead(n);
    Decimals.ScanPrint(n, rest);
    assert s[0] == Decimals.Print(n)[0];
    NotAWord(s, "null");
    NotAWord(s, "true");
    NotAWord(s, "false");
  }

  lemma NotAWord(s: string, word: string)
    requires s != "" && word != "" && s[0] != word[0]
    ensures !StartsWith(s, word)
  {
    assert |word| <= |s| ==> s[..|word|][0] == s[0];
  }

  lemma ParseStringPrint(cs: string, rest: string)
    ensures Quote(cs) + rest != "" && ParseScalar(Quote(cs) + rest) == Read(Str(cs), rest)
  {
    var s := Quote(cs) + rest;
    assert s[1..] == Escape(cs) + "\"" + rest;
    ParseQuoted(cs, rest);
    NotAWord(s, "null");
    NotAWord(s, "true");
    NotAWord(s, "false");
  }

  lemma ParseScalarPrint(j: Json, rest: string)
    requires !j.Arr? && !j.Obj?
    requires Decimals.NoDigitFirst(rest)
    ensures Print(j) + rest != "" && ParseScalar(Print(j) + rest) == Read(j, rest)
  {
    match j
    case Num(n) => ParseNumberPrint(n, rest);
    case Str(cs) => ParseStringPrint(cs, rest);
    case _ => ParseWordPrint(j, rest);
  }

  lemma MembersHead(members: seq<Member>)
    requires members != []
    ensures PrintMembers(members) != "" && PrintMembers(members)[0] == '\"'
  {
    assert PrintMember(members[0])[0] == '\"';
  }

  lemma ItemsHead(items: seq<Json>)
    requires items != []
    ensures PrintItems(items) != ""
    ensures !IsSpace(PrintItems(items)[0]) && PrintItems(items)[0] != ']'
  {
    PrintHead(items[0]);
    assert PrintItems(items)[0] == Print(items[0])[0];
  }

  /** What the parser does after an opening bracket. */
  lemma ParseOpened(open: char, inner: string)
    requires inner != "" && !IsSpace(inner[0]) && (open == '[' || open == '{')
    ensures open == '[' && inner[0] == ']' ==> ParseValue([open] + inner) == Read(Arr([]), inner[1..])
    ensures open == '{' && inner[0] == '}' ==> ParseValue([open] + inner) == Read(Obj([]), inner[1..])
    ensures open == '[' && inner[0] != ']' && ParseItems(inner).Read? ==>
              ParseValue([open] + inner) == Read(Arr(ParseItems(inner).value), ParseItems(inner).rest)
    ensures open == '{' && inner[0] != '}' && ParseMembers(inner).Read? ==>
              ParseValue([open] + inner) == Read(Obj(ParseMembers(inner).value), ParseMembers(inner).rest)
  {
    NoSpace([open] + inner);
    assert ([open] + inner)[1..] == inner;
    NoSpace(inner);
  }

  lemma ParseUnopened(s: string)
    requires s != "" && !IsSpace(s[0]) && s[0] != '[' && s[0] != '{'
    ensures ParseValue(s) == ParseScalar(s)
  {
    NoSpace(s);
  }

  lemma {:induction false} ParsePrint(j: Json, rest: string)
    requires Decimals.NoDigitFirst(rest)
    ensures ParseValue(Print(j) + rest) == Read(j, rest)
    decreases j, 1
  {
    match j
    case Arr(items) => ParsePrintArr(items, rest);
    case Obj(members) => ParsePrintObj(members, rest);
    case _ =>
      PrintHead(j);
      assert (Print(j) + rest)[0] == Print(j)[0];
      ParseUnopened(Print(j) + rest);
      ParseScalarPrint(j, rest);
  }

  lemma {:induction false} ParsePrintArr(items: seq<Json>, rest: string)
    ensures ParseValue(Print(Arr(items)) + rest) == Read(Arr(items), rest)
    decreases items, 1
  {
    var inner := PrintItems(items) + "]" + rest;
    assert Print(Arr(items)) + rest == ['['] + inner;
    if items == [] {
      assert inner == "]" + rest && inner[1..] == rest;
      assert inner[0] == ']' && !IsSpace(']');
    } else {
      ItemsHead(items);
      assert inner[0] == PrintItems(items)[0];
      assert !IsSpace(inner[0]) && inner[0] != ']';
      ParsePrintItems(items, rest);
    }
    ParseOpened('[', inner);
  }

  lemma {:induction false} ParsePrintObj(members: seq<Member>, rest: string)
    ensures ParseValue(Print(Obj(members)) + rest) == Read(Obj(members), rest)
    decreases members, 1
  {
    var inner := PrintMembers(members) + "}" + rest;
    assert Print(Obj(members)) + rest == ['{'] + inner;
    if members == [] {
      assert inner == "}" + rest && inner[1..] == rest;
      assert inner[0] == '}' && !IsSpace('}');
    } else {
      MembersHead(members);
      assert inner[0] == '\"' && !IsSpace('\"');
      ParsePrintMembers(members, rest);
    }
    ParseOpened('{', inner);
  }

  lemma LastItem(head: string, item: Json, rest: string)
    requires ParseValue(head + ("]" + rest)) == Read(item, "]" + rest)
    ensures ParseItems(head + ("]" + rest)) == Read([item], rest)
  {
    NoSpace("]" + rest);
    assert ("]" + rest)[1..] == rest;
  }

  lemma MoreItems(head: string, item: Json, more: string, items: seq<Json>, rest: string)
    requires ParseValue(head + ("," + more)) == Read(item, "," + more)
    requires ParseItems(more) == Read(items, rest)
    ensures ParseItems(head + ("," + more)) == Read([item] + items, rest)
  {
    NoSpace("," + more);
    assert ("," + more)[1..] == more;
  }

  lemma LastMember(head: string, m: Member, rest: string)
    requires ParseMember(head + ("}" + rest)) == Read(m, "}" + rest)
    ensures ParseMembers(head + ("}" + rest)) == Read([m], rest)
  {
    NoSpace("}" + rest);
    assert ("}" + rest)[1..] == rest;
  }

  lemma MoreMembers(head: string, m: Member, more: string, members: seq<Member>, rest: string)
    requires ParseMember(head + ("," + more)) == Read(m, "," + more)
    requires ParseMembers(more) == Read(members, rest)
    ensures ParseMembers(head + ("," + more)) == Read([m] + members, rest)
  {
    NoSpace("," + more);
    assert ("," + more)[1..] == more;
  }

  lemma {:induction false} ParsePrintItems(items: seq<Json>, rest: string)
    requires items != []
    ensures ParseItems(PrintItems(items) + "]" + rest) == Read(items, rest)
    decreases items, 0
  {
    if |items| == 1 {
      ParsePrint(items[0], "]" + rest);
      LastItem(Print(items[0]), items[0], rest);
      Regroup(Print(items[0]), "]", rest);
      assert items == [items[0]];
    } else {
      RegroupList(Print(items[0]), PrintItems(items[1..]), "]", rest);
      var more := PrintItems(items[1..]) + "]" + rest;
      ParsePrint(items[0], "," + more);
      ParsePrintItems(items[1..], rest);
      MoreItems(Print(items[0]), items[0], more, items[1..], rest);
      assert items == [items[0]] + items[1..];
    }
  }

  lemma ParseColon(name: string, text: string, value: Json, rest: string)
    requires ParseValue(text) == Read(value, rest)
    ensures ParseMember(Quote(name) + (":" + text)) == Read(Member(name, value), rest)
  {
    var s, colon := Quote(name) + (":" + text), ":" + text;
    NoSpace(s);
    assert s[1..] == Escape(name) + "\"" + colon;
    ParseQuoted(name, colon);
    NoSpace(colon);
    assert colon[1..] == text;
  }

  lemma {:induction false} ParsePrintMember(m: Member, rest: string)
    requires Decimals.NoDigitFirst(rest)
    ensures ParseMember(PrintMember(m) + rest) == Read(m, rest)
    decreases m, 2
  {
    var text := Print(m.value) + rest;
    ParsePrint(m.value, rest);
    ParseColon(m.name, text, m.value, rest);
    Regroup4(Quote(m.name), ":", Print(m.value), rest);
  }

  lemma {:induction false} ParsePrintMembers(members: seq<Member>, rest: string)
    requires members != []
    ensures ParseMembers(PrintMembers(members) + "}" + rest) == Read(members, rest)
    decreases members, 0
  {
    if |members| == 1 {
      ParsePrintMember(members[0], "}" + rest);
      LastMember(PrintMember(members[0]), members[0], rest);
      Regroup(PrintMember(members[0]), "}", rest);
      assert members == [members[0]];
    } else {
      RegroupList(PrintMember(members[0]), PrintMembers(members[1..]), "}", rest);
      var more := PrintMembers(members[1..]) + "}" + rest;
      ParsePrintMember(members[0], "," + more);
      ParsePrintMembers(members[1..], rest);
      MoreMembers(PrintMember(members[0]), members[0], more, members[1..], rest);
      assert members == [members[0]] + members[1..];
    }
  }

  /** Reading a printed document back: exactly the documents without a doubled name survive. */
  lemma TextRoundTrip(j: Json)
    ensures FromString(Print(j)) == if UniqueNames(j) then Some(j) else None
  {
    ParsePrint(j, "");
    assert Print(j) + "" == Print(j);
  }
}
