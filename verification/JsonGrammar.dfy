/**
 The grammar of JSON texts (RFC 8259, numbers without an exponent), and the proof
 that the parser reads exactly the texts it derives.
 */
module JsonGrammar {
  import opened Common
  import opened NumberTexts
  import J = Json

  // ----- Strings (section 7) -----

  predicate IsHex(c: char, d: int) {
    || ('0' <= c <= '9' && d == c as int - '0' as int)
    || ('a' <= c <= 'f' && d == c as int - 'a' as int + 10)
    || ('A' <= c <= 'F' && d == c as int - 'A' as int + 10)
  }

  /** The letter after a backslash, and the character it stands for. */
  predicate IsShort(e: char, c: char) {
    || (e == '\"' && c == '\"')
    || (e == '\\' && c == '\\')
    || (e == '/' && c == '/')
    || (e == 'b' && c == '\U{8}')
    || (e == 'f' && c == '\U{C}')
    || (e == 'n' && c == '\n')
    || (e == 'r' && c == '\r')
    || (e == 't' && c == '\t')
  }

  /** Four hexadecimal digits name a character by its code. */
  ghost predicate IsCode(hex: string, c: char) {
    |hex| == 4 &&
    exists d0, d1, d2, d3 ::
      && IsHex(hex[0], d0) && IsHex(hex[1], d1) && IsHex(hex[2], d2) && IsHex(hex[3], d3)
      && c as int == ((d0 * 16 + d1) * 16 + d2) * 16 + d3
  }

  /** One character of a string, as it is or escaped. */
  ghost predicate IsChar(e: string, c: char) {
    || (e == [c] && c >= ' ' && c != '\"' && c != '\\')
    || (|e| == 2 && e[0] == '\\' && IsShort(e[1], c))
    || (|e| == 6 && e[0] == '\\' && e[1] == 'u' && IsCode(e[2..], c))
  }

  ghost predicate IsBody(body: string, cs: string)
    decreases |cs|
  {
    if cs == "" then body == ""
    else exists k :: 0 < k <= |body| && IsChar(body[..k], cs[0]) && IsBody(body[k..], cs[1..])
  }

  ghost predicate IsString(s: string, cs: string) {
    |s| >= 2 && s[0] == '\"' && s[|s| - 1] == '\"' && IsBody(s[1..|s| - 1], cs)
  }

  // ----- Values (sections 2 to 6) -----

  predicate Spaces(s: string) {
    forall i :: 0 <= i < |s| ==> s[i] == ' ' || s[i] == '\t' || s[i] == '\n' || s[i] == '\r'
  }

  /** A text of the document, without space around it. */
  ghost predicate IsText(s: string, j: J.Json)
    decreases j, 1
  {
    match j
    case Null => s == "null"
    case Bool(b) => s == if b then "true" else "false"
    case Num(n) => IsNumberToken(s, n)
    case Str(cs) => IsString(s, cs)
    case Arr(items) =>
      |s| >= 2 && s[0] == '[' && s[|s| - 1] == ']' &&
      if items == [] then Spaces(s[1..|s| - 1]) else IsItems(s[1..|s| - 1], items)
    case Obj(members) =>
      |s| >= 2 && s[0] == '{' && s[|s| - 1] == '}' &&
      if members == [] then Spaces(s[1..|s| - 1]) else IsMembers(s[1..|s| - 1], members)
  }

  ghost predicate IsPadded(t: string, j: J.Json)
    decreases j, 2
  {
    exists l, r :: 0 <= l <= r <= |t| && Spaces(t[..l]) && IsText(t[l..r], j) && Spaces(t[r..])
  }

  ghost predicate IsItems(t: string, items: seq<J.Json>)
    requires items != []
    decreases items, 0
  {
    if |items| == 1 then IsPadded(t, items[0])
    else
      exists k :: 0 <= k < |t| && t[k] == ',' && IsPadded(t[..k], items[0]) && IsItems(t[k + 1..], items[1..])
  }

  ghost predicate IsMember(t: string, m: J.Member)
    decreases m, 0
  {
    exists l, r, c ::
      && 0 <= l <= r <= c < |t| && Spaces(t[..l]) && IsString(t[l..r], m.name)
      && Spaces(t[r..c]) && t[c] == ':' && IsPadded(t[c + 1..], m.value)
  }

  ghost predicate IsMembers(t: string, members: seq<J.Member>)
    requires members != []
    decreases members, 0
  {
    if |members| == 1 then IsMember(t, members[0])
    else
      exists k :: 0 <= k < |t| && t[k] == ',' && IsMember(t[..k], members[0]) && IsMembers(t[k + 1..], members[1..])
  }

  // ----- What the grammar derives is read: strings -----

  lemma HexRead(c: char, d: int)
    ensures IsHex(c, d) <==> J.HexValue(c) == Some(d) && 0 <= d < 16
  {
  }

  lemma CodeRead(hex: string, c: char, rest: string)
    requires IsCode(hex, c)
    ensures J.ParseHex(hex + rest) == J.Read(c, rest)
  {
    var d0, d1, d2, d3 :|
      && IsHex(hex[0], d0) && IsHex(hex[1], d1) && IsHex(hex[2], d2) && IsHex(hex[3], d3)
      && c as int == ((d0 * 16 + d1) * 16 + d2) * 16 + d3;
    HexRead(hex[0], d0);
    HexRead(hex[1], d1);
    HexRead(hex[2], d2);
    HexRead(hex[3], d3);
    assert (hex + rest)[4..] == rest;
  }

  lemma CharRead(e: string, c: char, rest: string)
    requires IsChar(e, c)
    ensures e[0] != '\"' && J.ParseChar(e + rest) == J.Read(c, rest)
  {
    var s := e + rest;
    if |e| == 1 {
      assert s[1..] == rest;
    } else if |e| == 2 {
      assert s[2..] == rest;
    } else {
      assert s[2..] == e[2..] + rest;
      CodeRead(e[2..], c, rest);
    }
  }

  lemma MoreRead(e: string, c: char, tail: string, cs: string, rest: string)
    requires IsChar(e, c) && J.ParseChars(tail) == J.Read(cs, rest)
    ensures J.ParseChars(e + tail) == J.Read([c] + cs, rest)
  {
    CharRead(e, c, tail);
    assert (e + tail)[0] == e[0];
  }

  lemma FirstRead(body: string, k: nat, cs: string, close: string, rest: string)
    requires k <= |body| && cs != "" && IsChar(body[..k], cs[0])
    requires J.ParseChars(body[k..] + close) == J.Read(cs[1..], rest)
    ensures J.ParseChars(body + close) == J.Read(cs, rest)
  {
    MoreRead(body[..k], cs[0], body[k..] + close, cs[1..], rest);
    Regroup(body[..k], body[k..], close);
    assert body[..k] + body[k..] == body;
    assert cs == [cs[0]] + cs[1..];
  }

  lemma {:induction false} BodyRead(body: string, cs: string, rest: string)
    requires IsBody(body, cs)
    ensures J.ParseChars(body + ("\"" + rest)) == J.Read(cs, rest)
    decreases |cs|
  {
    if cs == "" {
      assert body + ("\"" + rest) == "\"" + rest && ("\"" + rest)[1..] == rest;
    } else {
      var k :| 0 < k <= |body| && IsChar(body[..k], cs[0]) && IsBody(body[k..], cs[1..]);
      BodyRead(body[k..], cs[1..], rest);
      FirstRead(body, k, cs, "\"" + rest, rest);
    }
  }

  lemma StringRead(s: string, cs: string, rest: string)
    requires IsString(s, cs)
    ensures J.ParseChars((s + rest)[1..]) == J.Read(cs, rest)
  {
    var body := s[1..|s| - 1];
    assert (s + rest)[1..] == body + ("\"" + rest);
    BodyRead(body, cs, rest);
  }

  // ----- Only that is read: strings -----

  lemma CodeSound(s: string)
    requires J.ParseHex(s).Read?
    ensures var r := J.ParseHex(s);
            |s| >= 4 && r.rest == s[4..] && IsCode(s[..4], r.value)
  {
    var d0, d1 := J.HexValue(s[0]).value, J.HexValue(s[1]).value;
    var d2, d3 := J.HexValue(s[2]).value, J.HexValue(s[3]).value;
    HexRead(s[0], d0);
    HexRead(s[1], d1);
    HexRead(s[2], d2);
    HexRead(s[3], d3);
    assert IsHex(s[..4][0], d0) && IsHex(s[..4][1], d1) && IsHex(s[..4][2], d2) && IsHex(s[..4][3], d3);
  }

  lemma CharSound(s: string) returns (e: string)
    requires s != "" && s[0] != '\"' && J.ParseChar(s).Read?
    ensures s == e + J.ParseChar(s).rest && IsChar(e, J.ParseChar(s).value)
  {
    if s[0] != '\\' {
      e := s[..1];
    } else if s[1] != 'u' {
      e := s[..2];
    } else {
      CodeSound(s[2..]);
      e := s[..6];
      assert e[2..] == s[2..][..4];
    }
  }

  lemma {:induction false} BodySound(s: string) returns (body: string)
    requires J.ParseChars(s).Read?
    ensures s == body + ("\"" + J.ParseChars(s).rest) && IsBody(body, J.ParseChars(s).value)
    decreases |s|
  {
    var r := J.ParseChars(s);
    if s[0] == '\"' {
      body := "";
      assert s == "\"" + s[1..];
    } else {
      var e := CharSound(s);
      var tail := J.ParseChar(s).rest;
      var more := BodySound(tail);
      body := e + more;
      assert body[..|e|] == e && body[|e|..] == more;
      assert r.value[0] == J.ParseChar(s).value && r.value[1..] == J.ParseChars(tail).value;
      Regroup(e, more, "\"" + r.rest);
    }
  }

  // ----- Spaces -----

  lemma {:induction false} SkipRead(w: string, x: string)
    requires Spaces(w)
    ensures J.SkipSpace(w + x) == J.SkipSpace(x)
    decreases |w|
  {
    if w == "" {
      assert w + x == x;
    } else {
      assert (w + x)[1..] == w[1..] + x;
      SkipRead(w[1..], x);
    }
  }

  lemma SkipNothing(x: string)
    requires x == "" || !Spaces(x[..1])
    ensures J.SkipSpace(x) == x
  {
  }

  lemma {:induction false} SkipSound(s: string) returns (w: string)
    ensures s == w + J.SkipSpace(s) && Spaces(w)
    decreases |s|
  {
    if s != "" && J.IsSpace(s[0]) {
      var more := SkipSound(s[1..]);
      w := s[..1] + more;
      Regroup(s[..1], more, J.SkipSpace(s));
    } else {
      w := "";
    }
  }

  /** A value is read the same from behind its leading space. */
  lemma ValueSkips(x: string)
    ensures J.ParseValue(J.SkipSpace(x)) == J.ParseValue(x)
  {
    SkipTwice(x);
  }

  lemma SkipTwice(x: string)
    ensures J.SkipSpace(J.SkipSpace(x)) == J.SkipSpace(x)
  {
  }

  lemma NoWord(s: string)
    requires s != "" && s[0] != 'n' && s[0] != 't' && s[0] != 'f'
    ensures !J.StartsWith(s, "null") && !J.StartsWith(s, "true") && !J.StartsWith(s, "false")
  {
    J.NotAWord(s, "null");
    J.NotAWord(s, "true");
    J.NotAWord(s, "false");
  }

  lemma ClosingIsNoScalar(s: string)
    requires s != "" && (s[0] == ']' || s[0] == '}')
    ensures J.ParseScalar(s) == J.Bad
  {
    NoWord(s);
  }

  /** A closing bracket begins no value. */
  lemma NotClosing(x: string)
    requires J.ParseValue(x).Read?
    ensures J.SkipSpace(x) != "" && J.SkipSpace(x)[0] != ']' && J.SkipSpace(x)[0] != '}'
  {
    var s := J.SkipSpace(x);
    if s[0] == ']' || s[0] == '}' {
      ClosingIsNoScalar(s);
    }
  }

  // ----- What the grammar derives is read: values -----

  /** What may come after a value inside a document. */
  predicate Closes(rest: string) { rest == "" || rest[0] == ',' || rest[0] == ']' || rest[0] == '}' }

  lemma TextHead(s: string, j: J.Json)
    requires IsText(s, j)
    ensures s != "" && !Spaces(s[..1])
  {
    if j.Num? {
      var u, a, point, f :| Reads(s, u, a, point, f, j.n);
      assert u[0] == a[0];
    }
    assert s[..1][0] == s[0];
  }

  lemma ScalarRead(s: string, j: J.Json, rest: string)
    requires IsText(s, j) && !j.Arr? && !j.Obj? && Ends(rest)
    ensures J.ParseScalar(s + rest) == J.Read(j, rest)
  {
    var x := s + rest;
    match j
    case Num(n) =>
      var u, a, point, f :| Reads(s, u, a, point, f, n);
      assert u[0] == a[0] && x[0] == s[0];
      NoWord(x);
      TokenScanned(s, n, rest);
    case Str(cs) =>
      NoWord(x);
      StringRead(s, cs, rest);
    case Bool(b) =>
      assert x[..|s|] == s && x[|s|..] == rest;
      if !b {
        assert x[..4] == "fals" && "fals" != "null" && "fals" != "true";
      } else {
        assert x[..4] == "true" && "true" != "null";
      }
    case Null => assert x[..4] == s && x[4..] == rest;
    case _ =>
  }

  /** After its leading space a text is read as its document, whatever closes it. */
  lemma {:induction false} TextRead(w: string, s: string, j: J.Json, rest: string)
    requires Spaces(w) && IsText(s, j) && Ends(rest)
    ensures J.ParseValue(w + (s + rest)) == J.Read(j, rest)
    decreases j, 1
  {
    TextHead(s, j);
    SkipRead(w, s + rest);
    assert (s + rest)[..1] == s[..1];
    SkipNothing(s + rest);
    match j
    case Arr(items) => ArrayRead(w, s, items, rest);
    case Obj(members) => ObjectRead(w, s, members, rest);
    case _ => ScalarRead(s, j, rest);
  }

  lemma SplitTwice(t: string, l: nat, r: nat, rest: string)
    requires l <= r <= |t|
    ensures t + rest == t[..l] + (t[l..r] + (t[r..] + rest))
  {
  }

  lemma SplitAround(t: string, k: nat, rest: string)
    requires k < |t|
    ensures t + rest == t[..k] + ([t[k]] + (t[k + 1..] + rest))
  {
  }

  lemma EndsAfter(w: string, rest: string)
    requires Spaces(w) && Closes(rest)
    ensures Ends(w + rest)
  {
    if w != "" {
      assert (w + rest)[0] == w[0];
    }
  }

  lemma {:induction false} PaddedRead(t: string, j: J.Json, rest: string) returns (w: string)
    requires IsPadded(t, j) && Closes(rest)
    ensures Spaces(w) && J.ParseValue(t + rest) == J.Read(j, w + rest)
    decreases j, 2
  {
    var l, r :| 0 <= l <= r <= |t| && Spaces(t[..l]) && IsText(t[l..r], j) && Spaces(t[r..]);
    w := t[r..];
    SplitTwice(t, l, r, rest);
    EndsAfter(w, rest);
    TextRead(t[..l], t[l..r], j, w + rest);
  }

  lemma LastItem(x: string, item: J.Json, w: string, rest: string)
    requires J.ParseValue(x) == J.Read(item, w + ("]" + rest)) && Spaces(w)
    ensures J.ParseItems(x) == J.Read([item], rest)
  {
    SkipRead(w, "]" + rest);
    assert ("]" + rest)[1..] == rest;
  }

  lemma MoreItems(x: string, item: J.Json, w: string, more: string, items: seq<J.Json>, rest: string)
    requires J.ParseValue(x) == J.Read(item, w + ("," + more)) && Spaces(w)
    requires J.ParseItems(more) == J.Read(items, rest)
    ensures J.ParseItems(x) == J.Read([item] + items, rest)
  {
    SkipRead(w, "," + more);
    assert ("," + more)[1..] == more;
  }

  lemma FirstItem(t: string, k: nat, items: seq<J.Json>, w: string, rest: string)
    requires items != [] && k < |t| && t[k] == ',' && Spaces(w)
    requires var more := t[k + 1..] + ("]" + rest);
             && J.ParseValue(t[..k] + ("," + more)) == J.Read(items[0], w + ("," + more))
             && J.ParseItems(more) == J.Read(items[1..], rest)
    ensures J.ParseItems(t + ("]" + rest)) == J.Read(items, rest)
  {
    SplitAround(t, k, "]" + rest);
    MoreItems(t + ("]" + rest), items[0], w, t[k + 1..] + ("]" + rest), items[1..], rest);
    assert items == [items[0]] + items[1..];
  }

  lemma {:induction false} ItemsRead(t: string, items: seq<J.Json>, rest: string)
    requires items != [] && IsItems(t, items)
    ensures J.ParseItems(t + ("]" + rest)) == J.Read(items, rest)
    decreases items, 0
  {
    if |items| == 1 {
      var w := PaddedRead(t, items[0], "]" + rest);
      LastItem(t + ("]" + rest), items[0], w, rest);
      assert items == [items[0]];
    } else {
      var k :| 0 <= k < |t| && t[k] == ',' && IsPadded(t[..k], items[0]) && IsItems(t[k + 1..], items[1..]);
      var w := PaddedRead(t[..k], items[0], "," + (t[k + 1..] + ("]" + rest)));
      ItemsRead(t[k + 1..], items[1..], rest);
      FirstItem(t, k, items, w, rest);
    }
  }

  lemma {:induction false} ArrayRead(w: string, s: string, items: seq<J.Json>, rest: string)
    requires IsText(s, J.Arr(items)) && J.SkipSpace(w + (s + rest)) == s + rest
    ensures J.ParseValue(w + (s + rest)) == J.Read(J.Arr(items), rest)
    decreases J.Arr(items), 0
  {
    var inner := s[1..|s| - 1];
    var x := inner + ("]" + rest);
    assert (s + rest)[1..] == x;
    if items == [] {
      SkipRead(inner, "]" + rest);
      assert ("]" + rest)[1..] == rest;
    } else {
      ItemsRead(inner, items, rest);
      NotClosing(x);
      ValueSkips(x);
    }
  }

  lemma MemberParsed(
      w: string, name: string, cs: string, w': string, text: string, value: J.Json, after: string)
    requires Spaces(w) && IsString(name, cs) && Spaces(w') && J.ParseValue(text) == J.Read(value, after)
    ensures J.ParseMember(w + (name + (w' + (":" + text)))) == J.Read(J.Member(cs, value), after)
  {
    var tail := w' + (":" + text);
    SkipRead(w, name + tail);
    assert (name + tail)[0] == '\"';
    assert (name + tail)[..1][0] == '\"';
    SkipNothing(name + tail);
    StringRead(name, cs, tail);
    SkipRead(w', ":" + text);
    assert (":" + text)[1..] == text;
  }

  lemma SplitMember(t: string, l: nat, r: nat, c: nat, rest: string)
    requires l <= r <= c < |t|
    ensures t + rest == t[..l] + (t[l..r] + (t[r..c] + ([t[c]] + (t[c + 1..] + rest))))
  {
    SplitTwice(t, l, r, rest);
    SplitAround(t[r..], c - r, rest);
    assert t[r..][..c - r] == t[r..c] && t[r..][c - r + 1..] == t[c + 1..];
  }

  lemma {:induction false} MemberRead(t: string, m: J.Member, rest: string) returns (w: string)
    requires IsMember(t, m) && Closes(rest)
    ensures Spaces(w) && J.ParseMember(t + rest) == J.Read(m, w + rest)
    decreases m, 0
  {
    var l, r, c :|
      && 0 <= l <= r <= c < |t| && Spaces(t[..l]) && IsString(t[l..r], m.name)
      && Spaces(t[r..c]) && t[c] == ':' && IsPadded(t[c + 1..], m.value);
    w := PaddedRead(t[c + 1..], m.value, rest);
    MemberParsed(t[..l], t[l..r], m.name, t[r..c], t[c + 1..] + rest, m.value, w + rest);
    SplitMember(t, l, r, c, rest);
  }

  lemma LastMember(x: string, m: J.Member, w: string, rest: string)
    requires J.ParseMember(x) == J.Read(m, w + ("}" + rest)) && Spaces(w)
    ensures J.ParseMembers(x) == J.Read([m], rest)
  {
    SkipRead(w, "}" + rest);
    assert ("}" + rest)[1..] == rest;
  }

  lemma MoreMembers(x: string, m: J.Member, w: string, more: string, members: seq<J.Member>, rest: string)
    requires J.ParseMember(x) == J.Read(m, w + ("," + more)) && Spaces(w)
    requires J.ParseMembers(more) == J.Read(members, rest)
    ensures J.ParseMembers(x) == J.Read([m] + members, rest)
  {
    SkipRead(w, "," + more);
    assert ("," + more)[1..] == more;
  }

  lemma FirstMember(t: string, k: nat, members: seq<J.Member>, w: string, rest: string)
    requires members != [] && k < |t| && t[k] == ',' && Spaces(w)
    requires var more := t[k + 1..] + ("}" + rest);
             && J.ParseMember(t[..k] + ("," + more)) == J.Read(members[0], w + ("," + more))
             && J.ParseMembers(more) == J.Read(members[1..], rest)
    ensures J.ParseMembers(t + ("}" + rest)) == J.Read(members, rest)
  {
    SplitAround(t, k, "}" + rest);
    MoreMembers(t + ("}" + rest), members[0], w, t[k + 1..] + ("}" + rest), members[1..], rest);
    assert members == [members[0]] + members[1..];
  }

  lemma {:induction false} MembersRead(t: string, members: seq<J.Member>, rest: string)
    requires members != [] && IsMembers(t, members)
    ensures J.ParseMembers(t + ("}" + rest)) == J.Read(members, rest)
    decreases members, 0
  {
    if |members| == 1 {
      var w := MemberRead(t, members[0], "}" + rest);
      LastMember(t + ("}" + rest), members[0], w, rest);
      assert members == [members[0]];
    } else {
      var k :| 0 <= k < |t| && t[k] == ',' && IsMember(t[..k], members[0]) && IsMembers(t[k + 1..], members[1..]);
      var w := MemberRead(t[..k], members[0], "," + (t[k + 1..] + ("}" + rest)));
      MembersRead(t[k + 1..], members[1..], rest);
      FirstMember(t, k, members, w, rest);
    }
  }

  /** Members are read the same from behind their leading space, and begin with a quote. */
  lemma MembersSkip(x: string)
    requires J.ParseMembers(x).Read?
    ensures J.ParseMembers(J.SkipSpace(x)) == J.ParseMembers(x)
    ensures J.SkipSpace(x) != "" && J.SkipSpace(x)[0] != '}'
  {
    SkipTwice(x);
    assert J.ParseMember(J.SkipSpace(x)) == J.ParseMember(x);
  }

  lemma {:induction false} ObjectRead(w: string, s: string, members: seq<J.Member>, rest: string)
    requires IsText(s, J.Obj(members)) && J.SkipSpace(w + (s + rest)) == s + rest
    ensures J.ParseValue(w + (s + rest)) == J.Read(J.Obj(members), rest)
    decreases J.Obj(members), 0
  {
    var inner := s[1..|s| - 1];
    var x := inner + ("}" + rest);
    assert (s + rest)[1..] == x;
    if members == [] {
      SkipRead(inner, "}" + rest);
      assert ("}" + rest)[1..] == rest;
    } else {
      MembersRead(inner, members, rest);
      MembersSkip(x);
    }
  }

  // ----- Only that is read: values -----

  lemma Bracketed(x: string, open: char, inner: string, close: char, rest: string) returns (s: string)
    requires x != "" && x[0] == open && x[1..] == inner + ([close] + rest)
    ensures |s| >= 2 && s[0] == open && s[|s| - 1] == close && s[1..|s| - 1] == inner && x == s + rest
  {
    s := [open] + (inner + [close]);
    Regroup(inner, [close], rest);
    Regroup([open], inner + [close], rest);
    assert x == [open] + x[1..];
  }

  lemma StringSound(x: string) returns (s: string)
    requires x != "" && x[0] == '\"' && J.ParseChars(x[1..]).Read?
    ensures IsString(s, J.ParseChars(x[1..]).value) && x == s + J.ParseChars(x[1..]).rest
  {
    var body := BodySound(x[1..]);
    s := Bracketed(x, '\"', body, '\"', J.ParseChars(x[1..]).rest);
  }

  lemma ScalarSound(s: string) returns (token: string)
    requires s != "" && J.ParseScalar(s).Read?
    ensures s == token + J.ParseScalar(s).rest && IsText(token, J.ParseScalar(s).value)
  {
    if J.StartsWith(s, "null") || J.StartsWith(s, "true") {
      token := s[..4];
    } else if J.StartsWith(s, "false") {
      token := s[..5];
    } else if s[0] == '\"' {
      token := StringSound(s);
    } else {
      token := ScannedToken(s);
    }
  }

  lemma PaddedBy(w: string, s: string, w': string, j: J.Json)
    requires Spaces(w) && IsText(s, j) && Spaces(w')
    ensures IsPadded(w + (s + w'), j)
  {
    var t, l, r := w + (s + w'), |w|, |w| + |s|;
    assert t[..l] == w && t[l..r] == s && t[r..] == w';
  }

  lemma ItemsBy(t: string, t': string, items: seq<J.Json>)
    requires |items| > 1 && IsPadded(t, items[0]) && IsItems(t', items[1..])
    ensures IsItems(t + ("," + t'), items)
  {
    CommaPieces(t, t');
    assert IsPadded((t + ("," + t'))[..|t|], items[0]);
  }

  lemma CommaPieces(t: string, t': string)
    ensures var whole := t + ("," + t');
            |t| < |whole| && whole[..|t|] == t && whole[|t|] == ',' && whole[|t| + 1..] == t'
  {
  }

  lemma MembersBy(t: string, t': string, members: seq<J.Member>)
    requires |members| > 1 && IsMember(t, members[0]) && IsMembers(t', members[1..])
    ensures IsMembers(t + ("," + t'), members)
  {
    CommaPieces(t, t');
    assert IsMember((t + ("," + t'))[..|t|], members[0]);
  }

  lemma Cut2(a: string, b: string)
    ensures (a + b)[..|a|] == a && (a + b)[|a|..] == b
  {
  }

  /** The pieces of a member, found in the whole. */
  lemma MemberPieces(a: string, b: string, c: string, d: string)
    ensures var whole := a + (b + (c + (":" + d)));
            var l, r, k := |a|, |a| + |b|, |a| + |b| + |c|;
            && k < |whole| && whole[..l] == a && whole[l..r] == b && whole[r..k] == c
            && whole[k] == ':' && whole[k + 1..] == d
  {
    var whole := a + (b + (c + (":" + d)));
    var l, r, k := |a|, |a| + |b|, |a| + |b| + |c|;
    Cut2(a, b + (c + (":" + d)));
    Cut2(b, c + (":" + d));
    Cut2(c, ":" + d);
    assert whole[l..r] == whole[l..][..|b|] && whole[r..k] == whole[l..][|b|..][..|c|];
    assert whole[k..] == whole[l..][|b|..][|c|..] == ":" + d;
    assert whole[k + 1..] == whole[k..][1..];
  }

  lemma MemberBy(w: string, name: string, w': string, t: string, m: J.Member)
    requires Spaces(w) && IsString(name, m.name) && Spaces(w') && IsPadded(t, m.value)
    ensures IsMember(w + (name + (w' + (":" + t))), m)
  {
    var l := |w|;
    var r := l + |name|;
    var c := r + |w'|;
    MemberPieces(w, name, w', t);
    assert Spaces((w + (name + (w' + (":" + t))))[..l]);
  }

  /** A comma or bracket between what was read and what comes. */
  lemma Glue(t: string, c: char, more: string, rest: string)
    ensures t + ([c] + (more + rest)) == (t + ([c] + more)) + rest
  {
  }

  lemma {:induction false} ValueSound(text: string) returns (w: string, s: string)
    requires J.ParseValue(text).Read?
    ensures Spaces(w) && IsText(s, J.ParseValue(text).value) && text == w + (s + J.ParseValue(text).rest)
    decreases |text|, 1
  {
    w := SkipSound(text);
    var x := J.SkipSpace(text);
    SkipTwice(text);
    ValueSkips(text);
    if x[0] == '[' {
      s := ArraySound(x);
    } else if x[0] == '{' {
      s := ObjectSound(x);
    } else {
      s := ScalarSound(x);
    }
  }

  lemma {:induction false} ArraySound(x: string) returns (s: string)
    requires x != "" && x[0] == '[' && J.SkipSpace(x) == x && J.ParseValue(x).Read?
    ensures IsText(s, J.ParseValue(x).value) && x == s + J.ParseValue(x).rest
    decreases |x|, 0
  {
    var y, r := x[1..], J.ParseValue(x);
    var inner: string;
    if J.SkipSpace(y) != "" && J.SkipSpace(y)[0] == ']' {
      inner := SkipSound(y);
      assert J.SkipSpace(y) == "]" + r.rest;
    } else {
      ValueSkips(y);
      inner := ItemsSound(y);
    }
    s := Bracketed(x, '[', inner, ']', r.rest);
  }

  lemma {:induction false} ItemsSound(text: string) returns (t: string)
    requires J.ParseItems(text).Read?
    ensures var r := J.ParseItems(text);
            r.value != [] && IsItems(t, r.value) && text == t + ("]" + r.rest)
    decreases |text|, 2
  {
    var w, s := ValueSound(text);
    var item, after := J.ParseValue(text).value, J.ParseValue(text).rest;
    var w' := SkipSound(after);
    var y := J.SkipSpace(after);
    var first := w + (s + w');
    PaddedBy(w, s, w', item);
    Regroup(s, w', y);
    Regroup(w, s + w', y);
    if y[0] == ']' {
      t := first;
      assert y == "]" + y[1..];
    } else {
      var more := ItemsSound(y[1..]);
      var r := J.ParseItems(y[1..]);
      t := ItemsJoined(first, item, y, more, r.value, r.rest);
    }
  }

  /** One item more: what was read of it, the comma, and what was read of the others. */
  lemma ItemsJoined(first: string, item: J.Json, y: string, more: string, items: seq<J.Json>, rest: string)
    returns (t: string)
    requires y != "" && y[0] == ',' && IsPadded(first, item)
    requires items != [] && IsItems(more, items) && y[1..] == more + ("]" + rest)
    ensures IsItems(t, [item] + items) && first + y == t + ("]" + rest)
  {
    t := first + ("," + more);
    assert ([item] + items)[1..] == items;
    ItemsBy(first, more, [item] + items);
    assert y == "," + y[1..];
    Glue(first, ',', more, "]" + rest);
  }

  /** The pieces of a member make one, with the space after it, and its text, with what comes instead. */
  lemma MemberJoined(lead: string, name: string, gap: string, lead': string, s: string, w: string, m: J.Member,
                     rest: string) returns (t: string)
    requires Spaces(lead) && IsString(name, m.name) && Spaces(gap)
    requires Spaces(lead') && IsText(s, m.value) && Spaces(w)
    ensures IsMember(t + w, m)
    ensures t + rest == lead + (name + (gap + (":" + (lead' + (s + rest)))))
  {
    t := lead + (name + (gap + (":" + (lead' + s))));
    PaddedBy(lead', s, w, m.value);
    MemberBy(lead, name, gap, lead' + (s + w), m);
    MemberSplits(lead, name, gap, lead', s, w);
    MemberSplits(lead, name, gap, lead', s, rest);
  }

  lemma MemberSplits(a: string, b: string, c: string, d: string, e: string, rest: string)
    ensures a + (b + (c + (":" + (d + e)))) + rest == a + (b + (c + (":" + (d + (e + rest)))))
  {
    Regroup(a, b + (c + (":" + (d + e))), rest);
    Regroup(b, c + (":" + (d + e)), rest);
    Regroup(c, ":" + (d + e), rest);
    Regroup(":", d + e, rest);
    Regroup(d, e, rest);
  }

  /** A member, given the space that comes after it. */
  lemma {:induction false} MemberSound(text: string, w: string) returns (t: string)
    requires J.ParseMember(text).Read? && Spaces(w)
    ensures IsMember(t + w, J.ParseMember(text).value) && text == t + J.ParseMember(text).rest
    decreases |text|, 2
  {
    var m, rest := J.ParseMember(text).value, J.ParseMember(text).rest;
    var lead := SkipSound(text);
    var x := J.SkipSpace(text);
    var name := StringSound(x);
    var after := J.ParseChars(x[1..]).rest;
    var gap := SkipSound(after);
    var colon := J.SkipSpace(after);
    var lead', s := ValueSound(colon[1..]);
    assert colon == ":" + colon[1..];
    t := MemberJoined(lead, name, gap, lead', s, w, m, rest);
  }

  lemma {:induction false} MembersSound(text: string) returns (t: string)
    requires J.ParseMembers(text).Read?
    ensures var r := J.ParseMembers(text);
            r.value != [] && IsMembers(t, r.value) && text == t + ("}" + r.rest)
    decreases |text|, 3
  {
    var member, after := J.ParseMember(text).value, J.ParseMember(text).rest;
    var w := SkipSound(after);
    var y := J.SkipSpace(after);
    var first := MemberSound(text, w);
    Regroup(first, w, y);
    if y[0] == '}' {
      t := first + w;
      assert y == "}" + y[1..];
    } else {
      var more := MembersSound(y[1..]);
      var r := J.ParseMembers(y[1..]);
      t := MembersJoined(first + w, member, y, more, r.value, r.rest);
    }
  }

  lemma MembersJoined(first: string, member: J.Member, y: string, more: string, members: seq<J.Member>, rest: string)
    returns (t: string)
    requires y != "" && y[0] == ',' && IsMember(first, member)
    requires members != [] && IsMembers(more, members) && y[1..] == more + ("}" + rest)
    ensures IsMembers(t, [member] + members) && first + y == t + ("}" + rest)
  {
    t := first + ("," + more);
    assert ([member] + members)[1..] == members;
    MembersBy(first, more, [member] + members);
    assert y == "," + y[1..];
    Glue(first, ',', more, "}" + rest);
  }

  lemma {:induction false} ObjectSound(x: string) returns (s: string)
    requires x != "" && x[0] == '{' && J.SkipSpace(x) == x && J.ParseValue(x).Read?
    ensures IsText(s, J.ParseValue(x).value) && x == s + J.ParseValue(x).rest
    decreases |x|, 0
  {
    var y, r := x[1..], J.ParseValue(x);
    var inner: string;
    if J.SkipSpace(y) != "" && J.SkipSpace(y)[0] == '}' {
      inner := SkipSound(y);
      assert J.SkipSpace(y) == "}" + r.rest;
    } else {
      SkipTwice(y);
      assert J.ParseMember(J.SkipSpace(y)) == J.ParseMember(y);
      inner := MembersSound(y);
    }
    s := Bracketed(x, '{', inner, '}', r.rest);
  }

  // ----- Whole documents -----

  /** A text is parsed exactly when the grammar derives it, space around it allowed, and no object doubles a name. */
  lemma ParsesIff(text: string, j: J.Json)
    ensures J.FromString(text) == Some(j) <==> IsPadded(text, j) && J.UniqueNames(j)
  {
    if J.FromString(text) == Some(j) {
      var w, s := ValueSound(text);
      var rest := J.ParseValue(text).rest;
      var w' := SkipSound(rest);
      assert rest == w';
      PaddedBy(w, s, w', j);
    }
    if IsPadded(text, j) {
      var w := PaddedRead(text, j, "");
      assert text + "" == text && w + "" == w;
      SkipRead(w, "");
    }
  }

  /** What is printed is a text of the document. */
  lemma PrintIsText(j: J.Json)
    ensures IsPadded(J.Print(j), j)
  {
    J.ParsePrint(j, "");
    assert J.Print(j) + "" == J.Print(j);
    var w, s := ValueSound(J.Print(j));
    PaddedBy(w, s, "", j);
    assert s + "" == s;
  }
}
