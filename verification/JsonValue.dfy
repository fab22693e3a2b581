/**
 JSON values made of objects, arrays and strings: a printer without white space,
 and a reader of its own.
 */
module JsonValue {
  import opened Wrappers
  import opened CText

  datatype Value = Str(text: string) | Obj(members: seq<Member>) | Arr(items: seq<Value>)

  datatype Member = Member(name: string, value: Value)

  /** The member of an object with this name, the first of them if there are several. */
  function Get(v: Value, name: string): Option<Value> {
    if v.Obj? then Find(v.members, name) else None
  }

  function Find(ms: seq<Member>, name: string): Option<Value> {
    if ms == [] then None
    else if ms[0].name == name then Some(ms[0].value)
    else Find(ms[1..], name)
  }

  lemma {:induction false} FindAt(ms: seq<Member>, k: nat)
    requires k < |ms| && forall j :: 0 <= j < k ==> ms[j].name != ms[k].name
    ensures Find(ms, ms[k].name) == Some(ms[k].value)
  {
    if k > 0 {
      FindAt(ms[1..], k - 1);
    }
  }

  // ---------------------------------------------------------------- reading

  datatype Parse<T> = Fail | Got(value: T, rest: string)

  /** What a two-character escape stands for. */
  function Simple(c: char): Option<char> {
    match c
    case '"' => Some('"')
    case '\\' => Some('\\')
    case '/' => Some('/')
    case 'b' => Some('\U{0008}')
    case 'f' => Some('\U{000C}')
    case 'n' => Some('\n')
    case 'r' => Some('\r')
    case 't' => Some('\t')
    case _ => None
  }

  /** An escape at the start of s: its character and its length, 2 or 6.  Surrogate
      halves are refused. */
  function Escape(s: string): (e: Option<(char, nat)>)
    ensures e.Some? ==> 2 <= e.value.1 <= |s| && s[0] == '\\'
    ensures e.Some? && s[1] == '"' ==> e.value == ('"', 2)
    ensures e.Some? ==> forall k :: 2 <= k < e.value.1 ==> s[k] != '"'
  {
    if |s| < 2 || s[0] != '\\' then None
    else if s[1] == 'u' then
      if |s| < 6 || HexValue(s[2]) < 0 || HexValue(s[3]) < 0 || HexValue(s[4]) < 0 || HexValue(s[5]) < 0 then None
      else
        var code := 0x1000 * HexValue(s[2]) + 0x100 * HexValue(s[3]) + 0x10 * HexValue(s[4]) + HexValue(s[5]);
        if 0xD800 <= code < 0xE000 then None else Some((code as char, 6))
    else
      match Simple(s[1])
      case None => None
      case Some(c) => Some((c, 2))
  }

  /** The rest of a JSON string after its opening quote (section 7 of RFC 8259). */
  function ReadString(s: string): (p: Parse<string>)
    ensures p.Got? ==> |p.value| + 1 + |p.rest| <= |s|
  {
    if s == "" || s[0] < ' ' then Fail
    else if s[0] == '"' then Got("", s[1..])
    else if s[0] == '\\' then
      match Escape(s)
      case None => Fail
      case Some(e) => Prepend(e.0, ReadString(s[e.1..]))
    else
      Prepend(s[0], ReadString(s[1..]))
  }

  function Prepend(c: char, p: Parse<string>): Parse<string> {
    match p
    case Fail => Fail
    case Got(v, rest) => Got([c] + v, rest)
  }

  /** A value at the start of s (section 3 of RFC 8259). */
  function ReadValue(s: string): (p: Parse<Value>)
    ensures p.Got? ==> |p.rest| < |s|
    decreases |s|, 0
  {
    if s == "" then Fail
    else if s[0] == '"' then
      match ReadString(s[1..])
      case Fail => Fail
      case Got(text, rest) => Got(Str(text), rest)
    else if s[0] == '{' then
      if |s| > 1 && s[1] == '}' then Got(Obj([]), s[2..])
      else
        match ReadMembers(s[1..])
        case Fail => Fail
        case Got(ms, rest) => Got(Obj(ms), rest)
    else if s[0] == '[' then
      if |s| > 1 && s[1] == ']' then Got(Arr([]), s[2..])
      else
        match ReadItems(s[1..])
        case Fail => Fail
        case Got(vs, rest) => Got(Arr(vs), rest)
    else Fail
  }

  function ReadMember(s: string): (p: Parse<Member>)
    ensures p.Got? ==> |p.rest| < |s|
    decreases |s|, 1
  {
    if s == "" || s[0] != '"' then Fail
    else
      match ReadString(s[1..])
      case Fail => Fail
      case Got(name, s1) =>
        if s1 == "" || s1[0] != ':' then Fail
        else
          match ReadValue(s1[1..])
          case Fail => Fail
          case Got(v, rest) => Got(Member(name, v), rest)
  }

  /** The members of a non-empty object, and its closing brace. */
  function ReadMembers(s: string): (p: Parse<seq<Member>>)
    ensures p.Got? ==> |p.rest| < |s| && p.value != []
    decreases |s|, 2
  {
    match ReadMember(s)
    case Fail => Fail
    case Got(m, rest) =>
      if rest == "" then Fail
      else if rest[0] == '}' then Got([m], rest[1..])
      else if rest[0] == ',' then
        match ReadMembers(rest[1..])
        case Fail => Fail
        case Got(ms, last) => Got([m] + ms, last)
      else Fail
  }

  /** The items of a non-empty array, and its closing bracket. */
  function ReadItems(s: string): (p: Parse<seq<Value>>)
    ensures p.Got? ==> |p.rest| < |s| && p.value != []
    decreases |s|, 1
  {
    match ReadValue(s)
    case Fail => Fail
    case Got(v, rest) =>
      if rest == "" then Fail
      else if rest[0] == ']' then Got([v], rest[1..])
      else if rest[0] == ',' then
        match ReadItems(rest[1..])
        case Fail => Fail
        case Got(vs, last) => Got([v] + vs, last)
      else Fail
  }

  // ---------------------------------------------------------------- printing

  /** Without white space and without escapes. */
  function Print(v: Value): (s: string)
    ensures s != "" && s[0] != ']'
  {
    match v
    case Str(text) => Quoted(text)
    case Obj(ms) => "{" + PrintMembers(ms) + "}"
    case Arr(vs) => "[" + PrintItems(vs) + "]"
  }

  function Quoted(text: string): (s: string)
    ensures s != "" && s[0] == '"'
  {
    "\"" + text + "\""
  }

  function PrintMember(m: Member): (s: string)
    ensures s != "" && s[0] == '"'
  {
    Quoted(m.name) + ":" + Print(m.value)
  }

  function PrintMembers(ms: seq<Member>): (s: string)
    ensures ms != [] ==> s != "" && s[0] == '"'
  {
    if ms == [] then ""
    else if |ms| == 1 then PrintMember(ms[0])
    else PrintMember(ms[0]) + "," + PrintMembers(ms[1..])
  }

  function PrintItems(vs: seq<Value>): (s: string)
    ensures vs != [] ==> s != "" && s[0] != ']'
  {
    if vs == [] then ""
    else if |vs| == 1 then Print(vs[0])
    else Print(vs[0]) + "," + PrintItems(vs[1..])
  }

  // ---------------------------------------------------------------- strings

  lemma {:induction false} PlainStep(v: string)
    requires v != ""
    ensures Plain(v) <==> v[0] != '"' && v[0] != '\\' && v[0] >= ' ' && Plain(v[1..])
  {
    assert v[0] in v;
    forall c | c in v ensures c == v[0] || c in v[1..] {
      var k :| 0 <= k < |v| && v[k] == c;
      assert k > 0 ==> v[1..][k - 1] == c;
    }
    forall c | c in v[1..] ensures c in v {
    }
  }

  // Without escapes the value is the text read.
  lemma {:induction false} NoEscapes(s: string)
    requires var p := ReadString(s); p.Got? && |p.value| + 1 + |p.rest| == |s|
    ensures ReadString(s).value == s[..|ReadString(s).value|]
    ensures Plain(ReadString(s).value)
    decreases |s|
  {
    if s[0] == '"' {
    } else if s[0] == '\\' {
      // An escape is longer than what it stands for.
      assert false;
    } else {
      NoEscapes(s[1..]);
      PlainStep(ReadString(s).value);
    }
  }

  // A quote that does not end the string was escaped, and shows in the value before
  // its own position.
  lemma {:induction false} QuotePassed(s: string, m: nat) returns (j: nat)
    requires m < |s| && s[m] == '"'
    requires var p := ReadString(s); p.Got? && m + 1 + |p.rest| < |s|
    ensures j < m && j < |ReadString(s).value| && ReadString(s).value[j] == '"'
    decreases |s|
  {
    if s[0] == '\\' {
      var e := Escape(s).value;
      if m == 1 {
        j := 0;
      } else {
        assert m >= e.1;
        j := QuotePassed(s[e.1..], m - e.1);
        j := j + 1;
      }
    } else {
      assert m > 0;
      j := QuotePassed(s[1..], m - 1);
      j := j + 1;
    }
  }

  function FirstQuote(s: string): (m: nat)
    ensures m <= |s|
    ensures forall j :: 0 <= j < m ==> s[j] != '"'
    ensures m < |s| ==> s[m] == '"'
  {
    if s == "" || s[0] == '"' then 0 else 1 + FirstQuote(s[1..])
  }

  lemma {:induction false} PlainComesBack(v: string, rest: string)
    requires Plain(v)
    ensures ReadString(v + "\"" + rest) == Got(v, rest)
    decreases |v|
  {
    var s := v + "\"" + rest;
    if v == "" {
      assert s[1..] == rest;
    } else {
      assert s[1..] == v[1..] + "\"" + rest;
      PlainStep(v);
      PlainComesBack(v[1..], rest);
      assert v == [v[0]] + v[1..];
    }
  }

  /** A string comes back exactly when it needs no escapes. */
  lemma {:induction false} ReadStringIff(v: string, rest: string)
    ensures ReadString(v + "\"" + rest).Got? && ReadString(v + "\"" + rest).value == v <==> Plain(v)
    ensures Plain(v) ==> ReadString(v + "\"" + rest) == Got(v, rest)
  {
    var s := v + "\"" + rest;
    var p := ReadString(s);
    if Plain(v) {
      PlainComesBack(v, rest);
    } else if p.Got? && p.value == v {
      if |p.rest| == |rest| {
        NoEscapes(s);
      } else {
        assert s[|v|] == '"' && forall k :: 0 <= k < |v| ==> s[k] == v[k];
        var j := QuotePassed(s, FirstQuote(s));
      }
    }
  }


  // ---------------------------------------------------------------- reading what was printed

  predicate AllPlain(v: Value) {
    match v
    case Str(text) => Plain(text)
    case Obj(ms) => MembersPlain(ms)
    case Arr(vs) => ItemsPlain(vs)
  }

  predicate MembersPlain(ms: seq<Member>) {
    ms == [] || (Plain(ms[0].name) && AllPlain(ms[0].value) && MembersPlain(ms[1..]))
  }

  predicate ItemsPlain(vs: seq<Value>) {
    vs == [] || (AllPlain(vs[0]) && ItemsPlain(vs[1..]))
  }

  lemma {:induction false} MembersPlainMeans(ms: seq<Member>)
    ensures MembersPlain(ms) <==> forall k :: 0 <= k < |ms| ==> Plain(ms[k].name) && AllPlain(ms[k].value)
  {
    if ms != [] {
      MembersPlainMeans(ms[1..]);
      assert forall k :: 1 <= k < |ms| ==> ms[1..][k - 1] == ms[k];
    }
  }

  lemma {:induction false} Assoc(a: string, b: string, c: string)
    ensures a + b + c == a + (b + c)
  {
  }

  lemma {:induction false} ReadQuoted(text: string, rest: string)
    ensures var s := Quoted(text) + rest; s[1..] == text + "\"" + rest
    ensures Plain(text) ==> ReadString((Quoted(text) + rest)[1..]) == Got(text, rest)
    ensures Plain(text) ==> ReadValue(Quoted(text) + rest) == Got(Str(text), rest)
  {
    assert (Quoted(text) + rest)[1..] == text + "\"" + rest;
    ReadStringIff(text, rest);
  }

  // The name of a member comes back, and then its value is read.
  lemma {:induction false} ReadMemberOf(m: Member, rest: string)
    requires Plain(m.name)
    ensures ReadMember(PrintMember(m) + rest) ==
      match ReadValue(Print(m.value) + rest)
      case Fail => Fail
      case Got(v, last) => Got(Member(m.name, v), last)
  {
    var s1 := ":" + (Print(m.value) + rest);
    assert PrintMember(m) + rest == Quoted(m.name) + s1;
    ReadQuoted(m.name, s1);
    assert s1[1..] == Print(m.value) + rest;
  }

  // What follows the first member, or item, of a list that ends with a bracket.
  function AfterMember(ms: seq<Member>, rest: string): (s: string)
    requires ms != []
    ensures s != "" && (s[0] == if |ms| == 1 then '}' else ',')
  {
    if |ms| == 1 then "}" + rest else "," + (PrintMembers(ms[1..]) + ("}" + rest))
  }

  function AfterItem(vs: seq<Value>, rest: string): (s: string)
    requires vs != []
    ensures s != "" && (s[0] == if |vs| == 1 then ']' else ',')
  {
    if |vs| == 1 then "]" + rest else "," + (PrintItems(vs[1..]) + ("]" + rest))
  }

  lemma {:induction false} MembersSplit(ms: seq<Member>, rest: string)
    requires ms != []
    ensures PrintMembers(ms) + ("}" + rest) == PrintMember(ms[0]) + AfterMember(ms, rest)
    ensures AfterMember(ms, rest)[1..] == if |ms| == 1 then rest else PrintMembers(ms[1..]) + ("}" + rest)
  {
    if |ms| > 1 {
      var a, b, c := PrintMember(ms[0]), PrintMembers(ms[1..]), "}" + rest;
      Assoc(a + ",", b, c);
      Assoc(a, ",", b + c);
    }
  }

  lemma {:induction false} ItemsSplit(vs: seq<Value>, rest: string)
    requires vs != []
    ensures PrintItems(vs) + ("]" + rest) == Print(vs[0]) + AfterItem(vs, rest)
    ensures AfterItem(vs, rest)[1..] == if |vs| == 1 then rest else PrintItems(vs[1..]) + ("]" + rest)
  {
    if |vs| > 1 {
      var a, b, c := Print(vs[0]), PrintItems(vs[1..]), "]" + rest;
      Assoc(a + ",", b, c);
      Assoc(a, ",", b + c);
    }
  }

  // Past a first member that comes back.
  lemma {:induction false} ReadMembersStep(ms: seq<Member>, rest: string)
    requires ms != [] && ReadMember(PrintMember(ms[0]) + AfterMember(ms, rest)) == Got(ms[0], AfterMember(ms, rest))
    ensures ReadMembers(PrintMembers(ms) + ("}" + rest)) ==
      if |ms| == 1 then Got(ms, rest)
      else
        match ReadMembers(PrintMembers(ms[1..]) + ("}" + rest))
        case Fail => Fail
        case Got(qs, last) => Got([ms[0]] + qs, last)
  {
    MembersSplit(ms, rest);
    assert |ms| == 1 ==> ms == [ms[0]];
  }

  lemma {:induction false} ReadItemsStep(vs: seq<Value>, rest: string)
    requires vs != [] && ReadValue(Print(vs[0]) + AfterItem(vs, rest)) == Got(vs[0], AfterItem(vs, rest))
    ensures ReadItems(PrintItems(vs) + ("]" + rest)) ==
      if |vs| == 1 then Got(vs, rest)
      else
        match ReadItems(PrintItems(vs[1..]) + ("]" + rest))
        case Fail => Fail
        case Got(qs, last) => Got([vs[0]] + qs, last)
  {
    ItemsSplit(vs, rest);
    assert |vs| == 1 ==> vs == [vs[0]];
  }

  // The brackets of an object and of an array.
  lemma {:induction false} ReadObj(ms: seq<Member>, rest: string)
    ensures ReadValue(Print(Obj(ms)) + rest) ==
      if ms == [] then Got(Obj([]), rest)
      else
        match ReadMembers(PrintMembers(ms) + ("}" + rest))
        case Fail => Fail
        case Got(qs, last) => Got(Obj(qs), last)
  {
    var s, tail := Print(Obj(ms)) + rest, PrintMembers(ms) + ("}" + rest);
    assert s == "{" + tail;
    assert s[1..] == tail;
    if ms == [] {
      assert tail == "}" + rest && s[2..] == rest;
    }
  }

  lemma {:induction false} ReadArr(vs: seq<Value>, rest: string)
    ensures ReadValue(Print(Arr(vs)) + rest) ==
      if vs == [] then Got(Arr([]), rest)
      else
        match ReadItems(PrintItems(vs) + ("]" + rest))
        case Fail => Fail
        case Got(qs, last) => Got(Arr(qs), last)
  {
    var s, tail := Print(Arr(vs)) + rest, PrintItems(vs) + ("]" + rest);
    assert s == "[" + tail;
    assert s[1..] == tail;
    if vs == [] {
      assert tail == "]" + rest && s[2..] == rest;
    }
  }

  /** An object of one member: what is read, is what is read for its value. */
  lemma {:induction false} ReadSingle(m: Member, rest: string)
    requires Plain(m.name)
    ensures var p, q := ReadValue(Print(Obj([m])) + rest), ReadValue(Print(m.value) + ("}" + rest));
      && (p.Got? ==> q.Got? && Get(p.value, m.name) == Some(q.value))
      && (q == Got(m.value, "}" + rest) ==> p == Got(Obj([m]), rest))
  {
    ReadObj([m], rest);
    MembersSplit([m], rest);
    ReadMemberOf(m, "}" + rest);
    assert ("}" + rest)[0] == '}' && ("}" + rest)[1..] == rest;
  }

  // What the first item of an array is read as.
  lemma {:induction false} ReadFirstItem(vs: seq<Value>, rest: string)
    requires vs != []
    ensures var p, q := ReadItems(PrintItems(vs) + ("]" + rest)), ReadValue(Print(vs[0]) + AfterItem(vs, rest));
      p.Got? ==> q.Got? && p.value[0] == q.value
  {
    ItemsSplit(vs, rest);
  }

  /** Every value without characters that need escapes reads back as itself. */
  lemma {:induction false} ReadPrinted(v: Value, rest: string)
    requires AllPlain(v)
    ensures ReadValue(Print(v) + rest) == Got(v, rest)
    decreases v
  {
    match v
    case Str(text) =>
      ReadQuoted(text, rest);
    case Obj(ms) =>
      ReadObj(ms, rest);
      if ms != [] {
        ReadMembersPrinted(ms, rest);
      }
    case Arr(vs) =>
      ReadArr(vs, rest);
      if vs != [] {
        ReadItemsPrinted(vs, rest);
      }
  }

  lemma {:induction false} ReadMembersPrinted(ms: seq<Member>, rest: string)
    requires ms != [] && MembersPlain(ms)
    ensures ReadMembers(PrintMembers(ms) + ("}" + rest)) == Got(ms, rest)
    decreases ms
  {
    ReadPrinted(ms[0].value, AfterMember(ms, rest));
    ReadMemberOf(ms[0], AfterMember(ms, rest));
    ReadMembersStep(ms, rest);
    if |ms| > 1 {
      ReadMembersPrinted(ms[1..], rest);
      assert [ms[0]] + ms[1..] == ms;
    }
  }

  lemma {:induction false} ReadItemsPrinted(vs: seq<Value>, rest: string)
    requires vs != [] && ItemsPlain(vs)
    ensures ReadItems(PrintItems(vs) + ("]" + rest)) == Got(vs, rest)
    decreases vs
  {
    ReadPrinted(vs[0], AfterItem(vs, rest));
    ReadItemsStep(vs, rest);
    if |vs| > 1 {
      ReadItemsPrinted(vs[1..], rest);
      assert [vs[0]] + vs[1..] == vs;
    }
  }

  // ---------------------------------------------------------------- where it does not come back

  /** A member whose value is a string with characters that need escapes: the name comes
      back, the value does not. */
  lemma {:induction false} ReadMemberNotPlain(m: Member, rest: string)
    requires Plain(m.name) && m.value.Str? && !Plain(m.value.text)
    ensures var p := ReadMember(PrintMember(m) + rest); p.Got? ==> p.value.name == m.name && p.value.value != m.value
  {
    ReadMemberOf(m, rest);
    ReadQuoted(m.value.text, rest);
    ReadStringIff(m.value.text, rest);
  }

  predicate PlainStrings(ms: seq<Member>, k: nat)
    requires k <= |ms|
  {
    forall j :: 0 <= j < k ==> Plain(ms[j].name) && ms[j].value.Str? && Plain(ms[j].value.text)
  }

  lemma {:induction false} ReadPlainString(ms: seq<Member>, rest: string)
    requires ms != [] && PlainStrings(ms, 1)
    ensures ReadMember(PrintMember(ms[0]) + AfterMember(ms, rest)) == Got(ms[0], AfterMember(ms, rest))
  {
    ReadPrinted(ms[0].value, AfterMember(ms, rest));
    ReadMemberOf(ms[0], AfterMember(ms, rest));
  }

  /** In a list of strings, the first that needs escapes does not come back, in case
      anything does. */
  lemma {:induction false} ReadMembersNotPlain(ms: seq<Member>, rest: string, k: nat)
    requires k < |ms| && PlainStrings(ms, k)
    requires Plain(ms[k].name) && ms[k].value.Str? && !Plain(ms[k].value.text)
    ensures var p := ReadMembers(PrintMembers(ms) + ("}" + rest));
      p.Got? ==>
        && k < |p.value| && p.value[k].value != ms[k].value
        && forall j :: 0 <= j <= k ==> p.value[j].name == ms[j].name
    decreases k
  {
    MembersSplit(ms, rest);
    if k == 0 {
      ReadMemberNotPlain(ms[0], AfterMember(ms, rest));
    } else {
      ReadPlainString(ms, rest);
      ReadMembersStep(ms, rest);
      ReadMembersNotPlain(ms[1..], rest, k - 1);
      var p, q := ReadMembers(PrintMembers(ms) + ("}" + rest)), ReadMembers(PrintMembers(ms[1..]) + ("}" + rest));
      assert q.Got? ==> p.Got? && p.value == [ms[0]] + q.value;
      if q.Got? {
        assert p.value[k] == q.value[k - 1] && ms[k] == ms[1..][k - 1];
        forall j | 0 <= j <= k ensures p.value[j].name == ms[j].name {
          assert j > 0 ==> p.value[j] == q.value[j - 1] && ms[j] == ms[1..][j - 1];
        }
      }
    }
  }

  /** A string that starts with a quote ends there, and what follows it is neither a comma
      nor a brace: then nothing comes back. */
  lemma {:induction false} ReadMembersBroken(ms: seq<Member>, rest: string, k: nat)
    requires k < |ms| && PlainStrings(ms, k) && Plain(ms[k].name)
    requires ms[k].value == Str("\"")
    ensures ReadMembers(PrintMembers(ms) + ("}" + rest)) == Fail
    decreases k
  {
    if k == 0 {
      ReadMemberBroken(ms[0], AfterMember(ms, rest));
      MembersSplit(ms, rest);
      QuoteIsNoEnd(PrintMember(ms[0]) + AfterMember(ms, rest));
    } else {
      ReadPlainString(ms, rest);
      ReadMembersStep(ms, rest);
      ReadMembersBroken(ms[1..], rest, k - 1);
    }
  }

  lemma {:induction false} QuoteIsNoEnd(s: string)
    requires var p := ReadMember(s); p.Got? && p.rest != "" && p.rest[0] == '"'
    ensures ReadMembers(s) == Fail
  {
  }

  lemma {:induction false} QuoteEnds(s: string, rest: string)
    requires s == "\"\"" + rest
    ensures ReadString(s) == Got("", "\"" + rest)
  {
    assert s[1..] == "\"" + rest;
  }

  lemma {:induction false} ReadMemberBroken(m: Member, rest: string)
    requires Plain(m.name) && m.value == Str("\"")
    ensures ReadMember(PrintMember(m) + rest) == Got(Member(m.name, Str("")), "\"" + rest)
  {
    ReadMemberOf(m, rest);
    ReadQuoted(m.value.text, rest);
    QuoteEnds((Quoted(m.value.text) + rest)[1..], rest);
  }
}
