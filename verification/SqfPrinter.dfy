/** Array text: tokens and comma-separated lists in brackets, the part of section 5 of RFC 8259 that
    the printed form uses, with a parser for it. */
module ArrayText {
  import opened Basics

  datatype Plain = Token(text: string) | List(items: seq<Plain>)

  predicate Structural(c: char) {
    c == '[' || c == ']' || c == ',' || c == '"'
  }

  /** An unquoted token: a number or a literal name. */
  predicate IsBare(t: string) {
    t != "" && forall i :: 0 <= i < |t| ==> !Structural(t[i])
  }

  /** Length of the quoted text at the start of `s`, its closing quote included, given that the opening
      quote has been read; a backslash protects the next character. Zero if the quote is not closed. */
  function QuotedLength(s: string): (n: nat)
    ensures n <= |s|
  {
    if s == "" then 0
    else if s[0] == '"' then 1
    else if s[0] == '\\' then
      if |s| < 2 then 0
      else
        var n := QuotedLength(s[2..]);
        if n == 0 then 0 else n + 2
    else
      var n := QuotedLength(s[1..]);
      if n == 0 then 0 else n + 1
  }

  /** A quoted token: one string literal and nothing behind its closing quote. */
  predicate IsQuoted(t: string) {
    |t| >= 2 && t[0] == '"' && QuotedLength(t[1..]) == |t| - 1
  }

  predicate IsToken(t: string) {
    IsBare(t) || IsQuoted(t)
  }

  ghost predicate Tokens(p: Plain) {
    match p
    case Token(t) => IsToken(t)
    case List(items) => forall i :: 0 <= i < |items| ==> Tokens(items[i])
  }

  // ----- Printing

  function Show(p: Plain): string {
    match p
    case Token(t) => t
    case List(items) => "[" + ShowBody(items)
  }

  /** The items and the closing bracket. */
  function ShowBody(items: seq<Plain>): string {
    if items == [] then "]" else Show(items[0]) + ShowTail(items[1..])
  }

  /** The same after an item: each further one has a comma before it. */
  function ShowTail(items: seq<Plain>): string {
    if items == [] then "]" else "," + Show(items[0]) + ShowTail(items[1..])
  }

  // ----- Parsing

  function BareLength(s: string): (n: nat)
    ensures n <= |s|
  {
    if s == "" || Structural(s[0]) then 0 else 1 + BareLength(s[1..])
  }

  function TokenLength(s: string): (n: nat)
    ensures n <= |s|
  {
    if s == "" then 0
    else if s[0] == '"' then
      var n := QuotedLength(s[1..]);
      if n == 0 then 0 else n + 1
    else BareLength(s)
  }

  /** The value at the start of the text and what follows it. */
  function Parse(s: string): (r: Option<(Plain, string)>)
    ensures r.Some? ==> |r.value.1| < |s|
    decreases |s|, 0
  {
    if s == "" then None
    else if s[0] == '[' then
      match ParseBody(s[1..])
      case None => None
      case Some((items, rest)) => Some((List(items), rest))
    else
      var n := TokenLength(s);
      if n == 0 then None else Some((Token(s[..n]), s[n..]))
  }

  /** The items of a list up to its closing bracket: none, or values separated by single commas. */
  function ParseBody(s: string): (r: Option<(seq<Plain>, string)>)
    ensures r.Some? ==> |r.value.1| < |s|
    decreases |s|, 1
  {
    if s == "" then None
    else if s[0] == ']' then Some(([], s[1..]))
    else
      match Parse(s)
      case None => None
      case Some((first, rest)) =>
        match ParseTail(rest)
        case None => None
        case Some((others, end)) => Some(([first] + others, end))
  }

  function ParseTail(s: string): (r: Option<(seq<Plain>, string)>)
    ensures r.Some? ==> |r.value.1| < |s|
    decreases |s|, 1
  {
    if s == "" then None
    else if s[0] == ']' then Some(([], s[1..]))
    else if s[0] != ',' then None
    else
      match Parse(s[1..])
      case None => None
      case Some((first, rest)) =>
        match ParseTail(rest)
        case None => None
        case Some((others, end)) => Some(([first] + others, end))
  }

  // ----- Round trip

  /** A value ends where the text ends or a comma or closing bracket follows. */
  predicate Ends(rest: string) {
    rest == "" || rest[0] == ',' || rest[0] == ']'
  }

  lemma {:induction false} BareScans(t: string, rest: string)
    requires (forall i :: 0 <= i < |t| ==> !Structural(t[i])) && Ends(rest)
    ensures BareLength(t + rest) == |t|
  {
    if t == "" {
      assert t + rest == rest;
    } else {
      assert (t + rest)[1..] == t[1..] + rest;
      BareScans(t[1..], rest);
    }
  }

  lemma {:induction false} QuotedScans(t: string, rest: string)
    requires QuotedLength(t) == |t| > 0
    ensures QuotedLength(t + rest) == |t|
  {
    assert (t + rest)[0] == t[0];
    if t[0] == '"' {
    } else if t[0] == '\\' {
      assert (t + rest)[2..] == t[2..] + rest;
      QuotedScans(t[2..], rest);
    } else {
      assert (t + rest)[1..] == t[1..] + rest;
      QuotedScans(t[1..], rest);
    }
  }

  lemma {:induction false} TokenScans(t: string, rest: string)
    requires IsToken(t) && Ends(rest)
    ensures TokenLength(t + rest) == |t| && t != "" && t[0] != '[' && t[0] != ']' && t[0] != ','
  {
    if IsQuoted(t) {
      assert (t + rest)[1..] == t[1..] + rest;
      QuotedScans(t[1..], rest);
    } else {
      BareScans(t, rest);
    }
  }

  /** Parsing what was printed gives the value back and consumes exactly its text. */
  lemma {:induction false} ParseShow(p: Plain, rest: string)
    requires Tokens(p) && Ends(rest)
    ensures Parse(Show(p) + rest) == Some((p, rest))
    decreases p, 1
  {
    var s := Show(p) + rest;
    match p
    case Token(t) =>
      TokenScans(t, rest);
      assert s[..|t|] == t && s[|t|..] == rest;
    case List(items) =>
      ParseShowBody(items, rest);
      assert s[1..] == ShowBody(items) + rest;
  }

  lemma {:induction false} ParseShowBody(items: seq<Plain>, rest: string)
    requires forall i :: 0 <= i < |items| ==> Tokens(items[i])
    ensures ParseBody(ShowBody(items) + rest) == Some((items, rest))
    decreases items, 0
  {
    var s := ShowBody(items) + rest;
    if items == [] {
      assert s[1..] == rest;
    } else {
      var tail := ShowTail(items[1..]) + rest;
      assert s == Show(items[0]) + tail;
      FirstCharacter(items[0], tail);
      ParseShow(items[0], tail);
      ParseShowTail(items[1..], rest);
      assert [items[0]] + items[1..] == items;
    }
  }

  lemma {:induction false} ParseShowTail(items: seq<Plain>, rest: string)
    requires forall i :: 0 <= i < |items| ==> Tokens(items[i])
    ensures Ends(ShowTail(items) + rest)
    ensures ParseTail(ShowTail(items) + rest) == Some((items, rest))
    decreases items, 0
  {
    hide Show, ShowTail, Parse;
    TailUnfolds(items);
    if items == [] {
      assert ("]" + rest)[1..] == rest;
    } else {
      ParseShowTail(items[1..], rest);
      AfterComma(Show(items[0]), ShowTail(items[1..]), rest);
      ParseShow(items[0], ShowTail(items[1..]) + rest);
      assert [items[0]] + items[1..] == items;
    }
  }

  lemma TailUnfolds(items: seq<Plain>)
    ensures ShowTail(items) == if items == [] then "]" else "," + Show(items[0]) + ShowTail(items[1..])
  {
  }

  lemma AfterComma(item: string, tail: string, rest: string)
    ensures var s := "," + item + tail + rest; s[0] == ',' && s[1..] == item + (tail + rest)
  {
  }

  lemma {:induction false} FirstCharacter(p: Plain, rest: string)
    requires Tokens(p)
    ensures Show(p) != "" && (Show(p) + rest)[0] != ']'
  {
  }
}

/** The rewriting of JSON values as tagged SQF arrays (src/Util.cpp). */
module SqfPrinter {
  import opened ArrayText
  import opened Basics

  /** A parsed JSON value. Numbers and booleans carry the text they convert to, strings the quoted
      and escaped text that the JSON library prints for them. */
  datatype Json =
    | Null
    | Scalar(text: string)
    | Str(quoted: string)
    | Arr(items: seq<Json>)
    | Obj(members: seq<Member>)

  datatype Member = Member(key: string, value: Json)

  /** What is assumed of the library's leaf texts: scalars are unquoted tokens and not `null`, strings
      and keys are quoted tokens. */
  ghost predicate LeavesAreTokens(j: Json) {
    match j
    case Null => true
    case Scalar(t) => IsBare(t) && t != "null"
    case Str(t) => IsQuoted(t)
    case Arr(items) => forall i :: 0 <= i < |items| ==> LeavesAreTokens(items[i])
    case Obj(members) => forall i :: 0 <= i < |members| ==>
      IsQuoted(members[i].key) && LeavesAreTokens(members[i].value)
  }

  const ARRAY_TAG := "\"a\""
  const OBJECT_TAG := "\"o\""

  // ----- The tagged array a value stands for, and back

  function Tagged(j: Json): Plain {
    match j
    case Null => Token("null")
    case Scalar(t) => Token(t)
    case Str(t) => Token(t)
    case Arr(items) => List([Token(ARRAY_TAG), List(TaggedItems(items))])
    case Obj(members) => List([Token(OBJECT_TAG), List(TaggedMembers(members))])
  }

  function TaggedItems(items: seq<Json>): (r: seq<Plain>)
    ensures |r| == |items|
  {
    if items == [] then [] else [Tagged(items[0])] + TaggedItems(items[1..])
  }

  function TaggedMembers(members: seq<Member>): (r: seq<Plain>)
    ensures |r| == |members|
  {
    if members == [] then []
    else [List([Token(members[0].key), Tagged(members[0].value)])] + TaggedMembers(members[1..])
  }

  function Untagged(p: Plain): Option<Json>
    decreases p, 1
  {
    match p
    case Token(t) => Some(if t == "null" then Null else if t != "" && t[0] == '"' then Str(t) else Scalar(t))
    case List(items) =>
      if |items| != 2 || !items[1].List? then None
      else if items[0] == Token(ARRAY_TAG) then
        match UntaggedItems(items[1].items)
        case None => None
        case Some(values) => Some(Arr(values))
      else if items[0] == Token(OBJECT_TAG) then
        match UntaggedMembers(items[1].items)
        case None => None
        case Some(members) => Some(Obj(members))
      else None
  }

  function UntaggedItems(items: seq<Plain>): Option<seq<Json>>
    decreases items, 0
  {
    if items == [] then Some([])
    else
      match (Untagged(items[0]), UntaggedItems(items[1..]))
      case (Some(first), Some(others)) => Some([first] + others)
      case _ => None
  }

  function UntaggedMembers(items: seq<Plain>): Option<seq<Member>>
    decreases items, 0
  {
    if items == [] then Some([])
    else
      match items[0]
      case Token(_) => None
      case List(pair) =>
        if |pair| != 2 || !pair[0].Token? then None
        else
          match (Untagged(pair[1]), UntaggedMembers(items[1..]))
          case (Some(value), Some(others)) => Some([Member(pair[0].text, value)] + others)
          case _ => None
  }

  lemma {:induction false} UntagTagged(j: Json)
    requires LeavesAreTokens(j)
    ensures Tokens(Tagged(j)) && Untagged(Tagged(j)) == Some(j)
    decreases j, 1
  {
    assert IsQuoted(ARRAY_TAG) && IsQuoted(OBJECT_TAG) && IsBare("null");
    match j
    case Null =>
    case Scalar(t) =>
    case Str(t) =>
    case Arr(items) => UntagTaggedItems(items);
    case Obj(members) => UntagTaggedMembers(members);
  }

  lemma {:induction false} UntagTaggedItems(items: seq<Json>)
    requires forall i :: 0 <= i < |items| ==> LeavesAreTokens(items[i])
    ensures Tokens(List(TaggedItems(items))) && UntaggedItems(TaggedItems(items)) == Some(items)
    decreases items, 0
  {
    if items == [] {
    } else {
      UntagTagged(items[0]);
      UntagTaggedItems(items[1..]);
      var t := TaggedItems(items);
      assert t[0] == Tagged(items[0]) && t[1..] == TaggedItems(items[1..]);
      assert [items[0]] + items[1..] == items;
    }
  }

  lemma {:induction false} UntagTaggedMembers(members: seq<Member>)
    requires forall i :: 0 <= i < |members| ==> IsQuoted(members[i].key) && LeavesAreTokens(members[i].value)
    ensures Tokens(List(TaggedMembers(members))) && UntaggedMembers(TaggedMembers(members)) == Some(members)
    decreases members, 0
  {
    if members == [] {
    } else {
      var m := members[0];
      UntagTagged(m.value);
      UntagTaggedMembers(members[1..]);
      var t := TaggedMembers(members);
      assert t[0] == List([Token(m.key), Tagged(m.value)]) && t[1..] == TaggedMembers(members[1..]);
      assert [m] + members[1..] == members;
    }
  }

  // ----- Decoding printed text

  /** The printed text of a value. */
  function Printed(j: Json): string {
    Show(Tagged(j))
  }

  /** Reads printed text back; the whole text must be one value. */
  function Decode(s: string): Option<Json> {
    match Parse(s)
    case None => None
    case Some((p, rest)) => if rest == "" then Untagged(p) else None
  }

  /** The printed text of every value is one well-formed array text, without stray separators at any
      depth, and decodes to the value it was printed from. */
  lemma {:induction false} DecodePrinted(j: Json)
    requires LeavesAreTokens(j)
    ensures Parse(Printed(j)) == Some((Tagged(j), ""))
    ensures Decode(Printed(j)) == Some(j)
  {
    UntagTagged(j);
    ParseShow(Tagged(j), "");
    assert Printed(j) + "" == Printed(j);
  }

  /** Different values print differently. */
  lemma {:induction false} PrintedIsInjective(a: Json, b: Json)
    requires LeavesAreTokens(a) && LeavesAreTokens(b) && Printed(a) == Printed(b)
    ensures a == b
  {
    DecodePrinted(a);
    DecodePrinted(b);
  }

  // ----- The printed text, written out

  /** Texts with a comma between each two. */
  function Commas(texts: seq<string>): string {
    if texts == [] then ""
    else if |texts| == 1 then texts[0]
    else texts[0] + "," + Commas(texts[1..])
  }

  function ItemTexts(items: seq<Json>): (texts: seq<string>)
    ensures |texts| == |items| && forall i :: 0 <= i < |items| ==> texts[i] == Printed(items[i])
  {
    seq(|items|, i requires 0 <= i < |items| => Printed(items[i]))
  }

  function MemberTexts(members: seq<Member>): (texts: seq<string>)
    ensures |texts| == |members|
    ensures forall i :: 0 <= i < |members| ==>
      texts[i] == "[" + members[i].key + "," + Printed(members[i].value) + "]"
  {
    seq(|members|, i requires 0 <= i < |members| =>
      "[" + members[i].key + "," + Printed(members[i].value) + "]")
  }

  lemma PrintedLeaves(text: string)
    ensures Printed(Null) == "null" && Printed(Scalar(text)) == text && Printed(Str(text)) == text
  {
  }

  /** An array is its letter and its items, in order. */
  lemma {:induction false} PrintedArray(items: seq<Json>, texts: seq<string>)
    requires |texts| == |items| && forall i :: 0 <= i < |items| ==> texts[i] == Printed(items[i])
    ensures Printed(Arr(items)) == "[\"a\",[" + Commas(texts) + "]]"
  {
    hide Show, ShowBody, Commas, Tagged;
    forall i | 0 <= i < |items| ensures TaggedItems(items)[i] == Tagged(items[i]) {
      TaggedItemAt(items, i);
    }
    BodyIsCommas(TaggedItems(items), texts);
    TaggedArr(items);
    Bracketed("\"a\"", TaggedItems(items), Commas(texts));
    assert "[" + "\"a\"" + ",[" == "[\"a\",[";
  }

  /** An object is its letter and its members, each an array of the key and the value. */
  lemma {:induction false} PrintedObject(members: seq<Member>, texts: seq<string>)
    requires |texts| == |members|
    requires forall i :: 0 <= i < |members| ==>
      texts[i] == "[" + members[i].key + "," + Printed(members[i].value) + "]"
    ensures Printed(Obj(members)) == "[\"o\",[" + Commas(texts) + "]]"
  {
    hide Show, ShowBody, Commas, Tagged;
    var tagged := TaggedMembers(members);
    forall i | 0 <= i < |members| ensures Show(tagged[i]) == texts[i] {
      TaggedMemberAt(members, i);
      ShowPair(members[i].key, Tagged(members[i].value));
    }
    BodyIsCommas(tagged, texts);
    TaggedObj(members);
    Bracketed("\"o\"", tagged, Commas(texts));
    assert "[" + "\"o\"" + ",[" == "[\"o\",[";
  }

  lemma TaggedArr(items: seq<Json>)
    ensures Tagged(Arr(items)) == List([Token("\"a\""), List(TaggedItems(items))])
  {
  }

  lemma TaggedObj(members: seq<Member>)
    ensures Tagged(Obj(members)) == List([Token("\"o\""), List(TaggedMembers(members))])
  {
  }

  lemma {:induction false} TaggedItemAt(items: seq<Json>, i: nat)
    requires i < |items|
    ensures TaggedItems(items)[i] == Tagged(items[i])
  {
    if i > 0 {
      TaggedItemAt(items[1..], i - 1);
    }
  }

  lemma {:induction false} TaggedMemberAt(members: seq<Member>, i: nat)
    requires i < |members|
    ensures TaggedMembers(members)[i] == List([Token(members[i].key), Tagged(members[i].value)])
  {
    if i > 0 {
      TaggedMemberAt(members[1..], i - 1);
    }
  }

  lemma {:induction false} BodyIsCommas(items: seq<Plain>, texts: seq<string>)
    requires |texts| == |items| && forall i :: 0 <= i < |items| ==> Show(items[i]) == texts[i]
    ensures ShowBody(items) == Commas(texts) + "]"
  {
    hide Show, ShowTail;
    if items == [] {
      assert texts == [];
    } else {
      BodyIsCommas(items[1..], texts[1..]);
      BodyUnfolds(items);
      Assoc(texts[0] + ",", Commas(texts[1..]), "]");
      Assoc(texts[0], ",", ShowBody(items[1..]));
    }
  }

  lemma Bracketed(tag: string, items: seq<Plain>, body: string)
    requires ShowBody(items) == body + "]"
    ensures Show(List([Token(tag), List(items)])) == "[" + tag + ",[" + body + "]]"
  {
    ShowPair(tag, List(items));
    var open := "[" + tag + ",";
    Assoc(open, "[", body + "]");
    Assoc(open + "[", body, "]");
    Assoc(open + "[" + body, "]", "]");
  }

  // ----- The printer

  class OStringStream {
    var text: string

    constructor ()
      ensures text == ""
    {
      text := "";
    }

    method Put(s: string)
      modifies this
      ensures text == old(text) + s
    {
      text := text + s;
    }
  }

  method Stringify(j: Json, out: OStringStream)
    modifies out
    ensures out.text == old(out.text) + Printed(j)
    ensures j.Null? ==> out.text == old(out.text) + "null"
    ensures j.Scalar? ==> out.text == old(out.text) + j.text
    ensures j.Str? ==> out.text == old(out.text) + j.quoted
    decreases j, 1
  {
    match j
    case Obj(members) => StringifyObj(members, out);
    case Arr(items) => StringifyArr(items, out);
    case Null => out.Put("null");
    case Scalar(t) => out.Put(t);
    case Str(t) => StringifyString(t, out);
  }

  method StringifyString(quoted: string, out: OStringStream)
    modifies out
    ensures out.text == old(out.text) + quoted
  {
    out.Put(quoted);
  }

  method StringifyMember(member: Member, out: OStringStream)
    modifies out
    ensures out.text == old(out.text) + Show(List([Token(member.key), Tagged(member.value)]))
    ensures out.text == old(out.text) + ("[" + member.key + "," + Printed(member.value) + "]")
    decreases member, 0
  {
    hide Show, Tagged;
    ShowPair(member.key, Tagged(member.value));
    out.Put("[");
    StringifyString(member.key, out);
    out.Put(",");
    Stringify(member.value, out);
    out.Put("]");
  }

  method StringifyObj(members: seq<Member>, out: OStringStream)
    modifies out
    ensures out.text == old(out.text) + Printed(Obj(members))
    ensures out.text == old(out.text) + ("[\"o\",[" + Commas(MemberTexts(members)) + "]]")
    decreases members, 0
  {
    hide Show, ShowTail, Commas;
    out.Put("[\"o\",[");
    var i := 0;
    ghost var items := TaggedMembers(members);
    ghost var start := out.text;
    while i < |members|
      invariant i <= |members|
      invariant items[i..] == TaggedMembers(members[i..])
      invariant out.text + ShowBody(items[i..]) == start + ShowBody(items)
    {
      ghost var before := out.text;
      StringifyMember(members[i], out);
      i := i + 1;
      if i != |members| {
        out.Put(",");
      }
      BodyStep(items[i - 1..], before, out.text);
    }
    Framed(old(out.text), OBJECT_TAG, items, out.text);
    PrintedObject(members, MemberTexts(members));
    out.Put("]]");
  }

  method StringifyArr(values: seq<Json>, out: OStringStream)
    modifies out
    ensures out.text == old(out.text) + Printed(Arr(values))
    ensures out.text == old(out.text) + ("[\"a\",[" + Commas(ItemTexts(values)) + "]]")
    decreases values, 0
  {
    hide Commas;
    out.Put("[\"a\",[");
    var i := 0;
    ghost var items := TaggedItems(values);
    ghost var start := out.text;
    while i < |values|
      invariant i <= |values|
      invariant items[i..] == TaggedItems(values[i..])
      invariant out.text + ShowBody(items[i..]) == start + ShowBody(items)
    {
      ghost var before := out.text;
      Stringify(values[i], out);
      i := i + 1;
      if i != |values| {
        out.Put(",");
      }
      BodyStep(items[i - 1..], before, out.text);
    }
    Framed(old(out.text), ARRAY_TAG, items, out.text);
    PrintedArray(values, ItemTexts(values));
    out.Put("]]");
  }

  // ----- Text pieces

  /** A separator goes between two items, and none follows the last. */
  lemma BodyStep(items: seq<Plain>, before: string, after: string)
    requires items != []
    requires after == before + Show(items[0]) + (if |items| > 1 then "," else "")
    ensures after + ShowBody(items[1..]) == before + ShowBody(items)
  {
    hide Show, ShowBody, ShowTail;
    BodyUnfolds(items);
    var first, rest := Show(items[0]), ShowBody(items[1..]);
    if |items| > 1 {
      Assoc(first, ",", rest);
      Assoc(before, first + ",", rest);
      Assoc(before, first, ",");
    } else {
      Assoc(before, first, rest);
    }
  }

  lemma BodyUnfolds(items: seq<Plain>)
    requires items != []
    ensures ShowBody(items) ==
              Show(items[0]) + if |items| > 1 then "," + ShowBody(items[1..]) else ShowBody(items[1..])
  {
    hide Show;
    if |items| > 1 {
      Assoc(",", Show(items[1]), ShowTail(items[1..][1..]));
    }
  }

  /** A list of two, written out. */
  lemma ShowPair(first: string, second: Plain)
    ensures Show(List([Token(first), second])) == "[" + first + "," + Show(second) + "]"
  {
    var pair, text := [Token(first), second], Show(second);
    var x := "," + text;
    assert ShowTail([second]) == x + "]" by {
      assert [second][1..] == [];
    }
    assert Show(pair[0]) == first && pair[1..] == [second];
    assert ShowBody(pair) == first + (x + "]");
    assert Show(List(pair)) == "[" + (first + (x + "]"));
    Assoc(first, x, "]");
    Assoc("[", first + x, "]");
    Assoc(first, ",", text);
    Assoc("[", first + ",", text);
    Assoc("[", first, ",");
  }

  /** The brackets around the items. */
  lemma Framed(before: string, tag: string, items: seq<Plain>, written: string)
    requires written + "]" == before + ("[" + tag + ",[") + ShowBody(items)
    ensures written + "]]" == before + Show(List([Token(tag), List(items)]))
  {
    var open, body := "[" + tag + ",", ShowBody(items);
    ShowPair(tag, List(items));
    assert "[" + tag + ",[" == open + "[" && "]]" == "]" + "]";
    Assoc(written, "]", "]");
    Assoc(before, open + "[", body);
    Assoc(open, "[", body);
    Assoc(before, open + ("[" + body), "]");
  }
}
