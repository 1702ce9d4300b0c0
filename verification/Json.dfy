/**
 JSON values and the exact byte length of their compact UTF-8 text.  A string is known by its
 characters, or is the base64 text of some bytes, or the text of an array element type; a finite
 float is known by its decimal text.
 */
module Json {
  import opened Outcomes

  // `detail` is what the name of the type leaves out: field names and types, or an extension type.
  datatype Dtype = Dtype(name: string, itemSize: nat, holdsObjects: bool, detail: Option<string>)

  datatype Text = Plain(chars: string) | Base64Of(data: seq<int>) | NameOf(dtype: Dtype)

  datatype Json =
    | JNull
    | JBool(b: bool)
    | JInt(i: int)
    | JFloat(decimal: string)
    | JString(text: Text)
    | JArray(items: seq<Json>)
    | JObject(members: seq<Member>)

  datatype Member = Member(name: string, value: Json)

  function CharBytes(c: char): (n: nat)
    ensures n >= 1
  {
    if c == '"' || c == '\\' || c == '\n' || c == '\r' || c == '\t' || c as int == 8 || c as int == 12 then 2
    else if c as int < 0x20 then 6
    else if c as int < 0x80 then 1
    else if c as int < 0x800 then 2
    else if c as int < 0x1_0000 then 3
    else 4
  }

  function CharsBytes(s: string): (n: nat)
    ensures n >= |s|
  {
    if s == [] then 0 else CharsBytes(s[..|s| - 1]) + CharBytes(s[|s| - 1])
  }

  function TextBytes(t: Text): nat {
    match t
    case Plain(chars) => CharsBytes(chars)
    case Base64Of(data) => 4 * ((|data| + 2) / 3)
    case NameOf(dtype) => CharsBytes(dtype.name)
  }

  function DigitCount(n: nat): (d: nat)
    ensures d >= 1
  {
    if n < 10 then 1 else 1 + DigitCount(n / 10)
  }

  function IntBytes(i: int): (n: nat)
    ensures n >= 1
  {
    if i < 0 then 1 + DigitCount(-i) else DigitCount(i)
  }

  /** One separator between any two neighbours. */
  function Commas(count: nat): nat {
    if count == 0 then 0 else count - 1
  }

  function JsonBytes(j: Json): (n: nat)
    ensures n >= 1
    decreases j, 1
  {
    match j
    case JNull => 4
    case JBool(b) => if b then 4 else 5
    case JInt(i) => IntBytes(i)
    case JFloat(decimal) => if decimal == "" then 1 else |decimal|
    case JString(text) => 2 + TextBytes(text)
    case JArray(items) => 2 + ItemsBytes(items) + Commas(|items|)
    case JObject(members) => 2 + MembersBytes(members) + Commas(|members|)
  }

  function ItemsBytes(items: seq<Json>): (n: nat)
    decreases items, 0
  {
    if items == [] then 0 else ItemsBytes(items[..|items| - 1]) + JsonBytes(items[|items| - 1])
  }

  function MembersBytes(members: seq<Member>): (n: nat)
    decreases members, 0
  {
    if members == [] then 0
    else
      var last := members[|members| - 1];
      MembersBytes(members[..|members| - 1]) + 3 + CharsBytes(last.name) + JsonBytes(last.value)
  }

  /** The value that a parser keeps for `name`: the last one of that name. */
  function Lookup(members: seq<Member>, name: string): (r: Option<Json>)
    ensures r.Some? ==> exists m <- members :: m.name == name && m.value == r.value
    ensures r.None? ==> forall m <- members :: m.name != name
  {
    if members == [] then None
    else
      var last := members[|members| - 1];
      if last.name == name then Some(last.value) else Lookup(members[..|members| - 1], name)
  }

  /** An object takes more bytes than the values of any two of its names together. */
  lemma {:induction false} MembersOutweigh(members: seq<Member>, a: string, b: string)
    ensures Lookup(members, a).Some? ==>
              MembersBytes(members) >= 3 + |a| + JsonBytes(Lookup(members, a).value)
    ensures a != b && Lookup(members, a).Some? && Lookup(members, b).Some? ==>
              MembersBytes(members) >=
                6 + |a| + |b| + JsonBytes(Lookup(members, a).value) + JsonBytes(Lookup(members, b).value)
  {
    if members != [] {
      MembersOutweigh(members[..|members| - 1], a, b);
      MembersOutweigh(members[..|members| - 1], b, a);
    }
  }

  // ---- Bounds on the bytes of small objects ---------------------------------------------

  lemma {:induction false} ShortText(s: string)
    ensures CharsBytes(s) <= 6 * |s|
  {
    if s != [] {
      ShortText(s[..|s| - 1]);
    }
  }

  lemma MembersBytesSnoc(ms: seq<Member>, m: Member)
    ensures MembersBytes(ms + [m]) == MembersBytes(ms) + 3 + CharsBytes(m.name) + JsonBytes(m.value)
  {
    assert (ms + [m])[..|ms|] == ms;
  }

  lemma FourMembersBytes(a: Member, b: Member, c: Member, d: Member)
    ensures MembersBytes([a, b, c, d]) ==
              12 + CharsBytes(a.name) + JsonBytes(a.value) + CharsBytes(b.name) + JsonBytes(b.value)
              + CharsBytes(c.name) + JsonBytes(c.value) + CharsBytes(d.name) + JsonBytes(d.value)
  {
    var one := [a];
    var two := one + [b];
    var three := two + [c];
    MembersBytesSnoc([], a);
    assert [] + [a] == one;
    MembersBytesSnoc(one, b);
    MembersBytesSnoc(two, c);
    MembersBytesSnoc(three, d);
    assert three + [d] == [a, b, c, d];
  }

  lemma TextMemberBytes(name: string, text: string)
    ensures CharsBytes(name) + JsonBytes(JString(Plain(text))) <= 2 + 6 * |name| + 6 * |text|
  {
    ShortText(name);
    ShortText(text);
  }
}
