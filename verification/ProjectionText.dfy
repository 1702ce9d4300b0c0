/** The text of an audit, member by member, and that the sizes the audit works with are those of its text. */
module ProjectionText {
  import opened Outcomes
  import opened Digests
  import opened RuntimeProjections
  import opened ProjectionAudit

  type Text = seq<Atom>

  // ---- JSON ------------------------------------------------------------------------------

  /** The units as they are, lone surrogates included. */
  function Raw(text: Utf8): Text {
    seq(|text|, i requires 0 <= i < |text| => Octet(text[i]))
  }

  const HEX_DIGITS := "0123456789abcdef"

  /** One unit inside a JSON string. */
  function EscapedUnit(unit: char): Utf8 {
    if unit == '"' then "\\\""
    else if unit == '\\' then "\\\\"
    else if unit == '\n' then "\\n"
    else if unit == '\r' then "\\r"
    else if unit == '\t' then "\\t"
    else if unit as int == 8 then "\\b"
    else if unit as int == 12 then "\\f"
    else if unit as int < 0x20 then "\\u00" + [HEX_DIGITS[unit as int / 16], HEX_DIGITS[unit as int % 16]]
    else [unit]
  }

  function Escaped(text: Utf8): Utf8 {
    if text == "" then "" else Escaped(text[..|text| - 1]) + EscapedUnit(text[|text| - 1])
  }

  function Quoted(inner: Text): Text {
    Raw("\"") + inner + Raw("\"")
  }

  /** A shown text: whole, or cut with an ellipsis, a hash sign and sixteen digits of its digest. */
  function Shown(d: Display): Text {
    match d
    case Whole(text) => Quoted(Raw(Escaped(text)))
    case Cut(prefix, digest) =>
      Quoted(Raw(Escaped(prefix)) + Raw([0xE2 as char, 0x80 as char, 0xA6 as char, '#']) + [HexHead(digest)])
  }

  function Digits(d: Digest): Text {
    Quoted([Hex(d)])
  }

  function Flag(b: bool): Text {
    Raw(if b then "true" else "false")
  }

  datatype Member = Member(name: Utf8, value: Text)

  function MemberText(m: Member): Text {
    Quoted(Raw(m.name)) + Raw(":") + m.value
  }

  /** Texts separated by commas. */
  function Joined(parts: seq<Text>): Text {
    if parts == [] then []
    else if |parts| == 1 then parts[0]
    else Joined(parts[..|parts| - 1]) + Raw(",") + parts[|parts| - 1]
  }

  function Texts(members: seq<Member>): (parts: seq<Text>)
    ensures |parts| == |members|
  {
    seq(|members|, i requires 0 <= i < |members| => MemberText(members[i]))
  }

  function Object(members: seq<Member>): Text {
    Raw("{") + Joined(Texts(members)) + Raw("}")
  }

  // ---- The audit -------------------------------------------------------------------------

  predicate IsCut(i: Issue) {
    BoundedText(i.component, 128).Cut? || BoundedText(i.reason, 64).Cut?
    || BoundedText(i.errorType, 64).Cut? || BoundedText(i.message, 256).Cut?
  }

  function AlwaysMembers(i: Issue): seq<Member> {
    [Member("component", Shown(BoundedText(i.component, 128))), Member("reason", Shown(BoundedText(i.reason, 64))),
     Member("digest", Digits(IssueDigest(i))), Member("truncated", Flag(IsCut(i)))]
  }

  function TypeMembers(i: Issue): seq<Member> {
    if i.errorType == "" then [] else [Member("error_type", Shown(BoundedText(i.errorType, 64)))]
  }

  function MessageMembers(i: Issue): seq<Member> {
    if i.message == "" then []
    else
      [Member("message", Shown(BoundedText(i.message, 256))),
       Member("message_hash", Digits(Sha256(Octets(i.message))))]
  }

  function CauseMembers(i: Issue): seq<Member> {
    if i.cause.None? then [] else [Member("cause_digest", Digits(i.cause.value))]
  }

  /** The members of one sample; an empty error type or message and an absent cause are left out. */
  function SampleMembers(i: Issue): seq<Member> {
    AlwaysMembers(i) + TypeMembers(i) + MessageMembers(i) + CauseMembers(i)
  }

  function SampleText(i: Issue): Text {
    Object(SampleMembers(i))
  }

  function SampleTexts(samples: seq<Issue>): (parts: seq<Text>)
    ensures |parts| == |samples|
  {
    seq(|samples|, k requires 0 <= k < |samples| => SampleText(samples[k]))
  }

  function Number(n: nat): Text {
    Raw(Decimal(n))
  }

  /** The members of an audit, in any order; `sources` is the digest of the field sources. */
  function AuditMembers<V>(p: Projection<V>, a: Audit, sources: Digest): seq<Member> {
    [Member("schema", Quoted(Raw(SCHEMA))), Member("status", Quoted(Raw(StatusText(p.status)))),
     Member("issue_digest", Digits(p.issueDigest)), Member("field_source_digest", Digits(sources)),
     Member("audit_digest", Digits(p.auditDigest)), Member("audit_max_bytes", Number(AUDIT_MAX_BYTES))]
    + [Member("component_count", Number(p.componentCount)),
       Member("successful_component_count", Number(p.counts.successful)),
       Member("degraded_component_count", Number(p.counts.degraded)),
       Member("failed_component_count", Number(p.counts.failed)),
       Member("invalid_component_count", Number(p.counts.invalid)),
       Member("unavailable_component_count", Number(p.counts.unavailable))]
    + [Member("issue_count", Number(p.issueCount)), Member("issue_sample_limit", Number(p.sampleLimit)),
       Member("field_source_count", Number(|p.sources|))]
    + [Member("issue_samples", Raw("[") + Joined(SampleTexts(a.samples)) + Raw("]")),
       Member("issue_sample_count", Number(a.sampleCount)), Member("audit_truncated", Flag(a.truncated))]
  }

  function AuditText<V>(p: Projection<V>, a: Audit, sources: Digest): Text {
    Object(AuditMembers(p, a, sources))
  }

  // ---- Sizes -----------------------------------------------------------------------------

  lemma {:induction false} SizeJoins(a: Text, b: Text)
    ensures Size(a + b) == Size(a) + Size(b)
  {
    if a == [] {
      assert a + b == b;
    } else {
      assert (a + b)[1..] == a[1..] + b;
      SizeJoins(a[1..], b);
    }
  }

  lemma {:induction false} RawSize(text: Utf8)
    ensures Size(Raw(text)) == |text|
  {
    if text != "" {
      RawSize(text[1..]);
      assert Raw(text)[1..] == Raw(text[1..]);
    }
  }

  lemma {:induction false} EscapedSize(text: Utf8)
    ensures |Escaped(text)| == EscapedBytes(text)
  {
    if text != "" {
      EscapedSize(text[..|text| - 1]);
    }
  }

  lemma QuotedSize(inner: Text)
    ensures Size(Quoted(inner)) == Size(inner) + 2
  {
    RawSize("\"");
    SizeJoins(Raw("\""), inner);
    SizeJoins(Raw("\"") + inner, Raw("\""));
  }

  lemma ShownSize(d: Display)
    ensures Size(Shown(d)) == StringBytes(d)
  {
    match d
    case Whole(text) =>
      QuotedSize(Raw(Escaped(text)));
      RawSize(Escaped(text));
      EscapedSize(text);
    case Cut(prefix, digest) =>
      var dots := Raw([0xE2 as char, 0x80 as char, 0xA6 as char, '#']);
      QuotedSize(Raw(Escaped(prefix)) + dots + [HexHead(digest)]);
      SizeJoins(Raw(Escaped(prefix)) + dots, [HexHead(digest)]);
      SizeJoins(Raw(Escaped(prefix)), dots);
      RawSize(Escaped(prefix));
      RawSize([0xE2 as char, 0x80 as char, 0xA6 as char, '#']);
      EscapedSize(prefix);
      assert [HexHead(digest)][1..] == [];
  }

  lemma DigitsSize(d: Digest)
    ensures Size(Digits(d)) == HASH_BYTES
  {
    QuotedSize([Hex(d)]);
    assert [Hex(d)][1..] == [];
  }

  lemma FlagSize(b: bool)
    ensures Size(Flag(b)) == FlagBytes(b)
  {
    RawSize(if b then "true" else "false");
  }

  lemma MemberSize(m: Member)
    ensures Size(MemberText(m)) == |m.name| + 3 + Size(m.value)
  {
    QuotedSize(Raw(m.name));
    RawSize(m.name);
    RawSize(":");
    SizeJoins(Quoted(Raw(m.name)), Raw(":"));
    SizeJoins(Quoted(Raw(m.name)) + Raw(":"), m.value);
  }

  /** The sizes of the parts, each with a comma or bracket after it. */
  function PartsSize(parts: seq<Text>): nat {
    if parts == [] then 0 else PartsSize(parts[..|parts| - 1]) + Size(parts[|parts| - 1]) + 1
  }

  lemma {:induction false} JoinedSize(parts: seq<Text>)
    requires parts != []
    ensures Size(Joined(parts)) + 1 == PartsSize(parts)
  {
    if |parts| == 1 {
      assert parts[..0] == [];
    } else {
      var init, last := parts[..|parts| - 1], parts[|parts| - 1];
      JoinedSize(init);
      RawSize(",");
      SizeJoins(Joined(init), Raw(","));
      SizeJoins(Joined(init) + Raw(","), last);
    }
  }

  function MembersSize(members: seq<Member>): nat {
    if members == [] then 0
    else
      var last := members[|members| - 1];
      MembersSize(members[..|members| - 1]) + MemberBytes(last.name, Size(last.value))
  }

  lemma {:induction false} MembersSizeJoins(a: seq<Member>, b: seq<Member>)
    ensures MembersSize(a + b) == MembersSize(a) + MembersSize(b)
  {
    if b == [] {
      assert a + b == a;
    } else {
      assert (a + b)[..|a + b| - 1] == a + b[..|b| - 1];
      MembersSizeJoins(a, b[..|b| - 1]);
    }
  }

  lemma OneMember(m: Member)
    ensures MembersSize([m]) == MemberBytes(m.name, Size(m.value))
  {
    assert [m][..0] == [];
  }

  lemma TwoMembers(a: Member, b: Member)
    ensures MembersSize([a, b]) == MemberBytes(a.name, Size(a.value)) + MemberBytes(b.name, Size(b.value))
  {
    assert [a, b] == [a] + [b];
    MembersSizeJoins([a], [b]);
    OneMember(a);
    OneMember(b);
  }

  lemma {:induction false} TextsSize(members: seq<Member>)
    ensures PartsSize(Texts(members)) == MembersSize(members)
  {
    if members != [] {
      TextsSize(members[..|members| - 1]);
      assert Texts(members)[..|members| - 1] == Texts(members[..|members| - 1]);
      MemberSize(members[|members| - 1]);
    }
  }

  lemma ObjectSize(members: seq<Member>)
    requires members != []
    ensures Size(Object(members)) == 1 + MembersSize(members)
  {
    JoinedSize(Texts(members));
    TextsSize(members);
    RawSize("{");
    RawSize("}");
    SizeJoins(Raw("{"), Joined(Texts(members)));
    SizeJoins(Raw("{") + Joined(Texts(members)), Raw("}"));
  }

  lemma TypeSize(i: Issue)
    ensures MembersSize(TypeMembers(i)) ==
              if i.errorType == "" then 0 else MemberBytes("error_type", StringBytes(BoundedText(i.errorType, 64)))
  {
    ShownSize(BoundedText(i.errorType, 64));
    OneMember(Member("error_type", Shown(BoundedText(i.errorType, 64))));
  }

  lemma MessageSize(i: Issue)
    ensures MembersSize(MessageMembers(i)) ==
              if i.message == "" then 0
              else MemberBytes("message", StringBytes(BoundedText(i.message, 256)))
                   + MemberBytes("message_hash", HASH_BYTES)
  {
    ShownSize(BoundedText(i.message, 256));
    DigitsSize(Sha256(Octets(i.message)));
    TwoMembers(Member("message", Shown(BoundedText(i.message, 256))),
               Member("message_hash", Digits(Sha256(Octets(i.message)))));
  }

  lemma CauseSize(i: Issue)
    ensures MembersSize(CauseMembers(i)) == if i.cause.None? then 0 else MemberBytes("cause_digest", HASH_BYTES)
  {
    if i.cause.Some? {
      DigitsSize(i.cause.value);
      OneMember(Member("cause_digest", Digits(i.cause.value)));
    }
  }

  lemma FourGroups(a: seq<Member>, b: seq<Member>, c: seq<Member>, d: seq<Member>)
    ensures MembersSize(a + b + c + d) == MembersSize(a) + MembersSize(b) + MembersSize(c) + MembersSize(d)
  {
    MembersSizeJoins(a + b + c, d);
    MembersSizeJoins(a + b, c);
    MembersSizeJoins(a, b);
  }

  lemma FourMembers(a: Member, b: Member, c: Member, d: Member)
    ensures MembersSize([a, b, c, d]) == MembersSize([a, b]) + MembersSize([c, d])
  {
    assert [a, b, c, d] == [a, b] + [c, d];
    MembersSizeJoins([a, b], [c, d]);
  }

  lemma AlwaysSize(i: Issue)
    ensures MembersSize(AlwaysMembers(i)) ==
              MemberBytes("component", StringBytes(BoundedText(i.component, 128)))
              + MemberBytes("reason", StringBytes(BoundedText(i.reason, 64)))
              + MemberBytes("digest", HASH_BYTES) + MemberBytes("truncated", FlagBytes(IsCut(i)))
  {
    var a := Member("component", Shown(BoundedText(i.component, 128)));
    var b := Member("reason", Shown(BoundedText(i.reason, 64)));
    var c, d := Member("digest", Digits(IssueDigest(i))), Member("truncated", Flag(IsCut(i)));
    FourMembers(a, b, c, d);
    TwoMembers(a, b);
    TwoMembers(c, d);
    ShownSize(BoundedText(i.component, 128));
    ShownSize(BoundedText(i.reason, 64));
    DigitsSize(IssueDigest(i));
    FlagSize(IsCut(i));
  }

  /** The size of a sample is that of its text. */
  lemma SampleSize(i: Issue)
    ensures Size(SampleText(i)) == SampleBytes(i)
  {
    ObjectSize(SampleMembers(i));
    FourGroups(AlwaysMembers(i), TypeMembers(i), MessageMembers(i), CauseMembers(i));
    AlwaysSize(i);
    TypeSize(i);
    MessageSize(i);
    CauseSize(i);
  }

  lemma {:induction false} SampleTextsSize(samples: seq<Issue>)
    ensures PartsSize(SampleTexts(samples)) == SamplesBytes(samples) - 2 + if samples == [] then 0 else 1
  {
    if samples != [] {
      SampleTextsSize(samples[..|samples| - 1]);
      assert SampleTexts(samples)[..|samples| - 1] == SampleTexts(samples[..|samples| - 1]);
      SampleSize(samples[|samples| - 1]);
    }
  }

  lemma SampleListSize(samples: seq<Issue>)
    ensures Size(Raw("[") + Joined(SampleTexts(samples)) + Raw("]")) == SamplesBytes(samples)
  {
    var inner := Joined(SampleTexts(samples));
    RawSize("[");
    RawSize("]");
    SizeJoins(Raw("["), inner);
    SizeJoins(Raw("[") + inner, Raw("]"));
    SampleTextsSize(samples);
    if samples != [] {
      JoinedSize(SampleTexts(samples));
    }
  }

  lemma SixMembers(a: Member, b: Member, c: Member, d: Member, e: Member, f: Member)
    ensures MembersSize([a, b, c, d, e, f]) ==
              MembersSize([a, b]) + MembersSize([c, d]) + MembersSize([e, f])
  {
    assert [a, b, c, d, e, f] == [a, b] + [c, d] + [e, f];
    MembersSizeJoins([a, b] + [c, d], [e, f]);
    MembersSizeJoins([a, b], [c, d]);
  }

  lemma ThreeMembers(a: Member, b: Member, c: Member)
    ensures MembersSize([a, b, c]) == MembersSize([a, b]) + MemberBytes(c.name, Size(c.value))
  {
    assert [a, b, c] == [a, b] + [c];
    MembersSizeJoins([a, b], [c]);
    OneMember(c);
  }

  lemma HeaderSize<V>(p: Projection<V>, sources: Digest)
    ensures MembersSize(
              [Member("schema", Quoted(Raw(SCHEMA))), Member("status", Quoted(Raw(StatusText(p.status)))),
               Member("issue_digest", Digits(p.issueDigest)), Member("field_source_digest", Digits(sources)),
               Member("audit_digest", Digits(p.auditDigest)), Member("audit_max_bytes", Number(AUDIT_MAX_BYTES))])
            == HeaderBytes(p.status)
  {
    var a, b := Member("schema", Quoted(Raw(SCHEMA))), Member("status", Quoted(Raw(StatusText(p.status))));
    var c, d := Member("issue_digest", Digits(p.issueDigest)), Member("field_source_digest", Digits(sources));
    var e, f := Member("audit_digest", Digits(p.auditDigest)), Member("audit_max_bytes", Number(AUDIT_MAX_BYTES));
    SixMembers(a, b, c, d, e, f);
    TwoMembers(a, b);
    TwoMembers(c, d);
    TwoMembers(e, f);
    QuotedSize(Raw(SCHEMA));
    RawSize(SCHEMA);
    QuotedSize(Raw(StatusText(p.status)));
    RawSize(StatusText(p.status));
    DigitsSize(p.issueDigest);
    DigitsSize(sources);
    DigitsSize(p.auditDigest);
    RawSize(Decimal(AUDIT_MAX_BYTES));
  }

  lemma CountsSize(total: nat, n: Counts)
    ensures MembersSize(
              [Member("component_count", Number(total)), Member("successful_component_count", Number(n.successful)),
               Member("degraded_component_count", Number(n.degraded)),
               Member("failed_component_count", Number(n.failed)),
               Member("invalid_component_count", Number(n.invalid)),
               Member("unavailable_component_count", Number(n.unavailable))])
            == CountsBytes(total, n)
  {
    var a, b := Member("component_count", Number(total)), Member("successful_component_count", Number(n.successful));
    var c, d := Member("degraded_component_count", Number(n.degraded)),
                Member("failed_component_count", Number(n.failed));
    var e, f := Member("invalid_component_count", Number(n.invalid)),
                Member("unavailable_component_count", Number(n.unavailable));
    SixMembers(a, b, c, d, e, f);
    TwoMembers(a, b);
    TwoMembers(c, d);
    TwoMembers(e, f);
    RawSize(Decimal(total));
    RawSize(Decimal(n.successful));
    RawSize(Decimal(n.degraded));
    RawSize(Decimal(n.failed));
    RawSize(Decimal(n.invalid));
    RawSize(Decimal(n.unavailable));
  }

  lemma TotalsSize(issueCount: nat, limit: nat, sources: nat)
    ensures MembersSize([Member("issue_count", Number(issueCount)), Member("issue_sample_limit", Number(limit)),
                         Member("field_source_count", Number(sources))])
            == TotalsBytes(issueCount, limit, sources)
  {
    var a, b := Member("issue_count", Number(issueCount)), Member("issue_sample_limit", Number(limit));
    var c := Member("field_source_count", Number(sources));
    ThreeMembers(a, b, c);
    TwoMembers(a, b);
    RawSize(Decimal(issueCount));
    RawSize(Decimal(limit));
    RawSize(Decimal(sources));
  }

  lemma SamplesPartSize(a: Audit)
    ensures MembersSize([Member("issue_samples", Raw("[") + Joined(SampleTexts(a.samples)) + Raw("]")),
                         Member("issue_sample_count", Number(a.sampleCount)),
                         Member("audit_truncated", Flag(a.truncated))])
            == MemberBytes("issue_samples", SamplesBytes(a.samples))
               + MemberBytes("issue_sample_count", NumberBytes(a.sampleCount))
               + MemberBytes("audit_truncated", FlagBytes(a.truncated))
  {
    var list := Raw("[") + Joined(SampleTexts(a.samples)) + Raw("]");
    var x, y := Member("issue_samples", list), Member("issue_sample_count", Number(a.sampleCount));
    var z := Member("audit_truncated", Flag(a.truncated));
    ThreeMembers(x, y, z);
    TwoMembers(x, y);
    RawSize(Decimal(a.sampleCount));
    SampleListSize(a.samples);
    FlagSize(a.truncated);
  }

  /** The size that the audit works with is that of its text. */
  lemma AuditSize<V>(p: Projection<V>, a: Audit, sources: Digest)
    ensures Size(AuditText(p, a, sources)) == AuditBytes(FixedBytes(p), a)
    ensures Fits(FixedBytes(p), a) <==> Size(AuditText(p, a, sources)) <= 4096
  {
    ObjectSize(AuditMembers(p, a, sources));
    AuditMembersSize(p, a, sources);
  }

  lemma AuditMembersSize<V>(p: Projection<V>, a: Audit, sources: Digest)
    ensures 1 + MembersSize(AuditMembers(p, a, sources)) == AuditBytes(FixedBytes(p), a)
  {
    var header :=
      [Member("schema", Quoted(Raw(SCHEMA))), Member("status", Quoted(Raw(StatusText(p.status)))),
       Member("issue_digest", Digits(p.issueDigest)), Member("field_source_digest", Digits(sources)),
       Member("audit_digest", Digits(p.auditDigest)), Member("audit_max_bytes", Number(AUDIT_MAX_BYTES))];
    var counts :=
      [Member("component_count", Number(p.componentCount)),
       Member("successful_component_count", Number(p.counts.successful)),
       Member("degraded_component_count", Number(p.counts.degraded)),
       Member("failed_component_count", Number(p.counts.failed)),
       Member("invalid_component_count", Number(p.counts.invalid)),
       Member("unavailable_component_count", Number(p.counts.unavailable))];
    var totals := [Member("issue_count", Number(p.issueCount)), Member("issue_sample_limit", Number(p.sampleLimit)),
                   Member("field_source_count", Number(|p.sources|))];
    var shown := [Member("issue_samples", Raw("[") + Joined(SampleTexts(a.samples)) + Raw("]")),
                  Member("issue_sample_count", Number(a.sampleCount)), Member("audit_truncated", Flag(a.truncated))];
    assert AuditMembers(p, a, sources) == header + counts + totals + shown;
    FourGroups(header, counts, totals, shown);
    HeaderSize(p, sources);
    CountsSize(p.componentCount, p.counts);
    TotalsSize(p.issueCount, p.sampleLimit, |p.sources|);
    SamplesPartSize(a);
  }

  // ---- Encoding --------------------------------------------------------------------------

  /** The text has a UTF-8 form. */
  predicate CanEncode(t: Text) {
    forall i | 0 <= i < |t| :: t[i].Octet? ==> t[i].unit as int < 256
  }

  lemma CanEncodeJoins(a: Text, b: Text)
    ensures CanEncode(a + b) <==> CanEncode(a) && CanEncode(b)
  {
    if CanEncode(a + b) {
      assert forall i | 0 <= i < |a| :: a[i] == (a + b)[i];
      assert forall i | 0 <= i < |b| :: b[i] == (a + b)[|a| + i];
    }
  }

  lemma {:induction false} EscapedEncodes(text: Utf8)
    ensures IsEncodable(Escaped(text)) <==> IsEncodable(text)
  {
    if text != "" {
      var init, last := text[..|text| - 1], text[|text| - 1];
      EscapedEncodes(init);
      EncodableJoins(Escaped(init), EscapedUnit(last));
      EncodableJoins(init, [last]);
      assert text == init + [last];
      UnitEncodes(last);
    }
  }

  lemma UnitEncodes(unit: char)
    ensures IsEncodable(EscapedUnit(unit)) <==> IsEncodable([unit])
  {
    assert IsEncodable([unit]) <==> unit as int < 256 by {
      if IsEncodable([unit]) {
        assert [unit][0] as int < 256;
      }
    }
    if unit as int < 0x20 {
      HexDigitsEncode();
    }
  }

  lemma HexDigitsEncode()
    ensures forall k | 0 <= k < 16 :: HEX_DIGITS[k] as int < 256
  {
  }

  lemma EncodableJoins(a: Utf8, b: Utf8)
    ensures IsEncodable(a + b) <==> IsEncodable(a) && IsEncodable(b)
  {
    if IsEncodable(a + b) {
      assert forall i | 0 <= i < |a| :: a[i] == (a + b)[i];
      assert forall i | 0 <= i < |b| :: b[i] == (a + b)[|a| + i];
    }
  }

  lemma RawEncodes(text: Utf8)
    ensures CanEncode(Raw(text)) <==> IsEncodable(text)
  {
    if CanEncode(Raw(text)) {
      assert forall i | 0 <= i < |text| :: Raw(text)[i].unit == text[i];
    }
  }

  lemma QuotedEncodes(inner: Text)
    ensures CanEncode(Quoted(inner)) <==> CanEncode(inner)
  {
    RawEncodes("\"");
    CanEncodeJoins(Raw("\""), inner);
    CanEncodeJoins(Raw("\"") + inner, Raw("\""));
  }

  lemma ShownEncodes(text: Utf8, limit: nat)
    requires limit > SUFFIX_BYTES
    ensures CanEncode(Shown(BoundedText(text, limit))) <==> CanBeShown(text, limit)
  {
    match BoundedText(text, limit)
    case Whole(_) =>
      QuotedEncodes(Raw(Escaped(text)));
      RawEncodes(Escaped(text));
      EscapedEncodes(text);
    case Cut(prefix, digest) =>
      var dots := [0xE2 as char, 0x80 as char, 0xA6 as char, '#'];
      QuotedEncodes(Raw(Escaped(prefix)) + Raw(dots) + [HexHead(digest)]);
      CanEncodeJoins(Raw(Escaped(prefix)) + Raw(dots), [HexHead(digest)]);
      CanEncodeJoins(Raw(Escaped(prefix)), Raw(dots));
      RawEncodes(dots);
      RawEncodes(Escaped(prefix));
      EscapedEncodes(prefix);
  }

  predicate PartsEncode(parts: seq<Text>) {
    forall i | 0 <= i < |parts| :: CanEncode(parts[i])
  }

  lemma {:induction false} JoinedEncodes(parts: seq<Text>)
    ensures CanEncode(Joined(parts)) <==> PartsEncode(parts)
  {
    if |parts| > 1 {
      var init, last := parts[..|parts| - 1], parts[|parts| - 1];
      JoinedEncodes(init);
      RawEncodes(",");
      CanEncodeJoins(Joined(init), Raw(","));
      CanEncodeJoins(Joined(init) + Raw(","), last);
      if PartsEncode(init) && CanEncode(last) {
        assert forall i | 0 <= i < |parts| :: parts[i] == if i < |init| then init[i] else last;
      }
      if PartsEncode(parts) {
        assert forall i | 0 <= i < |init| :: init[i] == parts[i];
      }
    }
  }

  /** The values of all members have a UTF-8 form, as their names have. */
  predicate MembersEncode(members: seq<Member>) {
    forall i | 0 <= i < |members| :: CanEncode(members[i].value)
  }

  lemma ObjectEncodes(members: seq<Member>)
    requires forall i | 0 <= i < |members| :: IsEncodable(members[i].name)
    ensures CanEncode(Object(members)) <==> MembersEncode(members)
  {
    RawEncodes("{");
    RawEncodes("}");
    CanEncodeJoins(Raw("{"), Joined(Texts(members)));
    CanEncodeJoins(Raw("{") + Joined(Texts(members)), Raw("}"));
    JoinedEncodes(Texts(members));
    forall i | 0 <= i < |members| ensures CanEncode(Texts(members)[i]) <==> CanEncode(members[i].value) {
      MemberEncodes(members[i]);
    }
    if PartsEncode(Texts(members)) {
      forall i | 0 <= i < |members| ensures CanEncode(members[i].value) {
        assert CanEncode(Texts(members)[i]);
      }
    }
  }

  lemma MemberEncodes(m: Member)
    requires IsEncodable(m.name)
    ensures CanEncode(MemberText(m)) <==> CanEncode(m.value)
  {
    QuotedEncodes(Raw(m.name));
    RawEncodes(m.name);
    RawEncodes(":");
    CanEncodeJoins(Quoted(Raw(m.name)), Raw(":"));
    CanEncodeJoins(Quoted(Raw(m.name)) + Raw(":"), m.value);
  }

  lemma MembersEncodeJoin(a: seq<Member>, b: seq<Member>)
    ensures MembersEncode(a + b) <==> MembersEncode(a) && MembersEncode(b)
  {
    if MembersEncode(a + b) {
      assert forall i | 0 <= i < |a| :: a[i] == (a + b)[i];
      assert forall i | 0 <= i < |b| :: b[i] == (a + b)[|a| + i];
    }
  }

  lemma DigitsEncode(d: Digest)
    ensures CanEncode(Digits(d))
  {
    QuotedEncodes([Hex(d)]);
  }

  lemma FlagEncodes(b: bool)
    ensures CanEncode(Flag(b))
  {
    RawEncodes(if b then "true" else "false");
  }

  /** The text of a sample can be encoded exactly if none of the texts it shows whole has a lone surrogate. */
  lemma SampleEncodesIff(i: Issue)
    ensures CanEncode(SampleText(i)) <==> IsSizable(i)
  {
    SampleNamesEncode(i);
    ObjectEncodes(SampleMembers(i));
    ShownEncodes(i.component, 128);
    ShownEncodes(i.reason, 64);
    ShownEncodes(i.errorType, 64);
    ShownEncodes(i.message, 256);
    SampleMembersEncodeIff(i);
  }

  predicate NamesEncode(members: seq<Member>) {
    forall k | 0 <= k < |members| :: IsEncodable(members[k].name)
  }

  lemma SampleNamesEncode(i: Issue)
    ensures NamesEncode(SampleMembers(i))
  {
    AlwaysNamesEncode(i);
    OptionalNamesEncode(i);
    NamesEncodeJoin(AlwaysMembers(i), TypeMembers(i));
    NamesEncodeJoin(AlwaysMembers(i) + TypeMembers(i), MessageMembers(i));
    NamesEncodeJoin(AlwaysMembers(i) + TypeMembers(i) + MessageMembers(i), CauseMembers(i));
  }

  lemma NamesEncodeJoin(a: seq<Member>, b: seq<Member>)
    requires NamesEncode(a) && NamesEncode(b)
    ensures NamesEncode(a + b)
  {
  }

  lemma LiteralsEncode()
    ensures IsEncodable("component") && IsEncodable("reason") && IsEncodable("digest") && IsEncodable("truncated")
    ensures IsEncodable("error_type") && IsEncodable("message") && IsEncodable("message_hash")
    ensures IsEncodable("cause_digest")
  {
  }

  lemma AlwaysNamesEncode(i: Issue)
    ensures NamesEncode(AlwaysMembers(i))
  {
    LiteralsEncode();
    var a := AlwaysMembers(i);
    assert a[0].name == "component" && a[1].name == "reason" && a[2].name == "digest" && a[3].name == "truncated";
  }

  lemma OptionalNamesEncode(i: Issue)
    ensures NamesEncode(TypeMembers(i)) && NamesEncode(MessageMembers(i)) && NamesEncode(CauseMembers(i))
  {
    LiteralsEncode();
    assert i.errorType != "" ==> TypeMembers(i)[0].name == "error_type";
    assert i.message != "" ==>
        MessageMembers(i)[0].name == "message" && MessageMembers(i)[1].name == "message_hash";
    assert i.cause.Some? ==> CauseMembers(i)[0].name == "cause_digest";
  }

  lemma SampleMembersEncodeIff(i: Issue)
    ensures MembersEncode(SampleMembers(i)) <==>
              && CanEncode(Shown(BoundedText(i.component, 128))) && CanEncode(Shown(BoundedText(i.reason, 64)))
              && (i.errorType != "" ==> CanEncode(Shown(BoundedText(i.errorType, 64))))
              && (i.message != "" ==> CanEncode(Shown(BoundedText(i.message, 256))))
  {
    var a, e, m, c := AlwaysMembers(i), TypeMembers(i), MessageMembers(i), CauseMembers(i);
    MembersEncodeJoin(a + e + m, c);
    MembersEncodeJoin(a + e, m);
    MembersEncodeJoin(a, e);
    AlwaysEncodeIff(i);
    OptionalEncodeIff(i);
  }

  lemma AlwaysEncodeIff(i: Issue)
    ensures MembersEncode(AlwaysMembers(i)) <==>
            CanEncode(Shown(BoundedText(i.component, 128))) && CanEncode(Shown(BoundedText(i.reason, 64)))
  {
    DigitsEncode(IssueDigest(i));
    FlagEncodes(IsCut(i));
    var a := AlwaysMembers(i);
    if MembersEncode(a) {
      assert CanEncode(a[0].value) && CanEncode(a[1].value);
    }
  }

  lemma OptionalEncodeIff(i: Issue)
    ensures MembersEncode(TypeMembers(i)) <==>
            (i.errorType != "" ==> CanEncode(Shown(BoundedText(i.errorType, 64))))
    ensures MembersEncode(MessageMembers(i)) <==>
            (i.message != "" ==> CanEncode(Shown(BoundedText(i.message, 256))))
    ensures MembersEncode(CauseMembers(i))
  {
    DigitsEncode(Sha256(Octets(i.message)));
    if i.cause.Some? {
      DigitsEncode(i.cause.value);
    }
    if i.errorType != "" && MembersEncode(TypeMembers(i)) {
      assert CanEncode(TypeMembers(i)[0].value);
    }
    if i.message != "" && MembersEncode(MessageMembers(i)) {
      assert CanEncode(MessageMembers(i)[0].value);
    }
  }
}
