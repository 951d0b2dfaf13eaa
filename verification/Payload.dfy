/**
 The canonical signing payload: a version byte, then the domain and every field,
 each preceded by its length. Parsing a payload gives back what was written, so
 no two different records are ever signed over the same bytes.
 */
module Payload {
  import opened Basics
  import opened Decimals

  type byte = b: int | 0 <= b < 256
  type Bytes = seq<byte>

  const MAX_LENGTH := 0x8000_0000_0000_0000 // lengths are below this in the source language

  datatype Field = Text(text: Bytes) | Number(n: int) | Flag(b: bool)

  function Ascii(s: string): Bytes
    requires forall i :: 0 <= i < |s| ==> s[i] < 256 as char
  {
    seq(|s|, i requires 0 <= i < |s| => s[i] as int)
  }

  lemma FormatIntAscii(n: int)
    ensures forall i :: 0 <= i < |FormatInt(n)| ==> FormatInt(n)[i] < 128 as char
  {
  }

  function FieldBytes(f: Field): Bytes {
    match f
    case Text(text) => text
    case Number(n) => FormatIntAscii(n); Ascii(FormatInt(n))
    case Flag(b) => if b then [1] else [0]
  }

  /** The low `k` bytes of `n`, most significant first. */
  function BigEndian(n: nat, k: nat): (b: Bytes)
    ensures |b| == k
  {
    if k == 0 then [] else BigEndian(n / 256, k - 1) + [n % 256]
  }

  function WriteField(b: Bytes): Bytes {
    BigEndian(|b|, 8) + b
  }

  function WriteFields(fields: seq<Bytes>): Bytes {
    if fields == [] then [] else WriteField(fields[0]) + WriteFields(fields[1..])
  }

  function FieldsBytes(fields: seq<Field>): (r: seq<Bytes>)
    ensures |r| == |fields| && forall i :: 0 <= i < |fields| ==> r[i] == FieldBytes(fields[i])
  {
    seq(|fields|, i requires 0 <= i < |fields| => FieldBytes(fields[i]))
  }

  function Payload(version: byte, domain: Bytes, fields: seq<Field>): Bytes {
    [version] + WriteFields([domain] + FieldsBytes(fields))
  }

  /** The buffer the program fills, field by field. */
  method SigningPayload(version: byte, domain: Bytes, fields: seq<Field>) returns (buf: Bytes)
    ensures buf == Payload(version, domain, fields)
  {
    buf := [version];
    buf := buf + WriteField(domain);
    ghost var all := FieldsBytes(fields);
    for i := 0 to |fields|
      invariant buf + WriteFields(all[i..]) == Payload(version, domain, fields)
    {
      assert all[i..][0] == FieldBytes(fields[i]) && all[i..][1..] == all[i + 1..];
      buf := buf + WriteField(FieldBytes(fields[i]));
    }
    assert all[|fields|..] == [];
  }

  // ----- reading a payload back -----

  function FromBigEndian(b: Bytes): nat {
    if b == [] then 0 else 256 * FromBigEndian(b[..|b| - 1]) + b[|b| - 1]
  }

  function ReadFields(b: Bytes): Option<seq<Bytes>>
    decreases |b|
  {
    if b == [] then Some([])
    else if |b| < 8 then None
    else
      var n := FromBigEndian(b[..8]);
      if |b| < 8 + n then None
      else match ReadFields(b[8 + n..])
        case None => None
        case Some(rest) => Some([b[8..8 + n]] + rest)
  }

  lemma {:induction false} BigEndianRoundTrip(n: nat, k: nat)
    requires n < Pow256(k)
    ensures FromBigEndian(BigEndian(n, k)) == n
  {
    if k > 0 {
      assert n / 256 < Pow256(k - 1);
      BigEndianRoundTrip(n / 256, k - 1);
      var b := BigEndian(n, k);
      assert b[..|b| - 1] == BigEndian(n / 256, k - 1);
    }
  }

  lemma LengthFits(n: nat)
    requires n < MAX_LENGTH
    ensures n < Pow256(8)
  {
  }

  ghost predicate InRange(fields: seq<Bytes>) {
    forall i :: 0 <= i < |fields| ==> |fields[i]| < MAX_LENGTH
  }

  /** Reading what was written gives back the same fields. */
  lemma {:induction false} FieldsRoundTrip(fields: seq<Bytes>)
    requires InRange(fields)
    ensures ReadFields(WriteFields(fields)) == Some(fields)
    decreases |fields|
  {
    if fields != [] {
      var f, rest := fields[0], WriteFields(fields[1..]);
      var b := WriteFields(fields);
      FieldsRoundTrip(fields[1..]);
      LengthFits(|f|);
      BigEndianRoundTrip(|f|, 8);
      assert b[..8] == BigEndian(|f|, 8);
      assert b[8..8 + |f|] == f;
      assert b[8 + |f|..] == rest;
      assert fields == [f] + fields[1..];
    }
  }

  /** Equal payloads have equal version, domain and fields, byte for byte. */
  lemma PayloadInjective(v1: byte, d1: Bytes, f1: seq<Field>, v2: byte, d2: Bytes, f2: seq<Field>)
    requires InRange([d1] + FieldsBytes(f1)) && InRange([d2] + FieldsBytes(f2))
    requires Payload(v1, d1, f1) == Payload(v2, d2, f2)
    ensures v1 == v2 && d1 == d2 && FieldsBytes(f1) == FieldsBytes(f2)
  {
    var a, b := [d1] + FieldsBytes(f1), [d2] + FieldsBytes(f2);
    assert Payload(v1, d1, f1)[1..] == WriteFields(a) && Payload(v2, d2, f2)[1..] == WriteFields(b);
    assert Payload(v1, d1, f1)[0] == v1 && Payload(v2, d2, f2)[0] == v2;
    FieldsRoundTrip(a);
    FieldsRoundTrip(b);
    assert a == b;
    assert a[0] == d1 && b[0] == d2 && a[1..] == FieldsBytes(f1) && b[1..] == FieldsBytes(f2);
  }

  /** Two fields of the same type with the same bytes are the same field. */
  lemma FieldInjective(f: Field, g: Field)
    requires FieldBytes(f) == FieldBytes(g)
    requires f.Text? == g.Text? && f.Number? == g.Number?
    ensures f == g
  {
    if f.Number? {
      FormatIntAscii(f.n);
      FormatIntAscii(g.n);
      var a, b := FormatInt(f.n), FormatInt(g.n);
      assert |Ascii(a)| == |a| && |Ascii(b)| == |b|;
      forall i | 0 <= i < |a| ensures a[i] == b[i] {
        assert Ascii(a)[i] == a[i] as int && Ascii(b)[i] == b[i] as int;
      }
      assert a == b;
      FormatIntInjective(f.n, g.n);
    }
  }

  // ----- the signed records -----

  /** What is signed of each kind of record, with its payload version. */
  datatype Signed =
    | Membership(version: byte, room: Bytes, member: Bytes, device: Bytes, name: Bytes, status: Bytes, rosterVersion: int)
    | Event(version: byte, room: Bytes, channel: Bytes, author: Bytes, seq_: int, kind: Bytes, target: Bytes, content: Bytes, timestamp: int)
    | Receipt(version: byte, room: Bytes, request: Bytes, host: Bytes, requester: Bytes, timestamp: int, completed: bool)

  function Domain(r: Signed): Bytes {
    match r
    case Membership(_, _, _, _, _, _, _) => Ascii("woolwire/membership")
    case Event(_, _, _, _, _, _, _, _, _) => Ascii("woolwire/community-event")
    case Receipt(_, _, _, _, _, _, _) => Ascii("woolwire/contribution-receipt")
  }

  function Fields(r: Signed): seq<Field> {
    match r
    case Membership(_, room, member, device, name, status, rosterVersion) =>
      [Text(room), Text(member), Text(device), Text(name), Text(status), Number(rosterVersion)]
    case Event(_, room, channel, author, s, kind, target, content, timestamp) =>
      [Text(room), Text(channel), Text(author), Number(s), Text(kind), Text(target), Text(content), Number(timestamp)]
    case Receipt(_, room, request, host, requester, timestamp, completed) =>
      [Text(room), Text(request), Text(host), Text(requester), Number(timestamp), Flag(completed)]
  }

  function PayloadOf(r: Signed): Bytes {
    Payload(r.version, Domain(r), Fields(r))
  }

  ghost predicate Representable(r: Signed) {
    InRange([Domain(r)] + FieldsBytes(Fields(r)))
  }

  lemma DomainsDiffer(r: Signed, s: Signed)
    requires Domain(r) == Domain(s)
    ensures r.Membership? == s.Membership? && r.Event? == s.Event?
  {
  }

  lemma SameKindSameFields(r: Signed, s: Signed)
    requires r.Membership? == s.Membership? && r.Event? == s.Event?
    requires FieldsBytes(Fields(r)) == FieldsBytes(Fields(s))
    ensures Fields(r) == Fields(s)
  {
    var f, g := Fields(r), Fields(s);
    assert |f| == |g|;
    forall i | 0 <= i < |f| ensures f[i] == g[i] {
      assert FieldsBytes(f)[i] == FieldsBytes(g)[i];
      FieldInjective(f[i], g[i]);
    }
  }

  /** Equal payloads mean the same kind of record, the same version and the same value in every signed field. */
  lemma RecordsSignedApart(r: Signed, s: Signed)
    requires Representable(r) && Representable(s) && PayloadOf(r) == PayloadOf(s)
    ensures r == s
  {
    PayloadInjective(r.version, Domain(r), Fields(r), s.version, Domain(s), Fields(s));
    DomainsDiffer(r, s);
    SameKindSameFields(r, s);
    var f, g := Fields(r), Fields(s);
    assert forall i :: 0 <= i < |f| ==> f[i] == g[i];
  }

  function Decimal(n: int): Bytes {
    FormatIntAscii(n);
    Ascii(FormatInt(n))
  }

  /** What a reader finds in a payload after the version: the domain and the fields, in this order. */
  function Parts(r: Signed): seq<Bytes> {
    match r
    case Membership(_, room, member, device, name, status, rosterVersion) =>
      [Ascii("woolwire/membership"), room, member, device, name, status, Decimal(rosterVersion)]
    case Event(_, room, channel, author, s, kind, target, content, timestamp) =>
      [Ascii("woolwire/community-event"), room, channel, author, Decimal(s), kind, target, content, Decimal(timestamp)]
    case Receipt(_, room, request, host, requester, timestamp, completed) =>
      [Ascii("woolwire/contribution-receipt"), room, request, host, requester, Decimal(timestamp), if completed then [1] else [0]]
  }

  /** A payload reads back as the version and then, field by field, what the record holds. */
  lemma RecordReads(r: Signed)
    requires Representable(r)
    ensures PayloadOf(r)[0] == r.version && ReadFields(PayloadOf(r)[1..]) == Some(Parts(r))
  {
    hide ReadFields, WriteFields;
    var all := [Domain(r)] + FieldsBytes(Fields(r));
    assert PayloadOf(r)[1..] == WriteFields(all);
    FieldsRoundTrip(all);
    PartsAre(r);
  }

  lemma PartsAre(r: Signed)
    ensures [Domain(r)] + FieldsBytes(Fields(r)) == Parts(r)
  {
  }
}
