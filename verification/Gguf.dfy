/**
 The header of a GGUF model file: its wire form, the tree of entries a header
 holds, and what the model list learns from those entries. `HeaderAt` reads a
 tree, `Encoded` writes one, and the two are proved inverse on every input.
 */
module Gguf {
  import opened Basics

  /** Strings of the format are sequences of bytes; a byte is a character below 256. */
  type Byte = c: char | (c as int) < 256

  const MaxKeyValues: nat := 0x1_0000
  const MaxStringLen: nat := 0x100_0000
  const MaxArrayCount: nat := 0x400_0000
  const MaxHeaderScan: nat := 0x2000_0000

  const StringTag: nat := 8
  const ArrayTag: nat := 9

  /** The width of a scalar's type tag; 0 for strings, arrays and unknown tags. */
  function ScalarSize(tag: nat): nat {
    if tag in {0, 1, 7} then 1
    else if tag in {2, 3} then 2
    else if tag in {4, 5, 6} then 4
    else if tag in {10, 11, 12} then 8
    else 0
  }

  predicate IsInteger(tag: nat) {
    tag <= 5 || tag == 10 || tag == 11
  }

  datatype Value =
    | Scalar(tag: nat, raw: seq<Byte>)
    | Text(text: seq<Byte>)
    | Scalars(elem: nat, count: nat, body: seq<Byte>)
    | Texts(texts: seq<seq<Byte>>)

  datatype Entry = Entry(key: seq<Byte>, value: Value)

  datatype Header = Header(version: nat, tensors: nat, entries: seq<Entry>)

  // ----- the wire form -----

  function LittleEndian(n: nat, w: nat): (s: seq<Byte>)
    ensures |s| == w
    decreases w
  {
    if w == 0 then [] else [(n % 256) as char] + LittleEndian(n / 256, w - 1)
  }

  function Number(s: seq<Byte>): (n: nat) {
    if s == [] then 0 else (s[0] as int) + 256 * Number(s[1..])
  }

  function EncodeText(s: seq<Byte>): seq<Byte> {
    LittleEndian(|s|, 8) + s
  }

  function EncodeTexts(ts: seq<seq<Byte>>): seq<Byte> {
    if ts == [] then [] else EncodeText(ts[0]) + EncodeTexts(ts[1..])
  }

  function Tag(v: Value): nat {
    match v
    case Scalar(tag, _) => tag
    case Text(_) => StringTag
    case Scalars(_, _, _) => ArrayTag
    case Texts(_) => ArrayTag
  }

  function EncodeValue(v: Value): seq<Byte> {
    match v
    case Scalar(_, raw) => raw
    case Text(s) => EncodeText(s)
    case Scalars(elem, count, body) => LittleEndian(elem, 4) + (LittleEndian(count, 8) + body)
    case Texts(ts) => LittleEndian(StringTag, 4) + (LittleEndian(|ts|, 8) + EncodeTexts(ts))
  }

  function EncodeEntry(e: Entry): seq<Byte> {
    EncodeText(e.key) + (LittleEndian(Tag(e.value), 4) + EncodeValue(e.value))
  }

  function EncodeEntries(es: seq<Entry>): seq<Byte> {
    if es == [] then [] else EncodeEntry(es[0]) + EncodeEntries(es[1..])
  }

  function Magic(): seq<Byte> {
    ['G', 'G', 'U', 'F']
  }

  function Encoded(h: Header): seq<Byte> {
    Magic() + (LittleEndian(h.version, 4) + (LittleEndian(h.tensors, 8)
      + (LittleEndian(|h.entries|, 8) + EncodeEntries(h.entries))))
  }

  ghost predicate ValueInLimits(v: Value) {
    match v
    case Scalar(tag, raw) => ScalarSize(tag) > 0 && |raw| == ScalarSize(tag)
    case Text(s) => |s| <= MaxStringLen
    case Scalars(elem, count, body) =>
      ScalarSize(elem) > 0 && count <= MaxArrayCount && |body| == count * ScalarSize(elem)
    case Texts(ts) => |ts| <= MaxArrayCount && forall t :: t in ts ==> |t| <= MaxStringLen
  }

  ghost predicate EntryInLimits(e: Entry) {
    |e.key| <= MaxStringLen && ValueInLimits(e.value)
  }

  /** A flat header of a supported version whose lengths and counts are within the limits. */
  ghost predicate InLimits(h: Header) {
    && h.version in {2, 3} && h.tensors < Pow256(8) && |h.entries| <= MaxKeyValues
    && forall e :: e in h.entries ==> EntryInLimits(e)
  }

  // ----- reading a tree -----

  datatype Parsed<T> = Fail | At(value: T, pos: nat)

  function BytesAt(d: seq<Byte>, pos: nat, n: nat): Parsed<seq<Byte>> {
    if pos + n > |d| then Fail else At(d[pos..pos + n], pos + n)
  }

  function NumberAt(d: seq<Byte>, pos: nat, w: nat): Parsed<nat> {
    match BytesAt(d, pos, w)
    case Fail => Fail
    case At(b, p) => At(Number(b), p)
  }

  function TextAt(d: seq<Byte>, pos: nat): Parsed<seq<Byte>> {
    match NumberAt(d, pos, 8)
    case Fail => Fail
    case At(n, p) => if n > MaxStringLen then Fail else BytesAt(d, p, n)
  }

  function Prepend<T>(xs: seq<T>, r: Parsed<seq<T>>): Parsed<seq<T>> {
    match r
    case Fail => Fail
    case At(ys, p) => At(xs + ys, p)
  }

  function TextsAt(d: seq<Byte>, pos: nat, count: nat): Parsed<seq<seq<Byte>>>
    decreases count
  {
    if count == 0 then At([], pos) else
    match TextAt(d, pos)
    case Fail => Fail
    case At(t, p) => Prepend([t], TextsAt(d, p, count - 1))
  }

  function ArrayBodyAt(d: seq<Byte>, pos: nat, elem: nat, count: nat): Parsed<Value> {
    if ScalarSize(elem) > 0 then
      match BytesAt(d, pos, count * ScalarSize(elem))
      case Fail => Fail
      case At(body, p) => At(Scalars(elem, count, body), p)
    else if elem != StringTag then Fail
    else
      match TextsAt(d, pos, count)
      case Fail => Fail
      case At(ts, p) => At(Texts(ts), p)
  }

  function ArrayAt(d: seq<Byte>, pos: nat): Parsed<Value> {
    match NumberAt(d, pos, 4)
    case Fail => Fail
    case At(elem, p) =>
      match NumberAt(d, p, 8)
      case Fail => Fail
      case At(count, q) => if count > MaxArrayCount then Fail else ArrayBodyAt(d, q, elem, count)
  }

  function ValueAt(d: seq<Byte>, pos: nat, tag: nat): Parsed<Value> {
    if ScalarSize(tag) > 0 then
      match BytesAt(d, pos, ScalarSize(tag))
      case Fail => Fail
      case At(raw, p) => At(Scalar(tag, raw), p)
    else if tag == StringTag then
      match TextAt(d, pos)
      case Fail => Fail
      case At(s, p) => At(Text(s), p)
    else if tag == ArrayTag then ArrayAt(d, pos)
    else Fail
  }

  function EntryAt(d: seq<Byte>, pos: nat): Parsed<Entry> {
    match TextAt(d, pos)
    case Fail => Fail
    case At(key, p) =>
      match NumberAt(d, p, 4)
      case Fail => Fail
      case At(tag, q) =>
        match ValueAt(d, q, tag)
        case Fail => Fail
        case At(v, e) => At(Entry(key, v), e)
  }

  function EntriesAt(d: seq<Byte>, pos: nat, count: nat): Parsed<seq<Entry>>
    decreases count
  {
    if count == 0 then At([], pos) else
    match EntryAt(d, pos)
    case Fail => Fail
    case At(e, p) => Prepend([e], EntriesAt(d, p, count - 1))
  }

  function HeaderAt(d: seq<Byte>): Parsed<Header> {
    if BytesAt(d, 0, 4) != At(Magic(), 4) then Fail else
    match NumberAt(d, 4, 4)
    case Fail => Fail
    case At(version, p) =>
      if version != 2 && version != 3 then Fail else
      match NumberAt(d, p, 8)
      case Fail => Fail
      case At(tensors, q) =>
        match NumberAt(d, q, 8)
        case Fail => Fail
        case At(count, r) =>
          if count > MaxKeyValues then Fail else
          match EntriesAt(d, r, count)
          case Fail => Fail
          case At(es, e) => At(Header(version, tensors, es), e)
  }

  /** What the scan budget lets the reader see of a file. */
  function Visible(data: seq<Byte>): (d: seq<Byte>)
    ensures d <= data && |d| <= MaxHeaderScan
  {
    if |data| <= MaxHeaderScan then data else data[..MaxHeaderScan]
  }

  // ----- reading and writing are inverse -----

  /** The bytes from `pos` on begin with `e`. */
  ghost predicate Starts(d: seq<Byte>, pos: nat, e: seq<Byte>) {
    pos + |e| <= |d| && d[pos..pos + |e|] == e
  }

  lemma StartsSplit(d: seq<Byte>, pos: nat, a: seq<Byte>, b: seq<Byte>)
    ensures Starts(d, pos, a + b) <==> Starts(d, pos, a) && Starts(d, pos + |a|, b)
  {
    if pos + |a + b| <= |d| {
      assert d[pos..pos + |a + b|] == d[pos..pos + |a|] + d[pos + |a|..pos + |a| + |b|];
      if Starts(d, pos, a + b) {
        assert d[pos..pos + |a|] == (a + b)[..|a|] == a;
        assert d[pos + |a|..pos + |a| + |b|] == (a + b)[|a|..] == b;
      }
    }
  }

  lemma Powers()
    ensures Pow256(4) == 0x1_0000_0000 && Pow256(8) == 0x1_0000_0000_0000_0000
  {
  }

  lemma {:induction false} NumberOfLittleEndian(n: nat, w: nat)
    requires n < Pow256(w)
    ensures Number(LittleEndian(n, w)) == n
    decreases w
  {
    if w > 0 {
      NumberOfLittleEndian(n / 256, w - 1);
      assert LittleEndian(n, w)[1..] == LittleEndian(n / 256, w - 1);
    }
  }

  lemma {:induction false} LittleEndianOfNumber(s: seq<Byte>)
    ensures Number(s) < Pow256(|s|) && LittleEndian(Number(s), |s|) == s
    decreases |s|
  {
    if s != [] {
      LittleEndianOfNumber(s[1..]);
      assert Number(s) / 256 == Number(s[1..]) && Number(s) % 256 == s[0] as int;
      assert s == [s[0]] + s[1..];
    }
  }

  /** A number is read exactly where its bytes stand. */
  lemma NumberExactly(d: seq<Byte>, pos: nat, w: nat, n: nat, end: nat)
    ensures NumberAt(d, pos, w) == At(n, end)
      <==> n < Pow256(w) && Starts(d, pos, LittleEndian(n, w)) && end == pos + w
  {
    hide Number, LittleEndian, Pow256;
    if pos + w <= |d| {
      LittleEndianOfNumber(d[pos..pos + w]);
      if n < Pow256(w) { NumberOfLittleEndian(n, w); }
    }
  }

  lemma TextExactly(d: seq<Byte>, pos: nat, s: seq<Byte>, end: nat)
    ensures TextAt(d, pos) == At(s, end)
      <==> |s| <= MaxStringLen && Starts(d, pos, EncodeText(s)) && end == pos + |EncodeText(s)|
  {
    Powers();
    StartsSplit(d, pos, LittleEndian(|s|, 8), s);
    NumberExactly(d, pos, 8, |s|, pos + 8);
    if TextAt(d, pos).At? { NumberExactly(d, pos, 8, NumberAt(d, pos, 8).value, pos + 8); }
  }

  lemma TextsCons(d: seq<Byte>, pos: nat, count: nat, ts: seq<seq<Byte>>, end: nat)
    requires count > 0
    ensures TextsAt(d, pos, count) == At(ts, end) <==>
      && ts != [] && TextAt(d, pos).At? && TextAt(d, pos).value == ts[0]
      && TextsAt(d, TextAt(d, pos).pos, count - 1) == At(ts[1..], end)
  {
    hide TextAt;
    if ts != [] { assert ts == [ts[0]] + ts[1..]; }
    if TextAt(d, pos).At? && TextsAt(d, TextAt(d, pos).pos, count - 1).At? {
      var t, rest := TextAt(d, pos).value, TextsAt(d, TextAt(d, pos).pos, count - 1).value;
      assert ([t] + rest)[0] == t && ([t] + rest)[1..] == rest;
    }
  }

  lemma {:induction false} TextsExactly(d: seq<Byte>, pos: nat, count: nat, ts: seq<seq<Byte>>, end: nat)
    requires pos <= |d|
    ensures TextsAt(d, pos, count) == At(ts, end)
      <==> && |ts| == count && (forall t :: t in ts ==> |t| <= MaxStringLen)
           && Starts(d, pos, EncodeTexts(ts)) && end == pos + |EncodeTexts(ts)|
    decreases count
  {
    hide TextAt, EncodeText;
    if count > 0 {
      TextsCons(d, pos, count, ts, end);
      if ts != [] {
        var e := EncodeText(ts[0]);
        assert ts == [ts[0]] + ts[1..];
        TextExactly(d, pos, ts[0], pos + |e|);
        if TextAt(d, pos).At? { TextExactly(d, pos, TextAt(d, pos).value, TextAt(d, pos).pos); }
        StartsSplit(d, pos, e, EncodeTexts(ts[1..]));
        if pos + |e| <= |d| { TextsExactly(d, pos + |e|, count - 1, ts[1..], end); }
      }
    }
  }

  lemma ArrayBodyExactly(d: seq<Byte>, pos: nat, elem: nat, count: nat, v: Value, end: nat)
    requires pos <= |d| && count <= MaxArrayCount
    ensures ArrayBodyAt(d, pos, elem, count) == At(v, end)
      <==> && (v.Scalars? || v.Texts?) && ValueInLimits(v) && ElemTag(v) == elem && ElemCount(v) == count
           && Starts(d, pos, ElemBytes(v)) && end == pos + |ElemBytes(v)|
  {
    hide TextsAt, EncodeTexts, ScalarSize;
    assert ScalarSize(StringTag) == 0 by { ScalarTags(); }
    match v
    case Texts(ts) => TextsExactly(d, pos, count, ts, end);
    case Scalars(_, _, body) =>
      var size := count * ScalarSize(elem);
      assert BytesAt(d, pos, size) == At(body, end) <==> |body| == size && Starts(d, pos, body) && end == pos + size;
    case _ =>
  }

  lemma ScalarTags()
    ensures ScalarSize(StringTag) == 0 && ScalarSize(ArrayTag) == 0
  {
  }

  function ElemTag(v: Value): nat
    requires v.Scalars? || v.Texts?
  {
    if v.Scalars? then v.elem else StringTag
  }

  function ElemCount(v: Value): nat
    requires v.Scalars? || v.Texts?
  {
    if v.Scalars? then v.count else |v.texts|
  }

  function ElemBytes(v: Value): seq<Byte>
    requires v.Scalars? || v.Texts?
  {
    if v.Scalars? then v.body else EncodeTexts(v.texts)
  }

  lemma ArrayExactly(d: seq<Byte>, pos: nat, v: Value, end: nat)
    ensures ArrayAt(d, pos) == At(v, end)
      <==> && (v.Scalars? || v.Texts?) && ValueInLimits(v)
           && Starts(d, pos, EncodeValue(v)) && end == pos + |EncodeValue(v)|
  {
    hide ArrayBodyAt, NumberAt, LittleEndian, EncodeTexts, ScalarSize;
    Powers();
    if v.Scalars? || v.Texts? {
      var elem, count, body := ElemTag(v), ElemCount(v), ElemBytes(v);
      StartsSplit(d, pos, LittleEndian(elem, 4), LittleEndian(count, 8) + body);
      StartsSplit(d, pos + 4, LittleEndian(count, 8), body);
      NumberExactly(d, pos, 4, elem, pos + 4);
      NumberExactly(d, pos + 4, 8, count, pos + 12);
      ElemTagSmall(v);
      if pos + 12 <= |d| && count <= MaxArrayCount { ArrayBodyExactly(d, pos + 12, elem, count, v, end); }
    }
    ArrayReads(d, pos, v, end);
  }

  lemma ElemTagSmall(v: Value)
    requires v.Scalars? || v.Texts?
    ensures ValueInLimits(v) ==> ElemTag(v) <= 12
  {
  }

  /** What a successful read of an array consists of. */
  lemma ArrayReads(d: seq<Byte>, pos: nat, v: Value, end: nat)
    ensures ArrayAt(d, pos) == At(v, end) ==>
      && (v.Scalars? || v.Texts?) && pos + 12 <= |d|
      && NumberAt(d, pos, 4) == At(ElemTag(v), pos + 4) && NumberAt(d, pos + 4, 8) == At(ElemCount(v), pos + 12)
      && ElemCount(v) <= MaxArrayCount && ArrayBodyAt(d, pos + 12, ElemTag(v), ElemCount(v)) == At(v, end)
  {
    if ArrayAt(d, pos) == At(v, end) {
      var elem, count := NumberAt(d, pos, 4).value, NumberAt(d, pos + 4, 8).value;
      ArrayBodyExactly(d, pos + 12, elem, count, v, end);
    }
  }

  lemma ValueExactly(d: seq<Byte>, pos: nat, tag: nat, v: Value, end: nat)
    ensures ValueAt(d, pos, tag) == At(v, end)
      <==> ValueInLimits(v) && Tag(v) == tag && Starts(d, pos, EncodeValue(v)) && end == pos + |EncodeValue(v)|
  {
    hide ArrayAt, TextAt, EncodeText, EncodeTexts, LittleEndian;
    ArrayExactly(d, pos, v, end);
    if v.Text? { TextExactly(d, pos, v.text, end); }
  }

  lemma EntryExactly(d: seq<Byte>, pos: nat, e: Entry, end: nat)
    ensures EntryAt(d, pos) == At(e, end)
      <==> EntryInLimits(e) && Starts(d, pos, EncodeEntry(e)) && end == pos + |EncodeEntry(e)|
  {
    hide ValueAt, TextAt, NumberAt, EncodeText, EncodeValue, LittleEndian, Tag, ValueInLimits;
    Powers();
    var k, t, v := EncodeText(e.key), LittleEndian(Tag(e.value), 4), EncodeValue(e.value);
    StartsSplit(d, pos, k, t + v);
    StartsSplit(d, pos + |k|, t, v);
    TextExactly(d, pos, e.key, pos + |k|);
    NumberExactly(d, pos + |k|, 4, Tag(e.value), pos + |k| + 4);
    ValueExactly(d, pos + |k| + 4, Tag(e.value), e.value, end);
    TagSmall(e.value);
    match TextAt(d, pos)
    case Fail =>
    case At(key, p) =>
      TextExactly(d, pos, key, p);
      match NumberAt(d, p, 4)
      case Fail =>
      case At(tag, q) =>
        NumberExactly(d, p, 4, tag, q);
        ValueExactly(d, q, tag, e.value, end);
  }

  lemma TagSmall(v: Value)
    ensures ValueInLimits(v) ==> Tag(v) <= 12
  {
  }

  lemma EntriesCons(d: seq<Byte>, pos: nat, count: nat, es: seq<Entry>, end: nat)
    requires count > 0
    ensures EntriesAt(d, pos, count) == At(es, end) <==>
      && es != [] && EntryAt(d, pos).At? && EntryAt(d, pos).value == es[0]
      && EntriesAt(d, EntryAt(d, pos).pos, count - 1) == At(es[1..], end)
  {
    hide EntryAt;
    if es != [] { assert es == [es[0]] + es[1..]; }
    if EntryAt(d, pos).At? && EntriesAt(d, EntryAt(d, pos).pos, count - 1).At? {
      var e, rest := EntryAt(d, pos).value, EntriesAt(d, EntryAt(d, pos).pos, count - 1).value;
      assert ([e] + rest)[0] == e && ([e] + rest)[1..] == rest;
    }
  }

  lemma {:induction false} EntriesExactly(d: seq<Byte>, pos: nat, count: nat, es: seq<Entry>, end: nat)
    requires pos <= |d|
    ensures EntriesAt(d, pos, count) == At(es, end)
      <==> && |es| == count && (forall e :: e in es ==> EntryInLimits(e))
           && Starts(d, pos, EncodeEntries(es)) && end == pos + |EncodeEntries(es)|
    decreases count
  {
    hide EntryAt, EncodeEntry, EntryInLimits;
    if count > 0 {
      EntriesCons(d, pos, count, es, end);
      if es != [] {
        var e := EncodeEntry(es[0]);
        assert es == [es[0]] + es[1..];
        EntryExactly(d, pos, es[0], pos + |e|);
        if EntryAt(d, pos).At? { EntryExactly(d, pos, EntryAt(d, pos).value, EntryAt(d, pos).pos); }
        StartsSplit(d, pos, e, EncodeEntries(es[1..]));
        if pos + |e| <= |d| { EntriesExactly(d, pos + |e|, count - 1, es[1..], end); }
      }
    }
  }

  lemma EncodedParts(d: seq<Byte>, h: Header)
    ensures Starts(d, 0, Encoded(h)) <==>
      && Starts(d, 0, Magic()) && Starts(d, 4, LittleEndian(h.version, 4)) && Starts(d, 8, LittleEndian(h.tensors, 8))
      && Starts(d, 16, LittleEndian(|h.entries|, 8)) && Starts(d, 24, EncodeEntries(h.entries))
  {
    hide Starts, LittleEndian, EncodeEntries;
    var v, t, n, es :=
      LittleEndian(h.version, 4), LittleEndian(h.tensors, 8), LittleEndian(|h.entries|, 8), EncodeEntries(h.entries);
    StartsSplit(d, 0, Magic(), v + (t + (n + es)));
    StartsSplit(d, 4, v, t + (n + es));
    StartsSplit(d, 8, t, n + es);
    StartsSplit(d, 16, n, es);
  }

  lemma HeaderParts(d: seq<Byte>, h: Header, end: nat)
    ensures HeaderAt(d) == At(h, end) <==>
      && BytesAt(d, 0, 4) == At(Magic(), 4) && NumberAt(d, 4, 4) == At(h.version, 8) && h.version in {2, 3}
      && NumberAt(d, 8, 8) == At(h.tensors, 16) && NumberAt(d, 16, 8) == At(|h.entries|, 24)
      && |h.entries| <= MaxKeyValues && EntriesAt(d, 24, |h.entries|) == At(h.entries, end)
  {
    hide Number, EntriesAt;
    if HeaderAt(d) == At(h, end) {
      EntriesExactly(d, 24, NumberAt(d, 16, 8).value, h.entries, end);
    }
  }

  /**
   The reader accepts exactly the files that begin with the wire form of a flat
   in-limits header, whatever follows, and it stops at that header's last byte.
   */
  lemma HeaderExactly(d: seq<Byte>, h: Header, end: nat)
    ensures HeaderAt(d) == At(h, end) <==> InLimits(h) && Encoded(h) <= d && end == |Encoded(h)|
  {
    hide EntriesAt, NumberAt, LittleEndian, EncodeEntries, EntryInLimits;
    Powers();
    HeaderParts(d, h, end);
    EncodedParts(d, h);
    NumberExactly(d, 4, 4, h.version, 8);
    NumberExactly(d, 8, 8, h.tensors, 16);
    NumberExactly(d, 16, 8, |h.entries|, 24);
    assert Starts(d, 0, Encoded(h)) <==> Encoded(h) <= d;
    assert BytesAt(d, 0, 4) == At(Magic(), 4) <==> Starts(d, 0, Magic());
    if 24 <= |d| { EntriesExactly(d, 24, |h.entries|, h.entries, end); }
  }

  /** With the scan budget: the header is read exactly when its wire form is within 512 MiB. */
  lemma ReadsExactly(data: seq<Byte>, h: Header, end: nat)
    ensures HeaderAt(Visible(data)) == At(h, end)
      <==> InLimits(h) && Encoded(h) <= data && |Encoded(h)| <= MaxHeaderScan && end == |Encoded(h)|
  {
    hide HeaderAt, InLimits, Encoded;
    HeaderExactly(Visible(data), h, end);
    assert Encoded(h) <= Visible(data) <==> Encoded(h) <= data && |Encoded(h)| <= MaxHeaderScan;
  }

  /** No file begins with the wire forms of two different headers. */
  lemma HeaderUnique(d: seq<Byte>, h: Header, k: Header)
    requires InLimits(h) && InLimits(k) && Encoded(h) <= d && Encoded(k) <= d
    ensures h == k
  {
    hide HeaderAt, InLimits, Encoded;
    HeaderExactly(d, h, |Encoded(h)|);
    HeaderExactly(d, k, |Encoded(k)|);
  }
}
