/**
 The streaming reader of a GGUF header: it keeps no tree, skips what it does not
 need and counts every byte against the scan budget. It is proved to learn exactly
 the last-wins fold of the entries of the header the file begins with.
 */
module GgufReader {
  import opened Gguf

  datatype Metadata = Metadata(
    architecture: seq<Byte>,
    name: seq<Byte>,
    contextLength: nat,
    hasTokenizer: bool,
    supportsThinking: bool)

  const Blank := Metadata([], [], 0, false, false)

  predicate HasPrefix(s: seq<char>, p: seq<char>) {
    p <= s
  }

  predicate HasSuffix(s: seq<char>, p: seq<char>) {
    |p| <= |s| && s[|s| - |p|..] == p
  }

  predicate Contains(s: seq<char>, m: seq<char>) {
    exists i | 0 <= i <= |s| :: HasPrefix(s[i..], m)
  }

  const Markers: seq<string> :=
    ["enable_thinking", "reasoning_effort", "reasoning_content", "<think>", "<|thinking|>"]

  /** `lower` is the case folding of the template's text. */
  predicate Thinks(lower: seq<Byte> -> seq<char>, template: seq<Byte>) {
    exists k | 0 <= k < |Markers| :: Contains(lower(template), Markers[k])
  }

  /** The integer a value holds, or 0 for every other kind of value. */
  function UintOf(v: Value): nat {
    if v.Scalar? && IsInteger(v.tag) then Number(v.raw) else 0
  }

  predicate IsContextLength(key: seq<Byte>) {
    HasSuffix(key, ".context_length")
  }

  predicate GivesArchitecture(e: Entry) {
    e.key == "general.architecture" && e.value.Text?
  }

  predicate GivesName(e: Entry) {
    e.key == "general.name" && e.value.Text?
  }

  predicate GivesTemplate(e: Entry) {
    e.key == "tokenizer.chat_template" && e.value.Text?
  }

  predicate GivesContext(e: Entry) {
    IsContextLength(e.key) && 0 < UintOf(e.value) <= 0x8000_0000
  }

  predicate GivesTokenizer(e: Entry) {
    HasPrefix(e.key, "tokenizer.ggml.") && !IsContextLength(e.key)
  }

  /** What one entry adds; the branches are tried in this order. */
  function Learn(lower: seq<Byte> -> seq<char>, md: Metadata, key: seq<Byte>, v: Value): Metadata {
    if key == "general.architecture" then (if v.Text? then md.(architecture := v.text) else md)
    else if key == "general.name" then (if v.Text? then md.(name := v.text) else md)
    else if key == "tokenizer.chat_template" then (if v.Text? then md.(supportsThinking := Thinks(lower, v.text)) else md)
    else if IsContextLength(key) then
      (if 0 < UintOf(v) <= 0x8000_0000 then md.(contextLength := UintOf(v)) else md)
    else if HasPrefix(key, "tokenizer.ggml.") then md.(hasTokenizer := true)
    else md
  }

  function Fold(lower: seq<Byte> -> seq<char>, es: seq<Entry>): Metadata {
    if es == [] then Blank
    else Learn(lower, Fold(lower, es[..|es| - 1]), es[|es| - 1].key, es[|es| - 1].value)
  }

  // ----- the last entry wins -----

  /** Entry `i` is the last one with the property. */
  ghost predicate LastWith(es: seq<Entry>, p: Entry -> bool, i: int) {
    0 <= i < |es| && p(es[i]) && forall j :: i < j < |es| ==> !p(es[j])
  }

  ghost predicate NoneWith(es: seq<Entry>, p: Entry -> bool) {
    forall e :: e in es ==> !p(e)
  }

  /** Each field holds what the last entry that gives it says, and its blank when no entry does. */
  ghost predicate SaysLast(lower: seq<Byte> -> seq<char>, es: seq<Entry>, md: Metadata) {
    && (NoneWith(es, GivesArchitecture) ==> md.architecture == [])
    && (forall i :: LastWith(es, GivesArchitecture, i) ==> es[i].value.text == md.architecture)
    && (NoneWith(es, GivesName) ==> md.name == [])
    && (forall i :: LastWith(es, GivesName, i) ==> es[i].value.text == md.name)
    && (NoneWith(es, GivesTemplate) ==> !md.supportsThinking)
    && (forall i :: LastWith(es, GivesTemplate, i) ==> md.supportsThinking == Thinks(lower, es[i].value.text))
    && (NoneWith(es, GivesContext) ==> md.contextLength == 0)
    && (forall i :: LastWith(es, GivesContext, i) ==> md.contextLength == UintOf(es[i].value))
    && (md.hasTokenizer <==> !NoneWith(es, GivesTokenizer))
  }

  lemma LastStep(es: seq<Entry>, p: Entry -> bool)
    requires es != []
    ensures var n := |es| - 1;
      && (NoneWith(es, p) <==> NoneWith(es[..n], p) && !p(es[n]))
      && (forall i :: LastWith(es, p, i) ==> if p(es[n]) then i == n else LastWith(es[..n], p, i) && es[..n][i] == es[i])
  {
  }

  /** The three names, the length suffix and the tokenizer prefix never clash, except where the suffix wins. */
  lemma KeysApart(key: seq<Byte>)
    ensures key == "general.architecture" || key == "general.name" || key == "tokenizer.chat_template"
      ==> !IsContextLength(key) && !HasPrefix(key, "tokenizer.ggml.")
  {
    var s := ".context_length";
    if key == "general.architecture" { assert key[|key| - |s|..][0] != s[0]; assert key[0] != "tokenizer.ggml."[0]; }
    if key == "tokenizer.chat_template" { assert key[|key| - |s|..][0] != s[0]; assert key[10] != "tokenizer.ggml."[10]; }
    if key == "general.name" { assert |key| < |s|; }
  }

  lemma {:induction false} LastWins(lower: seq<Byte> -> seq<char>, es: seq<Entry>)
    ensures SaysLast(lower, es, Fold(lower, es))
    decreases |es|
  {
    if es != [] {
      var n := |es| - 1;
      LastWins(lower, es[..n]);
      LearnSaysLast(lower, es, Fold(lower, es[..n]));
    }
  }

  lemma LearnSaysLast(lower: seq<Byte> -> seq<char>, es: seq<Entry>, md: Metadata)
    requires es != [] && SaysLast(lower, es[..|es| - 1], md)
    ensures SaysLast(lower, es, Learn(lower, md, es[|es| - 1].key, es[|es| - 1].value))
  {
    hide NoneWith, LastWith, Thinks, UintOf, IsContextLength, HasPrefix;
    LastStep(es, GivesArchitecture);
    LastStep(es, GivesName);
    LastStep(es, GivesTemplate);
    LastStep(es, GivesContext);
    LastStep(es, GivesTokenizer);
    KeysApart(es[|es| - 1].key);
  }

  method ChatTemplateSupportsThinking(lower: seq<Byte> -> seq<char>, template: seq<Byte>) returns (r: bool)
    ensures r == Thinks(lower, template)
  {
    var text := lower(template);
    for k := 0 to |Markers|
      invariant forall j :: 0 <= j < k ==> !Contains(text, Markers[j])
    {
      if Contains(text, Markers[k]) { return true; }
    }
    return false;
  }

  // ----- the streaming reader -----

  datatype Outcome = Model(md: Metadata) | NotModel(md: Metadata) | Malformed

  /** What the model list is told about a file, by the tree its header reads as. */
  function Meaning(lower: seq<Byte> -> seq<char>, r: Parsed<Header>): Outcome {
    match r
    case Fail => Malformed
    case At(h, _) =>
      var md := Fold(lower, h.entries);
      if md.hasTokenizer then Model(md) else NotModel(md)
  }

  lemma {:induction false} PrependNothing<T>(r: Parsed<seq<T>>)
    ensures Prepend([], r) == r
  {
    match r
    case Fail =>
    case At(xs, _) => assert [] + xs == xs;
  }

  lemma {:induction false} PrependTwice<T>(xs: seq<T>, x: T, r: Parsed<seq<T>>)
    ensures Prepend(xs, Prepend([x], r)) == Prepend(xs + [x], r)
  {
    match r
    case Fail =>
    case At(ys, _) => assert xs + ([x] + ys) == (xs + [x]) + ys;
  }

  class Reader {
    const data: seq<Byte>
    var pos: nat
    var read: nat

    /** Every byte consumed so far was charged, and the budget holds. */
    ghost predicate Valid()
      reads this
    {
      read == pos <= |Visible(data)|
    }

    /** The counter is far from the end of a 64-bit integer even after a failed charge. */
    ghost predicate Bounded()
      reads this
    {
      read <= 2 * MaxHeaderScan
    }

    constructor (file: seq<Byte>)
      ensures Valid() && data == file && pos == 0
    {
      data, pos, read := file, 0, 0;
    }

    method Take(n: nat) returns (ok: bool)
      modifies this`read
      ensures read == old(read) + n && ok == (read <= MaxHeaderScan)
    {
      read := read + n;
      ok := read <= MaxHeaderScan;
    }

    method Bytes(n: nat) returns (r: Parsed<seq<Byte>>)
      requires Valid() && n <= MaxHeaderScan
      modifies this`pos, this`read
      ensures r == BytesAt(Visible(data), old(pos), n)
      ensures Bounded() && (r.At? ==> Valid() && pos == r.pos)
    {
      var ok := Take(n);
      if !ok { return Fail; }
      if pos + n > |data| { pos := |data|; return Fail; }
      pos := pos + n;
      assert data[pos - n..pos] == Visible(data)[pos - n..pos];
      r := At(data[pos - n..pos], pos);
    }

    method Skip(n: nat) returns (ok: bool)
      requires Valid() && n <= MaxHeaderScan
      modifies this`pos, this`read
      ensures ok == BytesAt(Visible(data), old(pos), n).At?
      ensures Bounded() && (ok ==> Valid() && pos == old(pos) + n)
    {
      ok := Take(n);
      if !ok { return false; }
      if pos + n > |data| { pos := |data|; return false; }
      pos := pos + n;
    }

    /** A little-endian number of `w` bytes. */
    method ReadNumber(w: nat) returns (r: Parsed<nat>)
      requires Valid() && w <= 8
      modifies this`pos, this`read
      ensures r == NumberAt(Visible(data), old(pos), w)
      ensures Bounded() && (r.At? ==> Valid() && pos == r.pos)
    {
      var b := Bytes(w);
      match b
      case Fail => r := Fail;
      case At(s, p) => r := At(Number(s), p);
    }

    method Str() returns (r: Parsed<seq<Byte>>)
      requires Valid()
      modifies this`pos, this`read
      ensures r == TextAt(Visible(data), old(pos))
      ensures Bounded() && (r.At? ==> Valid() && pos == r.pos)
    {
      var n := ReadNumber(8);
      if n.Fail? || n.value > MaxStringLen { return Fail; }
      r := Bytes(n.value);
    }

    method SkipStr() returns (ok: bool)
      requires Valid()
      modifies this`pos, this`read
      ensures ok == TextAt(Visible(data), old(pos)).At?
      ensures Bounded() && (ok ==> Valid() && pos == TextAt(Visible(data), old(pos)).pos)
    {
      var n := ReadNumber(8);
      if n.Fail? || n.value > MaxStringLen { return false; }
      ok := Skip(n.value);
    }

    method SkipStrs(count: nat) returns (ok: bool)
      requires Valid()
      modifies this`pos, this`read
      ensures ok == TextsAt(Visible(data), old(pos), count).At?
      ensures Bounded() && (ok ==> Valid() && pos == TextsAt(Visible(data), old(pos), count).pos)
    {
      hide TextAt;
      ghost var done: seq<seq<Byte>> := [];
      ghost var d := Visible(data);
      PrependNothing(TextsAt(d, pos, count));
      for i := 0 to count
        invariant Valid()
        invariant TextsAt(d, old(pos), count) == Prepend(done, TextsAt(d, pos, count - i))
      {
        ghost var t := TextAt(d, pos);
        ok := SkipStr();
        if !ok { return false; }
        PrependTwice(done, t.value, TextsAt(d, t.pos, count - i - 1));
        done := done + [t.value];
      }
      ok := true;
    }

    method SkipArray() returns (ok: bool)
      requires Valid()
      modifies this`pos, this`read
      ensures ok == ArrayAt(Visible(data), old(pos)).At?
      ensures Bounded() && (ok ==> Valid() && pos == ArrayAt(Visible(data), old(pos)).pos)
    {
      hide TextsAt, NumberAt;
      var elem := ReadNumber(4);
      if elem.Fail? { return false; }
      var count := ReadNumber(8);
      if count.Fail? || count.value > MaxArrayCount { return false; }
      var size := ScalarSize(elem.value);
      if size > 0 {
        assert count.value * size <= MaxArrayCount * 8 == MaxHeaderScan;
        ok := Skip(count.value * size);
      } else if elem.value != StringTag {
        return false;
      } else {
        ok := SkipStrs(count.value);
      }
    }

    method SkipValue(tag: nat) returns (ok: bool)
      requires Valid()
      modifies this`pos, this`read
      ensures ok == ValueAt(Visible(data), old(pos), tag).At?
      ensures Bounded() && (ok ==> Valid() && pos == ValueAt(Visible(data), old(pos), tag).pos)
    {
      hide TextAt, ArrayAt;
      var size := ScalarSize(tag);
      if size > 0 { ok := Skip(size); }
      else if tag == StringTag { ok := SkipStr(); }
      else if tag == ArrayTag { ok := SkipArray(); }
      else { ok := false; }
    }

    /** The value as an integer; a value of any other type is skipped and reads as 0. */
    method ReadUintValue(tag: nat) returns (r: Parsed<nat>)
      requires Valid()
      modifies this`pos, this`read
      ensures r.At? == ValueAt(Visible(data), old(pos), tag).At?
      ensures Bounded()
      ensures r.At? ==> Valid() && pos == r.pos
      ensures r.At? ==>
        var v := ValueAt(Visible(data), old(pos), tag);
        pos == v.pos && r.value == UintOf(v.value)
    {
      hide TextAt, ArrayAt;
      if IsInteger(tag) {
        r := ReadNumber(ScalarSize(tag));
      } else {
        ghost var v := ValueAt(Visible(data), pos, tag);
        var ok := SkipValue(tag);
        if !ok { return Fail; }
        NotInteger(Visible(data), old(pos), tag, v.value, v.pos);
        r := At(0, pos);
      }
    }
  }

  lemma NotInteger(d: seq<Byte>, pos: nat, tag: nat, v: Value, end: nat)
    requires ValueAt(d, pos, tag) == At(v, end) && !IsInteger(tag)
    ensures UintOf(v) == 0
  {
  }

  /** A value under a key that wants text: read when it is a string, skipped otherwise. */
  method TextOrSkip(r: Reader, tag: nat) returns (v: Parsed<seq<seq<Byte>>>)
    requires r.Valid()
    modifies r`pos, r`read
    ensures r.Bounded() && v.At? == ValueAt(Visible(r.data), old(r.pos), tag).At?
    ensures v.At? ==> r.Valid() && r.pos == v.pos
    ensures v.At? ==>
      var w := ValueAt(Visible(r.data), old(r.pos), tag);
      r.pos == w.pos && v.value == if w.value.Text? then [w.value.text] else []
  {
    hide TextAt, ArrayAt;
    if tag == StringTag {
      var s := r.Str();
      if s.Fail? { return Fail; }
      v := At([s.value], s.pos);
    } else {
      ghost var w := ValueAt(Visible(r.data), r.pos, tag);
      var ok := r.SkipValue(tag);
      if !ok { return Fail; }
      NotText(Visible(r.data), old(r.pos), tag, w.value, w.pos);
      v := At([], r.pos);
    }
  }

  lemma NotText(d: seq<Byte>, pos: nat, tag: nat, v: Value, end: nat)
    requires ValueAt(d, pos, tag) == At(v, end) && tag != StringTag
    ensures !v.Text?
  {
  }

  /** One turn of the metadata loop, from the key on. */
  method ReadEntry(lower: seq<Byte> -> seq<char>, r: Reader, md: Metadata) returns (ok: bool, next: Metadata)
    requires r.Valid()
    modifies r`pos, r`read
    ensures r.Bounded() && ok == EntryAt(Visible(r.data), old(r.pos)).At?
    ensures ok ==> r.Valid()
    ensures ok ==>
      var e := EntryAt(Visible(r.data), old(r.pos));
      r.pos == e.pos && next == Learn(lower, md, e.value.key, e.value.value)
  {
    hide TextAt, ValueAt, NumberAt, Thinks, IsContextLength, HasPrefix;
    next := md;
    var k := r.Str();
    if k.Fail? { return false, md; }
    var key := k.value;
    var tag := r.ReadNumber(4);
    if tag.Fail? { return false, md; }
    if key == "general.architecture" {
      var v := TextOrSkip(r, tag.value);
      if v.Fail? { return false, md; }
      if v.value != [] { next := md.(architecture := v.value[0]); }
    } else if key == "general.name" {
      var v := TextOrSkip(r, tag.value);
      if v.Fail? { return false, md; }
      if v.value != [] { next := md.(name := v.value[0]); }
    } else if key == "tokenizer.chat_template" {
      var v := TextOrSkip(r, tag.value);
      if v.Fail? { return false, md; }
      if v.value != [] {
        var t := ChatTemplateSupportsThinking(lower, v.value[0]);
        next := md.(supportsThinking := t);
      }
    } else if IsContextLength(key) {
      var v := r.ReadUintValue(tag.value);
      if v.Fail? { return false, md; }
      if 0 < v.value <= 0x8000_0000 { next := md.(contextLength := v.value); }
    } else {
      if HasPrefix(key, "tokenizer.ggml.") { next := md.(hasTokenizer := true); }
      var skipped := r.SkipValue(tag.value);
      if !skipped { return false, md; }
    }
    ok := true;
  }

  method ReadEntries(lower: seq<Byte> -> seq<char>, r: Reader, count: nat) returns (ok: bool, md: Metadata)
    requires r.Valid()
    modifies r`pos, r`read
    ensures r.Bounded() && ok == EntriesAt(Visible(r.data), old(r.pos), count).At?
    ensures ok ==> r.Valid()
    ensures ok ==>
      var es := EntriesAt(Visible(r.data), old(r.pos), count);
      r.pos == es.pos && md == Fold(lower, es.value)
  {
    hide EntryAt, Learn;
    md := Blank;
    ghost var done: seq<Entry> := [];
    ghost var d := Visible(r.data);
    PrependNothing(EntriesAt(d, r.pos, count));
    for i := 0 to count
      invariant r.Valid() && md == Fold(lower, done)
      invariant EntriesAt(d, old(r.pos), count) == Prepend(done, EntriesAt(d, r.pos, count - i))
    {
      ghost var e := EntryAt(d, r.pos);
      ok, md := ReadEntry(lower, r, md);
      if !ok { return false, md; }
      PrependTwice(done, e.value, EntriesAt(d, e.pos, count - i - 1));
      assert (done + [e.value])[..|done|] == done;
      done := done + [e.value];
    }
    ok := true;
    assert done + [] == done;
  }

  /**
   The whole read, with the bytes charged: the file's outcome is the meaning of the
   header it begins with, at most 512 MiB are read when it succeeds, and exactly
   the header's own bytes.
   */
  method ReadMetadata(lower: seq<Byte> -> seq<char>, file: seq<Byte>) returns (o: Outcome, charged: nat)
    ensures o == Meaning(lower, HeaderAt(Visible(file))) && charged <= 2 * MaxHeaderScan
    ensures !o.Malformed? ==> charged == HeaderAt(Visible(file)).pos <= MaxHeaderScan
  {
    hide EntriesAt, NumberAt, Fold;
    var r := new Reader(file);
    var magic := r.Bytes(4);
    if magic.Fail? || magic.value != Magic() { return Malformed, r.read; }
    var version := r.ReadNumber(4);
    if version.Fail? || (version.value != 2 && version.value != 3) { return Malformed, r.read; }
    var tensors := r.ReadNumber(8);
    if tensors.Fail? { return Malformed, r.read; }
    var count := r.ReadNumber(8);
    if count.Fail? || count.value > MaxKeyValues { return Malformed, r.read; }
    var ok, md := ReadEntries(lower, r, count.value);
    if !ok { return Malformed, r.read; }
    o := if md.hasTokenizer then Model(md) else NotModel(md);
    charged := r.read;
  }

  /**
   Of any file that begins with a flat in-limits header of at most 512 MiB, whatever
   follows it, the outcome says of each field what its last entry gives, and the file
   counts as a language model exactly when some entry names a tokenizer.
   */
  lemma OutcomeOfHeader(lower: seq<Byte> -> seq<char>, h: Header, rest: seq<Byte>)
    requires InLimits(h) && |Encoded(h)| <= MaxHeaderScan
    ensures var r := HeaderAt(Visible(Encoded(h) + rest));
      && r.At? && r.pos == |Encoded(h)| && !Meaning(lower, r).Malformed?
      && SaysLast(lower, h.entries, Meaning(lower, r).md)
      && (Meaning(lower, r).Model? <==> exists e :: e in h.entries && GivesTokenizer(e))
  {
    hide HeaderAt, InLimits, Encoded, Fold;
    ReadsExactly(Encoded(h) + rest, h, |Encoded(h)|);
    LastWins(lower, h.entries);
  }

  /** A file that begins with no such header is refused. */
  lemma MalformedExactly(lower: seq<Byte> -> seq<char>, file: seq<Byte>)
    ensures Meaning(lower, HeaderAt(Visible(file))).Malformed?
      <==> !exists h :: InLimits(h) && Encoded(h) <= file && |Encoded(h)| <= MaxHeaderScan
  {
    hide HeaderAt, InLimits, Encoded, Fold;
    if exists h :: InLimits(h) && Encoded(h) <= file && |Encoded(h)| <= MaxHeaderScan {
      var h :| InLimits(h) && Encoded(h) <= file && |Encoded(h)| <= MaxHeaderScan;
      ReadsExactly(file, h, |Encoded(h)|);
    }
    var r := HeaderAt(Visible(file));
    if r.At? { ReadsExactly(file, r.value, r.pos); }
  }
}
