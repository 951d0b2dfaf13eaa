/** The GGUF format's tags and tests, spelled out, and what they make of a header. */
module GgufLaws {
  import opened Basics
  import opened Gguf
  import opened GgufReader

  /** Every header begins with the magic; strings have tag 8, arrays tag 9, and scalars these widths. */
  lemma TagsAre(h: Header, s: seq<Byte>, ts: seq<seq<Byte>>, elem: nat, count: nat, body: seq<Byte>)
    ensures Encoded(h)[..4] == "GGUF"
    ensures Tag(Text(s)) == 8 && Tag(Texts(ts)) == 9 && Tag(Scalars(elem, count, body)) == 9
    ensures ScalarSize(0) == 1 && ScalarSize(1) == 1 && ScalarSize(7) == 1
    ensures ScalarSize(2) == 2 && ScalarSize(3) == 2
    ensures ScalarSize(4) == 4 && ScalarSize(5) == 4 && ScalarSize(6) == 4
    ensures ScalarSize(10) == 8 && ScalarSize(11) == 8 && ScalarSize(12) == 8
    ensures forall tag :: tag == 8 || tag == 9 || tag > 12 ==> ScalarSize(tag) == 0
  {
  }

  /** The integer types and their widths. */
  predicate IntegerOfWidth(tag: nat, w: nat) {
    || (tag == 0 && w == 1) || (tag == 1 && w == 1)
    || (tag == 2 && w == 2) || (tag == 3 && w == 2)
    || (tag == 4 && w == 4) || (tag == 5 && w == 4)
    || (tag == 10 && w == 8) || (tag == 11 && w == 8)
  }

  /** An integer of any width reads as the number encoded; every other value reads as zero. */
  lemma IntegersRead(tag: nat, w: nat, n: nat, v: Value)
    ensures IntegerOfWidth(tag, w) && n < Pow256(w) ==>
      ValueInLimits(Scalar(tag, LittleEndian(n, w))) && UintOf(Scalar(tag, LittleEndian(n, w))) == n
    ensures !(v.Scalar? && exists k :: IntegerOfWidth(v.tag, k)) ==> UintOf(v) == 0
  {
    hide Number, LittleEndian, Pow256;
    if IntegerOfWidth(tag, w) && n < Pow256(w) { NumberOfLittleEndian(n, w); }
    if v.Scalar? && IsInteger(v.tag) {
      assert IntegerOfWidth(v.tag, ScalarSize(v.tag));
    }
  }

  /** The context length a file is listed with is the number its last usable entry encodes, in any integer type. */
  lemma ContextLengthRead(lower: seq<Byte> -> seq<char>, h: Header, rest: seq<Byte>, i: nat, tag: nat, w: nat, n: nat)
    requires InLimits(h) && |Encoded(h)| <= MaxHeaderScan && i < |h.entries|
    requires HasSuffix(h.entries[i].key, ".context_length") && h.entries[i].value == Scalar(tag, LittleEndian(n, w))
    requires IntegerOfWidth(tag, w) && n < Pow256(w) && 0 < n <= 0x8000_0000
    requires forall j :: i < j < |h.entries| ==> !HasSuffix(h.entries[j].key, ".context_length")
    ensures var o := Meaning(lower, HeaderAt(Visible(Encoded(h) + rest))); !o.Malformed? && o.md.contextLength == n
  {
    hide InLimits, Encoded, HeaderAt, UintOf, LittleEndian, HasSuffix, NoneWith;
    IntegersRead(tag, w, n, Scalar(tag, []));
    OutcomeOfHeader(lower, h, rest);
    assert LastWith(h.entries, GivesContext, i);
  }

  /** The tests on keys and templates mean what their names say. */
  lemma PrefixMeans(s: seq<char>, m: seq<char>)
    ensures HasPrefix(s, m) <==> exists t :: s == m + t
  {
    if HasPrefix(s, m) { assert s == m + s[|m|..]; }
  }

  lemma SuffixMeans(s: seq<char>, m: seq<char>)
    ensures HasSuffix(s, m) <==> exists t :: s == t + m
  {
    if HasSuffix(s, m) { assert s == s[..|s| - |m|] + m; }
    if t :| s == t + m { assert s[|s| - |m|..] == m; }
  }

  ghost predicate Surrounds(s: seq<char>, t: seq<char>, m: seq<char>, u: seq<char>) {
    s == t + (m + u)
  }

  lemma ContainsMeans(s: seq<char>, m: seq<char>)
    ensures Contains(s, m) <==> exists t, u :: Surrounds(s, t, m, u)
  {
    if Contains(s, m) {
      var i :| 0 <= i <= |s| && HasPrefix(s[i..], m);
      assert s[i..] == m + s[i..][|m|..];
      assert Surrounds(s, s[..i], m, s[i..][|m|..]);
    }
    if t, u :| Surrounds(s, t, m, u) {
      assert s[|t|..] == m + u;
      assert HasPrefix(s[|t|..], m);
    }
  }

  /** A template has a reasoning path exactly when its lowered text contains one of the five markers. */
  lemma ThinksExactly(lower: seq<Byte> -> seq<char>, template: seq<Byte>)
    ensures Thinks(lower, template) <==>
      || Contains(lower(template), "enable_thinking") || Contains(lower(template), "reasoning_effort")
      || Contains(lower(template), "reasoning_content") || Contains(lower(template), "<think>")
      || Contains(lower(template), "<|thinking|>")
  {
    hide Contains;
    assert Markers[0] == "enable_thinking" && Markers[1] == "reasoning_effort" && Markers[2] == "reasoning_content";
    assert Markers[3] == "<think>" && Markers[4] == "<|thinking|>";
  }

  /** The entries a field is taken from, by their keys. */
  lemma EntriesByKey(e: Entry)
    ensures GivesArchitecture(e) <==> e.key == "general.architecture" && e.value.Text?
    ensures GivesName(e) <==> e.key == "general.name" && e.value.Text?
    ensures GivesTemplate(e) <==> e.key == "tokenizer.chat_template" && e.value.Text?
    ensures GivesContext(e) <==> HasSuffix(e.key, ".context_length") && 1 <= UintOf(e.value) <= 2_147_483_648
    ensures GivesTokenizer(e) <==> HasPrefix(e.key, "tokenizer.ggml.") && !HasSuffix(e.key, ".context_length")
  {
  }

  /** The limits: strings of 16 MiB, arrays of 2^26 elements, 2^16 entries, and 512 MiB of header, each included. */
  lemma LimitsAre(h: Header)
    ensures InLimits(h) <==>
      && (h.version == 2 || h.version == 3) && h.tensors < 0x1_0000_0000_0000_0000 && |h.entries| <= 65_536
      && forall i :: 0 <= i < |h.entries| ==> |h.entries[i].key| <= 16_777_216 && Fits(h.entries[i].value)
    ensures MaxHeaderScan == 536_870_912
  {
    assert Pow256(8) == 0x1_0000_0000_0000_0000;
    forall i | 0 <= i < |h.entries| ensures h.entries[i] in h.entries { }
    forall v ensures ValueInLimits(v) <==> Fits(v) { FitsExactly(v); }
  }

  lemma FitsExactly(v: Value)
    ensures ValueInLimits(v) <==> Fits(v)
  {
  }

  ghost predicate Fits(v: Value) {
    match v
    case Scalar(tag, raw) => |raw| > 0 && |raw| == ScalarSize(tag)
    case Text(s) => |s| <= 16_777_216
    case Scalars(elem, count, body) => ScalarSize(elem) > 0 && count <= 67_108_864 && |body| == count * ScalarSize(elem)
    case Texts(ts) => |ts| <= 67_108_864 && forall i :: 0 <= i < |ts| ==> |ts[i]| <= 16_777_216
  }
}
