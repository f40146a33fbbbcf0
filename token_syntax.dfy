/**
 * The placeholder syntax of the templating pass and the scan that finds placeholders
 * in a text, as `String.prototype.replace` with a global regular expression does:
 * leftmost match first, matches never overlap, everything else is copied through.
 *
 * The pattern is `{{name}}` or `{{name:case}}`, where `name` is one or more word
 * characters, `-`, space, `\` or `/`, and `case` is one or more ASCII letters.
 */
module TokenSyntax {
  import opened Wrappers
  import opened JsText

  /** JavaScript's `\w` without the `u` flag. */
  predicate IsWordChar(c: char) {
    'A' <= c <= 'Z' || 'a' <= c <= 'z' || '0' <= c <= '9' || c == '_'
  }

  predicate IsNameChar(c: char) {
    IsWordChar(c) || c == '-' || c == ' ' || c == '\\' || c == '/'
  }

  predicate IsCaseChar(c: char) {
    'A' <= c <= 'Z' || 'a' <= c <= 'z'
  }

  /** One placeholder occurrence: the `token` group and the optional `case` group. */
  datatype Placeholder = Placeholder(name: string, caseType: Option<string>)

  predicate WellFormed(p: Placeholder) {
    |p.name| > 0 && All(p.name, IsNameChar)
    && (p.caseType.Some? ==> |p.caseType.value| > 0 && All(p.caseType.value, IsCaseChar))
  }

  /** The text a placeholder occupies in a file. */
  function Text(p: Placeholder): string {
    "{{" + p.name + (if p.caseType.Some? then ":" + p.caseType.value else "") + "}}"
  }

  /** The pattern anchored at the start of `s`: the placeholder whose text begins `s`, if any. */
  function TokenAt(s: string): (r: Option<Placeholder>)
    ensures r.Some? ==> WellFormed(r.value) && Text(r.value) <= s
  {
    if |s| >= 2 && s[0] == '{' && s[1] == '{' then
      var e := SpanEnd(s, 2, IsNameChar);
      if e == 2 then None
      else if e + 1 < |s| && s[e] == '}' && s[e + 1] == '}' then
        PlainTokenSound(s, e);
        Some(Placeholder(s[2..e], None))
      else if e < |s| && s[e] == ':' then
        var c := SpanEnd(s, e + 1, IsCaseChar);
        if c > e + 1 && c + 1 < |s| && s[c] == '}' && s[c + 1] == '}' then
          CaseTokenSound(s, e, c);
          Some(Placeholder(s[2..e], Some(s[e + 1..c])))
        else None
      else None
    else None
  }

  /** `{{name}}` at the start of `s`, the name being the longest run of name characters. */
  lemma PlainTokenSound(s: string, e: nat)
    requires 2 < e && e + 1 < |s| && s[0] == '{' && s[1] == '{' && s[e] == '}' && s[e + 1] == '}'
    requires SpanEnd(s, 2, IsNameChar) == e
    ensures var p := Placeholder(s[2..e], None); WellFormed(p) && Text(p) <= s
  {
    SpanIsRun(s, 2, IsNameChar);
    assert Text(Placeholder(s[2..e], None)) == s[..e + 2];
  }

  /** `{{name:case}}` at the start of `s`, each part the longest run of its characters. */
  lemma CaseTokenSound(s: string, e: nat, c: nat)
    requires 2 < e && e + 1 < c && c + 1 < |s| && s[0] == '{' && s[1] == '{' && s[e] == ':'
    requires s[c] == '}' && s[c + 1] == '}'
    requires SpanEnd(s, 2, IsNameChar) == e && SpanEnd(s, e + 1, IsCaseChar) == c
    ensures var p := Placeholder(s[2..e], Some(s[e + 1..c])); WellFormed(p) && Text(p) <= s
  {
    SpanIsRun(s, 2, IsNameChar);
    SpanIsRun(s, e + 1, IsCaseChar);
    CaseTokenText(s, e, c);
  }

  lemma CaseTokenText(s: string, e: nat, c: nat)
    requires 2 < e < c && c + 1 < |s| && s[0] == '{' && s[1] == '{' && s[e] == ':'
    requires s[c] == '}' && s[c + 1] == '}'
    ensures Text(Placeholder(s[2..e], Some(s[e + 1..c]))) == s[..c + 2]
  {
    assert s[..2] == "{{" && s[e..e + 1] == ":" && s[c..c + 2] == "}}";
    assert s[..c + 2] == s[..2] + s[2..e] + (s[e..e + 1] + s[e + 1..c]) + s[c..c + 2];
  }

  /**
   * The matcher needs no backtracking: whenever a well-formed placeholder's text begins `s`,
   * that placeholder is exactly what `TokenAt` finds (so the match at a position is unique).
   */
  lemma TokenAtComplete(s: string, p: Placeholder)
    requires WellFormed(p) && Text(p) <= s
    ensures TokenAt(s) == Some(p)
  {
    var t := Text(p);
    var e := 2 + |p.name|;
    assert s[0] == t[0] == '{' && s[1] == t[1] == '{';
    forall k | 2 <= k < e ensures IsNameChar(s[k]) {
      assert s[k] == t[k] == p.name[k - 2];
    }
    assert s[e] == t[e];
    SpanEndIsUnique(s, 2, e, IsNameChar);
    match p.caseType
    case None =>
      assert s[e + 1] == t[e + 1];
      assert s[2..e] == p.name;
    case Some(ct) =>
      assert s[2..e] == p.name;
      CaseTokenComplete(s, p, ct);
  }

  /** The `:case` part of a well-formed placeholder's text is what the case span finds. */
  lemma CaseTokenComplete(s: string, p: Placeholder, ct: string)
    requires WellFormed(p) && Text(p) <= s && p.caseType == Some(ct)
    requires var e := 2 + |p.name|; SpanEnd(s, 2, IsNameChar) == e && s[2..e] == p.name
    requires s[0] == '{' && s[1] == '{'
    ensures TokenAt(s) == Some(p)
  {
    var t := Text(p);
    var e := 2 + |p.name|;
    var c := e + 1 + |ct|;
    assert s[e] == t[e] == ':';
    forall k | e + 1 <= k < c ensures IsCaseChar(s[k]) {
      assert s[k] == t[k] == ct[k - e - 1];
    }
    assert s[c] == t[c] && s[c + 1] == t[c + 1];
    SpanEndIsUnique(s, e + 1, c, IsCaseChar);
    assert s[e + 1..c] == ct;
  }

  /** What the global scan cuts a text into: single characters copied through, and placeholders. */
  datatype Segment = Verbatim(c: char) | Token(p: Placeholder)

  function Raw(seg: Segment): string {
    match seg
    case Verbatim(c) => [c]
    case Token(p) => Text(p)
  }

  function Flatten(segs: seq<Segment>): string {
    if segs == [] then "" else Raw(segs[0]) + Flatten(segs[1..])
  }

  /** The first segment of a non-empty text: the placeholder there, or its first character. */
  function Head(s: string): (h: Segment)
    requires s != []
    ensures 0 < |Raw(h)| <= |s| && s[..|Raw(h)|] == Raw(h)
    ensures h.Token? ==> TokenAt(s) == Some(h.p)
    ensures h.Verbatim? ==> TokenAt(s) == None && h.c == s[0]
  {
    match TokenAt(s)
    case Some(p) => Token(p)
    case None => Verbatim(s[0])
  }

  /** Try a placeholder at the current position; otherwise copy one character and move on. */
  function Segments(s: string): (segs: seq<Segment>)
    ensures Flatten(segs) == s
    decreases |s|
  {
    if s == [] then []
    else
      var h := Head(s);
      var n := |Raw(h)|;
      assert s == Raw(h) + s[n..];
      [h] + Segments(s[n..])
  }

  /** Where segment `j` starts in the scanned text. */
  function Offset(segs: seq<Segment>, j: nat): nat
    requires j <= |segs|
  {
    |Flatten(segs[..j])|
  }

  /**
   * `seg` is what the scan produces at offset `o` of `s` when `at` matches placeholders: the
   * match there, or the character there when nothing matches.
   */
  predicate SegmentFits(s: string, seg: Segment, o: nat, at: string -> Option<Placeholder>) {
    o < |s|
    && (seg.Token? ==> at(s[o..]) == Some(seg.p))
    && (seg.Verbatim? ==> at(s[o..]) == None && s[o] == seg.c)
  }

  /**
   * `segs` is a scan of `s` with the matcher `at`: each segment fits at the start of what
   * the segments before it leave of `s`, and together they use up `s`.
   */
  predicate Fits(s: string, segs: seq<Segment>, at: string -> Option<Placeholder>)
    decreases |segs|
  {
    if segs == [] then s == []
    else
      var n := |Raw(segs[0])|;
      SegmentFits(s, segs[0], 0, at) && n <= |s| && Fits(s[n..], segs[1..], at)
  }

  /** The global scan is a scan with the placeholder matcher. */
  lemma {:induction false} SegmentsFit(s: string)
    ensures Fits(s, Segments(s), TokenAt)
    decreases |s|
  {
    if s != [] {
      var h := Head(s);
      var n := |Raw(h)|;
      SegmentsFit(s[n..]);
      assert s[0..] == s;
      var segs := Segments(s);
      assert segs == [h] + Segments(s[n..]);
      assert segs[0] == h && segs[1..] == Segments(s[n..]);
    }
  }

  /**
   * Leftmost-first, non-overlapping: each segment starts where the previous one ended; a
   * placeholder segment is exactly the match at its position, and a copied character sits
   * at a position where no placeholder starts.
   */
  lemma SegmentAt(s: string, j: nat)
    requires j < |Segments(s)|
    ensures SegmentFits(s, Segments(s)[j], Offset(Segments(s), j), TokenAt)
  {
    SegmentsFit(s);
    FitsAt(s, Segments(s), TokenAt, j);
  }

  lemma {:induction false} FitsAt(s: string, segs: seq<Segment>, at: string -> Option<Placeholder>, j: nat)
    requires Fits(s, segs, at) && j < |segs|
    ensures SegmentFits(s, segs[j], Offset(segs, j), at)
  {
    if j == 0 {
      assert segs[..0] == [];
    } else {
      var n := |Raw(segs[0])|;
      FitsAt(s[n..], segs[1..], at, j - 1);
      OffsetCons(segs, j);
      FitsShift(s, n, segs[1..][j - 1], Offset(segs[1..], j - 1), at);
    }
  }

  /** A segment that fits in a suffix of the text fits in the text, shifted past the prefix. */
  lemma FitsShift(s: string, n: nat, seg: Segment, o: nat, at: string -> Option<Placeholder>)
    requires n <= |s| && SegmentFits(s[n..], seg, o, at)
    ensures SegmentFits(s, seg, n + o, at)
  {
    assert s[n..][o..] == s[n + o..] && s[n..][o] == s[n + o];
  }

  lemma OffsetCons(segs: seq<Segment>, j: nat)
    requires 0 < j <= |segs|
    ensures Offset(segs, j) == |Raw(segs[0])| + Offset(segs[1..], j - 1)
  {
    assert segs[..j][1..] == segs[1..][..j - 1];
  }

  /** True when `name` is the name of some placeholder among `segs`. */
  ghost predicate Mentions(segs: seq<Segment>, name: string) {
    exists k :: 0 <= k < |segs| && segs[k].Token? && segs[k].p.name == name
  }

  /** A name is mentioned by a scan when its first segment or the rest mentions it. */
  lemma MentionsCons(segs: seq<Segment>)
    requires |segs| > 0
    ensures forall name :: Mentions(segs, name) <==>
      (segs[0].Token? && segs[0].p.name == name) || Mentions(segs[1..], name)
  {
    forall name ensures Mentions(segs, name) <==>
      (segs[0].Token? && segs[0].p.name == name) || Mentions(segs[1..], name)
    {
      if Mentions(segs[1..], name) {
        var k :| 0 <= k < |segs[1..]| && segs[1..][k].Token? && segs[1..][k].p.name == name;
        assert segs[k + 1] == segs[1..][k];
      }
      if Mentions(segs, name) {
        var k :| 0 <= k < |segs| && segs[k].Token? && segs[k].p.name == name;
        if k > 0 {
          assert segs[1..][k - 1] == segs[k];
        }
      }
    }
  }
}
