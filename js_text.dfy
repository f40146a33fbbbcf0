/**
 * The pieces of JavaScript's string and regular-expression behaviour that both core
 * files rely on: `String.prototype.split` on a one-character separator, the `\s` and
 * line-terminator classes, and the leftmost-position search of a non-global `match`.
 */
module JsText {
  import opened Wrappers

  /** JavaScript's `\s`: the ECMAScript WhiteSpace and LineTerminator code points. */
  predicate IsSpace(c: char) {
    c == '\t' || c == '\n' || c == '\U{0B}' || c == '\U{0C}' || c == '\r' || c == ' '
    || c == '\U{A0}' || c == '\U{1680}' || ('\U{2000}' <= c <= '\U{200A}')
    || c == '\U{2028}' || c == '\U{2029}' || c == '\U{202F}' || c == '\U{205F}'
    || c == '\U{3000}' || c == '\U{FEFF}'
  }

  /** JavaScript's `\S`. */
  predicate IsNonSpace(c: char) {
    !IsSpace(c)
  }

  /** The characters JavaScript's `.` does not match (without the `s` flag). */
  predicate IsLineTerminator(c: char) {
    c == '\n' || c == '\r' || c == '\U{2028}' || c == '\U{2029}'
  }

  predicate All(s: string, p: char -> bool) {
    forall k :: 0 <= k < |s| ==> p(s[k])
  }

  /** The end of the longest run of characters satisfying `p` that starts at `i`. */
  function SpanEnd(s: string, i: nat, p: char -> bool): (e: nat)
    requires i <= |s|
    ensures i <= e <= |s|
    ensures e < |s| ==> !p(s[e])
    decreases |s| - i
  {
    if i < |s| && p(s[i]) then SpanEnd(s, i + 1, p) else i
  }

  /** Every character the span passes over satisfies `p`. */
  lemma {:induction false} SpanEndRun(s: string, i: nat, p: char -> bool)
    requires i <= |s|
    ensures forall k :: i <= k < SpanEnd(s, i, p) ==> p(s[k])
    decreases |s| - i
  {
    if i < |s| && p(s[i]) {
      SpanEndRun(s, i + 1, p);
    }
  }

  /** A run of `p`-characters from `i` that ends at a non-`p` character (or the end) is the span. */
  lemma {:induction false} SpanEndIsUnique(s: string, i: nat, j: nat, p: char -> bool)
    requires i <= j <= |s|
    requires forall k :: i <= k < j ==> p(s[k])
    requires j < |s| ==> !p(s[j])
    ensures SpanEnd(s, i, p) == j
    decreases j - i
  {
    if i < j {
      SpanEndIsUnique(s, i + 1, j, p);
    }
  }

  /** The span, cut out of `s`, is a run of `p`-characters. */
  lemma SpanIsRun(s: string, i: nat, p: char -> bool)
    requires i <= |s|
    ensures All(s[i..SpanEnd(s, i, p)], p)
  {
    var e := SpanEnd(s, i, p);
    SpanEndRun(s, i, p);
    forall k | 0 <= k < e - i ensures p(s[i..e][k]) {
      assert s[i..e][k] == s[i + k];
    }
  }

  /** A run of `p`-characters at `i` followed by a non-`p` character (or the end) is the span. */
  lemma RunIsSpan(s: string, i: nat, run: string, p: char -> bool)
    requires i + |run| <= |s| && s[i..i + |run|] == run && All(run, p)
    requires i + |run| < |s| ==> !p(s[i + |run|])
    ensures SpanEnd(s, i, p) == i + |run|
  {
    forall k | i <= k < i + |run| ensures p(s[k]) {
      assert s[k] == run[k - i];
    }
    SpanEndIsUnique(s, i, i + |run|, p);
  }

  /** A run of `p`-characters at `i` directly followed by text starting with a non-`p` character. */
  lemma RunBeforeIsSpan(s: string, i: nat, run: string, next: string, p: char -> bool)
    requires i + |run| + |next| <= |s| && 0 < |next|
    requires s[i..i + |run|] == run && s[i + |run|..i + |run| + |next|] == next
    requires All(run, p) && !p(next[0])
    ensures SpanEnd(s, i, p) == i + |run|
  {
    assert s[i + |run|] == next[0];
    RunIsSpan(s, i, run, p);
  }

  /** `s.split(sep)` for a one-character separator: always at least one part. */
  function Split(s: string, sep: char): (parts: seq<string>)
    ensures |parts| >= 1
    ensures forall k :: 0 <= k < |parts| ==> sep !in parts[k]
    ensures Join(parts, sep) == s
    decreases |s|
  {
    if sep !in s then [s]
    else
      var k := IndexOf(s, sep);
      var rest := Split(s[k + 1..], sep);
      assert s == s[..k] + [sep] + s[k + 1..];
      [s[..k]] + rest
  }

  /** `parts.join(sep)`. */
  function Join(parts: seq<string>, sep: char): string
  {
    if |parts| == 0 then ""
    else if |parts| == 1 then parts[0]
    else parts[0] + [sep] + Join(parts[1..], sep)
  }

  function IndexOf(s: string, c: char): (k: nat)
    requires c in s
    ensures k < |s| && s[k] == c && c !in s[..k]
  {
    if s[0] == c then 0
    else
      var k := IndexOf(s[1..], c);
      assert s[..k + 1] == [s[0]] + s[1..][..k];
      k + 1
  }

  /** Splitting undoes joining whenever no part holds the separator. */
  lemma {:induction false} SplitJoin(parts: seq<string>, sep: char)
    requires |parts| >= 1
    requires forall k :: 0 <= k < |parts| ==> sep !in parts[k]
    ensures Split(Join(parts, sep), sep) == parts
  {
    if |parts| > 1 {
      var s := Join(parts, sep);
      var n := |parts[0]|;
      assert s == parts[0] + [sep] + Join(parts[1..], sep);
      assert s[..n] == parts[0] && s[n + 1..] == Join(parts[1..], sep);
      SplitAt(s, sep, n);
      SplitJoin(parts[1..], sep);
      assert parts == [parts[0]] + parts[1..];
    }
  }

  /** The split of a text whose first separator is at `n`. */
  lemma SplitAt(s: string, sep: char, n: nat)
    requires n < |s| && s[n] == sep && sep !in s[..n]
    ensures Split(s, sep) == [s[..n]] + Split(s[n + 1..], sep)
  {
    var k := IndexOf(s, sep);
  }

  /** Appending a separator to a text appends one empty part to its split. */
  lemma {:induction false} SplitTrailingSeparator(s: string, sep: char)
    ensures Split(s + [sep], sep) == Split(s, sep) + [""]
  {
    var parts := Split(s, sep);
    var more := parts + [""];
    assert forall k :: 0 <= k < |parts| ==> more[k] == parts[k];
    JoinSnoc(parts, "", sep);
    assert Join(more, sep) == s + [sep];
    SplitJoin(more, sep);
  }

  lemma {:induction false} JoinSnoc(parts: seq<string>, last: string, sep: char)
    requires |parts| >= 1
    ensures Join(parts + [last], sep) == Join(parts, sep) + [sep] + last
  {
    if |parts| > 1 {
      assert (parts + [last])[1..] == parts[1..] + [last];
      JoinSnoc(parts[1..], last, sep);
    }
  }

  /**
   * A non-global `String.prototype.match`: the leftmost start position from `i` on at which
   * the anchored matcher `at` succeeds, with what it matched there.
   */
  function FirstMatch<T>(s: string, i: nat, at: string -> Option<T>): (r: Option<(nat, T)>)
    requires i <= |s|
    ensures r.Some? ==> i <= r.value.0 <= |s| && at(s[r.value.0..]) == Some(r.value.1)
    ensures r.Some? ==> forall k :: i <= k < r.value.0 ==> at(s[k..]).None?
    ensures r.None? ==> forall k :: i <= k <= |s| ==> at(s[k..]).None?
    decreases |s| - i
  {
    match at(s[i..])
    case Some(m) => Some((i, m))
    case None => if i == |s| then None else FirstMatch(s, i + 1, at)
  }

  /** A match at `pos` with none before it, from `i` on, is the one `FirstMatch` finds. */
  lemma {:induction false} FirstMatchIs<T>(s: string, i: nat, pos: nat, v: T, at: string -> Option<T>)
    requires i <= pos <= |s| && at(s[pos..]) == Some(v)
    requires forall k :: i <= k < pos ==> at(s[k..]).None?
    ensures FirstMatch(s, i, at) == Some((pos, v))
    decreases pos - i
  {
    if i < pos {
      assert at(s[i..]).None?;
      FirstMatchIs(s, i + 1, pos, v, at);
    }
  }
}
