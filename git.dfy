/**
 * The parsing half of the git layer: `getRemotes` over the output of `git remote -v` and
 * `getStatus` over the output of `git status --porcelain`. Running the commands is not
 * modelled; each parser takes the command's standard output as text.
 */
module Git {
  import opened Wrappers
  import opened JsText

  // ---------------------------------------------------------------------------------------
  // getRemotes: /(?<name>\S+)\s+(?<url>\S+)\s+\((?<type>fetch|push)\)/ on every line
  // ---------------------------------------------------------------------------------------

  datatype Remote = Remote(name: string, url: string)

  /** A match of the remote pattern, cut into the text each part of the pattern consumed. */
  datatype RemoteMatch = RemoteMatch(name: string, gap1: string, url: string, gap2: string, kind: string)

  predicate WellFormedRemote(m: RemoteMatch) {
    |m.name| > 0 && All(m.name, IsNonSpace) && |m.gap1| > 0 && All(m.gap1, IsSpace)
    && |m.url| > 0 && All(m.url, IsNonSpace) && |m.gap2| > 0 && All(m.gap2, IsSpace)
    && (m.kind == "fetch" || m.kind == "push")
  }

  function RemoteText(m: RemoteMatch): string {
    m.name + m.gap1 + m.url + m.gap2 + Tag(m.kind)
  }

  function Tag(kind: string): string {
    "(" + kind + ")"
  }

  /** The alternation `\((fetch|push)\)` at the start of `rest`; empty when neither matches. */
  function Kind(rest: string): (kind: string)
    ensures kind == "" || ((kind == "fetch" || kind == "push") && Tag(kind) <= rest)
  {
    if Tag("fetch") <= rest then "fetch" else if Tag("push") <= rest then "push" else ""
  }

  /** The remote pattern anchored at the start of `s`. */
  function RemoteAt(s: string): (r: Option<RemoteMatch>)
    ensures r.Some? ==> |r.value.name| > 0 && |r.value.gap1| > 0 && |r.value.url| > 0
                        && |r.value.gap2| > 0 && (r.value.kind == "fetch" || r.value.kind == "push")
                        && |RemoteText(r.value)| <= |s|
  {
    var a := SpanEnd(s, 0, IsNonSpace);
    var b := SpanEnd(s, a, IsSpace);
    var c := SpanEnd(s, b, IsNonSpace);
    var d := SpanEnd(s, c, IsSpace);
    Assemble(s, a, b, c, d, Kind(s[d..]))
  }

  /** The match the four span ends and the alternation describe, if every part is non-empty. */
  function Assemble(s: string, a: nat, b: nat, c: nat, d: nat, kind: string): Option<RemoteMatch>
    requires a <= b <= c <= d <= |s|
  {
    if a == 0 || b == a || c == b || d == c || kind == "" then None
    else Some(RemoteMatch(s[..a], s[a..b], s[b..c], s[c..d], kind))
  }

  /** What the remote matcher finds is a well-formed match whose text begins `s`. */
  lemma RemoteAtSound(s: string)
    ensures RemoteAt(s).Some? ==> WellFormedRemote(RemoteAt(s).value) && RemoteText(RemoteAt(s).value) <= s
  {
    var a := SpanEnd(s, 0, IsNonSpace);
    var b := SpanEnd(s, a, IsSpace);
    var c := SpanEnd(s, b, IsNonSpace);
    var d := SpanEnd(s, c, IsSpace);
    if RemoteAt(s).Some? {
      AssembleSound(s, a, b, c, d);
    }
  }

  /** The four greedy spans and the alternation cut a well-formed match out of `s`. */
  lemma AssembleSound(s: string, a: nat, b: nat, c: nat, d: nat)
    requires 0 < a < b < c < d <= |s|
    requires SpanEnd(s, 0, IsNonSpace) == a && SpanEnd(s, a, IsSpace) == b
    requires SpanEnd(s, b, IsNonSpace) == c && SpanEnd(s, c, IsSpace) == d
    requires Kind(s[d..]) != ""
    ensures var m := RemoteMatch(s[..a], s[a..b], s[b..c], s[c..d], Kind(s[d..]));
      WellFormedRemote(m) && RemoteText(m) <= s
  {
    SpanIsRun(s, 0, IsNonSpace);
    SpanIsRun(s, a, IsSpace);
    SpanIsRun(s, b, IsNonSpace);
    SpanIsRun(s, c, IsSpace);
    RemoteTextOf(s, a, b, c, d);
  }

  lemma RemoteTextOf(s: string, a: nat, b: nat, c: nat, d: nat)
    requires 0 < a < b < c < d <= |s| && Kind(s[d..]) != ""
    ensures RemoteText(RemoteMatch(s[..a], s[a..b], s[b..c], s[c..d], Kind(s[d..]))) <= s
  {
    var tag := Tag(Kind(s[d..]));
    assert s[..d] == s[..a] + s[a..b] + s[b..c] + s[c..d];
    assert s[d..][..|tag|] == tag;
    assert s[..d + |tag|] == s[..d] + tag;
  }

  /**
   * The pattern needs no backtracking: whenever a well-formed match's text begins `s`, it is
   * exactly what `RemoteAt` finds.
   */
  lemma RemoteAtComplete(s: string, m: RemoteMatch)
    requires WellFormedRemote(m) && RemoteText(m) <= s
    ensures RemoteAt(s) == Some(m)
  {
    RemoteCuts(s, m);
    RemoteAtUnfold(s, m);
  }

  /** The four greedy spans and the alternation cut exactly the parts of `m` out of `s`. */
  predicate CutsOut(s: string, m: RemoteMatch) {
    var a := |m.name|; var b := a + |m.gap1|; var c := b + |m.url|; var d := c + |m.gap2|;
    0 < a < b < c < d <= |s|
    && s[..a] == m.name && s[a..b] == m.gap1 && s[b..c] == m.url && s[c..d] == m.gap2
    && SpanEnd(s, 0, IsNonSpace) == a && SpanEnd(s, a, IsSpace) == b
    && SpanEnd(s, b, IsNonSpace) == c && SpanEnd(s, c, IsSpace) == d
    && Kind(s[d..]) == m.kind != ""
  }

  lemma RemoteCuts(s: string, m: RemoteMatch)
    requires WellFormedRemote(m) && RemoteText(m) <= s
    ensures CutsOut(s, m)
  {
    RemoteTextParts(s, m);
    KindComplete(s[|m.name| + |m.gap1| + |m.url| + |m.gap2|..], m.kind);
    NameSpan(s, m);
    FirstGapSpan(s, m);
    UrlSpan(s, m);
    SecondGapSpan(s, m);
  }

  /** The parts of `m` lie one after another at the start of `s`, followed by its type tag. */
  predicate PartsAt(s: string, m: RemoteMatch) {
    var a := |m.name|; var b := a + |m.gap1|; var c := b + |m.url|; var d := c + |m.gap2|;
    d + |Tag(m.kind)| <= |s|
    && s[..a] == m.name && s[a..b] == m.gap1 && s[b..c] == m.url && s[c..d] == m.gap2
    && s[d..d + |Tag(m.kind)|] == Tag(m.kind) && Tag(m.kind) <= s[d..]
  }

  // Each part of a well-formed match is a maximal run, so the greedy span finds it.

  lemma NameSpan(s: string, m: RemoteMatch)
    requires WellFormedRemote(m) && PartsAt(s, m)
    ensures SpanEnd(s, 0, IsNonSpace) == |m.name|
  {
    assert IsSpace(m.gap1[0]);
    RunBeforeIsSpan(s, 0, m.name, m.gap1, IsNonSpace);
  }

  lemma FirstGapSpan(s: string, m: RemoteMatch)
    requires WellFormedRemote(m) && PartsAt(s, m)
    ensures SpanEnd(s, |m.name|, IsSpace) == |m.name| + |m.gap1|
  {
    assert IsNonSpace(m.url[0]);
    RunBeforeIsSpan(s, |m.name|, m.gap1, m.url, IsSpace);
  }

  lemma UrlSpan(s: string, m: RemoteMatch)
    requires WellFormedRemote(m) && PartsAt(s, m)
    ensures var b := |m.name| + |m.gap1|; SpanEnd(s, b, IsNonSpace) == b + |m.url|
  {
    assert IsSpace(m.gap2[0]);
    RunBeforeIsSpan(s, |m.name| + |m.gap1|, m.url, m.gap2, IsNonSpace);
  }

  lemma SecondGapSpan(s: string, m: RemoteMatch)
    requires WellFormedRemote(m) && PartsAt(s, m)
    ensures var c := |m.name| + |m.gap1| + |m.url|; SpanEnd(s, c, IsSpace) == c + |m.gap2|
  {
    var tag := Tag(m.kind);
    assert tag[0] == '(';
    RunBeforeIsSpan(s, |m.name| + |m.gap1| + |m.url|, m.gap2, tag, IsSpace);
  }

  /** `RemoteAt` once the four spans and the alternation are known to cut out `m`. */
  lemma RemoteAtUnfold(s: string, m: RemoteMatch)
    requires CutsOut(s, m)
    ensures RemoteAt(s) == Some(m)
  {
    var a := |m.name|; var b := a + |m.gap1|; var c := b + |m.url|; var d := c + |m.gap2|;
    RemoteAtSpans(s, a, b, c, d);
    AssembleCut(s, m);
  }

  lemma RemoteAtSpans(s: string, a: nat, b: nat, c: nat, d: nat)
    requires a <= b <= c <= d <= |s|
    requires SpanEnd(s, 0, IsNonSpace) == a && SpanEnd(s, a, IsSpace) == b
    requires SpanEnd(s, b, IsNonSpace) == c && SpanEnd(s, c, IsSpace) == d
    ensures RemoteAt(s) == Assemble(s, a, b, c, d, Kind(s[d..]))
  {
  }

  lemma AssembleCut(s: string, m: RemoteMatch)
    requires CutsOut(s, m)
    ensures var a := |m.name|; var b := a + |m.gap1|; var c := b + |m.url|; var d := c + |m.gap2|;
      Assemble(s, a, b, c, d, m.kind) == Some(m)
  {
  }

  /** How the text of a match lies at the start of `s`. */
  lemma RemoteTextParts(s: string, m: RemoteMatch)
    requires RemoteText(m) <= s
    ensures PartsAt(s, m)
  {
    var a := |m.name|;
    var b := a + |m.gap1|;
    var c := b + |m.url|;
    var d := c + |m.gap2|;
    var tag := Tag(m.kind);
    var x3 := m.name + m.gap1 + m.url;
    Peel(s, x3 + m.gap2, tag);
    Cut(s[..d], x3, m.gap2);
    assert s[..d][..c] == s[..c] && s[..d][c..] == s[c..d];
    Cut(s[..c], m.name + m.gap1, m.url);
    assert s[..c][..b] == s[..b] && s[..c][b..] == s[b..c];
    Cut(s[..b], m.name, m.gap1);
    assert s[..b][..a] == s[..a] && s[..b][a..] == s[a..b];
    assert s[d..][..|tag|] == s[d..d + |tag|];
  }

  /** A concatenation cut at the end of its first part. */
  lemma Cut<T>(t: seq<T>, x: seq<T>, y: seq<T>)
    requires t == x + y
    ensures t[..|x|] == x && t[|x|..] == y
  {
  }

  /** A prefix made of two parts: the first starts the text, the second starts what follows it. */
  lemma Peel<T>(s: seq<T>, x: seq<T>, y: seq<T>)
    requires x + y <= s
    ensures s[..|x|] == x && y <= s[|x|..]
  {
    assert forall k :: 0 <= k < |x| ==> s[k] == (x + y)[k];
    assert forall k :: 0 <= k < |y| ==> s[|x|..][k] == (x + y)[|x| + k];
  }

  lemma KindComplete(rest: string, kind: string)
    requires (kind == "fetch" || kind == "push") && Tag(kind) <= rest
    ensures Kind(rest) == kind
  {
    if kind == "push" {
      assert rest[1] == Tag(kind)[1] == 'p';
      assert Tag("fetch")[1] == 'f';
    }
  }

  /** The regular expression matches `line` at position `i` with the parts of `m`. */
  ghost predicate RemoteMatchesAt(line: string, i: int, m: RemoteMatch) {
    0 <= i <= |line| && WellFormedRemote(m) && RemoteText(m) <= line[i..]
  }

  /** The `map` callback: the leftmost match of the line, kept only when its type is `fetch`. */
  function LineRemote(line: string): (r: Option<Remote>)
    ensures r.Some? ==> |r.value.name| > 0 && All(r.value.name, IsNonSpace)
                        && |r.value.url| > 0 && All(r.value.url, IsNonSpace)
  {
    match FirstMatch(line, 0, RemoteAt)
    case Some((k, m)) =>
      RemoteAtSound(line[k..]);
      if m.kind == "fetch" then Some(Remote(m.name, m.url)) else None
    case None => None
  }

  /**
   * A line yields the name and url of its leftmost match when that match's type is `fetch`,
   * and nothing when it is `push`.
   */
  lemma LineRemoteLeftmost(line: string, i: int, m: RemoteMatch)
    requires RemoteMatchesAt(line, i, m)
    requires forall j, m' :: 0 <= j < i ==> !RemoteMatchesAt(line, j, m')
    ensures LineRemote(line) == if m.kind == "fetch" then Some(Remote(m.name, m.url)) else None
  {
    FirstRemoteMatch(line, i, m);
  }

  lemma FirstRemoteMatch(line: string, i: int, m: RemoteMatch)
    requires RemoteMatchesAt(line, i, m)
    requires forall j, m' :: 0 <= j < i ==> !RemoteMatchesAt(line, j, m')
    ensures FirstMatch(line, 0, RemoteAt) == Some((i, m))
  {
    RemoteAtComplete(line[i..], m);
    forall k | 0 <= k < i ensures RemoteAt(line[k..]).None? {
      var r := RemoteAt(line[k..]);
      RemoteAtSound(line[k..]);
      assert r.Some? ==> RemoteMatchesAt(line, k, r.value);
    }
    FirstMatchIs(line, 0, i, m, RemoteAt);
  }

  /** A line on which the pattern matches nowhere, such as the empty last line, yields nothing. */
  lemma LineRemoteNoMatch(line: string)
    requires forall i, m :: !RemoteMatchesAt(line, i, m)
    ensures LineRemote(line) == None
  {
    var r := FirstMatch(line, 0, RemoteAt);
    if r.Some? {
      RemoteAtSound(line[r.value.0..]);
      assert RemoteMatchesAt(line, r.value.0, r.value.1);
    }
  }

  /** `.filter((remote) => remote !== null)`. */
  function FilterPresent<T(!new)>(xs: seq<Option<T>>): (ys: seq<T>)
    ensures |ys| <= |xs|
    ensures forall y :: y in ys ==> Some(y) in xs
  {
    if xs == [] then []
    else
      var rest := FilterPresent(xs[1..]);
      assert forall y :: Some(y) in xs[1..] ==> Some(y) in xs;
      match xs[0]
      case Some(x) => [x] + rest
      case None => rest
  }

  lemma {:induction false} FilterPresentAppend<T(!new)>(xs: seq<Option<T>>, ys: seq<Option<T>>)
    ensures FilterPresent(xs + ys) == FilterPresent(xs) + FilterPresent(ys)
  {
    if xs != [] {
      assert (xs + ys)[0] == xs[0];
      assert (xs + ys)[1..] == xs[1..] + ys;
      FilterPresentAppend(xs[1..], ys);
      var a, b := FilterPresent(xs[1..]), FilterPresent(ys);
      if xs[0].Some? {
        assert [xs[0].value] + (a + b) == ([xs[0].value] + a) + b;
      }
    } else {
      assert xs + ys == ys;
    }
  }

  /** `.map(...)` with the line callback. */
  function Mapped(lines: seq<string>): (ms: seq<Option<Remote>>)
    ensures |ms| == |lines|
    ensures forall k :: 0 <= k < |lines| ==> ms[k] == LineRemote(lines[k])
  {
    seq(|lines|, k requires 0 <= k < |lines| => LineRemote(lines[k]))
  }

  /** The `split`/`map`/`filter` pipeline over the lines of the output. */
  function RemotesOf(lines: seq<string>): (rs: seq<Remote>)
    ensures forall r :: r in rs ==> exists k :: 0 <= k < |lines| && LineRemote(lines[k]) == Some(r)
  {
    var mapped := Mapped(lines);
    var rs := FilterPresent(mapped);
    assert forall r :: Some(r) in mapped ==> exists k :: 0 <= k < |lines| && mapped[k] == Some(r);
    rs
  }

  /**
   * `getRemotes` on the command's output: every returned name and url is non-empty and holds
   * no whitespace, and each remote is the fetch entry of some line of the output.
   */
  function GetRemotes(stdout: string): (rs: seq<Remote>)
    ensures forall r :: r in rs ==>
      |r.name| > 0 && All(r.name, IsNonSpace) && |r.url| > 0 && All(r.url, IsNonSpace)
    ensures forall r :: r in rs ==> exists line :: line in Split(stdout, '\n') && LineRemote(line) == Some(r)
  {
    var lines := Split(stdout, '\n');
    RemotesWellFormed(lines);
    RemotesOf(lines)
  }

  lemma RemotesWellFormed(lines: seq<string>)
    ensures forall r :: r in RemotesOf(lines) ==>
      |r.name| > 0 && All(r.name, IsNonSpace) && |r.url| > 0 && All(r.url, IsNonSpace)
  {
    forall r | r in RemotesOf(lines)
      ensures |r.name| > 0 && All(r.name, IsNonSpace) && |r.url| > 0 && All(r.url, IsNonSpace)
    {
      var k :| 0 <= k < |lines| && LineRemote(lines[k]) == Some(r);
    }
  }

  /**
   * Line by line: the remotes of a concatenation of outputs are the concatenation of their
   * remotes (order is kept and nothing is deduplicated), and one line yields at most one.
   */
  lemma RemotesOfAppend(a: seq<string>, b: seq<string>)
    ensures RemotesOf(a + b) == RemotesOf(a) + RemotesOf(b)
  {
    MappedAppend(a, b);
    FilterPresentAppend(Mapped(a), Mapped(b));
  }

  lemma MappedAppend(a: seq<string>, b: seq<string>)
    ensures Mapped(a + b) == Mapped(a) + Mapped(b)
  {
    var ab := a + b;
    forall k | 0 <= k < |ab| ensures Mapped(ab)[k] == (Mapped(a) + Mapped(b))[k] {
      if k < |a| { assert ab[k] == a[k]; } else { assert ab[k] == b[k - |a|]; }
    }
  }

  lemma RemotesOfLine(line: string)
    ensures RemotesOf([line]) == match LineRemote(line) case Some(r) => [r] case None => []
  {
    assert Mapped([line]) == [LineRemote(line)];
  }

  /** The trailing newline of the command's output adds an empty line, which yields nothing. */
  lemma GetRemotesTrailingNewline(stdout: string)
    ensures GetRemotes(stdout + "\n") == GetRemotes(stdout)
  {
    SplitTrailingSeparator(stdout, '\n');
    assert stdout + "\n" == stdout + ['\n'];
    RemotesOfAppend(Split(stdout, '\n'), [""]);
    forall i, m ensures !RemoteMatchesAt("", i, m) { }
    LineRemoteNoMatch("");
    RemotesOfLine("");
  }

  // ---------------------------------------------------------------------------------------
  // getStatus: /(?<status>\S+)\s+(?<file>.+)/ on every line
  // ---------------------------------------------------------------------------------------

  /** A match of the status pattern, cut into the text each part of the pattern consumed. */
  datatype StatusMatch = StatusMatch(status: string, gap: string, file: string)

  predicate IsFileChar(c: char) {
    !IsLineTerminator(c)
  }

  predicate WellFormedStatus(m: StatusMatch) {
    |m.status| > 0 && All(m.status, IsNonSpace) && |m.gap| > 0 && All(m.gap, IsSpace)
    && |m.file| > 0 && All(m.file, IsFileChar)
  }

  function StatusText(m: StatusMatch): string {
    m.status + m.gap + m.file
  }

  /**
   * The `status` group of the status pattern anchored at the start of `s`. The status is the
   * whole first run of non-space characters; the match needs whitespace after it and then
   * one character `.` accepts, which may itself be a later whitespace character when the
   * line ends in whitespace.
   */
  function StatusAt(s: string): (r: Option<string>)
    ensures r.Some? ==> 0 < |r.value| < |s| && r.value == s[..|r.value|]
  {
    var a := SpanEnd(s, 0, IsNonSpace);
    var b := SpanEnd(s, a, IsSpace);
    if a == 0 || b == a then None
    else if b < |s| || exists k :: a < k < b && IsFileChar(s[k]) then Some(s[..a])
    else None
  }

  ghost predicate StatusMatchesAt(line: string, i: int, m: StatusMatch) {
    0 <= i <= |line| && WellFormedStatus(m) && StatusText(m) <= line[i..]
  }

  /** Whatever `StatusAt` finds is the status of a match of the pattern there. */
  lemma StatusAtSound(s: string)
    requires StatusAt(s).Some?
    ensures exists m :: StatusMatchesAt(s, 0, m) && m.status == StatusAt(s).value
  {
    var a := SpanEnd(s, 0, IsNonSpace);
    var b := SpanEnd(s, a, IsSpace);
    SpanEndRun(s, 0, IsNonSpace);
    SpanEndRun(s, a, IsSpace);
    var k := if b < |s| then b else var k :| a < k < b && IsFileChar(s[k]); k;
    forall j | 0 <= j < a ensures IsNonSpace(s[..a][j]) { assert s[..a][j] == s[j]; }
    forall j | 0 <= j < k - a ensures IsSpace(s[a..k][j]) { assert s[a..k][j] == s[a + j]; }
    StatusCut(s, a, k);
  }

  /** A status run, then a whitespace gap, then one character `.` accepts, at the start of `s`. */
  lemma StatusCut(s: string, a: nat, k: nat)
    requires 0 < a < k < |s| && IsFileChar(s[k])
    requires All(s[..a], IsNonSpace) && All(s[a..k], IsSpace)
    ensures StatusMatchesAt(s, 0, StatusMatch(s[..a], s[a..k], [s[k]]))
  {
    assert s[0..] == s;
    assert s[..k + 1] == s[..a] + s[a..k] + [s[k]];
  }

  /** Any match of the pattern at the start of `s` has the status `StatusAt` finds. */
  lemma StatusAtComplete(s: string, m: StatusMatch)
    requires WellFormedStatus(m) && StatusText(m) <= s
    ensures StatusAt(s) == Some(m.status)
  {
    var t := StatusText(m);
    var a := |m.status|;
    var g := a + |m.gap|;
    assert forall k :: 0 <= k < |t| ==> s[k] == t[k];
    forall k | 0 <= k < a ensures IsNonSpace(s[k]) { assert t[k] == m.status[k]; }
    forall k | a <= k < g ensures IsSpace(s[k]) { assert t[k] == m.gap[k - a]; }
    assert t[a] == m.gap[0] && t[g] == m.file[0];
    SpanEndIsUnique(s, 0, a, IsNonSpace);
    var b := SpanEnd(s, a, IsSpace);
    assert b >= g;
    assert s[..a] == m.status;
    if b == |s| {
      assert a < g < b && IsFileChar(s[g]);
    }
  }

  /** The `status` group of a line's leftmost match, if the pattern matches the line. */
  function LineStatus(line: string): (r: Option<string>)
    ensures r.Some? ==> |r.value| > 0 && All(r.value, IsNonSpace)
  {
    match FirstMatch(line, 0, StatusAt)
    case Some((k, st)) =>
      StatusAtRun(line[k..]);
      Some(st)
    case None => None
  }

  /** The status `StatusAt` finds is a run of non-space characters. */
  lemma StatusAtRun(s: string)
    requires StatusAt(s).Some?
    ensures All(StatusAt(s).value, IsNonSpace)
  {
    var a := SpanEnd(s, 0, IsNonSpace);
    SpanEndRun(s, 0, IsNonSpace);
    forall j | 0 <= j < a ensures IsNonSpace(s[..a][j]) { assert s[..a][j] == s[j]; }
  }

  /** A line's status is the status of its leftmost match, whichever match that is. */
  lemma LineStatusLeftmost(line: string, i: int, m: StatusMatch)
    requires StatusMatchesAt(line, i, m)
    requires forall j, m' :: 0 <= j < i ==> !StatusMatchesAt(line, j, m')
    ensures LineStatus(line) == Some(m.status)
  {
    StatusAtComplete(line[i..], m);
    var r := FirstMatch(line, 0, StatusAt);
    assert r.Some?;
    var j := r.value.0;
    if j < i {
      StatusAtSound(line[j..]);
      var m' :| StatusMatchesAt(line[j..], 0, m') && m'.status == r.value.1;
      assert line[j..][0..] == line[j..];
      assert StatusMatchesAt(line, j, m');
    }
  }

  /** A line the pattern matches nowhere has no status and changes neither flag. */
  lemma LineStatusNoMatch(line: string)
    requires forall i, m :: !StatusMatchesAt(line, i, m)
    ensures LineStatus(line) == None
  {
    var r := FirstMatch(line, 0, StatusAt);
    if r.Some? {
      var j := r.value.0;
      StatusAtSound(line[j..]);
      var m' :| StatusMatchesAt(line[j..], 0, m') && m'.status == r.value.1;
      assert line[j..][0..] == line[j..];
      assert StatusMatchesAt(line, j, m');
    }
  }

  /** Some line among the first `n` has the status `??`. */
  ghost predicate UntrackedIn(lines: seq<string>, n: int) {
    exists k :: 0 <= k < n && k < |lines| && LineStatus(lines[k]) == Some("??")
  }

  /** Some line among the first `n` has a status other than `??`. */
  ghost predicate ModifiedIn(lines: seq<string>, n: int) {
    exists k :: 0 <= k < n && k < |lines| && LineStatus(lines[k]).Some? && LineStatus(lines[k]).value != "??"
  }

  /**
   * `getStatus`: `untracked` when some line's status is `??`, `modified` when some line's
   * status is anything else. The loop stops early once both are set; that does not change
   * the result, since the flags never go back to false.
   */
  method GetStatus(stdout: string) returns (modified: bool, untracked: bool)
    ensures untracked <==> UntrackedIn(Split(stdout, '\n'), |Split(stdout, '\n')|)
    ensures modified <==> ModifiedIn(Split(stdout, '\n'), |Split(stdout, '\n')|)
  {
    var lines := Split(stdout, '\n');
    modified, untracked := false, false;
    var i := 0;
    while i < |lines|
      invariant 0 <= i <= |lines|
      invariant untracked <==> UntrackedIn(lines, i)
      invariant modified <==> ModifiedIn(lines, i)
    {
      FlagsStep(lines, i);
      var status := LineStatus(lines[i]);
      if status.Some? {
        if status.value == "??" {
          untracked := true;
        } else {
          modified := true;
        }
      }
      if untracked && modified {
        FlagsStay(lines, i + 1);
        break;
      }
      i := i + 1;
    }
  }

  lemma FlagsStep(lines: seq<string>, i: int)
    requires 0 <= i < |lines|
    ensures UntrackedIn(lines, i + 1) <==> UntrackedIn(lines, i) || LineStatus(lines[i]) == Some("??")
    ensures ModifiedIn(lines, i + 1) <==>
      (ModifiedIn(lines, i) || (LineStatus(lines[i]).Some? && LineStatus(lines[i]).value != "??"))
  {
  }

  /** A flag that some prefix of the lines sets is set by all of them. */
  lemma FlagsStay(lines: seq<string>, i: int)
    requires 0 <= i <= |lines|
    ensures UntrackedIn(lines, i) ==> UntrackedIn(lines, |lines|)
    ensures ModifiedIn(lines, i) ==> ModifiedIn(lines, |lines|)
  {
  }

  /** Output in which no line matches the status pattern sets neither flag. */
  lemma StatusNoMatches(stdout: string)
    requires forall k, i, m :: 0 <= k < |Split(stdout, '\n')| ==> !StatusMatchesAt(Split(stdout, '\n')[k], i, m)
    ensures var lines := Split(stdout, '\n');
      !UntrackedIn(lines, |lines|) && !ModifiedIn(lines, |lines|)
  {
    var lines := Split(stdout, '\n');
    forall k | 0 <= k < |lines| ensures LineStatus(lines[k]) == None {
      LineStatusNoMatch(lines[k]);
    }
  }

  /** Empty output, a clean working tree, sets neither flag. */
  lemma EmptyStatus()
    ensures var lines := Split("", '\n');
      !UntrackedIn(lines, |lines|) && !ModifiedIn(lines, |lines|)
  {
    assert Split("", '\n') == [""];
    forall k, i, m | 0 <= k < |Split("", '\n')| ensures !StatusMatchesAt(Split("", '\n')[k], i, m) { }
    StatusNoMatches("");
  }
}
