/**
 * `replaceTokens`: every enumerated file is read, each placeholder occurrence is resolved
 * against the value map and the case-style registry, and in apply mode the file is written
 * back. Failures are collected per file; a non-empty collection fails the whole call,
 * otherwise the set of names that had no (or an empty) value is returned.
 */
module Templating {
  import opened Wrappers
  import opened JsText
  import opened TokenSyntax

  /** Why processing one file failed: the two errors the replacer throws, or a failed read. */
  datatype Failure =
    | TokenNotFound(token: string)
    | CaseNotSupported(caseType: string)
    | ReadFailed(reason: string)

  function Message(f: Failure): string {
    match f
    case TokenNotFound(t) => "Token " + t + " not found in config"
    case CaseNotSupported(c) => "Case type " + c + " not supported"
    case ReadFailed(reason) => reason
  }

  /** One entry of the `errors` list: the file and what went wrong in it. */
  datatype FileError = FileError(file: string, failure: Failure)

  function Describe(e: FileError): string {
    e.file + ": " + Message(e.failure)
  }

  const BATCH_HEADER := "Errors occurred while processing the following files:"

  function Descriptions(errors: seq<FileError>): (lines: seq<string>)
    ensures |lines| == |errors|
    ensures forall k :: 0 <= k < |errors| ==> lines[k] == Describe(errors[k])
  {
    seq(|errors|, k requires 0 <= k < |errors| => Describe(errors[k]))
  }

  /** The message of the error thrown at the end of a pass that collected errors. */
  function BatchMessage(errors: seq<FileError>): (m: string)
    ensures |BATCH_HEADER| < |m| && m[..|BATCH_HEADER| + 1] == BATCH_HEADER + "\n"
    ensures errors == [] ==> m == BATCH_HEADER + "\n"
  {
    BATCH_HEADER + "\n" + Join(Descriptions(errors), '\n')
  }

  /** After its header line, the message names every failed file on a line of its own, in order. */
  lemma BatchMessageLines(errors: seq<FileError>)
    requires |errors| > 0
    requires forall k :: 0 <= k < |errors| ==> '\n' !in Describe(errors[k])
    ensures var m := BatchMessage(errors);
      var start := |BATCH_HEADER| + 1;
      start <= |m| && m[..start] == BATCH_HEADER + "\n"
      && Split(m[start..], '\n') == Descriptions(errors)
  {
    var m := BatchMessage(errors);
    var start := |BATCH_HEADER| + 1;
    assert m[start..] == Join(Descriptions(errors), '\n');
    SplitJoin(Descriptions(errors), '\n');
  }

  /** The inputs of one call: the value map, the case-style registry and the mode. */
  datatype Config = Config(
    tokensMap: map<string, string>,
    registry: map<string, string -> string>,
    isDryRun: bool)

  /** `!tokensMap[token]`: an absent name and an empty value both count as missing. */
  predicate Missing(tokensMap: map<string, string>, name: string) {
    name !in tokensMap || tokensMap[name] == ""
  }

  /** An occurrence apply mode can substitute: a non-empty value and, if any, a known case style. */
  predicate Resolvable(p: Placeholder, cfg: Config) {
    !Missing(cfg.tokensMap, p.name)
    && (p.caseType.Some? ==> p.caseType.value in cfg.registry)
  }

  /** What apply mode puts in place of a resolvable occurrence. */
  function Resolved(p: Placeholder, cfg: Config): string
    requires Resolvable(p, cfg)
  {
    var value := cfg.tokensMap[p.name];
    match p.caseType
    case None => value
    case Some(style) => cfg.registry[style](value)
  }

  /** What the replacer does with one occurrence: return a string, or throw. */
  datatype Replacement = Value(text: string) | Thrown(failure: Failure)

  /** The `replacer` closure, following its checks in order: the value first, then the case style. */
  function Replace(p: Placeholder, cfg: Config): (r: Replacement)
    ensures cfg.isDryRun ==> r == Value(Text(p))
    ensures r.Thrown? <==> !cfg.isDryRun && !Resolvable(p, cfg)
    ensures r.Thrown? && Missing(cfg.tokensMap, p.name) ==> r.failure == TokenNotFound(p.name)
    ensures r.Thrown? && !Missing(cfg.tokensMap, p.name) ==> r.failure == CaseNotSupported(p.caseType.value)
    ensures !cfg.isDryRun && Resolvable(p, cfg) ==> r == Value(Resolved(p, cfg))
  {
    if Missing(cfg.tokensMap, p.name) && !cfg.isDryRun then
      Thrown(TokenNotFound(p.name))
    else if p.caseType.Some? && p.caseType.value !in cfg.registry then
      if cfg.isDryRun then Value(Text(p)) else Thrown(CaseNotSupported(p.caseType.value))
    else if cfg.isDryRun then
      Value(Text(p))
    else
      Value(Resolved(p, cfg))
  }

  /** The names the replacer adds to `tokens` for one occurrence, in either mode. */
  function Discovered(p: Placeholder, cfg: Config): set<string> {
    if Missing(cfg.tokensMap, p.name) then {p.name} else {}
  }

  /** The result of `content.replace(pattern, replacer)` and the names it added to `tokens`. */
  datatype Rewritten =
    | Completed(text: string, found: set<string>)
    | Aborted(failure: Failure, found: set<string>)

  function Prepend(text: string, found: set<string>, r: Rewritten): Rewritten {
    match r
    case Completed(t, f) => Completed(text + t, found + f)
    case Aborted(e, f) => Aborted(e, found + f)
  }

  /** Runs the replacer over the occurrences left to right; the first throw ends the scan. */
  function ReplaceSegments(segs: seq<Segment>, cfg: Config): (r: Rewritten)
    ensures forall n :: n in r.found ==> Missing(cfg.tokensMap, n) && Mentions(segs, n)
  {
    if segs == [] then Completed("", {})
    else
      MentionsCons(segs);
      match segs[0]
      case Verbatim(c) => Prepend([c], {}, ReplaceSegments(segs[1..], cfg))
      case Token(p) =>
        match Replace(p, cfg)
        case Thrown(f) => Aborted(f, Discovered(p, cfg))
        case Value(v) => Prepend(v, Discovered(p, cfg), ReplaceSegments(segs[1..], cfg))
  }

  /** One file's `content.replace(pattern, replacer)`. */
  function Rewrite(content: string, cfg: Config): (r: Rewritten)
    ensures forall n :: n in r.found ==> Missing(cfg.tokensMap, n) && Mentions(Segments(content), n)
  {
    ReplaceSegments(Segments(content), cfg)
  }

  /**
   * Dry run copies every occurrence verbatim, so the text comes back unchanged, and it
   * discovers exactly the missing names among the occurrences.
   */
  lemma {:induction false} DryRunSegments(segs: seq<Segment>, cfg: Config)
    requires cfg.isDryRun
    ensures var r := ReplaceSegments(segs, cfg);
      r == Completed(Flatten(segs), r.found)
      && forall n :: n in r.found <==> Missing(cfg.tokensMap, n) && Mentions(segs, n)
  {
    if segs != [] {
      DryRunSegments(segs[1..], cfg);
      MentionsCons(segs);
    }
  }

  lemma {:induction false} DryRunKeepsContent(content: string, cfg: Config)
    requires cfg.isDryRun
    ensures var r := Rewrite(content, cfg);
      r == Completed(content, r.found)
      && forall n :: n in r.found <==> Missing(cfg.tokensMap, n) && Mentions(Segments(content), n)
  {
    DryRunSegments(Segments(content), cfg);
  }

  /** What apply mode turns a segment into when nothing throws. */
  function Substituted(seg: Segment, cfg: Config): string {
    match seg
    case Verbatim(c) => [c]
    case Token(p) => if Resolvable(p, cfg) then Resolved(p, cfg) else Text(p)
  }

  function Expansion(segs: seq<Segment>, cfg: Config): string {
    if segs == [] then "" else Substituted(segs[0], cfg) + Expansion(segs[1..], cfg)
  }

  /** The index of an occurrence apply mode cannot substitute. */
  ghost predicate Unresolvable(segs: seq<Segment>, k: int, cfg: Config) {
    0 <= k < |segs| && segs[k].Token? && !Resolvable(segs[k].p, cfg)
  }

  /**
   * Apply mode's outcome for a file: it completes exactly when every occurrence is
   * resolvable, and then it has substituted each of them and discovered nothing; otherwise
   * it fails with the error of the first occurrence it cannot substitute.
   */
  ghost predicate ApplyOutcome(segs: seq<Segment>, r: Rewritten, cfg: Config) {
    (r.Aborted? <==> exists k :: Unresolvable(segs, k, cfg))
    && (r.Completed? ==> r == Completed(Expansion(segs, cfg), {}))
    && (r.Aborted? ==> exists k :: (Unresolvable(segs, k, cfg)
          && Replace(segs[k].p, cfg) == Thrown(r.failure)
          && forall j :: 0 <= j < k ==> !Unresolvable(segs, j, cfg)))
  }

  lemma {:induction false} ApplySegments(segs: seq<Segment>, cfg: Config)
    requires !cfg.isDryRun
    ensures ApplyOutcome(segs, ReplaceSegments(segs, cfg), cfg)
  {
    if segs != [] {
      ApplySegments(segs[1..], cfg);
      var r := ReplaceSegments(segs, cfg);
      var tail := segs[1..];
      assert forall k :: Unresolvable(tail, k, cfg) ==> Unresolvable(segs, k + 1, cfg);
      assert forall k :: 0 < k && Unresolvable(segs, k, cfg) ==> Unresolvable(tail, k - 1, cfg);
      if Unresolvable(segs, 0, cfg) {
        assert r.Aborted? && Replace(segs[0].p, cfg) == Thrown(r.failure);
      } else if r.Aborted? {
        var k :| Unresolvable(tail, k, cfg) && Replace(tail[k].p, cfg) == Thrown(r.failure)
          && forall j :: 0 <= j < k ==> !Unresolvable(tail, j, cfg);
        assert Unresolvable(segs, k + 1, cfg);
        forall j | 0 <= j < k + 1 ensures !Unresolvable(segs, j, cfg) {
          if j > 0 { assert !Unresolvable(tail, j - 1, cfg); }
        }
      }
    }
  }

  lemma {:induction false} ApplyRewrite(content: string, cfg: Config)
    requires !cfg.isDryRun
    ensures ApplyOutcome(Segments(content), Rewrite(content, cfg), cfg)
  {
    ApplySegments(Segments(content), cfg);
  }

  /**
   * Substitution is a single pass and its output is not scanned again, so the output can
   * hold a placeholder whose name the value map resolves: here the value of `a` is itself
   * the text `{{b}}`, and it stays in the output as it is.
   */
  lemma OutputMayHoldPlaceholders()
    ensures var cfg := Config(map["a" := "{{b}}", "b" := "x"], map[], false);
      Rewrite("{{a}}", cfg) == Completed("{{b}}", {})
      && TokenAt("{{b}}") == Some(Placeholder("b", None))
      && Resolvable(Placeholder("b", None), cfg)
  {
    var cfg := Config(map["a" := "{{b}}", "b" := "x"], map[], false);
    var a, b := Placeholder("a", None), Placeholder("b", None);
    assert Text(a) == "{{a}}" && Text(b) == "{{b}}";
    assert "a" in cfg.tokensMap && cfg.tokensMap["a"] == "{{b}}";
    assert "b" in cfg.tokensMap && cfg.tokensMap["b"] == "x";
    RewriteOneToken(a, cfg);
    TokenAtComplete("{{b}}", b);
  }

  /** A text that is one resolvable placeholder becomes its value, and nothing is discovered. */
  lemma RewriteOneToken(p: Placeholder, cfg: Config)
    requires WellFormed(p) && !cfg.isDryRun && Resolvable(p, cfg)
    ensures Rewrite(Text(p), cfg) == Completed(Resolved(p, cfg), {})
  {
    var s := Text(p);
    TokenAtComplete(s, p);
    TokenStep(s, p);
    assert s[|s|..] == [];
    assert ReplaceSegments([Token(p)], cfg) == Prepend(Resolved(p, cfg), {}, ReplaceSegments([], cfg));
  }

  /** Where a placeholder starts, the scan takes all of its text in one segment. */
  lemma TokenStep(s: string, p: Placeholder)
    requires TokenAt(s) == Some(p)
    ensures Segments(s) == [Token(p)] + Segments(s[|Text(p)|..])
  {
  }
}
