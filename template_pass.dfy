/**
 * The file loop of `replaceTokens`: each enumerated file is read and rewritten (and, in
 * apply mode, written back); a failure in one file is recorded as `file: message` and the
 * loop goes on. The glob enumeration is an input sequence of paths; the disk is a map
 * from path to entry, where an entry may refuse to be read.
 */
module TemplatePass {
  import opened Wrappers
  import opened TokenSyntax
  import opened Templating

  /** What is found at a path: a text file, or one whose read fails with the given reason. */
  datatype Entry = File(content: string) | Unreadable(reason: string)

  /** `readFile(path, 'utf8')`: fails for a path that is not there or cannot be read. */
  function Read(files: map<string, Entry>, path: string): (r: Result<string, string>)
    ensures r.Success? <==> path in files && files[path].File?
    ensures r.Success? ==> r.value == files[path].content
  {
    if path !in files then Failure("ENOENT: no such file or directory, open '" + path + "'")
    else
      match files[path]
      case File(content) => Success(content)
      case Unreadable(reason) => Failure(reason)
  }

  /** The shared state of the loop: the disk, the `tokens` set and the `errors` list. */
  datatype PassState = PassState(files: map<string, Entry>, tokens: set<string>, errors: seq<FileError>)

  /** One iteration of the loop, for one path. */
  function Step(st: PassState, path: string, cfg: Config): (next: PassState)
    ensures next.files.Keys == st.files.Keys
    ensures cfg.isDryRun ==> next.files == st.files
    ensures st.tokens <= next.tokens
    ensures |st.errors| <= |next.errors| <= |st.errors| + 1 && next.errors[..|st.errors|] == st.errors
    ensures |next.errors| > |st.errors| ==> next.errors[|st.errors|].file == path
  {
    match Read(st.files, path)
    case Failure(reason) =>
      st.(errors := st.errors + [FileError(path, ReadFailed(reason))])
    case Success(content) =>
      match Rewrite(content, cfg)
      case Aborted(f, found) =>
        PassState(st.files, st.tokens + found, st.errors + [FileError(path, f)])
      case Completed(text, found) =>
        PassState(if cfg.isDryRun then st.files else st.files[path := File(text)],
                  st.tokens + found, st.errors)
  }

  /** A step changes at most the entry of its own path. */
  lemma StepFrame(st: PassState, path: string, cfg: Config)
    ensures var next := Step(st, path, cfg);
      forall p :: p in st.files && p != path ==> next.files[p] == st.files[p]
  {
  }

  /** The loop over the enumerated paths, in order, starting from the disk `fs0`. */
  function Pass(fs0: map<string, Entry>, paths: seq<string>, cfg: Config): (st: PassState)
    ensures st.files.Keys == fs0.Keys
    ensures |st.errors| <= |paths|
    decreases |paths|
  {
    if paths == [] then PassState(fs0, {}, [])
    else Step(Pass(fs0, paths[..|paths| - 1], cfg), paths[|paths| - 1], cfg)
  }

  /**
   * The pass touches only enumerated paths: every other entry of the disk stays as it was,
   * and every collected error names an enumerated path.
   */
  lemma {:induction false} PassFrame(fs0: map<string, Entry>, paths: seq<string>, cfg: Config)
    ensures var st := Pass(fs0, paths, cfg);
      (forall p :: p in fs0 && p !in paths ==> st.files[p] == fs0[p])
      && forall e :: e in st.errors ==> e.file in paths
    decreases |paths|
  {
    if paths != [] {
      var init := paths[..|paths| - 1];
      PassFrame(fs0, init, cfg);
      StepFrame(Pass(fs0, init, cfg), paths[|paths| - 1], cfg);
      assert forall p :: p in init ==> p in paths;
    }
  }

  /** The end of the call: throw when any error was collected, otherwise return `tokens`. */
  function Outcome(st: PassState): (r: Result<set<string>, seq<FileError>>)
    ensures r.Failure? <==> |st.errors| > 0
    ensures r.Failure? ==> r.error == st.errors
    ensures r.Success? ==> r.value == st.tokens
  {
    if |st.errors| > 0 then Failure(st.errors) else Success(st.tokens)
  }

  /** What goes wrong with a path on the disk `files`, if anything. */
  function FileFailure(files: map<string, Entry>, path: string, cfg: Config): Option<Failure> {
    match Read(files, path)
    case Failure(reason) => Some(ReadFailed(reason))
    case Success(content) =>
      match Rewrite(content, cfg)
      case Aborted(f, _) => Some(f)
      case Completed(_, _) => None
  }

  /** The content a path gets when its rewrite completes. */
  function NewContent(files: map<string, Entry>, path: string, cfg: Config): Option<string> {
    match Read(files, path)
    case Failure(_) => None
    case Success(content) =>
      match Rewrite(content, cfg)
      case Aborted(_, _) => None
      case Completed(text, _) => Some(text)
  }

  /** One error per failing path, in enumeration order, each judged on the disk as it was. */
  function FailureLog(fs0: map<string, Entry>, paths: seq<string>, cfg: Config): seq<FileError>
    decreases |paths|
  {
    if paths == [] then []
    else
      var last := paths[|paths| - 1];
      FailureLog(fs0, paths[..|paths| - 1], cfg)
      + match FileFailure(fs0, last, cfg)
        case Some(f) => [FileError(last, f)]
        case None => []
  }

  /** The glob yields each path once. */
  predicate Distinct(paths: seq<string>) {
    forall a, b :: 0 <= a < b < |paths| ==> paths[a] != paths[b]
  }

  /** Dry run never changes the disk. */
  lemma {:induction false} DryRunWritesNothing(fs0: map<string, Entry>, paths: seq<string>, cfg: Config)
    requires cfg.isDryRun
    ensures Pass(fs0, paths, cfg).files == fs0
  {
    if paths != [] {
      var init := paths[..|paths| - 1];
      DryRunWritesNothing(fs0, init, cfg);
      var last := paths[|paths| - 1];
      match Read(fs0, last)
      case Failure(_) =>
      case Success(content) => DryRunKeepsContent(content, cfg);
    }
  }

  /**
   * Over distinct paths, the pass writes exactly the paths whose rewrite completes, each with
   * its rewritten text (and none in dry run), and leaves every other entry as it was.
   */
  lemma {:induction false} PassFiles(fs0: map<string, Entry>, paths: seq<string>, cfg: Config)
    requires Distinct(paths)
    ensures var out := Pass(fs0, paths, cfg).files;
      out.Keys == fs0.Keys
      && forall p :: p in fs0 ==>
           out[p] == (if !cfg.isDryRun && p in paths && NewContent(fs0, p, cfg).Some?
                      then File(NewContent(fs0, p, cfg).value) else fs0[p])
  {
    if paths != [] {
      var init := paths[..|paths| - 1];
      var last := paths[|paths| - 1];
      assert Distinct(init);
      PassFiles(fs0, init, cfg);
      var before := Pass(fs0, init, cfg).files;
      assert last !in init;
      assert Read(before, last) == Read(fs0, last);
      assert forall p :: p in paths <==> p in init || p == last;
    }
  }

  /** Processing a path that is not yet written sees the disk as it was. */
  lemma {:induction false} UntouchedBefore(fs0: map<string, Entry>, paths: seq<string>, cfg: Config)
    requires Distinct(paths) && |paths| > 0
    ensures var last := paths[|paths| - 1];
      Read(Pass(fs0, paths[..|paths| - 1], cfg).files, last) == Read(fs0, last)
  {
    var init := paths[..|paths| - 1];
    assert Distinct(init);
    PassFiles(fs0, init, cfg);
    assert paths[|paths| - 1] !in init;
  }

  /**
   * Every enumerated path is attempted: the collected errors are one per failing path, in
   * enumeration order, however earlier paths fared.
   */
  lemma {:induction false} PassErrors(fs0: map<string, Entry>, paths: seq<string>, cfg: Config)
    requires cfg.isDryRun || Distinct(paths)
    ensures Pass(fs0, paths, cfg).errors == FailureLog(fs0, paths, cfg)
  {
    if paths != [] {
      var init := paths[..|paths| - 1];
      var last := paths[|paths| - 1];
      assert cfg.isDryRun || Distinct(init);
      PassErrors(fs0, init, cfg);
      if cfg.isDryRun {
        DryRunWritesNothing(fs0, init, cfg);
      } else {
        UntouchedBefore(fs0, paths, cfg);
      }
      StepErrors(Pass(fs0, init, cfg), last, cfg, fs0);
    }
  }

  /** One step adds the error of its path, judged on any disk that reads the path the same way. */
  lemma StepErrors(st: PassState, path: string, cfg: Config, fs0: map<string, Entry>)
    requires Read(st.files, path) == Read(fs0, path)
    ensures Step(st, path, cfg).errors == st.errors
      + match FileFailure(fs0, path, cfg)
        case Some(f) => [FileError(path, f)]
        case None => []
  {
  }

  /** In dry run the only errors are failed reads. */
  lemma {:induction false} DryRunFailsOnlyOnReads(fs0: map<string, Entry>, paths: seq<string>, cfg: Config)
    requires cfg.isDryRun
    ensures forall e :: e in Pass(fs0, paths, cfg).errors ==> e.failure.ReadFailed?
  {
    PassErrors(fs0, paths, cfg);
    FailureLogReads(fs0, paths, cfg);
  }

  lemma {:induction false} FailureLogReads(fs0: map<string, Entry>, paths: seq<string>, cfg: Config)
    requires cfg.isDryRun
    ensures forall e :: e in FailureLog(fs0, paths, cfg) ==> e.failure.ReadFailed?
  {
    if paths != [] {
      FailureLogReads(fs0, paths[..|paths| - 1], cfg);
      match Read(fs0, paths[|paths| - 1])
      case Failure(_) =>
      case Success(content) => DryRunKeepsContent(content, cfg);
    }
  }

  /** The file at `path` can be read and a placeholder in it has the name `name`. */
  ghost predicate FileMentions(fs0: map<string, Entry>, path: string, name: string) {
    Read(fs0, path).Success? && Mentions(Segments(Read(fs0, path).value), name)
  }

  /** A name mentioned by a placeholder in a readable enumerated file. */
  ghost predicate MentionedIn(fs0: map<string, Entry>, paths: seq<string>, name: string) {
    exists k :: 0 <= k < |paths| && FileMentions(fs0, paths[k], name)
  }

  /**
   * Dry run discovers exactly the names that some readable file mentions and the value map
   * leaves absent or empty.
   */
  lemma {:induction false} DryRunTokens(fs0: map<string, Entry>, paths: seq<string>, cfg: Config)
    requires cfg.isDryRun
    ensures forall n :: n in Pass(fs0, paths, cfg).tokens <==>
      Missing(cfg.tokensMap, n) && MentionedIn(fs0, paths, n)
  {
    if paths != [] {
      var init := paths[..|paths| - 1];
      var last := paths[|paths| - 1];
      DryRunTokens(fs0, init, cfg);
      DryRunWritesNothing(fs0, init, cfg);
      forall n ensures MentionedIn(fs0, paths, n) <==>
        MentionedIn(fs0, init, n) || FileMentions(fs0, last, n)
      {
        MentionedInSnoc(fs0, paths, n);
      }
      match Read(fs0, last)
      case Failure(_) =>
      case Success(content) => DryRunKeepsContent(content, cfg);
    }
  }

  lemma MentionedInSnoc(fs0: map<string, Entry>, paths: seq<string>, n: string)
    requires |paths| > 0
    ensures MentionedIn(fs0, paths, n) <==>
      MentionedIn(fs0, paths[..|paths| - 1], n) || FileMentions(fs0, paths[|paths| - 1], n)
  {
    var mentions := path => FileMentions(fs0, path, n);
    ExistsSnoc(paths, mentions);
    assert MentionedIn(fs0, paths, n) <==> Exists(paths, mentions);
    assert MentionedIn(fs0, paths[..|paths| - 1], n) <==> Exists(paths[..|paths| - 1], mentions);
  }

  /** Some element of `xs` satisfies `P`. */
  ghost predicate Exists<T>(xs: seq<T>, P: T -> bool) {
    exists k :: 0 <= k < |xs| && P(xs[k])
  }

  lemma ExistsSnoc<T>(xs: seq<T>, P: T -> bool)
    requires |xs| > 0
    ensures Exists(xs, P) <==> Exists(xs[..|xs| - 1], P) || P(xs[|xs| - 1])
  {
    var init := xs[..|xs| - 1];
    if Exists(init, P) {
      var k :| 0 <= k < |init| && P(init[k]);
      assert xs[k] == init[k];
    }
    if Exists(xs, P) {
      var k :| 0 <= k < |xs| && P(xs[k]);
      if k < |init| {
        assert init[k] == xs[k];
      }
    }
  }

  /**
   * In apply mode a name is only ever discovered together with the error it throws, so a
   * call that returns normally returns the empty set.
   */
  lemma {:induction false} ApplySucceedsEmpty(fs0: map<string, Entry>, paths: seq<string>, cfg: Config)
    requires !cfg.isDryRun
    ensures Outcome(Pass(fs0, paths, cfg)).Success? ==> Outcome(Pass(fs0, paths, cfg)).value == {}
  {
    if paths != [] {
      var init := paths[..|paths| - 1];
      ApplySucceedsEmpty(fs0, init, cfg);
      match Read(Pass(fs0, init, cfg).files, paths[|paths| - 1])
      case Failure(_) =>
      case Success(content) => ApplyRewrite(content, cfg);
    }
  }

  /** Every placeholder of every file can be substituted. */
  ghost predicate AllResolvable(fs0: map<string, Entry>, paths: seq<string>, cfg: Config) {
    forall k :: 0 <= k < |paths| ==>
      (Read(fs0, paths[k]).Success?
       && forall j :: !Unresolvable(Segments(Read(fs0, paths[k]).value), j, cfg))
  }

  /**
   * Applying a value map that covers every placeholder with only known case styles to
   * readable files succeeds, discovers nothing, and writes every file with its expansion.
   */
  lemma {:induction false} ApplyComplete(fs0: map<string, Entry>, paths: seq<string>, cfg: Config)
    requires !cfg.isDryRun && Distinct(paths) && AllResolvable(fs0, paths, cfg)
    ensures Outcome(Pass(fs0, paths, cfg)) == Success({})
    ensures forall k :: 0 <= k < |paths| ==>
      paths[k] in Pass(fs0, paths, cfg).files
      && Pass(fs0, paths, cfg).files[paths[k]]
         == File(Expansion(Segments(fs0[paths[k]].content), cfg))
  {
    PassErrors(fs0, paths, cfg);
    PassFiles(fs0, paths, cfg);
    ApplySucceedsEmpty(fs0, paths, cfg);
    CompleteLogIsEmpty(fs0, paths, cfg);
    forall k | 0 <= k < |paths|
      ensures NewContent(fs0, paths[k], cfg) == Some(Expansion(Segments(fs0[paths[k]].content), cfg))
    {
      ApplyRewrite(fs0[paths[k]].content, cfg);
    }
  }

  lemma {:induction false} CompleteLogIsEmpty(fs0: map<string, Entry>, paths: seq<string>, cfg: Config)
    requires !cfg.isDryRun && AllResolvable(fs0, paths, cfg)
    ensures FailureLog(fs0, paths, cfg) == []
  {
    if paths != [] {
      var init := paths[..|paths| - 1];
      assert AllResolvable(fs0, init, cfg) by {
        forall k | 0 <= k < |init| ensures init[k] == paths[k] { }
      }
      CompleteLogIsEmpty(fs0, init, cfg);
      ApplyRewrite(fs0[paths[|paths| - 1]].content, cfg);
    }
  }

  /** The pass over one more enumerated path is one more `Step`. */
  lemma PassPrefixStep(fs0: map<string, Entry>, paths: seq<string>, i: nat, cfg: Config)
    requires i < |paths|
    ensures Pass(fs0, paths[..i + 1], cfg) == Step(Pass(fs0, paths[..i], cfg), paths[i], cfg)
  {
    assert paths[..i + 1][..i] == paths[..i];
  }

  /** A step whose read fails records the read error and changes nothing else. */
  lemma StepReadFails(st: PassState, path: string, cfg: Config, reason: string)
    requires Read(st.files, path) == Failure(reason)
    ensures Step(st, path, cfg) == st.(errors := st.errors + [FileError(path, ReadFailed(reason))])
  {
  }

  /** A step whose read succeeds adds the rewrite's names, then records its error or writes its text. */
  lemma StepReads(st: PassState, path: string, cfg: Config, content: string)
    requires Read(st.files, path) == Success(content)
    ensures var r := Rewrite(content, cfg);
      Step(st, path, cfg) == match r
        case Aborted(f, found) => PassState(st.files, st.tokens + found, st.errors + [FileError(path, f)])
        case Completed(text, found) =>
          PassState(if cfg.isDryRun then st.files else st.files[path := File(text)],
                    st.tokens + found, st.errors)
  {
  }

  /** The disk, as `readFile` and `writeFile` see it. */
  class FileSystem {
    var files: map<string, Entry>

    constructor (initial: map<string, Entry>)
      ensures files == initial
    {
      files := initial;
    }

    method ReadFile(path: string) returns (r: Result<string, string>)
      ensures r == Read(files, path)
    {
      r := Read(files, path);
    }

    method WriteFile(path: string, content: string)
      modifies this
      ensures files == old(files)[path := File(content)]
    {
      files := files[path := File(content)];
    }
  }

  /** The body of the loop for one path: read it, rewrite it, then record its error or write it. */
  method ProcessFile(fs: FileSystem, path: string, cfg: Config, tokens: set<string>, errors: seq<FileError>)
    returns (tokens': set<string>, errors': seq<FileError>)
    modifies fs
    ensures PassState(fs.files, tokens', errors') == Step(PassState(old(fs.files), tokens, errors), path, cfg)
  {
    ghost var st := PassState(fs.files, tokens, errors);
    tokens', errors' := tokens, errors;
    var read := fs.ReadFile(path);
    match read {
      case Failure(reason) =>
        StepReadFails(st, path, cfg, reason);
        errors' := errors + [FileError(path, ReadFailed(reason))];
      case Success(content) =>
        var replaced := Rewrite(content, cfg);
        StepReads(st, path, cfg, content);
        tokens' := tokens + replaced.found;
        match replaced {
          case Aborted(f, _) =>
            errors' := errors + [FileError(path, f)];
          case Completed(text, _) =>
            if !cfg.isDryRun {
              fs.WriteFile(path, text);
            }
        }
    }
  }

  /** `replaceTokens` over the enumerated `paths`. */
  method ReplaceTokens(fs: FileSystem, cfg: Config, paths: seq<string>)
    returns (r: Result<set<string>, seq<FileError>>)
    modifies fs
    ensures fs.files == Pass(old(fs.files), paths, cfg).files
    ensures r == Outcome(Pass(old(fs.files), paths, cfg))
  {
    var tokens: set<string> := {};
    var errors: seq<FileError> := [];
    var i := 0;
    while i < |paths|
      invariant 0 <= i <= |paths|
      invariant PassState(fs.files, tokens, errors) == Pass(old(fs.files), paths[..i], cfg)
    {
      PassPrefixStep(old(fs.files), paths, i, cfg);
      tokens, errors := ProcessFile(fs, paths[i], cfg, tokens, errors);
      i := i + 1;
    }
    assert paths[..i] == paths;
    if |errors| > 0 {
      r := Failure(errors);
    } else {
      r := Success(tokens);
    }
  }
}
