/**
 * RubyMemcheck::Configuration: the Valgrind command line it builds (base options,
 * suppression files found along a Ruby-version fallback chain, optional XML output)
 * and the rule that decides whether a reported error stack is skipped.
 */
module RubyMemcheck {
  import opened Wrappers
  import opened RubyString
  import opened RubyFile

  /**
   * The process constants the configuration reads: RUBY_ENGINE, RUBY_VERSION,
   * RUBY_PATCHLEVEL and FileUtils::RUBY (the path of the running ruby).
   */
  datatype Runtime = Runtime(engine: string, version: string, patchlevel: int, executable: string)

  /** One frame of a Valgrind error stack; `obj` is absent when Valgrind named no object file. */
  datatype Frame = Frame(fn: string, obj: Option<string>)

  /** The exception `File.basename(nil)` raises inside frame_in_ruby?. */
  datatype Error = TypeError

  /** The two regexp shapes of the skip list: `/\Aname/` (a prefix) and `/\Aname\z/` (the whole name). */
  datatype Matcher = Prefix(s: string) | Exact(s: string)

  /** `regexp.match?(fn)` for the two shapes. */
  predicate Matches(m: Matcher, fn: string)
  {
    match m
    case Prefix(p) => p <= fn
    case Exact(p) => fn == p
  }

  /** `matchers.any? { |r| r.match?(fn) }`. */
  predicate AnyMatches(ms: seq<Matcher>, fn: string)
  {
    exists i | 0 <= i < |ms| :: Matches(ms[i], fn)
  }

  const DefaultValgrind: string := "valgrind"

  const DefaultValgrindOptions: seq<string> := [
    "--num-callers=50",
    "--error-limit=no",
    "--undef-value-errors=no",
    "--leak-check=full",
    "--show-leak-kinds=definite"
  ]

  const DefaultValgrindSuppressionsDir: string := "suppressions"

  const DefaultSkippedRubyFunctions: seq<Matcher> := [
    Prefix("rb_check_funcall"),
    Exact("rb_enc_raise"),
    Exact("rb_exc_raise"),
    Prefix("rb_funcall"),
    Prefix("rb_intern"),
    Exact("rb_ivar_set"),
    Exact("rb_raise"),
    Prefix("rb_rescue"),
    Exact("rb_respond_to"),
    Prefix("rb_yield")
  ]

  // ---------------------------------------------------------------------------
  // Suppression files

  /** "<engine>-<version>.<patchlevel>", the most specific version name. */
  function FullRubyVersion(rt: Runtime): string
  {
    rt.engine + "-" + rt.version + "." + IntToString(rt.patchlevel)
  }

  /** The first i dot-separated components of the full version name, re-joined with '.'. */
  function TruncatedVersion(rt: Runtime, i: nat): string
  {
    Join(Take(RubySplit(FullRubyVersion(rt), '.'), i), '.')
  }

  /** The version names suppression files are looked up under, most specific first. */
  function VersionChain(rt: Runtime): seq<string>
  {
    [FullRubyVersion(rt),
     TruncatedVersion(rt, 3), TruncatedVersion(rt, 2), TruncatedVersion(rt, 1), TruncatedVersion(rt, 0),
     rt.engine]
  }

  /** The glob pattern for the suppression files of one version name. */
  function SuppressionPattern(dir: string, binaryName: string, version: string): string
  {
    FileJoin(dir, binaryName + "_" + version + ".supp")
  }

  /** The glob results of every version's pattern, concatenated in the order of `versions`. */
  function GlobSuppressions(dir: string, binaryName: string, versions: seq<string>, glob: string -> seq<string>): (r: seq<string>)
    ensures forall f :: f in r <==> exists k | 0 <= k < |versions| :: f in glob(SuppressionPattern(dir, binaryName, versions[k]))
  {
    if versions == [] then []
    else
      var rest := GlobSuppressions(dir, binaryName, versions[1..], glob);
      assert forall k | 1 <= k < |versions| :: versions[k] == versions[1..][k - 1];
      glob(SuppressionPattern(dir, binaryName, versions[0])) + rest
  }

  /** All suppression files found in `dir` for the binary along the version chain. */
  function SuppressionFiles(dir: string, binaryName: string, rt: Runtime, glob: string -> seq<string>): seq<string>
  {
    GlobSuppressions(dir, binaryName, VersionChain(rt), glob)
  }

  /**
   * get_valgrind_suppression_files: builds the version chain step by step and globs each
   * entry; `glob` stands for `Dir[...]`.
   */
  method GetValgrindSuppressionFiles(dir: string, binaryName: string, rt: Runtime, glob: string -> seq<string>)
    returns (files: seq<string>)
    ensures files == SuppressionFiles(dir, binaryName, rt, glob)
  {
    var fullRubyVersion := FullRubyVersion(rt);
    var versions := [fullRubyVersion];
    for i := 4 downto 0
      invariant |versions| == 5 - i
      invariant versions[0] == fullRubyVersion
      invariant forall k | 1 <= k < |versions| :: versions[k] == TruncatedVersion(rt, 4 - k)
    {
      versions := versions + [Join(Take(RubySplit(fullRubyVersion, '.'), i), '.')];
    }
    versions := versions + [rt.engine];
    assert versions[1] == TruncatedVersion(rt, 3) && versions[2] == TruncatedVersion(rt, 2);
    assert versions[3] == TruncatedVersion(rt, 1) && versions[4] == TruncatedVersion(rt, 0);
    assert versions == VersionChain(rt);
    files := GlobSuppressions(dir, binaryName, versions, glob);
  }

  // ---------------------------------------------------------------------------
  // Valgrind options

  /** One `--suppressions=<file>` flag per file, in order. */
  function SuppressionFlags(files: seq<string>): (r: seq<string>)
    ensures |r| == |files|
    ensures forall k | 0 <= k < |files| :: r[k] == "--suppressions=" + files[k]
  {
    seq(|files|, k requires 0 <= k < |files| => "--suppressions=" + files[k])
  }

  /** The XML output flags, when an XML file is given. */
  function XmlFlags(xmlFile: Option<string>): seq<string>
  {
    match xmlFile
    case None => []
    case Some(path) => ["--xml=yes", "--xml-file=" + path]
  }

  /** The option list initialize builds. */
  function ValgrindOptions(base: seq<string>, files: seq<string>, xmlFile: Option<string>): (r: seq<string>)
    ensures |r| == |base| + |files| + (if xmlFile.Some? then 2 else 0)
    ensures r[..|base|] == base
    ensures forall k | 0 <= k < |files| :: r[|base| + k] == "--suppressions=" + files[k]
    ensures xmlFile.Some? ==> r[|r| - 2] == "--xml=yes" && r[|r| - 1] == "--xml-file=" + xmlFile.value
  {
    base + SuppressionFlags(files) + XmlFlags(xmlFile)
  }

  // ---------------------------------------------------------------------------
  // The skip decision over a stack

  /** What skip_stack? learns from one frame. */
  datatype Step =
    | Raises                     // frame_in_ruby? raised: the frame names no object file
    | InRuby(skippable: bool)    // a Ruby frame; whether its function is on the skip list
    | InBinary(isInit: bool)     // a binary frame; whether it is the binary's Init function
    | Elsewhere                  // neither: another library, or an unknown object

  /** The position of the first binary step, or |steps| when there is none. */
  function FirstBinary(steps: seq<Step>): (r: nat)
    ensures r <= |steps|
    ensures forall j | 0 <= j < r :: !steps[j].InBinary?
    ensures r < |steps| ==> steps[r].InBinary?
  {
    if steps == [] || steps[0].InBinary? then 0 else 1 + FirstBinary(steps[1..])
  }

  /** Step k is a skippable Ruby frame that comes before the first binary frame. */
  predicate RubySkipAt(steps: seq<Step>, k: nat)
    requires k < |steps|
  {
    steps[k] == InRuby(true) && k < FirstBinary(steps)
  }

  /** Step k is the binary's Init function. */
  predicate InitSkipAt(steps: seq<Step>, k: nat)
    requires k < |steps|
  {
    steps[k] == InBinary(true)
  }

  /** Step k ends the scan with a skip. */
  predicate ExitAt(steps: seq<Step>, k: nat)
    requires k < |steps|
  {
    RubySkipAt(steps, k) || InitSkipAt(steps, k)
  }

  /** No step before position k ends the scan with a skip. */
  predicate NoExitBefore(steps: seq<Step>, k: nat)
    requires k <= |steps|
  {
    forall j | 0 <= j < k :: !ExitAt(steps, j)
  }

  /**
   * The decision of skip_stack?, stated without the scan: it raises when it reaches a
   * frame without an object file before any skip; otherwise the stack is skipped exactly
   * when no frame is the binary's, or a skippable Ruby frame comes before the first binary
   * frame, or some binary frame is the Init function.
   */
  function Decide(steps: seq<Step>): Result<bool, Error>
  {
    if exists k | 0 <= k < |steps| :: steps[k] == Raises && NoExitBefore(steps, k) then Failure(TypeError)
    else Success(FirstBinary(steps) == |steps| || exists k | 0 <= k < |steps| :: ExitAt(steps, k))
  }

  /** No step before position i raises or ends the scan with a skip. */
  predicate ClearBefore(steps: seq<Step>, i: nat)
    requires i <= |steps|
  {
    forall j | 0 <= j < i :: steps[j] != Raises && !ExitAt(steps, j)
  }

  /** A scan that reaches a raising step before any skip raises. */
  lemma DecideRaises(steps: seq<Step>, i: nat)
    requires i < |steps| && steps[i] == Raises && ClearBefore(steps, i)
    ensures Decide(steps) == Failure(TypeError)
  {
    assert NoExitBefore(steps, i);
  }

  /** A scan that reaches a skip before any raising step skips. */
  lemma DecideExits(steps: seq<Step>, i: nat)
    requires i < |steps| && ExitAt(steps, i) && ClearBefore(steps, i)
    ensures Decide(steps) == Success(true)
  {
    forall k | 0 <= k < |steps| && steps[k] == Raises
      ensures i < k && !NoExitBefore(steps, k)
    {
    }
  }

  /** A scan that passes every step skips exactly when no step is a binary one. */
  lemma DecideCompletes(steps: seq<Step>)
    requires ClearBefore(steps, |steps|)
    ensures Decide(steps) == Success(FirstBinary(steps) == |steps|)
  {
    forall k | 0 <= k < |steps| ensures steps[k] != Raises && !ExitAt(steps, k) {
    }
  }

  /** What one more step does to the scan: it may enter the binary, and when it ends the scan with a skip. */
  lemma ScanStep(steps: seq<Step>, i: nat)
    requires i < |steps|
    ensures (FirstBinary(steps) < i + 1) == (FirstBinary(steps) < i || steps[i].InBinary?)
    ensures ExitAt(steps, i) <==> (steps[i] == InRuby(true) && !(FirstBinary(steps) < i)) || steps[i] == InBinary(true)
  {
  }

  /** Passing one more step keeps the scan clear. */
  lemma ClearStep(steps: seq<Step>, i: nat)
    requires i < |steps| && ClearBefore(steps, i)
    requires steps[i] != Raises && !ExitAt(steps, i)
    ensures ClearBefore(steps, i + 1)
  {
  }

  // ---------------------------------------------------------------------------
  // The configuration

  class Configuration {
    const binaryName: string
    const ruby: string
    const valgrind: string
    const valgrindOptions: seq<string>
    const skippedRubyFunctions: seq<Matcher>
    const valgrindXmlFile: Option<string>
    /** The process constants read by frame_in_ruby? and the suppression lookup. */
    const runtime: Runtime

    /**
     * initialize: the option list is the given one, then a flag per suppression file,
     * then the XML flags when an XML file is given; the skip list plays no part in it.
     */
    constructor (binaryName: string, runtime: Runtime, glob: string -> seq<string>, valgrindXmlFile: Option<string>,
                 ruby: string := runtime.executable,
                 valgrind: string := DefaultValgrind,
                 valgrindOptions: seq<string> := DefaultValgrindOptions,
                 valgrindSuppressionsDir: string := DefaultValgrindSuppressionsDir,
                 skippedRubyFunctions: seq<Matcher> := DefaultSkippedRubyFunctions)
      ensures this.binaryName == binaryName && this.ruby == ruby && this.valgrind == valgrind
      ensures this.skippedRubyFunctions == skippedRubyFunctions && this.runtime == runtime
      ensures this.valgrindXmlFile == valgrindXmlFile
      ensures this.valgrindOptions ==
        ValgrindOptions(valgrindOptions, SuppressionFiles(valgrindSuppressionsDir, binaryName, runtime, glob), valgrindXmlFile)
    {
      this.binaryName := binaryName;
      this.ruby := ruby;
      this.valgrind := valgrind;
      this.runtime := runtime;
      var files := GetValgrindSuppressionFiles(valgrindSuppressionsDir, binaryName, runtime, glob);
      this.valgrindOptions := valgrindOptions + SuppressionFlags(files);
      this.skippedRubyFunctions := skippedRubyFunctions;
      this.valgrindXmlFile := None;
      if valgrindXmlFile.Some? {
        this.valgrindXmlFile := valgrindXmlFile;
        this.valgrindOptions := this.valgrindOptions + ["--xml=yes", "--xml-file=" + valgrindXmlFile.value];
      }
    }

    /** command(*args): the Valgrind invocation, words joined by single spaces. */
    function Command(args: seq<string>): string
    {
      valgrind + " " + Join(valgrindOptions, ' ') + " " + ruby + " " + Join(args, ' ')
    }

    /**
     * frame_in_ruby?: the frame is in the ruby executable, or in a shared libruby of the
     * running version; a frame without an object file raises (File.basename(nil)).
     */
    function FrameInRuby(frame: Frame): (r: Result<bool, Error>)
      ensures r.Failure? <==> frame.obj.None?
      ensures frame.obj == Some(ruby) ==> r == Success(true)
    {
      if frame.obj == Some(ruby) then Success(true)
      else
        match frame.obj
        case None => Failure(TypeError)
        case Some(o) => Success(Basename(o) == "libruby.so." + runtime.version)
    }

    /** frame_in_binary?: the object file, without directory and last extension, is the binary's name. */
    function FrameInBinary(frame: Frame): (r: bool)
      ensures r ==> frame.obj.Some? && binaryName <= Basename(frame.obj.value)
    {
      match frame.obj
      case None => false
      case Some(o) => BasenameWithoutExtension(o) == binaryName
    }

    /** The name of the binary's initialisation function. */
    function InitFunction(): string
    {
      "Init_" + binaryName
    }

    /**
     * What skip_stack? learns from one frame: Ruby classification is tried first, and
     * the binary test only when it fails.
     */
    function StepOf(frame: Frame): (st: Step)
      ensures st == Raises <==> frame.obj.None?
      ensures st.InRuby? <==> FrameInRuby(frame) == Success(true)
      ensures st.InBinary? <==> FrameInRuby(frame) == Success(false) && FrameInBinary(frame)
      ensures st.InRuby? ==> st.skippable == AnyMatches(skippedRubyFunctions, frame.fn)
      ensures st.InBinary? ==> (st.isInit <==> frame.fn == InitFunction())
    {
      match FrameInRuby(frame)
      case Failure(_) => Raises
      case Success(inRuby) =>
        if inRuby then InRuby(AnyMatches(skippedRubyFunctions, frame.fn))
        else if FrameInBinary(frame) then InBinary(frame.fn == InitFunction())
        else Elsewhere
    }

    /** The step of every frame of the stack, innermost first. */
    function Steps(stack: seq<Frame>): (r: seq<Step>)
      ensures |r| == |stack|
    {
      if stack == [] then [] else [StepOf(stack[0])] + Steps(stack[1..])
    }

    /** The step at position i of a stack is the step of its frame i. */
    lemma {:induction false} StepsAt(stack: seq<Frame>, i: nat)
      requires i < |stack|
      ensures Steps(stack)[i] == StepOf(stack[i])
    {
      if i > 0 {
        StepsAt(stack[1..], i - 1);
      }
    }

    /** skip_stack?: one scan from the innermost frame outwards, remembering whether the binary was entered. */
    method SkipStack(stack: seq<Frame>) returns (r: Result<bool, Error>)
      ensures r == Decide(Steps(stack))
    {
      ghost var steps := Steps(stack);
      var inBinary := false;
      var i := 0;
      while i < |stack|
        invariant 0 <= i <= |stack|
        invariant inBinary == (FirstBinary(steps) < i)
        invariant ClearBefore(steps, i)
      {
        var frame := stack[i];
        var fn := frame.fn;
        StepsAt(stack, i);
        ScanStep(steps, i);
        var inRuby := FrameInRuby(frame);
        if inRuby.Failure? {
          DecideRaises(steps, i);
          return Failure(inRuby.error);
        }
        if inRuby.value {
          assert steps[i] == InRuby(AnyMatches(skippedRubyFunctions, fn));
          if !inBinary {
            if AnyMatches(skippedRubyFunctions, fn) {
              DecideExits(steps, i);
              return Success(true);
            }
          }
        } else if FrameInBinary(frame) {
          assert steps[i] == InBinary(fn == InitFunction());
          if fn == InitFunction() {
            DecideExits(steps, i);
            return Success(true);
          }
          inBinary := true;
        } else {
          assert steps[i] == Elsewhere;
        }
        ClearStep(steps, i);
        i := i + 1;
      }
      DecideCompletes(steps);
      return Success(!inBinary);
    }
  }
}
