/**
 * Properties of RubyMemcheck::Configuration: how skip_stack? decides, what the version
 * fallback chain is, in which order suppression files are collected, and how the
 * command line reads back into words.
 */
module ConfigurationProperties {
  import opened Wrappers
  import opened RubyString
  import opened RubyFile
  import opened RubyMemcheck

  /** Proof aid: string concatenation regrouped to the left, as the version lemmas build their names. */
  lemma Assoc(a: string, b: string, c: string)
    ensures a + (b + c) == a + b + c
  {
  }

  // ---------------------------------------------------------------------------
  // skip_stack?, step by step

  /** No step raises: every frame of the stack names an object file. */
  predicate NoRaise(steps: seq<Step>)
  {
    forall j | 0 <= j < |steps| :: steps[j] != Raises
  }

  /**
   * Without raising frames the decision is the declarative one: the stack is skipped
   * exactly when no frame is the binary's, or a skippable Ruby frame comes before the
   * first binary frame, or some binary frame is the Init function.
   */
  lemma DecideWithoutRaise(steps: seq<Step>)
    requires NoRaise(steps)
    ensures Decide(steps) == Success(
      FirstBinary(steps) == |steps| ||
      (exists k | 0 <= k < FirstBinary(steps) :: steps[k] == InRuby(true)) ||
      (exists k | 0 <= k < |steps| :: steps[k] == InBinary(true)))
  {
    if exists k | 0 <= k < FirstBinary(steps) :: steps[k] == InRuby(true) {
      var k :| 0 <= k < FirstBinary(steps) && steps[k] == InRuby(true);
      assert ExitAt(steps, k);
    }
    if exists k | 0 <= k < |steps| :: steps[k] == InBinary(true) {
      var k :| 0 <= k < |steps| && steps[k] == InBinary(true);
      assert ExitAt(steps, k);
    }
  }

  /**
   * A stack with no binary frame is skipped, or the scan raises: frame_in_binary? is what
   * turns a stack into a reportable one.
   */
  lemma SkipWithoutBinarySteps(steps: seq<Step>)
    requires forall j | 0 <= j < |steps| :: !steps[j].InBinary?
    ensures Decide(steps) != Success(false)
    ensures NoRaise(steps) ==> Decide(steps) == Success(true)
  {
    assert FirstBinary(steps) == |steps|;
  }

  /** The Init function of the binary makes the stack skipped wherever it is, if the scan gets there. */
  lemma InitStepSkips(steps: seq<Step>, k: nat)
    requires k < |steps| && steps[k] == InBinary(true)
    requires forall j | 0 <= j < k :: steps[j] != Raises
    ensures Decide(steps) == Success(true)
  {
    assert ExitAt(steps, k);
    forall j | 0 <= j < |steps| && steps[j] == Raises ensures k < j && !NoExitBefore(steps, j) {
    }
  }

  /** A skippable Ruby frame before any binary frame makes the stack skipped, whatever follows. */
  lemma RubyStepBeforeBinarySkips(steps: seq<Step>, k: nat)
    requires k < |steps| && steps[k] == InRuby(true)
    requires forall j | 0 <= j < k :: steps[j] != Raises && !steps[j].InBinary?
    ensures Decide(steps) == Success(true)
  {
    assert FirstBinary(steps) > k;
    assert ExitAt(steps, k);
    forall j | 0 <= j < |steps| && steps[j] == Raises ensures k < j && !NoExitBefore(steps, j) {
    }
  }

  /**
   * From the first binary frame on, Ruby frames no longer matter: when none before it is a
   * skippable Ruby frame, the stack is skipped exactly when a binary frame is the Init function.
   */
  lemma AfterFirstBinaryOnlyInitMatters(steps: seq<Step>)
    requires NoRaise(steps)
    requires FirstBinary(steps) < |steps|
    requires forall j | 0 <= j < FirstBinary(steps) :: steps[j] != InRuby(true)
    ensures Decide(steps) == Success(exists j | FirstBinary(steps) <= j < |steps| :: steps[j] == InBinary(true))
  {
    DecideWithoutRaise(steps);
  }

  /** A one-frame stack that is not the binary's is skipped. */
  lemma OneStepSkipped(st: Step)
    requires st != Raises && !st.InBinary?
    ensures Decide([st]) == Success(true)
  {
    SkipWithoutBinarySteps([st]);
  }

  /** A skippable Ruby frame followed by any step, even one that would raise: skipped. */
  lemma RubyThenAnySkipped(st: Step)
    ensures Decide([InRuby(true), st]) == Success(true)
  {
    RubyStepBeforeBinarySkips([InRuby(true), st], 0);
  }

  /** A binary frame other than Init followed by a Ruby frame: kept, whatever the Ruby function. */
  lemma BinaryThenRubyKept(skippable: bool)
    ensures Decide([InBinary(false), InRuby(skippable)]) == Success(false)
  {
    var steps := [InBinary(false), InRuby(skippable)];
    assert FirstBinary(steps) == 0;
    AfterFirstBinaryOnlyInitMatters(steps);
  }

  // ---------------------------------------------------------------------------
  // skip_stack? on frames

  /** The steps of a stack are those of its first frame followed by those of the rest. */
  lemma StepsCons(c: Configuration, f: Frame, rest: seq<Frame>)
    ensures c.Steps([f] + rest) == [c.StepOf(f)] + c.Steps(rest)
  {
    assert ([f] + rest)[1..] == rest;
  }

  /** The steps of a one- and a two-frame stack. */
  lemma StepsOfShortStacks(c: Configuration, f: Frame, g: Frame)
    ensures c.Steps([f]) == [c.StepOf(f)]
    ensures c.Steps([f, g]) == [c.StepOf(f), c.StepOf(g)]
  {
    StepsCons(c, f, []);
    assert [f] + [] == [f];
    StepsCons(c, g, []);
    assert [g] + [] == [g];
    StepsCons(c, f, [g]);
    assert [f] + [g] == [f, g];
  }

  /** A frame in the ruby executable is a Ruby frame, whatever the binary is called. */
  lemma RubyExecutableFrame(c: Configuration, fn: string)
    ensures c.StepOf(Frame(fn, Some(c.ruby))) == InRuby(AnyMatches(c.skippedRubyFunctions, fn))
  {
  }

  /** A frame in the shared libruby of the running version is a Ruby frame, wherever the library is installed. */
  lemma SharedLibrubyFrame(c: Configuration, dir: string, fn: string)
    requires '/' !in c.runtime.version
    ensures c.FrameInRuby(Frame(fn, Some(dir + "/libruby.so." + c.runtime.version))) == Success(true)
  {
    var name := "libruby.so." + c.runtime.version;
    assert name[0] == 'l';
    assert forall i | 0 <= i < |name| :: name[i] != '/' by {
      forall i | 0 <= i < |name| ensures name[i] != '/' {
        if i >= 11 { assert name[i] == c.runtime.version[i - 11]; }
      }
    }
    assert dir + "/libruby.so." + c.runtime.version == dir + "/" + name;
    BasenameUnderDirectory(dir, name);
  }

  /** A frame in "<dir>/<binary>.<ext>" passes frame_in_binary?, for any directory and extension. */
  lemma BinaryFrameUnderDirectory(c: Configuration, dir: string, ext: string, fn: string)
    requires c.binaryName != [] && c.binaryName[0] != '.' && '/' !in c.binaryName
    requires '.' !in ext && '/' !in ext
    ensures c.FrameInBinary(Frame(fn, Some(dir + "/" + c.binaryName + "." + ext)))
  {
    BasenameWithoutExtensionUnderDirectory(dir, c.binaryName, ext);
  }

  /** "<dir>/mygem.so" has basename "mygem.so". */
  lemma MygemBasename(dir: string)
    ensures Basename(dir + "/mygem.so") == "mygem.so"
  {
    assert dir + "/mygem.so" == dir + "/" + "mygem.so";
    BasenameUnderDirectory(dir, "mygem.so");
  }

  /** "<dir>/mygem.so" without directory and extension is "mygem". */
  lemma MygemPath(dir: string)
    ensures BasenameWithoutExtension(dir + "/mygem.so") == "mygem"
  {
    assert dir + "/mygem.so" == dir + "/" + "mygem" + "." + "so";
    BasenameWithoutExtensionUnderDirectory(dir, "mygem", "so");
  }

  /** "mygem.so" is neither the ruby executable's basename nor a libruby. */
  lemma MygemIsNotRuby(version: string)
    ensures "mygem.so" != "ruby"
    ensures "mygem.so" != "libruby.so." + version
  {
    assert "mygem.so"[0] != ("libruby.so." + version)[0];
  }

  /** A frame of the "mygem" binary, wherever it is installed, when ruby is an executable named "ruby". */
  lemma MygemFrame(c: Configuration, dir: string, fn: string)
    requires c.binaryName == "mygem" && Basename(c.ruby) == "ruby"
    ensures c.StepOf(Frame(fn, Some(dir + "/mygem.so"))) == InBinary(fn == c.InitFunction())
  {
    MygemBasename(dir);
    MygemPath(dir);
    MygemIsNotRuby(c.runtime.version);
  }

  /** rb_funcall is on the default skip list. */
  lemma FuncallSkippable()
    ensures AnyMatches(DefaultSkippedRubyFunctions, "rb_funcall")
  {
    assert Matches(DefaultSkippedRubyFunctions[3], "rb_funcall");
  }

  /** rb_funcall in ruby calling into the binary: skipped, the error came from Ruby. */
  lemma CalledFromRubySkipped(c: Configuration, dir: string)
    requires c.binaryName == "mygem" && Basename(c.ruby) == "ruby"
    requires c.skippedRubyFunctions == DefaultSkippedRubyFunctions
    ensures Decide(c.Steps([Frame("rb_funcall", Some(c.ruby)), Frame("do_work", Some(dir + "/mygem.so"))])) == Success(true)
  {
    var ruby := Frame("rb_funcall", Some(c.ruby));
    var mygem := Frame("do_work", Some(dir + "/mygem.so"));
    FuncallSkippable();
    RubyExecutableFrame(c, "rb_funcall");
    MygemFrame(c, dir, "do_work");
    StepsOfShortStacks(c, ruby, mygem);
    RubyThenAnySkipped(c.StepOf(mygem));
  }

  /** A binary frame other than Init that calls into the ruby executable: kept. */
  lemma KeptWhenBinaryCallsRuby(c: Configuration, b: Frame, fn: string)
    requires c.StepOf(b) == InBinary(false)
    ensures Decide(c.Steps([b, Frame(fn, Some(c.ruby))])) == Success(false)
  {
    var r := Frame(fn, Some(c.ruby));
    RubyExecutableFrame(c, fn);
    StepsOfShortStacks(c, b, r);
    BinaryThenRubyKept(AnyMatches(c.skippedRubyFunctions, fn));
  }

  /** A leak in the binary that later calls rb_funcall: kept, the Ruby frame comes after the binary. */
  lemma RubyFrameAfterBinaryKept(c: Configuration, dir: string)
    requires c.binaryName == "mygem" && Basename(c.ruby) == "ruby"
    ensures Decide(c.Steps([Frame("leaky_fn", Some(dir + "/mygem.so")), Frame("rb_funcall", Some(c.ruby))])) == Success(false)
  {
    MygemFrame(c, dir, "leaky_fn");
    assert "leaky_fn" != c.InitFunction();
    KeptWhenBinaryCallsRuby(c, Frame("leaky_fn", Some(dir + "/mygem.so")), "rb_funcall");
  }

  /** "<dir>/libffi.so.8" without directory and extension is "libffi.so". */
  lemma LibffiPath(dir: string)
    ensures BasenameWithoutExtension(dir + "/libffi.so.8") == "libffi.so"
  {
    assert dir + "/libffi.so.8" == dir + "/" + "libffi.so" + "." + "8";
    BasenameWithoutExtensionUnderDirectory(dir, "libffi.so", "8");
  }

  /** A frame in libffi is not in a binary named "mygem". */
  lemma LibffiFrameNotInBinary(c: Configuration, dir: string, fn: string)
    requires c.binaryName == "mygem"
    ensures !c.FrameInBinary(Frame(fn, Some(dir + "/libffi.so.8")))
  {
    LibffiPath(dir);
    assert "libffi.so" != "mygem";
  }

  /** A stack entirely inside a third-party library, wherever it is installed: skipped, the binary never appears. */
  lemma ThirdPartyStackSkipped(c: Configuration, dir: string)
    requires c.binaryName == "mygem"
    ensures Decide(c.Steps([Frame("ffi_call", Some(dir + "/libffi.so.8"))])) == Success(true)
  {
    var f := Frame("ffi_call", Some(dir + "/libffi.so.8"));
    LibffiFrameNotInBinary(c, dir, "ffi_call");
    StepsOfShortStacks(c, f, f);
    OneStepSkipped(c.StepOf(f));
  }

  /** "<dir>/ruby" without directory and extension is "ruby". */
  lemma RubyExecutableName(dir: string)
    ensures BasenameWithoutExtension(dir + "/ruby") == "ruby"
  {
    assert dir + "/ruby" == dir + "/" + "ruby";
    BasenameUnderDirectory(dir, "ruby");
    StripExtensionWithoutDot("ruby");
  }

  /**
   * Ruby classification wins: for a binary named "ruby", a frame in the ruby executable
   * passes frame_in_binary? yet is treated as Ruby's, so the stack is skipped.
   */
  lemma RubyClassificationWins(c: Configuration, dir: string)
    requires c.binaryName == "ruby" && c.ruby == dir + "/ruby"
    ensures c.FrameInBinary(Frame("leak", Some(c.ruby)))
    ensures Decide(c.Steps([Frame("leak", Some(c.ruby))])) == Success(true)
  {
    var f := Frame("leak", Some(c.ruby));
    RubyExecutableName(dir);
    RubyExecutableFrame(c, "leak");
    StepsOfShortStacks(c, f, f);
    OneStepSkipped(c.StepOf(f));
  }

  // ---------------------------------------------------------------------------
  // The version fallback chain and the suppression files

  /** The full version name splits into the fields of "<engine>-<version>" and the patchlevel. */
  lemma FullVersionFields(rt: Runtime)
    ensures RubySplit(FullRubyVersion(rt), '.') == Split(rt.engine + "-" + rt.version, '.') + [IntToString(rt.patchlevel)]
    ensures Split(FullRubyVersion(rt), '.') == RubySplit(FullRubyVersion(rt), '.')
  {
    var pl := IntToString(rt.patchlevel);
    assert '.' !in pl;
    SplitConcat(rt.engine + "-" + rt.version, pl, '.');
    assert FullRubyVersion(rt) == (rt.engine + "-" + rt.version) + ['.'] + pl;
    SplitWithoutSeparator(pl, '.');
    RubySplitKeepsFields(FullRubyVersion(rt), '.');
  }

  /** Each truncation of the full version name is a prefix of it. */
  lemma TruncatedVersionIsPrefix(rt: Runtime, i: nat)
    ensures TruncatedVersion(rt, i) <= FullRubyVersion(rt)
  {
    var full := FullRubyVersion(rt);
    var fields := Split(full, '.');
    FullVersionFields(rt);
    JoinSplit(full, '.');
    if i <= |fields| {
      JoinPrefix(fields, i, '.');
    } else {
      assert Take(fields, i) == fields;
    }
  }

  /**
   * The chain has six entries: the full name, its first 3, 2, 1 and 0 components (the
   * last of these is ""), and the bare engine; each truncated entry is a prefix of the full name.
   */
  lemma VersionChainShape(rt: Runtime)
    ensures |VersionChain(rt)| == 6
    ensures VersionChain(rt)[0] == FullRubyVersion(rt)
    ensures forall k | 1 <= k <= 4 :: VersionChain(rt)[k] <= FullRubyVersion(rt)
    ensures VersionChain(rt)[4] == ""
    ensures VersionChain(rt)[5] == rt.engine
  {
    var ch := VersionChain(rt);
    TruncatedVersionIsPrefix(rt, 3);
    TruncatedVersionIsPrefix(rt, 2);
    TruncatedVersionIsPrefix(rt, 1);
    TruncatedVersionIsPrefix(rt, 0);
    assert Take(RubySplit(FullRubyVersion(rt), '.'), 0) == [];
    assert ch[1] == TruncatedVersion(rt, 3) && ch[2] == TruncatedVersion(rt, 2);
    assert ch[3] == TruncatedVersion(rt, 1) && ch[4] == TruncatedVersion(rt, 0);
  }

  /** The fields of the full version name of a release "<major>.<minor>.<teeny>". */
  lemma ReleaseFields(rt: Runtime, major: string, minor: string, teeny: string)
    requires rt.version == major + "." + minor + "." + teeny
    requires '.' !in rt.engine && '.' !in major && '.' !in minor && '.' !in teeny
    ensures RubySplit(FullRubyVersion(rt), '.') == [rt.engine + "-" + major, minor, teeny, IntToString(rt.patchlevel)]
  {
    var first := rt.engine + "-" + major;
    assert '.' !in first;
    var two := first + "." + minor;
    var three := two + "." + teeny;
    assert rt.engine + "-" + rt.version == three by {
      Assoc(rt.engine + "-", major + "." + minor + ".", teeny);
      Assoc(rt.engine + "-", major + "." + minor, ".");
      Assoc(rt.engine + "-", major + ".", minor);
      Assoc(rt.engine + "-", major, ".");
    }
    SplitWithoutSeparator(first, '.');
    SplitWithoutSeparator(minor, '.');
    SplitWithoutSeparator(teeny, '.');
    SplitConcat(first, minor, '.');
    SplitConcat(two, teeny, '.');
    FullVersionFields(rt);
  }

  /** Joining the first three fields of a release gives back "<engine>-<major>.<minor>.<teeny>". */
  lemma JoinThree(first: string, minor: string, teeny: string)
    ensures Join([first, minor, teeny], '.') == first + "." + minor + "." + teeny
    ensures Join([first, minor], '.') == first + "." + minor
  {
    JoinCons(first, [minor], '.');
    JoinCons(minor, [teeny], '.');
    JoinCons(first, [minor, teeny], '.');
    Assoc(first + ".", minor, "." + teeny);
    Assoc(first + "." + minor, ".", teeny);
  }

  /**
   * For a release "<major>.<minor>.<teeny>" the chain is the full name, then
   * "<engine>-<major>.<minor>.<teeny>", "<engine>-<major>.<minor>", "<engine>-<major>", "" and "<engine>".
   */
  lemma VersionChainOfRelease(rt: Runtime, major: string, minor: string, teeny: string)
    requires rt.version == major + "." + minor + "." + teeny
    requires '.' !in rt.engine && '.' !in major && '.' !in minor && '.' !in teeny
    ensures VersionChain(rt) == [
      FullRubyVersion(rt),
      rt.engine + "-" + major + "." + minor + "." + teeny,
      rt.engine + "-" + major + "." + minor,
      rt.engine + "-" + major,
      "",
      rt.engine]
  {
    var first := rt.engine + "-" + major;
    var fields := [first, minor, teeny, IntToString(rt.patchlevel)];
    ReleaseFields(rt, major, minor, teeny);
    assert Take(fields, 3) == [first, minor, teeny];
    assert Take(fields, 2) == [first, minor];
    assert Take(fields, 1) == [first];
    assert Take(fields, 0) == [];
    JoinThree(first, minor, teeny);
  }

  lemma PatchlevelTwenty()
    ensures IntToString(20) == "20"
  {
    assert DigitChar(2) == '2' && DigitChar(0) == '0';
  }

  /** The chain for ruby 3.1.2, patchlevel 20. */
  lemma VersionChainExample(exe: string)
    ensures VersionChain(Runtime("ruby", "3.1.2", 20, exe)) ==
      ["ruby-3.1.2.20", "ruby-3.1.2", "ruby-3.1", "ruby-3", "", "ruby"]
  {
    var rt := Runtime("ruby", "3.1.2", 20, exe);
    assert "3.1.2" == "3" + "." + "1" + "." + "2";
    VersionChainOfRelease(rt, "3", "1", "2");
    PatchlevelTwenty();
    assert FullRubyVersion(rt) == "ruby-3.1.2.20";
    assert "ruby" + "-" + "3" + "." + "1" + "." + "2" == "ruby-3.1.2";
    assert "ruby" + "-" + "3" + "." + "1" == "ruby-3.1";
    assert "ruby" + "-" + "3" == "ruby-3";
  }

  /** Globbing a list of versions that is the concatenation of two globs each part in turn. */
  lemma {:induction false} GlobSuppressionsConcat(dir: string, binaryName: string, vs: seq<string>, ws: seq<string>, glob: string -> seq<string>)
    ensures GlobSuppressions(dir, binaryName, vs + ws, glob) ==
            GlobSuppressions(dir, binaryName, vs, glob) + GlobSuppressions(dir, binaryName, ws, glob)
  {
    if vs == [] {
      assert vs + ws == ws;
    } else {
      assert (vs + ws)[1..] == vs[1..] + ws;
      GlobSuppressionsConcat(dir, binaryName, vs[1..], ws, glob);
    }
  }

  /** The files of entry k form one block, after those of the entries before it and before those after it. */
  lemma GlobSuppressionsBlock(dir: string, binaryName: string, vs: seq<string>, k: nat, glob: string -> seq<string>)
    requires k < |vs|
    ensures GlobSuppressions(dir, binaryName, vs, glob) ==
            GlobSuppressions(dir, binaryName, vs[..k], glob) +
            glob(SuppressionPattern(dir, binaryName, vs[k])) +
            GlobSuppressions(dir, binaryName, vs[k + 1..], glob)
  {
    assert vs == vs[..k] + ([vs[k]] + vs[k + 1..]);
    GlobSuppressionsConcat(dir, binaryName, vs[..k], [vs[k]] + vs[k + 1..], glob);
    assert ([vs[k]] + vs[k + 1..])[1..] == vs[k + 1..];
  }

  /**
   * The suppression files are the glob results of every chain entry, in chain order:
   * every entry is globbed, and its files come after those of all more specific entries.
   */
  lemma SuppressionFilesInChainOrder(dir: string, binaryName: string, rt: Runtime, glob: string -> seq<string>, k: nat)
    requires k < 6
    ensures var ch := VersionChain(rt);
      SuppressionFiles(dir, binaryName, rt, glob) ==
        GlobSuppressions(dir, binaryName, ch[..k], glob) +
        glob(SuppressionPattern(dir, binaryName, ch[k])) +
        GlobSuppressions(dir, binaryName, ch[k + 1..], glob)
  {
    GlobSuppressionsBlock(dir, binaryName, VersionChain(rt), k, glob);
  }

  /** In the default directory the pattern is "suppressions/<binary>_<version>.supp". */
  lemma DefaultSuppressionPattern(binaryName: string, version: string)
    requires binaryName == [] || binaryName[0] != '/'
    ensures SuppressionPattern(DefaultValgrindSuppressionsDir, binaryName, version) ==
            "suppressions/" + binaryName + "_" + version + ".supp"
  {
  }

  // ---------------------------------------------------------------------------
  // The command line

  /**
   * When no word contains a space, splitting the command at spaces gives back valgrind,
   * the options, ruby and the arguments (an empty list leaves one empty field).
   */
  lemma CommandWords(c: Configuration, args: seq<string>)
    requires ' ' !in c.valgrind && ' ' !in c.ruby
    requires forall i | 0 <= i < |c.valgrindOptions| :: ' ' !in c.valgrindOptions[i]
    requires forall i | 0 <= i < |args| :: ' ' !in args[i]
    ensures Split(c.Command(args), ' ') ==
      [c.valgrind] + (if c.valgrindOptions == [] then [[]] else c.valgrindOptions) +
      [c.ruby] + (if args == [] then [[]] else args)
  {
    var opts := Join(c.valgrindOptions, ' ');
    var rest := Join(args, ' ');
    if c.valgrindOptions != [] { SplitJoin(c.valgrindOptions, ' '); }
    if args != [] { SplitJoin(args, ' '); }
    SplitWithoutSeparator(c.valgrind, ' ');
    SplitWithoutSeparator(c.ruby, ' ');
    var head := c.valgrind + [' '] + opts;
    SplitConcat(c.valgrind, opts, ' ');
    SplitConcat(head, c.ruby, ' ');
    SplitConcat(head + [' '] + c.ruby, rest, ' ');
  }
}
