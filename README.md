# ruby_memcheck configuration, modelled in Dafny

ruby_memcheck runs a Ruby test suite under Valgrind. It then filters Valgrind's error
reports so that only errors a native extension ("the binary") is responsible for remain.
`RubyMemcheck::Configuration` holds the two pieces of policy modelled here:

- **The Valgrind command line.** There are base options and one `--suppressions=` flag per
  suppression file. The suppression files are looked up under a fallback chain of Ruby
  version names, from `<engine>-<version>.<patchlevel>` down to the bare engine. When an XML
  file is given, the XML output flags come last. `command` joins valgrind, the options, ruby
  and the arguments with single spaces.
- **The stack classifier `skip_stack?`.** It scans an error's stack from the innermost frame
  outwards and decides whether the error is skipped. A frame is Ruby's when its object is the
  ruby executable or the shared `libruby.so.<RUBY_VERSION>`. A frame is the binary's when its
  object's basename without extension is the binary name, and only if it is not Ruby's. A
  Ruby frame on the skip list skips the stack, but only before the first binary frame. A
  binary frame of `Init_<binary>` skips it anywhere. At the end, the stack is skipped exactly
  when the binary never appeared.

The project has five files:

- `wrappers.dfy`: `Option` and `Result`.
- `ruby_string.dfy`: `String#split` (with its dropping of trailing empty fields),
  `Array#join`, `ary[0, n]` and `Integer#to_s`.
- `ruby_file.dfy`: `File.basename(path)`, `File.basename(path, ".*")` and `File.join`, for
  '/'-separated paths, following MRI.
- `configuration.dfy`: the configuration and the classifier.
- `configuration_properties.dfy`: the properties.

The classifier is modelled in two layers.

- **Frames to steps.** `Configuration.StepOf` turns a frame into what the scan learns from
  it (`Step`): it raises, it is a Ruby frame (skippable or not), it is a binary frame (Init
  or not), or it is elsewhere.
- **Steps to a decision.** `Decide` is the declarative decision over those steps.
  `Configuration.SkipStack` is the scan itself, a loop proved equal to `Decide` of the
  stack's steps.

The process constants `RUBY_ENGINE`, `RUBY_VERSION`, `RUBY_PATCHLEVEL` and `FileUtils::RUBY`
are the `Runtime` parameter. `Dir[...]` is a `glob` function parameter from pattern to
matching paths.

Two behaviours of the code worth knowing:

- **A frame without an object file.** `frame_in_ruby?` calls `File.basename(nil)`, which
  raises `TypeError` (lib/ruby_memcheck/configuration.rb:87). So `skip_stack?` raises when its
  scan reaches such a frame before deciding. The model returns `Failure(TypeError)` in that
  case; such a frame is not simply ignored.
- **The "" entry.** The version chain has six entries. For `i = 0` the truncation joins zero
  components, which gives the entry `""` and the pattern `<dir>/<binary>_.supp`. This entry
  is kept, and it is not merged with the bare engine entry that follows it
  (lib/ruby_memcheck/configuration.rb:103-104).

## Model

| member | source | states |
|---|---|---|
| RubyMemcheck.Configuration.SkipStack | lib/ruby_memcheck/configuration.rb:62-82 | The scan returns exactly `Decide` of the stack's steps. It raises on an object-less frame reached before any skip, skips at a skippable Ruby frame before the binary or at a binary Init frame, and otherwise returns "binary never entered". |
| RubyMemcheck.Configuration.StepOf | lib/ruby_memcheck/configuration.rb:68-78 | A frame raises exactly when it has no object. It is a Ruby step exactly when frame_in_ruby? holds, and then `skippable` is the skip-list match. It is a binary step exactly when frame_in_ruby? is false and frame_in_binary? holds, so a Ruby frame is never counted as the binary's; then `isInit` holds exactly when the function is `Init_<binary>`. |
| RubyMemcheck.Configuration.Steps | lib/ruby_memcheck/configuration.rb:65 | As many steps as the stack has frames. |
| RubyMemcheck.Configuration.StepsAt | lib/ruby_memcheck/configuration.rb:65-66 | Step i of a stack is the step of frame i. |
| RubyMemcheck.Configuration.FrameInRuby | lib/ruby_memcheck/configuration.rb:84-88 | frame_in_ruby? fails (TypeError) exactly when the frame has no object file. A frame whose object is the ruby executable is always Ruby's. |
| RubyMemcheck.Configuration.FrameInBinary | lib/ruby_memcheck/configuration.rb:90-96 | Only a frame with an object file can be the binary's, and then the binary name is a prefix of the object's basename. |
| RubyMemcheck.FirstBinary | lib/ruby_memcheck/configuration.rb:73-74 | The point where `in_binary` becomes true: no step before it is a binary step, and the step there is one, unless there is none. |
| RubyMemcheck.DecideRaises | lib/ruby_memcheck/configuration.rb:68-87 | A scan that reaches an object-less frame with nothing decided before it raises TypeError. |
| RubyMemcheck.DecideExits | lib/ruby_memcheck/configuration.rb:71-77 | A scan that reaches a skip with nothing decided before it returns true. |
| RubyMemcheck.DecideCompletes | lib/ruby_memcheck/configuration.rb:81 | A scan that passes every frame returns whether no frame was the binary's. |
| RubyMemcheck.ScanStep | lib/ruby_memcheck/configuration.rb:69-77 | One more frame enters the binary exactly when it is a binary frame. It ends the scan exactly when it is a skippable Ruby frame with the binary not yet entered, or a binary Init frame. |
| RubyMemcheck.ClearStep | lib/ruby_memcheck/configuration.rb:65-79 | Passing a frame that neither raises nor skips keeps the scan undecided. |
| ConfigurationProperties.DecideWithoutRaise | lib/ruby_memcheck/configuration.rb:62-82 | With every object known, the stack is skipped if and only if no frame is the binary's, or a skippable Ruby frame precedes the first binary frame, or some binary frame is `Init_<binary>`. |
| ConfigurationProperties.SkipWithoutBinarySteps | lib/ruby_memcheck/configuration.rb:81 | A stack with no binary frame is never kept. With every object known, it is skipped. |
| ConfigurationProperties.InitStepSkips | lib/ruby_memcheck/configuration.rb:73-77 | An `Init_<binary>` binary frame skips the stack, whatever follows, once the frames before it have objects. |
| ConfigurationProperties.RubyStepBeforeBinarySkips | lib/ruby_memcheck/configuration.rb:68-72 | A skippable Ruby frame skips the stack, whatever follows, when every frame before it has an object and none of them is the binary's. |
| ConfigurationProperties.AfterFirstBinaryOnlyInitMatters | lib/ruby_memcheck/configuration.rb:69-81 | When every frame's object is known and the binary is entered with no Ruby skip before it, the stack is skipped if and only if some binary frame from there on is Init. Later Ruby frames cannot skip it. |
| ConfigurationProperties.OneStepSkipped | lib/ruby_memcheck/configuration.rb:81 | A one-frame stack that is neither raising nor the binary's is skipped. |
| ConfigurationProperties.RubyThenAnySkipped | lib/ruby_memcheck/configuration.rb:68-72 | A skippable Ruby frame followed by any frame, even one without an object: skipped. |
| ConfigurationProperties.BinaryThenRubyKept | lib/ruby_memcheck/configuration.rb:69-81 | A non-Init binary frame followed by a Ruby frame, skippable or not: kept. |
| ConfigurationProperties.StepsOfShortStacks | lib/ruby_memcheck/configuration.rb:65 | The steps of one- and two-frame stacks are their frames' steps. |
| ConfigurationProperties.RubyExecutableFrame | lib/ruby_memcheck/configuration.rb:68-85 | A frame in the ruby executable is a Ruby step, skippable exactly when its function is on the skip list, whatever the binary is called. |
| ConfigurationProperties.SharedLibrubyFrame | lib/ruby_memcheck/configuration.rb:86-87 | A frame in `<dir>/libruby.so.<RUBY_VERSION>` is Ruby's, whatever the directory. |
| ConfigurationProperties.BinaryFrameUnderDirectory | lib/ruby_memcheck/configuration.rb:90-92 | A frame in `<dir>/<binary>.<ext>` is the binary's, for any directory and extension. |
| ConfigurationProperties.MygemBasename | lib/ruby_memcheck/configuration.rb:87 | `File.basename("<dir>/mygem.so")` is "mygem.so". |
| ConfigurationProperties.MygemPath | lib/ruby_memcheck/configuration.rb:92 | `File.basename("<dir>/mygem.so", ".*")` is "mygem". |
| ConfigurationProperties.MygemIsNotRuby | lib/ruby_memcheck/configuration.rb:85-87 | "mygem.so" is neither "ruby" nor a libruby name. |
| ConfigurationProperties.MygemFrame | lib/ruby_memcheck/configuration.rb:68-78 | A frame in `<dir>/mygem.so`, for the binary "mygem" and a ruby executable named "ruby", is a binary step, Init exactly for `Init_mygem`. |
| ConfigurationProperties.FuncallSkippable | lib/ruby_memcheck/configuration.rb:18 | `rb_funcall` is on the default skip list. |
| ConfigurationProperties.CalledFromRubySkipped | lib/ruby_memcheck/configuration.rb:68-72 | The stack [rb_funcall in ruby, do_work in mygem.so] is skipped. |
| ConfigurationProperties.KeptWhenBinaryCallsRuby | lib/ruby_memcheck/configuration.rb:69-81 | A non-Init binary frame that calls into the ruby executable: kept. |
| ConfigurationProperties.RubyFrameAfterBinaryKept | lib/ruby_memcheck/configuration.rb:69-81 | The stack [leaky_fn in mygem.so, rb_funcall in ruby] is kept. |
| ConfigurationProperties.LibffiPath | lib/ruby_memcheck/configuration.rb:92 | `File.basename("<dir>/libffi.so.8", ".*")` is "libffi.so". |
| ConfigurationProperties.LibffiFrameNotInBinary | lib/ruby_memcheck/configuration.rb:90-92 | A frame in libffi is not the "mygem" binary's. |
| ConfigurationProperties.ThirdPartyStackSkipped | lib/ruby_memcheck/configuration.rb:81 | A one-frame stack in libffi, installed anywhere, is skipped. |
| ConfigurationProperties.RubyExecutableName | lib/ruby_memcheck/configuration.rb:92 | `File.basename("<dir>/ruby", ".*")` is "ruby". |
| ConfigurationProperties.RubyClassificationWins | lib/ruby_memcheck/configuration.rb:68-73 | For a binary named "ruby", a frame in the ruby executable passes frame_in_binary?, yet it is Ruby's and the stack is skipped. |
| RubyMemcheck.GetValgrindSuppressionFiles | lib/ruby_memcheck/configuration.rb:100-109 | Building the chain step by step and globbing each entry gives exactly the glob results of `VersionChain`, concatenated in chain order. |
| RubyMemcheck.GlobSuppressions | lib/ruby_memcheck/configuration.rb:106-108 | A path is among the files if and only if some version's pattern globs it. |
| ConfigurationProperties.GlobSuppressionsConcat | lib/ruby_memcheck/configuration.rb:106-108 | Globbing two lists of versions one after the other gives the two results concatenated (map then flatten). |
| ConfigurationProperties.GlobSuppressionsBlock | lib/ruby_memcheck/configuration.rb:106-108 | The files of version k form one block, after those of the earlier versions and before those of the later ones. |
| ConfigurationProperties.SuppressionFilesInChainOrder | lib/ruby_memcheck/configuration.rb:102-108 | Every chain entry is globbed, and its files sit between those of the more and the less specific entries. There is no short-circuit. |
| ConfigurationProperties.DefaultSuppressionPattern | lib/ruby_memcheck/configuration.rb:107 | In the default directory the pattern is `suppressions/<binary>_<version>.supp`. |
| ConfigurationProperties.FullVersionFields | lib/ruby_memcheck/configuration.rb:101-103 | The full version name splits at '.' into the fields of `<engine>-<version>` followed by the patchlevel, and no trailing empty field is dropped. |
| ConfigurationProperties.TruncatedVersionIsPrefix | lib/ruby_memcheck/configuration.rb:103 | Every truncated entry is a prefix of the full version name. |
| ConfigurationProperties.VersionChainShape | lib/ruby_memcheck/configuration.rb:101-104 | The chain has six entries. They are the full name, four prefixes of it (the last of which is ""), and the bare engine. |
| ConfigurationProperties.ReleaseFields | lib/ruby_memcheck/configuration.rb:101-103 | For a release `<major>.<minor>.<teeny>`, the fields are `<engine>-<major>`, minor, teeny and the patchlevel. |
| ConfigurationProperties.JoinThree | lib/ruby_memcheck/configuration.rb:103 | Joining two or three fields with '.' puts a '.' between them. |
| ConfigurationProperties.VersionChainOfRelease | lib/ruby_memcheck/configuration.rb:101-104 | For a release, the chain is full, `<e>-<M>.<m>.<t>`, `<e>-<M>.<m>`, `<e>-<M>`, "" and `<e>`. |
| ConfigurationProperties.PatchlevelTwenty | lib/ruby_memcheck/configuration.rb:101 | Patchlevel 20 prints as "20". |
| ConfigurationProperties.VersionChainExample | lib/ruby_memcheck/configuration.rb:101-104 | ruby 3.1.2p20 gives ["ruby-3.1.2.20", "ruby-3.1.2", "ruby-3.1", "ruby-3", "", "ruby"]. |
| RubyMemcheck.SuppressionFlags | lib/ruby_memcheck/configuration.rb:45 | One `--suppressions=<file>` flag per file, in file order. |
| RubyMemcheck.ValgrindOptions | lib/ruby_memcheck/configuration.rb:43-55 | The options are the given options unchanged, then a flag per suppression file in order, then `--xml=yes` and `--xml-file=<path>` exactly when an XML file is given. |
| RubyMemcheck.Configuration.constructor | lib/ruby_memcheck/configuration.rb:30-56 | The fields are the arguments, the ruby default being the running ruby. The option list is `ValgrindOptions` of the given options, the suppression files found in the given directory, and the XML file. |
| ConfigurationProperties.CommandWords | lib/ruby_memcheck/configuration.rb:58-60 | When no word contains a space, splitting the command at spaces gives back valgrind, the options, ruby and the arguments, in this order. |
| RubyMemcheck.Configuration.Command | lib/ruby_memcheck/configuration.rb:58-60 | valgrind, the joined options, ruby and the joined arguments, separated by single spaces. `CommandWords` states what it means. |
| RubyMemcheck.FullRubyVersion | lib/ruby_memcheck/configuration.rb:101 | `<engine>-<version>.<patchlevel>`. `FullVersionFields` states its fields. |
| RubyMemcheck.TruncatedVersion | lib/ruby_memcheck/configuration.rb:103 | The first i fields of the full name, re-joined with '.'. `TruncatedVersionIsPrefix` states that it is a prefix of the full name. |
| RubyMemcheck.VersionChain | lib/ruby_memcheck/configuration.rb:101-104 | The six version names in lookup order. `VersionChainShape`, `VersionChainOfRelease` and `VersionChainExample` state what they are. |
| RubyMemcheck.SuppressionPattern | lib/ruby_memcheck/configuration.rb:107 | `File.join(dir, "<binary>_<version>.supp")`. `DefaultSuppressionPattern` gives it for the default directory. |
| RubyMemcheck.SuppressionFiles | lib/ruby_memcheck/configuration.rb:106-108 | The glob results of the whole chain. `SuppressionFilesInChainOrder` states their order. |
| RubyMemcheck.XmlFlags | lib/ruby_memcheck/configuration.rb:49-55 | `--xml=yes` and `--xml-file=<path>` when an XML file is given, nothing otherwise. `ValgrindOptions` states where they go. |
| RubyMemcheck.Matches | lib/ruby_memcheck/configuration.rb:71 | `/\Aname/` matches a function name starting with name, and `/\Aname\z/` matches only name itself. `FuncallSkippable` applies it. |
| RubyMemcheck.AnyMatches | lib/ruby_memcheck/configuration.rb:71 | Some matcher of the list matches. `StepOf` states that it is the `skippable` of a Ruby step. |
| RubyMemcheck.Configuration.InitFunction | lib/ruby_memcheck/configuration.rb:77 | `Init_<binary>`. `StepOf` states that it is the `isInit` test of a binary step. |
| RubyMemcheck.Decide | lib/ruby_memcheck/configuration.rb:62-82 | The decision over the steps. `DecideWithoutRaise` states it declaratively, and `SkipStack` is proved equal to it. |
| RubyString.RubySplit | lib/ruby_memcheck/configuration.rb:103 | `String#split(".")`: the split with its trailing empty fields dropped. `RubySplitKeepsFields` and `FullVersionFields` state its result on version names. |
| RubyString.Join | lib/ruby_memcheck/configuration.rb:59 | `Array#join`: one separator between neighbours. `JoinSplit` and `SplitJoin` state that it inverts `Split`. |
| RubyFile.BasenameWithoutExtension | lib/ruby_memcheck/configuration.rb:92 | `File.basename(path, ".*")`. `BasenameWithoutExtensionUnderDirectory` states its result. |
| RubyString.Split | lib/ruby_memcheck/configuration.rb:103 | Splitting gives at least one field, and no field contains the separator. |
| RubyString.DropTrailingEmpty | lib/ruby_memcheck/configuration.rb:103 | `String#split` drops only trailing empty fields, and keeps a non-empty last field. |
| RubyString.Take | lib/ruby_memcheck/configuration.rb:103 | `ary[0, n]` is the prefix of length min(n, size). |
| RubyString.SplitConcat | lib/ruby_memcheck/configuration.rb:103 | Splitting `a + sep + b` is splitting a, then splitting b. |
| RubyString.SplitWithoutSeparator | lib/ruby_memcheck/configuration.rb:103 | A string without the separator splits into itself. |
| RubyString.JoinCons | lib/ruby_memcheck/configuration.rb:103 | Joining a field in front puts one separator after it. |
| RubyString.JoinExtendFirst | lib/ruby_memcheck/configuration.rb:103 | A character added before a join lands in the first field. |
| RubyString.JoinSplit | lib/ruby_memcheck/configuration.rb:103 | Joining the fields of a split gives back the string. |
| RubyString.SplitJoin | lib/ruby_memcheck/configuration.rb:59 | Splitting a join of separator-free, non-empty lists gives back the list. |
| RubyString.JoinPrefix | lib/ruby_memcheck/configuration.rb:103 | Joining the first i fields gives a prefix of joining all fields. |
| RubyString.RubySplitKeepsFields | lib/ruby_memcheck/configuration.rb:103 | When the last field is not empty, `String#split` keeps all fields. |
| RubyString.NatToDecimal | lib/ruby_memcheck/configuration.rb:101 | A natural number prints as digits without a leading zero. |
| RubyString.IntToString | lib/ruby_memcheck/configuration.rb:101 | `Integer#to_s` is non-empty and made of digits after an optional '-'. |
| RubyString.DecimalRoundTrip | lib/ruby_memcheck/configuration.rb:101 | Reading back a printed natural number gives the number. |
| RubyString.IntRoundTrip | lib/ruby_memcheck/configuration.rb:101 | Reading back a printed integer gives the integer, so interpolating the patchlevel loses nothing. |
| RubyFile.StripTrailingSlashes | lib/ruby_memcheck/configuration.rb:87-92 | The result is a prefix without a trailing '/', and only '/' was removed. |
| RubyFile.LastComponent | lib/ruby_memcheck/configuration.rb:87-92 | The result is the suffix after the last '/'. |
| RubyFile.Basename | lib/ruby_memcheck/configuration.rb:87-92 | `File.basename` is empty only for the empty path, and it is "/" or free of '/'. |
| RubyFile.LeadingDots | lib/ruby_memcheck/configuration.rb:92 | The count of leading dots, followed by a non-dot. |
| RubyFile.DropLastDot | lib/ruby_memcheck/configuration.rb:92 | The string up to its last '.', or the whole string when it has none. |
| RubyFile.StripExtension | lib/ruby_memcheck/configuration.rb:92 | `File.basename(p, ".*")` removes nothing, or exactly a last extension starting at a '.' that is not a leading dot. |
| RubyFile.FileJoin | lib/ruby_memcheck/configuration.rb:107 | `File.join(dir, name)` ends with name. |
| RubyFile.NotInPrefix | lib/ruby_memcheck/configuration.rb:87-92 | A character absent from a string is absent from its prefixes. |
| RubyFile.LastComponentAfterSlash | lib/ruby_memcheck/configuration.rb:87-92 | The last component after a '/'-terminated directory is the name. |
| RubyFile.BasenameUnderDirectory | lib/ruby_memcheck/configuration.rb:87-92 | `File.basename("<dir>/<name>")` is name. |
| RubyFile.BasenameOfName | lib/ruby_memcheck/configuration.rb:87-92 | A bare file name is its own basename. |
| RubyFile.BasenameIgnoresTrailingSlash | lib/ruby_memcheck/configuration.rb:87-92 | A trailing '/' does not change the basename. |
| RubyFile.DropLastDotOfExtension | lib/ruby_memcheck/configuration.rb:92 | The last dot of `name.ext`, where ext has no dot, is the one before ext. |
| RubyFile.StripExtensionOf | lib/ruby_memcheck/configuration.rb:92 | The extension of `name.ext` is `.ext` when name does not start with '.'. |
| RubyFile.StripExtensionWithoutDot | lib/ruby_memcheck/configuration.rb:92 | A name without a dot has no extension. |
| RubyFile.BasenameWithoutExtensionUnderDirectory | lib/ruby_memcheck/configuration.rb:92 | `File.basename("<dir>/<name>.<ext>", ".*")` is name. |
| RubyFile.BasenameOfFileJoin | lib/ruby_memcheck/configuration.rb:107 | The basename of `File.join(dir, name)` is name, for any directory. |

## Left out

- `valgrind_xml_file`: the default `Tempfile.new` is not modelled, nor the file's creation
  or cleanup. The constructor takes the file as `Option<string>` (its path, or none), so the
  caller passes it explicitly.
- `output_io`: it is only stored (lib/ruby_memcheck/configuration.rb:38-47), so it is not a
  field of the model.
- `Dir[...]`: it reads the file system. It is the `glob` parameter, and glob pattern syntax
  is not modelled.
- Skip list: regular expressions in general are not modelled. Only the two anchored shapes
  the defaults use are: `/\Aname/` (`Prefix`) and `/\Aname\z/` (`Exact`).
- The process constants `RUBY_ENGINE`, `RUBY_VERSION`, `RUBY_PATCHLEVEL` and
  `FileUtils::RUBY`: they are the `Runtime` parameter, not read from a running interpreter.
- Paths: only '/' separators are modelled. Windows drive letters and `File::ALT_SEPARATOR` are
  left out.
- A `nil` ruby path: `ruby` is always a string. With `ruby: nil`, Ruby would treat a frame
  without an object as Ruby's.
- The stack object: only its `frames` list is modelled, as a sequence of frames with function
  name and optional object path.
- `Command`: it has no contract of its own. `CommandWords` states what it builds. Shell
  quoting is absent in the source too, so a word containing a space does not read back.
- The missing `binary_name:` keyword argument (an `ArgumentError` in Ruby): `binaryName` is a
  required constructor parameter in the model, so a call without it does not type-check.
