/** The crypto helper of the cookbook: the workspace under Chef's file cache where the AEM
    crypto libraries are unpacked, `Decrypt.java` is compiled, the instance's master key is
    stored for a moment and the helper program is run to decrypt a value. Directories are
    maps from file name to content; the external tools (`unzip`, `javap`, `javac`, `java`,
    `rngd`) and the HTTP response are parameters, and every tool started is recorded in
    `trace`. */
module CryptoHelper {
  import opened Outcomes
  import opened Text
  import opened CryptoFailures
  import opened CryptoPaths
  import opened JvmVersion
  import opened Archive

  /** Where the standalone quickstart JAR sits inside the primary JAR. */
  const StaticAppFilter := "static/app/*"
  /** Where the crypto libraries sit inside the granite crypto bundle. */
  const LibFilter := "META-INF/lib/*"
  /** How many files the AEM library directory holds once materialised. */
  const ExpectedAemLibs := 5

  /** The folder of the standalone JAR that holds the bundles installed at start-up. */
  const InstallDir := "resources/install/0"
  /** The granite filter up to its wildcard. */
  const GranitePrefix := InstallDir + "/" + GraniteCrypto
  /** Where the granite crypto bundle sits inside the standalone JAR:
      `resources/install/0/com.adobe.granite.crypto*.jar`. */
  const GraniteFilter := GranitePrefix + "*" + ".jar"

  datatype Location = Tmp | Aem

  /** An external program the helper starts. */
  datatype Event =
    | Extract(filter: string, into: Location)
    | Javap
    | Javac(classpath: string)
    | SpawnEntropy
    | RunDecrypt(classpath: string, key: string, ciphertext: string)
    | KillEntropy

  /** The result of `javac`: the version of the class it wrote, or a compile error. */
  datatype JavacRun = Compiled(version: ClassVersion) | CompileError

  /** Exit status of a finished process: its code, or death by a signal (no code). */
  datatype ExitStatus = Exited(code: int) | Signalled

  /** `run_command` of the `Decrypt` helper: it ran and ended, or the process could not be started. */
  datatype HelperRun = Launched(status: ExitStatus, stdout: string) | LaunchFailed

  /** What `decrypt` ends in: the plaintext, `nil`, `fatal!`, or an exception that escapes. */
  datatype DecryptOutcome = Plaintext(text: string) | Absent | Fatal(error: FatalError) | Raised

  /** The answer to `GET /etc/key/master`. */
  datatype KeyResponse = KeyResponse(code: string, body: string)

  /** The two directories and the tools started after a materialisation attempt. */
  datatype Stage = Stage(tmp: Dir, aem: Dir, events: seq<Event>, outcome: Outcome<FatalError>)

  /** The compiled class and the tools started after a build attempt. */
  datatype Build = Build(cls: Option<ClassVersion>, events: seq<Event>, outcome: Outcome<FatalError>)

  lemma SingletonMember<T>(s: set<T>, x: T)
    requires |s| == 1 && x in s
    ensures s == {x}
  {
    var y :| y in s;
    assert |s - {y}| == 0;
    assert x == y;
  }

  ghost function TheElement(s: set<string>): (x: string)
    requires |s| == 1
    ensures s == {x}
  {
    var x :| x in s;
    SingletonMember(s, x);
    x
  }

  /** The stage `s` preceded by the start of `e`. */
  function After(e: Event, s: Stage): Stage {
    s.(events := [e] + s.events)
  }

  /** `extract_aem_libs`: nothing happens when the AEM directory already lists five files.
      Otherwise the standalone JAR is extracted into tmp, and the remaining stages follow. */
  ghost function Materialize(tmp: Dir, aem: Dir, primary: Option<Blob>): (s: Stage)
    ensures aem.Keys <= s.aem.Keys
    ensures s.events == [] <==> |Visible(aem)| == ExpectedAemLibs
  {
    if |Visible(aem)| == ExpectedAemLibs then Stage(tmp, aem, [], Pass)
    else
      match Unzip(primary, StaticAppFilter, tmp)
      case Err(err) => Stage(tmp, aem, [Extract(StaticAppFilter, Tmp)], Fail(err))
      case Ok(tmp1) => After(Extract(StaticAppFilter, Tmp), AfterStandalone(tmp1, aem))
  }

  /** The standalone JAR must be the only file listed in tmp; the granite crypto bundle is
      extracted from it into the AEM directory and it is deleted. */
  ghost function AfterStandalone(tmp1: Dir, aem: Dir): (s: Stage)
    ensures aem.Keys <= s.aem.Keys && s.tmp.Keys <= tmp1.Keys
    ensures s.outcome.Pass? ==> |Visible(tmp1)| == 1 && s.tmp == tmp1 - Visible(tmp1)
  {
    var tmpFiles := Visible(tmp1);
    if |tmpFiles| != 1 then Stage(tmp1, aem, [], Fail(AmbiguousStandalone(tmpFiles)))
    else
      var standalone := TheElement(tmpFiles);
      match Unzip(Some(tmp1[standalone]), GraniteFilter, aem)
      case Err(err) => Stage(tmp1, aem, [Extract(GraniteFilter, Aem)], Fail(err))
      case Ok(aem2) => After(Extract(GraniteFilter, Aem), AfterGranite(tmp1 - {standalone}, aem2))
  }

  /** Exactly one name in the AEM directory must match the granite pattern; the libraries
      inside that bundle are extracted next to it. */
  ghost function AfterGranite(tmp2: Dir, aem2: Dir): (s: Stage)
    ensures s.tmp == tmp2 && aem2.Keys <= s.aem.Keys
    ensures s.outcome.Pass? ==> |GraniteCandidates(aem2)| == 1 && s.events == [Extract(LibFilter, Aem)]
  {
    var granite := GraniteCandidates(aem2);
    if |granite| != 1 then Stage(tmp2, aem2, [], Fail(AmbiguousGraniteCrypto(granite)))
    else
      match Unzip(Some(aem2[TheElement(granite)]), LibFilter, aem2)
      case Err(err) => Stage(tmp2, aem2, [Extract(LibFilter, Aem)], Fail(err))
      case Ok(aem3) => Stage(tmp2, aem3, [Extract(LibFilter, Aem)], Pass)
  }

  /** Five listed libraries: the directories are left alone and no tool is started. */
  lemma {:induction false} MaterializeSkipsWhenComplete(tmp: Dir, aem: Dir, primary: Option<Blob>)
    requires |Visible(aem)| == ExpectedAemLibs
    ensures Materialize(tmp, aem, primary) == Stage(tmp, aem, [], Pass)
  {
  }

  /** Deleting the only listed file leaves nothing listed. */
  lemma OnlyListedDeleted(dir: Dir, name: string)
    requires Visible(dir) == {name}
    ensures Visible(dir - {name}) == {}
  {
    forall n | n in dir - {name} ensures Hidden(n) {
      assert n !in Visible(dir);
    }
  }

  /** A successful extraction ran the three stages in order, into tmp, then twice into the
      AEM directory, and left no listed file in tmp. */
  lemma {:induction false} MaterializeStages(tmp: Dir, aem: Dir, primary: Option<Blob>)
    requires |Visible(aem)| != ExpectedAemLibs
    requires Materialize(tmp, aem, primary).outcome == Pass
    ensures Materialize(tmp, aem, primary).events
         == [Extract(StaticAppFilter, Tmp), Extract(GraniteFilter, Aem), Extract(LibFilter, Aem)]
    ensures Visible(Materialize(tmp, aem, primary).tmp) == {}
  {
    var tmp1 := Unzip(primary, StaticAppFilter, tmp).value;
    AfterStandaloneStages(tmp1, aem);
  }

  lemma {:induction false} AfterStandaloneStages(tmp1: Dir, aem: Dir)
    requires AfterStandalone(tmp1, aem).outcome == Pass
    ensures AfterStandalone(tmp1, aem).events == [Extract(GraniteFilter, Aem), Extract(LibFilter, Aem)]
    ensures Visible(AfterStandalone(tmp1, aem).tmp) == {}
  {
    var standalone := TheElement(Visible(tmp1));
    var aem2 := Unzip(Some(tmp1[standalone]), GraniteFilter, aem).value;
    OnlyListedDeleted(tmp1, standalone);
    AfterGraniteStages(tmp1 - {standalone}, aem2);
  }

  lemma {:induction false} AfterGraniteStages(tmp2: Dir, aem2: Dir)
    requires AfterGranite(tmp2, aem2).outcome == Pass
    ensures AfterGranite(tmp2, aem2).events == [Extract(LibFilter, Aem)]
    ensures AfterGranite(tmp2, aem2).tmp == tmp2
  {
  }

  /** The check after the first stage: unless tmp lists exactly one file, the run stops
      before the standalone JAR is opened. */
  lemma {:induction false} MaterializeNeedsOneStandalone(tmp: Dir, aem: Dir, primary: Option<Blob>, tmp1: Dir)
    requires |Visible(aem)| != ExpectedAemLibs
    requires Unzip(primary, StaticAppFilter, tmp) == Ok(tmp1) && |Visible(tmp1)| != 1
    ensures Materialize(tmp, aem, primary)
         == Stage(tmp1, aem, [Extract(StaticAppFilter, Tmp)], Fail(AmbiguousStandalone(Visible(tmp1))))
  {
  }

  /** The check after the second stage: unless exactly one name matches the granite pattern,
      the run stops with the standalone JAR already deleted and the libraries not extracted. */
  lemma {:induction false} MaterializeNeedsOneGraniteBundle(tmp: Dir, aem: Dir, primary: Option<Blob>, tmp1: Dir, aem2: Dir)
    requires |Visible(aem)| != ExpectedAemLibs
    requires Unzip(primary, StaticAppFilter, tmp) == Ok(tmp1) && |Visible(tmp1)| == 1
    requires Unzip(Some(tmp1[TheElement(Visible(tmp1))]), GraniteFilter, aem) == Ok(aem2)
    requires |GraniteCandidates(aem2)| != 1
    ensures Materialize(tmp, aem, primary).outcome == Fail(AmbiguousGraniteCrypto(GraniteCandidates(aem2)))
    ensures Materialize(tmp, aem, primary).events == [Extract(StaticAppFilter, Tmp), Extract(GraniteFilter, Aem)]
    ensures Visible(Materialize(tmp, aem, primary).tmp) == {}
  {
    OnlyListedDeleted(tmp1, TheElement(Visible(tmp1)));
  }

  lemma SubsetCardinality(a: set<string>, b: set<string>)
    requires a <= b
    ensures |a| <= |b|
  {
    assert b == a + (b - a);
  }

  lemma TwoVisible(d: Dir, a: string, b: string)
    requires a in d && b in d && a != b && !Hidden(a) && !Hidden(b)
    ensures |Visible(d)| >= 2
  {
    SubsetCardinality({a, b}, Visible(d));
  }

  /** Extracting an entry next to a visible file it does not overwrite leaves at least two
      visible files in the destination. */
  lemma {:induction false} LeftoverStaysBesideExtracted(dst: Dir, archive: Option<Blob>, filter: string, leftover: string, i: nat)
    requires leftover in dst && !Hidden(leftover)
    requires archive.Some? && archive.value.Jar? && i < |archive.value.entries|
    requires var e := archive.value.entries[i];
             Extracts(filter, e) && !Hidden(Basename(e.path)) && Basename(e.path) != leftover
    ensures Unzip(archive, filter, dst).Ok?
    ensures |Visible(Unzip(archive, filter, dst).value)| >= 2
  {
    var entries := archive.value.entries;
    var name := Basename(entries[i].path);
    UnzipWithMatch(archive, filter, dst, i);
    ExtractedNameListed(entries, filter, i);
    var dst1 := Unzip(archive, filter, dst).value;
    TwoVisible(dst1, leftover, name);
  }

  /** A file left in tmp (a master key that was never unloaded) that the standalone JAR
      does not overwrite makes every later materialisation stop after the first stage. */
  lemma {:induction false} LeftoverFileBlocksMaterialize(tmp: Dir, aem: Dir, primary: Option<Blob>, leftover: string, i: nat)
    requires |Visible(aem)| != ExpectedAemLibs
    requires leftover in tmp && !Hidden(leftover)
    requires primary.Some? && primary.value.Jar? && i < |primary.value.entries|
    requires var e := primary.value.entries[i];
             Extracts(StaticAppFilter, e) && !Hidden(Basename(e.path)) && Basename(e.path) != leftover
    ensures Materialize(tmp, aem, primary).outcome.Fail?
    ensures Materialize(tmp, aem, primary).outcome.error.AmbiguousStandalone?
  {
    LeftoverStaysBesideExtracted(tmp, primary, StaticAppFilter, leftover, i);
    var tmp1 := Unzip(primary, StaticAppFilter, tmp).value;
    assert Unzip(primary, StaticAppFilter, tmp) == Ok(tmp1) && |Visible(tmp1)| != 1;
    MaterializeNeedsOneStandalone(tmp, aem, primary, tmp1);
  }

  lemma {:induction false} BasenameAfterSlash(dir: string, name: string)
    requires '/' !in name
    ensures Basename(dir + "/" + name) == name
  {
    if name != [] {
      var init := name[..|name| - 1];
      assert (dir + "/" + name)[..|dir + "/" + name| - 1] == dir + "/" + init;
      BasenameAfterSlash(dir, init);
      assert init + [name[|name| - 1]] == name;
    } else {
      assert dir + "/" + name == dir + "/";
    }
  }

  lemma NoSlashInGraniteName(version: string)
    requires '/' !in version
    ensures '/' !in GraniteCrypto + version + ".jar"
  {
    assert '/' !in GraniteCrypto;
  }

  /** The granite filter selects `com.adobe.granite.crypto<version>.jar` in the install folder. */
  lemma {:induction false} GraniteFilterSelects(version: string)
    requires '*' !in version
    ensures GlobMatch(GraniteFilter, GranitePrefix + version + ".jar")
  {
    var path := GranitePrefix + version + ".jar";
    GlobPrefixStarSuffix(GranitePrefix, ".jar", path);
    assert path[|path| - 4..] == ".jar";
    assert GranitePrefix <= path;
  }

  /** The granite pattern finds `com.adobe.granite.crypto<version>.jar`. */
  lemma {:induction false} GraniteNameMatches(version: string)
    requires '\n' !in version
    ensures GraniteMatch(GraniteCrypto + version + ".jar")
  {
    var name := GraniteCrypto + version + ".jar";
    assert name[0..|GraniteCrypto|] == GraniteCrypto;
    assert name[|GraniteCrypto|] != '\n' by {
      if version != [] {
        assert name[|GraniteCrypto|] == version[0];
      } else {
        assert name[|GraniteCrypto|] == '.';
      }
    }
    assert GraniteMatchAt(name, 0);
  }

  /** A bundle the second stage extracts, `com.adobe.granite.crypto<version>.jar`, lands
      under a name the granite search of the third stage finds. */
  lemma {:induction false} GraniteBundleIsFound(version: string, content: Blob)
    requires '/' !in version && '*' !in version && '\n' !in version
    ensures var e := Entry(GranitePrefix + version + ".jar", content);
            && Extracts(GraniteFilter, e)
            && Basename(e.path) == GraniteCrypto + version + ".jar"
            && GraniteMatch(Basename(e.path))
  {
    var name := GraniteCrypto + version + ".jar";
    GraniteFilterSelects(version);
    assert GranitePrefix + version + ".jar" == InstallDir + "/" + name;
    NoSlashInGraniteName(version);
    BasenameAfterSlash(InstallDir, name);
    GraniteNameMatches(version);
  }

  /** One `javac` run with the crypto classpath. */
  function CompileStep(cp: string, javac: JavacRun, cls: Option<ClassVersion>): (b: Build)
    ensures b.events == [Javac(cp)]
    ensures b.outcome == Pass <==> javac.Compiled?
    ensures b.outcome.Fail? ==> b.outcome.error == CompileFailed && b.cls == cls
  {
    match javac
    case Compiled(v) => Build(Some(v), [Javac(cp)], Pass)
    case CompileError => Build(cls, [Javac(cp)], Fail(CompileFailed))
  }

  /** `deploy_decryptor` then the rebuild test of `load_decryptor`: compile when the source
      was just deployed; then compile again when the class is missing or when `changed`,
      what `jvm_version_changed?` answers for the class as it is at that point, is true. */
  function BuildDecryptor(cp: string, cls: Option<ClassVersion>, sourceUpdated: bool,
                          javac: JavacRun, changed: Result<bool, FatalError>): (b: Build)
    ensures b.outcome.Pass? ==> b.cls.Some?
    ensures b.outcome.Fail? ==> b.outcome.error == CompileFailed || changed == Err(b.outcome.error)
    ensures |b.events| <= 3
  {
    var b1 := if sourceUpdated then CompileStep(cp, javac, cls) else Build(cls, [], Pass);
    if b1.outcome.Fail? then b1
    else
      var probe := if b1.cls.Some? then [Javap] else [];
      match (if b1.cls.Some? then changed else Ok(true))
      case Err(e) => Build(b1.cls, b1.events + probe, Fail(e))
      case Ok(false) => Build(b1.cls, b1.events + probe, Pass)
      case Ok(true) =>
        var b2 := CompileStep(cp, javac, b1.cls);
        Build(b2.cls, b1.events + probe + b2.events, b2.outcome)
  }

  /** Without a fresh deploy, `javac` runs exactly when the class is missing or the version
      probe answers true, and `javap` runs exactly when the class exists. */
  lemma {:induction false} RecompileIff(cp: string, cls: Option<ClassVersion>, javac: JavacRun, changed: Result<bool, FatalError>)
    ensures var b := BuildDecryptor(cp, cls, false, javac, changed);
            && (Javac(cp) in b.events <==> cls.None? || changed == Ok(true))
            && (Javap in b.events <==> cls.Some?)
  {
    var b := BuildDecryptor(cp, cls, false, javac, changed);
    if cls.None? {
      assert b.events == [] + [] + [Javac(cp)];
    } else {
      match changed
      case Err(_) =>
        assert b.events == [] + [Javap];
      case Ok(false) =>
        assert b.events == [] + [Javap];
      case Ok(true) =>
        assert b.events == [] + [Javap] + [Javac(cp)];
    }
  }

  /** A freshly deployed source is compiled before anything else is looked at. */
  lemma {:induction false} DeployCompilesFirst(cp: string, cls: Option<ClassVersion>, javac: JavacRun, changed: Result<bool, FatalError>)
    ensures var b := BuildDecryptor(cp, cls, true, javac, changed);
            |b.events| >= 1 && b.events[0] == Javac(cp)
  {
  }

  /** A class compiled for the desired release is left alone by the next run: only `javap`
      is started. */
  lemma {:induction false} BuildStable(cp: string, header: string, v: ClassVersion, javac: JavacRun, desired: Option<string>)
    requires HeaderLine(header) && ReferenceLabel(v) == desired
    ensures BuildDecryptor(cp, Some(v), false, javac, VersionChanged(desired, JavapRun(true, Disassembly(header, v))))
         == Build(Some(v), [Javap], Pass)
  {
    VersionChangedOfDisassembly(header, v, desired);
    UnchangedClassIsKept(cp, v, javac);
  }

  /** An existing class the probe reports as unchanged is only probed. */
  lemma {:induction false} UnchangedClassIsKept(cp: string, v: ClassVersion, javac: JavacRun)
    ensures BuildDecryptor(cp, Some(v), false, javac, Ok(false)) == Build(Some(v), [Javap], Pass)
  {
    assert [] + [Javap] == [Javap];
  }

  /** An existing class the probe reports as changed is probed, then rebuilt. */
  lemma {:induction false} ChangedClassIsRebuilt(cp: string, v: ClassVersion, javac: JavacRun)
    ensures var b := BuildDecryptor(cp, Some(v), false, javac, Ok(true));
            b.events == [Javap, Javac(cp)] && b == CompileStep(cp, javac, Some(v)).(events := b.events)
  {
    assert [] + [Javap] + [Javac(cp)] == [Javap, Javac(cp)];
  }

  /** When `javac` produces a class the version table does not know (Java 9 and later),
      every run compiles again as long as a `jdk_version` is set. */
  lemma {:induction false} UnmappedCompilerRecompilesEveryRun(cp: string, header: string, v: ClassVersion, desired: Option<string>)
    requires HeaderLine(header) && v.major > 52 && desired.Some?
    ensures var b := BuildDecryptor(cp, Some(v), false, Compiled(v), VersionChanged(desired, JavapRun(true, Disassembly(header, v))));
            b == Build(Some(v), [Javap, Javac(cp)], Pass)
  {
    VersionChangedOfDisassembly(header, v, desired);
    MapperMatchesReference(v);
    ChangedClassIsRebuilt(cp, v, Compiled(v));
  }

  /** The exit-code table of `decrypt`'s rescue clause for a helper that ran: 0 gives the
      stripped output; 1, 2, 4 and 5 stop the run; 3 and every other code, or a signal
      (no code), give `nil`. */
  function StatusOutcome(status: ExitStatus, stdout: string): (r: DecryptOutcome)
    ensures r.Plaintext? <==> status == Exited(0)
    ensures r.Plaintext? ==> Trimmed(r.text) && r.text == Strip(stdout)
    ensures r.Fatal? <==> status.Exited? && status.code in {1, 2, 4, 5}
    ensures r.Absent? <==> status.Signalled? || status.code !in {0, 1, 2, 4, 5}
    ensures !r.Raised?
  {
    match status
    case Signalled => Absent
    case Exited(code) =>
      if code == 0 then Plaintext(Strip(stdout))
      else if code == 1 then Fatal(WrongNumberOfArguments)
      else if code == 2 then Fatal(MasterKeyUnreadable)
      else if code == 3 then Absent
      else if code == 4 then Fatal(CipherInitFailed)
      else if code == 5 then Fatal(MasterKeyMissing)
      else Absent
  }

  /** `decrypt`: a failed `rngd` spawn reaches the rescue clause with no command, whose
      `exitstatus` call raises; a helper that cannot be started has no exit status and
      gives `nil`; otherwise the exit-code table decides. */
  function DecryptOutcomeOf(spawned: bool, run: HelperRun): (r: DecryptOutcome)
    ensures r.Raised? <==> !spawned
    ensures spawned && run.LaunchFailed? ==> r == Absent
    ensures spawned && run.Launched? ==> r == StatusOutcome(run.status, run.stdout)
  {
    if !spawned then Raised
    else match run
      case LaunchFailed => Absent
      case Launched(status, stdout) => StatusOutcome(status, stdout)
  }

  /** The helper prints the plaintext surrounded by any whitespace; `decrypt` returns exactly
      the plaintext. */
  lemma {:induction false} DecryptReturnsPrintedPlaintext(pre: string, plaintext: string, post: string)
    requires AllStripped(pre) && AllStripped(post) && Trimmed(plaintext)
    ensures DecryptOutcomeOf(true, Launched(Exited(0), pre + plaintext + post)) == Plaintext(plaintext)
  {
    StripPadded(pre, plaintext, post);
  }

  /** The programs `decrypt` starts, in order: the entropy daemon, the helper, then the
      kill of the daemon, which only happens once the helper ran. */
  function DecryptEvents(cp: string, key: string, ciphertext: string, spawned: bool, run: HelperRun): (es: seq<Event>)
    ensures !spawned ==> es == []
    ensures spawned ==> |es| >= 2 && es[..2] == [SpawnEntropy, RunDecrypt(cp, key, ciphertext)]
    ensures KillEntropy in es <==> spawned && run.Launched?
  {
    if !spawned then []
    else if run.LaunchFailed? then [SpawnEntropy, RunDecrypt(cp, key, ciphertext)]
    else [SpawnEntropy, RunDecrypt(cp, key, ciphertext), KillEntropy]
  }

  class CryptoWorkspace {
    /** `Chef::Config[:file_cache_path]`. */
    const cacheRoot: string
    /** The crypto tmp directory. */
    var tmp: Dir
    /** The AEM crypto library directory. */
    var aem: Dir
    /** `Decrypt.class`, by the version it was compiled for, if present. */
    var decryptClass: Option<ClassVersion>
    /** The external programs started so far. */
    var trace: seq<Event>

    constructor (cacheRoot: string, tmp: Dir, aem: Dir, decryptClass: Option<ClassVersion>)
      ensures this.cacheRoot == cacheRoot && this.tmp == tmp && this.aem == aem
      ensures this.decryptClass == decryptClass && trace == []
    {
      this.cacheRoot := cacheRoot;
      this.tmp := tmp;
      this.aem := aem;
      this.decryptClass := decryptClass;
      trace := [];
    }

    /** `extract_aem_libs`, step by step on the two directories. */
    method ExtractAemLibs(primary: Option<Blob>) returns (outcome: Outcome<FatalError>)
      modifies this
      ensures var s := Materialize(old(tmp), old(aem), primary);
              tmp == s.tmp && aem == s.aem && trace == old(trace) + s.events && outcome == s.outcome
      ensures decryptClass == old(decryptClass)
    {
      if |Visible(aem)| == ExpectedAemLibs {
        return Pass;
      }
      trace := trace + [Extract(StaticAppFilter, Tmp)];
      var r1 := Unzip(primary, StaticAppFilter, tmp);
      if r1.Err? {
        return Fail(r1.error);
      }
      tmp := r1.value;
      outcome := ExtractGraniteBundle();
    }

    /** The part of `extract_aem_libs` after the standalone JAR was extracted into tmp. */
    method ExtractGraniteBundle() returns (outcome: Outcome<FatalError>)
      modifies this
      ensures var s := AfterStandalone(old(tmp), old(aem));
              tmp == s.tmp && aem == s.aem && trace == old(trace) + s.events && outcome == s.outcome
      ensures decryptClass == old(decryptClass)
    {
      var tmpFiles := Visible(tmp);
      if |tmpFiles| != 1 {
        return Fail(AmbiguousStandalone(tmpFiles));
      }
      var standalone :| standalone in tmpFiles;
      SingletonMember(tmpFiles, standalone);
      trace := trace + [Extract(GraniteFilter, Aem)];
      var r2 := Unzip(Some(tmp[standalone]), GraniteFilter, aem);
      if r2.Err? {
        return Fail(r2.error);
      }
      aem := r2.value;
      tmp := tmp - {standalone};
      outcome := ExtractCryptoLibs();
    }

    /** The part of `extract_aem_libs` after the granite crypto bundle was extracted. */
    method ExtractCryptoLibs() returns (outcome: Outcome<FatalError>)
      modifies this
      ensures var s := AfterGranite(old(tmp), old(aem));
              tmp == s.tmp && aem == s.aem && trace == old(trace) + s.events && outcome == s.outcome
      ensures decryptClass == old(decryptClass)
    {
      var granite := GraniteCandidates(aem);
      if |granite| != 1 {
        return Fail(AmbiguousGraniteCrypto(granite));
      }
      var bundle :| bundle in granite;
      SingletonMember(granite, bundle);
      trace := trace + [Extract(LibFilter, Aem)];
      var r3 := Unzip(Some(aem[bundle]), LibFilter, aem);
      if r3.Err? {
        return Fail(r3.error);
      }
      aem := r3.value;
      return Pass;
    }

    /** `compile_decryptor`. */
    method CompileDecryptor(javac: JavacRun) returns (outcome: Outcome<FatalError>)
      modifies this
      ensures var b := CompileStep(Classpath(cacheRoot), javac, old(decryptClass));
              decryptClass == b.cls && trace == old(trace) + b.events && outcome == b.outcome
      ensures tmp == old(tmp) && aem == old(aem)
    {
      trace := trace + [Javac(Classpath(cacheRoot))];
      match javac
      case Compiled(v) =>
        decryptClass := Some(v);
        outcome := Pass;
      case CompileError =>
        outcome := Fail(CompileFailed);
    }

    /** `load_decryptor`: materialise the libraries, deploy the source (compiling it when it
        was updated), then compile again when the class is missing or targets another
        release. */
    method LoadDecryptor(primary: Option<Blob>, sourceUpdated: bool, javac: JavacRun,
                         javap: JavapRun, desired: Option<string>) returns (outcome: Outcome<FatalError>)
      modifies this
      ensures var s := Materialize(old(tmp), old(aem), primary);
              tmp == s.tmp && aem == s.aem
              && (s.outcome.Fail? ==> outcome == s.outcome && decryptClass == old(decryptClass)
                                      && trace == old(trace) + s.events)
              && (s.outcome.Pass? ==>
                    var b := BuildDecryptor(Classpath(cacheRoot), old(decryptClass), sourceUpdated, javac, VersionChanged(desired, javap));
                    outcome == b.outcome && decryptClass == b.cls && trace == old(trace) + s.events + b.events)
    {
      outcome := ExtractAemLibs(primary);
      if outcome.Fail? {
        return;
      }
      outcome := EnsureCompiled(sourceUpdated, javac, VersionChanged(desired, javap));
    }

    /** `deploy_decryptor` (compiling when the source was updated) and the rebuild test. */
    method EnsureCompiled(sourceUpdated: bool, javac: JavacRun, changed: Result<bool, FatalError>)
      returns (outcome: Outcome<FatalError>)
      modifies this
      ensures var b := BuildDecryptor(Classpath(cacheRoot), old(decryptClass), sourceUpdated, javac, changed);
              outcome == b.outcome && decryptClass == b.cls && trace == old(trace) + b.events
      ensures tmp == old(tmp) && aem == old(aem)
    {
      ghost var b1 := if sourceUpdated then CompileStep(Classpath(cacheRoot), javac, decryptClass)
                      else Build(decryptClass, [], Pass);
      if sourceUpdated {
        outcome := CompileDecryptor(javac);
        if outcome.Fail? {
          return;
        }
      }
      assert decryptClass == b1.cls && trace == old(trace) + b1.events;
      var rebuild := Ok(true);
      if decryptClass.Some? {
        trace := trace + [Javap];
        rebuild := changed;
      }
      if rebuild.Err? {
        return Fail(rebuild.error);
      }
      outcome := Pass;
      if rebuild.value {
        outcome := CompileDecryptor(javac);
      }
    }

    /** `save_key`: write the key under a fresh name in tmp, or stop the run when the write fails. */
    method SaveKey(content: string, uuid: string, writeOk: bool) returns (r: Result<string, FatalError>)
      modifies this
      ensures writeOk ==> r == Ok(uuid) && tmp == old(tmp)[uuid := Data(content)]
      ensures !writeOk ==> r == Err(MasterKeyWriteFailed) && tmp == old(tmp)
      ensures aem == old(aem) && decryptClass == old(decryptClass) && trace == old(trace)
    {
      if !writeOk {
        return Err(MasterKeyWriteFailed);
      }
      tmp := tmp[uuid := Data(content)];
      return Ok(uuid);
    }

    /** `load_master_key`: any answer but 200 stops the run; otherwise the body is saved. */
    method LoadMasterKey(resp: KeyResponse, uuid: string, writeOk: bool) returns (r: Result<string, FatalError>)
      modifies this
      ensures resp.code != "200" ==> r == Err(MasterKeyDownloadFailed(resp.code)) && tmp == old(tmp)
      ensures resp.code == "200" && writeOk ==> r == Ok(uuid) && tmp == old(tmp)[uuid := Data(resp.body)]
      ensures resp.code == "200" && !writeOk ==> r == Err(MasterKeyWriteFailed) && tmp == old(tmp)
      ensures aem == old(aem) && decryptClass == old(decryptClass) && trace == old(trace)
    {
      if resp.code != "200" {
        return Err(MasterKeyDownloadFailed(resp.code));
      }
      r := SaveKey(resp.body, uuid, writeOk);
    }

    /** `unload_master_key`: delete the file; a missing file is only logged, never raised. */
    method UnloadMasterKey(name: string) returns (deleted: bool)
      modifies this
      ensures deleted <==> name in old(tmp)
      ensures tmp == old(tmp) - {name}
      ensures aem == old(aem) && decryptClass == old(decryptClass) && trace == old(trace)
    {
      deleted := name in tmp;
      tmp := tmp - {name};
    }

    /** Loading a key under a fresh name and unloading it leaves tmp as it was. */
    method LoadThenUnload(resp: KeyResponse, uuid: string, writeOk: bool) returns (r: Result<string, FatalError>)
      requires uuid !in tmp
      modifies this
      ensures tmp == old(tmp)
      ensures r.Ok? <==> resp.code == "200" && writeOk
    {
      r := LoadMasterKey(resp, uuid, writeOk);
      if r.Ok? {
        var deleted := UnloadMasterKey(r.value);
        assert deleted;
        assert tmp == old(tmp);
      }
    }

    /** `decrypt`: start the entropy daemon, run the helper with the crypto classpath, kill
        the daemon, then read the exit status. */
    method Decrypt(key: string, ciphertext: string, spawned: bool, run: HelperRun) returns (r: DecryptOutcome)
      modifies this
      ensures r == DecryptOutcomeOf(spawned, run)
      ensures trace == old(trace) + DecryptEvents(Classpath(cacheRoot), key, ciphertext, spawned, run)
      ensures tmp == old(tmp) && aem == old(aem) && decryptClass == old(decryptClass)
    {
      if !spawned {
        return Raised;
      }
      trace := trace + [SpawnEntropy, RunDecrypt(Classpath(cacheRoot), key, ciphertext)];
      match run
      case LaunchFailed =>
        r := Absent;
      case Launched(status, stdout) =>
        trace := trace + [KillEntropy];
        r := StatusOutcome(status, stdout);
    }
  }
}
