/** Which Java release a compiled `Decrypt.class` targets, as the crypto helper finds out
    from `javap -verbose`, and the rule that decides whether `Decrypt.java` is recompiled. */
module JvmVersion {
  import opened Outcomes
  import opened Text
  import opened CryptoFailures

  /** The `major.minor` version pair recorded in a class file. */
  datatype ClassVersion = ClassVersion(major: nat, minor: nat)

  predicate IsDigit(c: char) {
    '0' <= c <= '9'
  }

  function DigitChar(d: nat): (c: char)
    requires d < 10
    ensures IsDigit(c)
  {
    ('0' as int + d) as char
  }

  /** Decimal notation of `n`, as `javap` prints version numbers. */
  function Decimal(n: nat): (s: string)
    ensures |s| >= 1
    ensures forall k :: 0 <= k < |s| ==> IsDigit(s[k])
  {
    if n < 10 then [DigitChar(n)] else Decimal(n / 10) + [DigitChar(n % 10)]
  }

  function DigitValue(c: char): (d: nat)
    requires IsDigit(c)
    ensures d < 10 && DigitChar(d) == c
  {
    c as int - '0' as int
  }

  /** The number a string of digits denotes. */
  function DecimalValue(s: string): nat
    requires forall k :: 0 <= k < |s| ==> IsDigit(s[k])
  {
    if s == [] then 0 else 10 * DecimalValue(s[..|s| - 1]) + DigitValue(s[|s| - 1])
  }

  lemma {:induction false} DecimalRoundTrip(n: nat)
    ensures DecimalValue(Decimal(n)) == n
  {
    if n >= 10 {
      var s := Decimal(n);
      assert s[..|s| - 1] == Decimal(n / 10);
      DecimalRoundTrip(n / 10);
    }
  }

  lemma DecimalInjective(a: nat, b: nat)
    requires Decimal(a) == Decimal(b)
    ensures a == b
  {
    DecimalRoundTrip(a);
    DecimalRoundTrip(b);
  }

  /** The key `compiled_with?` looks up: `major + '.' + minor`. */
  function VersionKey(v: ClassVersion): string {
    Decimal(v.major) + "." + Decimal(v.minor)
  }

  /** In `x + "." + rx == y + "." + ry` with digit-only `x` and `y`, the first dot sits at the same place. */
  lemma DotAfterDigits(x: string, rx: string, y: string, ry: string)
    requires x + "." + rx == y + "." + ry
    requires forall k :: 0 <= k < |x| ==> IsDigit(x[k])
    ensures |x| <= |y|
  {
    assert (y + "." + ry)[|y|] == '.';
  }

  /** Distinct version pairs never share a key: the dot cannot be confused with a digit. */
  lemma {:induction false} VersionKeyInjective(v: ClassVersion, w: ClassVersion)
    requires VersionKey(v) == VersionKey(w)
    ensures v == w
  {
    var x, y, k := Decimal(v.major), Decimal(w.major), VersionKey(v);
    DotAfterDigits(x, Decimal(v.minor), y, Decimal(w.minor));
    DotAfterDigits(y, Decimal(w.minor), x, Decimal(v.minor));
    assert x == k[..|x|] == y;
    DecimalInjective(v.major, w.major);
    assert Decimal(v.minor) == k[|x| + 1..] == Decimal(w.minor);
    DecimalInjective(v.minor, w.minor);
  }

  /** The key of a two-digit major and one-digit minor version, character by character. */
  lemma TwoDigitKey(v: ClassVersion)
    requires 10 <= v.major < 100 && v.minor < 10
    ensures VersionKey(v) == [DigitChar(v.major / 10), DigitChar(v.major % 10), '.', DigitChar(v.minor)]
  {
    assert Decimal(v.major) == [DigitChar(v.major / 10), DigitChar(v.major % 10)];
  }

  /** `jvm_version_mapper`: class-file version to Java release label. */
  const VersionTable: map<string, string> := map[
    "45.3" := "1",
    "46.0" := "2",
    "47.0" := "3",
    "48.0" := "4",
    "49.0" := "5",
    "50.0" := "6",
    "51.0" := "7",
    "52.0" := "8"
  ]

  function JvmVersionMapper(majorMinor: string): (r: Option<string>)
    ensures r.None? <==> majorMinor !in VersionTable
    ensures r.Some? ==> |r.value| == 1 && '1' <= r.value[0] <= '8'
  {
    if majorMinor in VersionTable then Some(VersionTable[majorMinor]) else None
  }

  /** The release labels stated on version numbers: 45.3 is Java 1, 46.0 to 52.0 are
      Java 2 to 8, and nothing else has a label. */
  function ReferenceLabel(v: ClassVersion): Option<string> {
    if v.major == 45 && v.minor == 3 then Some("1")
    else if 46 <= v.major <= 52 && v.minor == 0 then Some(Decimal(v.major - 44))
    else None
  }

  /** The table has exactly the eight keys of the reference and never guesses a label
      for any other version pair. */
  lemma {:induction false} MapperMatchesReference(v: ClassVersion)
    ensures JvmVersionMapper(VersionKey(v)) == ReferenceLabel(v)
  {
    var k := VersionKey(v);
    if ReferenceLabel(v).Some? {
      TwoDigitKey(v);
      if v.major == 45 {
        assert k == "45.3";
      } else if v.major == 46 {
        assert k == "46.0" && Decimal(2) == "2";
      } else if v.major == 47 {
        assert k == "47.0" && Decimal(3) == "3";
      } else if v.major == 48 {
        assert k == "48.0" && Decimal(4) == "4";
      } else if v.major == 49 {
        assert k == "49.0" && Decimal(5) == "5";
      } else if v.major == 50 {
        assert k == "50.0" && Decimal(6) == "6";
      } else if v.major == 51 {
        assert k == "51.0" && Decimal(7) == "7";
      } else {
        assert k == "52.0" && Decimal(8) == "8";
      }
    } else {
      TableKeyHasLabel(v);
    }
  }

  /** Every key of the table is the key of a labelled version. */
  lemma {:induction false} TableKeyHasLabel(v: ClassVersion)
    ensures VersionKey(v) in VersionTable ==> ReferenceLabel(v).Some?
  {
    var k := VersionKey(v);
    if k in VersionTable {
      assert |k| == 4 && IsDigit(k[0]) && IsDigit(k[1]) && k[0] != '0' && IsDigit(k[3]);
      var w := ClassVersion(10 * DigitValue(k[0]) + DigitValue(k[1]), DigitValue(k[3]));
      TwoDigitKey(w);
      assert VersionKey(w) == k;
      VersionKeyInjective(v, w);
    }
  }

  /** Length of the run of `\s` characters at the start of `s`. */
  function SpaceRun(s: string): (n: nat)
    ensures n <= |s|
    ensures forall k :: 0 <= k < n ==> IsSpace(s[k])
    ensures n < |s| ==> !IsSpace(s[n])
  {
    if s == [] || !IsSpace(s[0]) then 0 else 1 + SpaceRun(s[1..])
  }

  /** Length of the run of characters other than a line feed (what `.` matches) at the start of `s`. */
  function LineRun(s: string): (n: nat)
    ensures n <= |s|
    ensures forall k :: 0 <= k < n ==> s[k] != '\n'
    ensures n < |s| ==> s[n] == '\n'
  {
    if s == [] || s[0] == '\n' then 0 else 1 + LineRun(s[1..])
  }

  /** Where Ruby's `^` can match: the start of the text or just after a line feed. */
  predicate LineStart(out: string, p: nat)
    requires p <= |out|
  {
    p == 0 || out[p - 1] == '\n'
  }

  /** The `version` group of `^\s+<word>\sversion:\s(?<version>.+)` when a match starts at `p`
      (which must be a line start). */
  function MatchAt(out: string, p: nat, word: string): (r: Option<string>)
    requires p <= |out|
    ensures r.Some? ==> r.value != [] && '\n' !in r.value
  {
    MatchLine(out[p..], word)
  }

  /** The pattern against the text `s` from a line start on: the greedy `\s+` stops at the
      first non-space (a word starting with one could not match by giving back spaces). */
  function MatchLine(s: string, word: string): (r: Option<string>)
    ensures r.Some? ==> r.value != [] && '\n' !in r.value
  {
    var q := SpaceRun(s);
    if q == 0 then None else Tagged(s[q..], word)
  }

  /** The rest of the pattern right after the indentation: the word, a single `\s`,
      `version:`, a single `\s`, then `.+`, which takes the rest of the line, at least one
      character. */
  function Tagged(t: string, word: string): (r: Option<string>)
    ensures r.Some? ==> r.value != [] && '\n' !in r.value
  {
    var a := |word|;
    if a + 10 > |t| || t[..a] != word || !IsSpace(t[a]) || t[a + 1..a + 9] != "version:" || !IsSpace(t[a + 9]) then None
    else
      var n := LineRun(t[a + 10..]);
      if n == 0 then None else Some(t[a + 10..][..n])
  }

  predicate Matches(out: string, p: nat, word: string)
    requires p <= |out|
  {
    LineStart(out, p) && MatchAt(out, p, word).Some?
  }

  /** The leftmost position at or after `p` where the pattern matches. */
  function FirstMatch(out: string, word: string, p: nat): (r: Option<nat>)
    requires p <= |out|
    ensures r.Some? ==> p <= r.value <= |out| && Matches(out, r.value, word)
    ensures forall k :: p <= k <= |out| && (r.None? || k < r.value) ==> !Matches(out, k, word)
    decreases |out| - p
  {
    if Matches(out, p, word) then Some(p)
    else if p == |out| then None
    else FirstMatch(out, word, p + 1)
  }

  /** `stdout[/^\s+<word>\sversion:\s(?<version>.+)/, 'version']`, `nil` when nothing matches. */
  function VersionLine(out: string, word: string): (r: Option<string>)
    ensures r.Some? ==> r.value != [] && '\n' !in r.value
    ensures r.None? <==> forall k :: 0 <= k <= |out| ==> !Matches(out, k, word)
  {
    match FirstMatch(out, word, 0)
    case None => None
    case Some(p) => MatchAt(out, p, word)
  }

  /** What `javap` left behind: whether it succeeded and what it printed. */
  datatype JavapRun = JavapRun(succeeded: bool, stdout: string)

  /** The parse-and-map part of `compiled_with?`. A failing `javap` or a missing version line
      (`nil + '.'` raises) ends in `fatal!`; an unknown `major.minor` gives `nil`. */
  function CompiledWith(run: JavapRun): (r: Result<Option<string>, FatalError>)
    ensures r.Err? ==> r.error == DisassembleFailed
    ensures r.Ok? <==> run.succeeded && VersionLine(run.stdout, "major").Some? && VersionLine(run.stdout, "minor").Some?
  {
    if !run.succeeded then Err(DisassembleFailed)
    else
      match (VersionLine(run.stdout, "major"), VersionLine(run.stdout, "minor"))
      case (Some(major), Some(minor)) => Ok(JvmVersionMapper(major + "." + minor))
      case _ => Err(DisassembleFailed)
  }

  /** A first line of `javap -verbose` output (`Classfile <path>`): one line, not indented. */
  predicate HeaderLine(header: string) {
    header != [] && !IsSpace(header[0]) && '\n' !in header
  }

  /** An indented `javap` line `  <word> version: <value>`. */
  function Indented(word: string, value: string): string {
    "  " + (word + (" version: " + value))
  }

  function MinorLine(v: ClassVersion): string { Indented("minor", Decimal(v.minor)) }
  function MajorLine(v: ClassVersion): string { Indented("major", Decimal(v.major)) }

  lemma IndentedThen(word: string, value: string, x: string)
    ensures Indented(word, value) + x == "  " + (word + (" version: " + (value + x)))
  {
    assert (" version: " + value) + x == " version: " + (value + x);
    assert (word + (" version: " + value)) + x == word + ((" version: " + value) + x);
  }

  /** The part of `javap -verbose` output the helper reads: a header line, then the minor
      before the major version, both indented. */
  function Disassembly(header: string, v: ClassVersion): string {
    header + ("\n" + (MinorLine(v) + ("\n" + (MajorLine(v) + "\n"))))
  }


  /** Two spaces before a non-space character make a run of two. */
  lemma IndentRun(s: string, x: string)
    requires |x| >= 1 && !IsSpace(x[0]) && s == "  " + x
    ensures SpaceRun(s) == 2
  {
    assert s[0] == ' ' && s[1] == ' ' && s[2] == x[0];
  }

  /** `.+` stops at the line feed that ends `value`. */
  lemma LineRunOfValue(t: string, value: string, rest: string)
    requires '\n' !in value && t == value + ("\n" + rest)
    ensures LineRun(t) == |value|
  {
    assert t[|value|] == '\n';
    forall k | 0 <= k < |value| ensures t[k] != '\n' { assert t[k] == value[k]; }
  }

  /** A line written `<word> version: <value>` yields `value`. */
  lemma {:induction false} TaggedLine(word: string, value: string, rest: string)
    requires value != [] && '\n' !in value
    ensures Tagged(word + (" version: " + (value + ("\n" + rest))), word) == Some(value)
  {
    var r2 := value + ("\n" + rest);
    var t := word + (" version: " + r2);
    var a := |word|;
    assert t[..a] == word;
    assert t[a..] == " version: " + r2;
    assert t[a] == ' ' && t[a + 9] == ' ';
    assert t[a + 1..a + 9] == "version:";
    assert t[a + 10..] == r2;
    LineRunOfValue(r2, value, rest);
    assert r2[..|value|] == value;
  }

  lemma {:induction false} MatchAtIndentedLine(out: string, p: nat, word: string, value: string, rest: string)
    requires p <= |out| && |word| >= 1 && !IsSpace(word[0])
    requires value != [] && '\n' !in value
    requires out[p..] == "  " + (word + (" version: " + (value + ("\n" + rest))))
    ensures MatchAt(out, p, word) == Some(value)
  {
    var t := word + (" version: " + (value + ("\n" + rest)));
    IndentRun(out[p..], t);
    assert out[p..][2..] == t;
    TaggedLine(word, value, rest);
  }

  lemma {:induction false} NoMatchAtOtherWord(out: string, p: nat, word: string, other: string, rest: string)
    requires p <= |out| && |word| == |other| >= 1 && !IsSpace(other[0]) && word != other
    requires out[p..] == "  " + (other + rest)
    ensures MatchAt(out, p, word).None?
  {
    IndentRun(out[p..], other + rest);
    assert out[p..][2..] == other + rest;
    assert (other + rest)[..|word|] == other;
  }

  lemma NoLineStartWithin(out: string, lo: nat, hi: nat)
    requires lo <= hi <= |out| && '\n' !in out[lo..hi]
    ensures forall k :: lo < k <= hi ==> !LineStart(out, k)
  {
    forall k | lo < k <= hi ensures !LineStart(out, k) {
      assert out[k - 1] == out[lo..hi][k - 1 - lo];
    }
  }

  lemma NoLineFeedInIndented(word: string, n: nat)
    requires '\n' !in word
    ensures '\n' !in Indented(word, Decimal(n))
  {
    var d := Decimal(n);
    assert '\n' !in d by {
      forall k | 0 <= k < |d| ensures d[k] != '\n' { assert IsDigit(d[k]); }
    }
    assert '\n' !in " version: ";
  }

  /** In a disassembly only the starts of the minor and the major line can start a match. */
  lemma {:induction false} DisassemblyLineStarts(header: string, v: ClassVersion)
    requires HeaderLine(header)
    ensures var out, h := Disassembly(header, v), |header|;
            && !IsSpace(out[0])
            && (forall k :: 0 < k <= h ==> !LineStart(out, k))
            && (forall k :: h + 1 < k <= h + 1 + |MinorLine(v)| ==> !LineStart(out, k))
  {
    var out, h := Disassembly(header, v), |header|;
    assert out[0..h] == header;
    NoLineStartWithin(out, 0, h);
    var r := MinorLine(v) + ("\n" + (MajorLine(v) + "\n"));
    assert out[h..] == "\n" + r;
    assert out[h + 1..] == r;
    assert out[h + 1..h + 1 + |MinorLine(v)|] == r[..|MinorLine(v)|] == MinorLine(v);
    NoLineFeedInIndented("minor", v.minor);
    NoLineStartWithin(out, h + 1, h + 1 + |MinorLine(v)|);
  }

  /** The leftmost match is at `p` when it matches there and nowhere before. */
  lemma FirstMatchAt(out: string, word: string, p: nat)
    requires p <= |out| && Matches(out, p, word)
    requires forall k :: 0 <= k < p ==> !Matches(out, k, word)
    ensures FirstMatch(out, word, 0) == Some(p)
  {
  }

  /** What follows the first line feed of `header + "\n" + r`. */
  lemma AfterFirstLine(header: string, r: string)
    ensures |header| + 1 <= |header + ("\n" + r)|
    ensures (header + ("\n" + r))[|header| + 1..] == r
  {
    assert (header + ("\n" + r))[|header|..] == "\n" + r;
  }

  /** What follows the line feed that ends the line `m` after `header`. */
  lemma AfterSecondLine(header: string, m: string, rest: string)
    ensures var out := header + ("\n" + (m + ("\n" + rest)));
            && |header| + 2 + |m| <= |out|
            && out[|header| + 1 + |m|] == '\n'
            && out[|header| + 2 + |m|..] == rest
  {
    var r := m + ("\n" + rest);
    AfterFirstLine(header, r);
    assert r[|m|..] == "\n" + rest;
  }

  /** The disassembly from the minor line on. */
  lemma DisassemblyMinorSuffix(header: string, v: ClassVersion)
    requires HeaderLine(header)
    ensures |header| + 1 <= |Disassembly(header, v)|
    ensures Disassembly(header, v)[|header| + 1..]
         == "  " + ("minor" + (" version: " + (Decimal(v.minor) + ("\n" + (MajorLine(v) + "\n")))))
  {
    AfterFirstLine(header, MinorLine(v) + ("\n" + (MajorLine(v) + "\n")));
    IndentedThen("minor", Decimal(v.minor), "\n" + (MajorLine(v) + "\n"));
  }

  /** The disassembly from the major line on. */
  lemma DisassemblyMajorSuffix(header: string, v: ClassVersion)
    requires HeaderLine(header)
    ensures |header| + 2 + |MinorLine(v)| <= |Disassembly(header, v)|
    ensures Disassembly(header, v)[|header| + 1 + |MinorLine(v)|] == '\n'
    ensures Disassembly(header, v)[|header| + 2 + |MinorLine(v)|..]
         == "  " + ("major" + (" version: " + (Decimal(v.major) + ("\n" + []))))
  {
    AfterSecondLine(header, MinorLine(v), MajorLine(v) + "\n");
    IndentedThen("major", Decimal(v.major), "\n");
    assert "\n" + [] == "\n";
  }

  /** Parsing what `javap` prints for a class gives back its minor version. */
  lemma {:induction false} MinorLineOfDisassembly(header: string, v: ClassVersion)
    requires HeaderLine(header)
    ensures VersionLine(Disassembly(header, v), "minor") == Some(Decimal(v.minor))
  {
    var out, h := Disassembly(header, v), |header|;
    DisassemblyLineStarts(header, v);
    DisassemblyMinorSuffix(header, v);
    MatchAtIndentedLine(out, h + 1, "minor", Decimal(v.minor), MajorLine(v) + "\n");
    assert !Matches(out, 0, "minor");
    FirstMatchAt(out, "minor", h + 1);
  }

  /** A `major` line found after a `minor` line, with no other line starting in between. */
  lemma {:induction false} MajorLineAfterMinorLine(out: string, h: nat, p: nat, rest: string, major: string)
    requires h + 1 < p <= |out| && !IsSpace(out[0]) && out[p - 1] == '\n'
    requires forall k :: 0 < k <= h ==> !LineStart(out, k)
    requires forall k :: h + 1 < k < p ==> !LineStart(out, k)
    requires out[h + 1..] == "  " + ("minor" + rest)
    requires out[p..] == "  " + ("major" + (" version: " + (major + ("\n" + []))))
    requires major != [] && '\n' !in major
    ensures VersionLine(out, "major") == Some(major)
  {
    MatchAtIndentedLine(out, p, "major", major, []);
    NoMatchAtOtherWord(out, h + 1, "major", "minor", rest);
    assert MatchAt(out, 0, "major").None? by {
      assert out[0..][0] == out[0];
    }
    forall k | 0 <= k < p ensures !Matches(out, k, "major") {
      if 0 < k && k != h + 1 {
        assert !LineStart(out, k);
      }
    }
    FirstMatchAt(out, "major", p);
  }

  /** Parsing what `javap` prints for a class gives back its major version. */
  lemma {:induction false} MajorLineOfDisassembly(header: string, v: ClassVersion)
    requires HeaderLine(header)
    ensures VersionLine(Disassembly(header, v), "major") == Some(Decimal(v.major))
  {
    var h := |header|;
    DisassemblyLineStarts(header, v);
    DisassemblyMinorSuffix(header, v);
    DisassemblyMajorSuffix(header, v);
    MajorLineAfterMinorLine(Disassembly(header, v), h, h + 2 + |MinorLine(v)|,
      " version: " + (Decimal(v.minor) + ("\n" + (MajorLine(v) + "\n"))), Decimal(v.major));
  }

  /** `compiled_with?` on a class's disassembly gives the reference label of its version. */
  lemma {:induction false} CompiledWithDisassembly(header: string, v: ClassVersion)
    requires HeaderLine(header)
    ensures CompiledWith(JavapRun(true, Disassembly(header, v))) == Ok(ReferenceLabel(v))
  {
    MinorLineOfDisassembly(header, v);
    MajorLineOfDisassembly(header, v);
    MapperMatchesReference(v);
  }

  /** `jvm_version_changed?`: the desired `jdk_version` differs from the compiled label
      (an unlabelled version differs from every desired label). */
  function VersionChanged(desired: Option<string>, run: JavapRun): (r: Result<bool, FatalError>)
    ensures r.Err? <==> CompiledWith(run).Err?
    ensures r.Err? ==> r.error == DisassembleFailed
    ensures CompiledWith(run) == Ok(None) && desired.Some? ==> r == Ok(true)
    ensures CompiledWith(run) == Ok(desired) ==> r == Ok(false)
  {
    match CompiledWith(run)
    case Err(e) => Err(e)
    case Ok(compiled) => Ok(desired != compiled)
  }

  /** On a class's disassembly the probe answers whether the class's label differs from the
      desired one. */
  lemma {:induction false} VersionChangedOfDisassembly(header: string, v: ClassVersion, desired: Option<string>)
    requires HeaderLine(header)
    ensures VersionChanged(desired, JavapRun(true, Disassembly(header, v))) == Ok(ReferenceLabel(v) != desired)
  {
    CompiledWithDisassembly(header, v);
  }

  /** The rebuild test of `load_decryptor`: `!File.exist?(class) || jvm_version_changed?(...)`;
      `||` short-circuits, so `javap` is only consulted when the class exists. */
  function RecompileNeeded(classExists: bool, desired: Option<string>, run: JavapRun): (r: Result<bool, FatalError>)
    ensures !classExists ==> r == Ok(true)
    ensures r.Err? ==> classExists && r.error == DisassembleFailed
  {
    if !classExists then Ok(true) else VersionChanged(desired, run)
  }

  /** The class is rebuilt exactly when it is missing or its version's label is not the
      desired `jdk_version`. */
  lemma {:induction false} RecompileRule(header: string, cls: Option<ClassVersion>, desired: Option<string>)
    requires HeaderLine(header)
    ensures cls.None? ==> RecompileNeeded(false, desired, JavapRun(true, [])) == Ok(true)
    ensures cls.Some? ==> RecompileNeeded(true, desired, JavapRun(true, Disassembly(header, cls.value)))
                          == Ok(ReferenceLabel(cls.value) != desired)
  {
    if cls.Some? {
      VersionChangedOfDisassembly(header, cls.value, desired);
    }
  }

  /** A class compiled for a release the table does not know (Java 9 and later) is
      rebuilt on every run while a `jdk_version` is set. */
  lemma {:induction false} UnmappedVersionAlwaysRecompiles(header: string, v: ClassVersion, desired: Option<string>)
    requires HeaderLine(header) && desired.Some? && v.major > 52
    ensures RecompileNeeded(true, desired, JavapRun(true, Disassembly(header, v))) == Ok(true)
  {
    VersionChangedOfDisassembly(header, v, desired);
    assert ReferenceLabel(v) == None;
  }
}
